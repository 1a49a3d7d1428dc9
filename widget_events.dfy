/** Event classification (the constructor's data-changed scan and ParseEvents), the
    split of a widget's events in the rendered payload, and event dispatch. */
module WidgetEvents {
  import opened Wrappers
  import opened Values
  import opened Descriptors

  predicate IsDataChangedHandler(e: EventDecl) {
    e.attr.Some? && e.attr.value.dataChangedHandler
  }

  /** The name of the first event member whose `[WidgetEvent]` is a DataChangedHandler. */
  function FirstDataChanged(events: seq<EventDecl>): (r: Option<string>)
    ensures r.None? <==> forall j :: 0 <= j < |events| ==> !IsDataChangedHandler(events[j])
  {
    if |events| == 0 then None
    else if IsDataChangedHandler(events[0]) then Some(events[0].attr.value.name)
    else FirstDataChanged(events[1..])
  }

  /** `IAutoPostBackWidget.AutoPostBack`, where a widget that is not one counts as false. */
  function WidgetAutoPostBack(autoPostBack: Option<bool>): bool {
    autoPostBack == Some(true)
  }

  /** Events declared on the class: both flags false. */
  function ClassEvents(names: seq<string>): (r: seq<WidgetEvent>)
    ensures |r| == |names|
    ensures forall i :: 0 <= i < |r| ==> r[i].name == names[i] && !r[i].causesPostBack && !r[i].dataChangedEvent
  {
    if |names| == 0 then [] else [WidgetEvent(names[0], false, false)] + ClassEvents(names[1..])
  }

  /** The record ParseEvents makes for one event member carrying `[WidgetEvent]`: it
      posts back only when both the attribute and the widget ask for it, and it is
      the data-changed event only when it bears the data-changed handler's name. */
  function Classify(a: EventAttr, autoPostBack: bool, dataChanged: Option<string>): (r: WidgetEvent)
    ensures r.name == a.name
    ensures r.causesPostBack <==> a.autoPostBack && autoPostBack
    ensures r.dataChangedEvent <==> dataChanged == Some(a.name)
  {
    WidgetEvent(a.name, a.autoPostBack && autoPostBack, dataChanged.Some? && dataChanged.value == a.name)
  }

  /** Event members in declaration order, those without `[WidgetEvent]` skipped. */
  function MemberEvents(events: seq<EventDecl>, autoPostBack: bool, dataChanged: Option<string>): (r: seq<WidgetEvent>)
    ensures |r| <= |events|
    ensures !autoPostBack ==> forall i :: 0 <= i < |r| ==> !r[i].causesPostBack
  {
    if |events| == 0 then []
    else
      var e := events[|events| - 1];
      MemberEvents(events[..|events| - 1], autoPostBack, dataChanged)
        + (if e.attr.Some? then [Classify(e.attr.value, autoPostBack, dataChanged)] else [])
  }

  /** All events of a widget type as ParseEvents appends them: class-level first. */
  function EventsOf(t: WidgetType, autoPostBack: Option<bool>): (r: seq<WidgetEvent>)
    ensures |t.classEvents| <= |r| <= |t.classEvents| + |t.events|
    ensures !WidgetAutoPostBack(autoPostBack) ==> forall i :: 0 <= i < |r| ==> !r[i].causesPostBack
  {
    ClassEvents(t.classEvents) + MemberEvents(t.events, WidgetAutoPostBack(autoPostBack), FirstDataChanged(t.events))
  }

  /** The `events` list of the payload: names of events that do not post back. */
  function PlainEventNames(events: seq<WidgetEvent>): seq<string> {
    if |events| == 0 then []
    else
      var e := events[|events| - 1];
      PlainEventNames(events[..|events| - 1]) + (if !e.causesPostBack then [e.name] else [])
  }

  /** The `postBacks` list of the payload: the events that post back, with their
      data-changed flag. */
  function PostBackRefs(events: seq<WidgetEvent>): seq<PostBackRef> {
    if |events| == 0 then []
    else
      var e := events[|events| - 1];
      PostBackRefs(events[..|events| - 1]) + (if e.causesPostBack then [PostBackRef(e.name, e.dataChangedEvent)] else [])
  }

  function RefNames(refs: seq<PostBackRef>): (r: seq<string>)
    ensures |r| == |refs| && forall i :: 0 <= i < |refs| ==> r[i] == refs[i].name
  {
    if |refs| == 0 then [] else [refs[0].name] + RefNames(refs[1..])
  }

  function EventNames(events: seq<WidgetEvent>): (r: seq<string>)
    ensures |r| == |events| && forall i :: 0 <= i < |events| ==> r[i] == events[i].name
  {
    if |events| == 0 then [] else [events[0].name] + EventNames(events[1..])
  }

  /** One element of the payload built from a page entry: every event of the entry
      lands in exactly one of the two lists. */
  function RenderItem(h: WidgetHash): (r: RenderedItem)
    ensures |r.events| + |r.postBacks| == |h.events|
  {
    PartitionLengths(h.events);
    RenderedItem(h.widgetName, h.clientId, h.uniqueId, h.options, h.encodedOptions,
      PlainEventNames(h.events), PostBackRefs(h.events))
  }

  /** One subscriber invocation: the delegate field it came from and the handler. */
  datatype Invocation = Invocation(member: string, handler: nat)

  function Invocations(member: string, handlers: seq<nat>): (r: seq<Invocation>)
    ensures |r| == |handlers| && forall i :: 0 <= i < |handlers| ==> r[i] == Invocation(member, handlers[i])
  {
    seq(|handlers|, i requires 0 <= i < |handlers| => Invocation(member, handlers[i]))
  }

  predicate Matches(e: EventDecl, eventName: string) {
    e.attr.Some? && e.attr.value.name == eventName
  }

  /** The dispatch loop of RaisePostBackEvent over the event members: each member
      whose `[WidgetEvent]` name is `eventName` has the subscribers of its delegate
      field invoked in order; an empty field (a null delegate) invokes nothing, and a
      member without a backing field raises NullReferenceException. */
  function Dispatch(events: seq<EventDecl>, fields: map<string, seq<nat>>, eventName: string): (r: Result<seq<Invocation>, Fault>)
    ensures r.Failure? ==> r.error == NullReferenceFault
    ensures r.Success? ==> forall i :: 0 <= i < |r.value| ==> r.value[i].member in fields
  {
    if |events| == 0 then Success([])
    else
      var e := events[|events| - 1];
      match Dispatch(events[..|events| - 1], fields, eventName)
      case Failure(f) => Failure(f)
      case Success(done) =>
        if !Matches(e, eventName) then Success(done)
        else if e.member !in fields then Failure(NullReferenceFault)
        else Success(done + Invocations(e.member, fields[e.member]))
  }

  // ---------------------------------------------------------------------------
  // Properties
  // ---------------------------------------------------------------------------

  /** FirstDataChanged names the first DataChangedHandler member, none before it. */
  lemma {:induction false} FirstDataChangedIsFirst(events: seq<EventDecl>)
    ensures FirstDataChanged(events).Some? ==>
      exists j :: 0 <= j < |events| && IsDataChangedHandler(events[j])
        && events[j].attr.value.name == FirstDataChanged(events).value
        && forall k :: 0 <= k < j ==> !IsDataChangedHandler(events[k])
  {
    if |events| > 0 && !IsDataChangedHandler(events[0]) {
      FirstDataChangedIsFirst(events[1..]);
      if FirstDataChanged(events).Some? {
        var j :| 0 <= j < |events[1..]| && IsDataChangedHandler(events[1..][j])
          && events[1..][j].attr.value.name == FirstDataChanged(events[1..]).value
          && forall k :: 0 <= k < j ==> !IsDataChangedHandler(events[1..][k]);
        assert events[j + 1] == events[1..][j];
        forall k | 0 <= k < j + 1 ensures !IsDataChangedHandler(events[k]) {
          if k > 0 {
            assert events[k] == events[1..][k - 1];
          }
        }
      }
    }
  }

  /** Member event `e` comes from the attributed member `j`, classified. */
  predicate ClassifiedFrom(events: seq<EventDecl>, autoPostBack: bool, dataChanged: Option<string>, j: int, e: WidgetEvent) {
    && 0 <= j < |events|
    && events[j].attr.Some?
    && e == Classify(events[j].attr.value, autoPostBack, dataChanged)
  }

  /** Every member event is an attributed member, classified: it posts back exactly
      when both its attribute and the widget ask so, and it is the data-changed event
      exactly when its name is the first DataChangedHandler's name; every attributed
      member is listed. */
  lemma {:induction false} MemberEventsClassified(events: seq<EventDecl>, autoPostBack: bool, dataChanged: Option<string>)
    ensures forall e :: e in MemberEvents(events, autoPostBack, dataChanged) ==>
      exists j :: ClassifiedFrom(events, autoPostBack, dataChanged, j, e)
    ensures forall j :: 0 <= j < |events| && events[j].attr.Some? ==>
      Classify(events[j].attr.value, autoPostBack, dataChanged) in MemberEvents(events, autoPostBack, dataChanged)
  {
    if |events| > 0 {
      var n := |events| - 1;
      var prefix := events[..n];
      MemberEventsClassified(prefix, autoPostBack, dataChanged);
      forall e | e in MemberEvents(events, autoPostBack, dataChanged)
        ensures exists j :: ClassifiedFrom(events, autoPostBack, dataChanged, j, e)
      {
        if e in MemberEvents(prefix, autoPostBack, dataChanged) {
          var j :| ClassifiedFrom(prefix, autoPostBack, dataChanged, j, e);
          assert events[j] == prefix[j];
          assert ClassifiedFrom(events, autoPostBack, dataChanged, j, e);
        } else {
          assert ClassifiedFrom(events, autoPostBack, dataChanged, n, e);
        }
      }
      forall j | 0 <= j < |events| && events[j].attr.Some?
        ensures Classify(events[j].attr.value, autoPostBack, dataChanged) in MemberEvents(events, autoPostBack, dataChanged)
      {
        if j < n {
          assert events[j] == prefix[j];
        }
      }
    }
  }

  /** Event `e` bears the name of an attributed member, and posts back exactly when
      that member's attribute and the widget ask so. */
  predicate DeclaredAs(events: seq<EventDecl>, autoPostBack: Option<bool>, e: WidgetEvent) {
    exists j :: 0 <= j < |events| && events[j].attr.Some? && e.name == events[j].attr.value.name
      && (e.causesPostBack <==> events[j].attr.value.autoPostBack && autoPostBack == Some(true))
  }

  /** The flags of the events of a widget: class-level events come first and have
      neither flag; a member event posts back exactly when its attribute asks so and
      the widget is an auto-postback widget set to true, and it is the data-changed
      event exactly when its name is the first DataChangedHandler's name. */
  lemma EventFlags(t: WidgetType, autoPostBack: Option<bool>)
    ensures var evs := EventsOf(t, autoPostBack);
      forall i :: 0 <= i < |evs| ==>
        if i < |t.classEvents| then
          evs[i].name == t.classEvents[i] && !evs[i].causesPostBack && !evs[i].dataChangedEvent
        else
          && (evs[i].causesPostBack ==> autoPostBack == Some(true))
          && (evs[i].dataChangedEvent <==> FirstDataChanged(t.events) == Some(evs[i].name))
          && DeclaredAs(t.events, autoPostBack, evs[i])
  {
    var evs := EventsOf(t, autoPostBack);
    var classEvs := ClassEvents(t.classEvents);
    var ap := WidgetAutoPostBack(autoPostBack);
    var dc := FirstDataChanged(t.events);
    MemberEventsClassified(t.events, ap, dc);
    forall i | 0 <= i < |evs|
      ensures if i < |t.classEvents| then
          evs[i].name == t.classEvents[i] && !evs[i].causesPostBack && !evs[i].dataChangedEvent
        else
          && (evs[i].causesPostBack ==> autoPostBack == Some(true))
          && (evs[i].dataChangedEvent <==> dc == Some(evs[i].name))
          && DeclaredAs(t.events, autoPostBack, evs[i])
    {
      if i < |classEvs| {
        assert evs[i] == classEvs[i];
      } else {
        var e := evs[i];
        assert e in MemberEvents(t.events, ap, dc);
        var j :| ClassifiedFrom(t.events, ap, dc, j, e);
        assert DeclaredAs(t.events, autoPostBack, e) by {
          assert t.events[j].attr.Some? && e.name == t.events[j].attr.value.name
            && (e.causesPostBack <==> t.events[j].attr.value.autoPostBack && autoPostBack == Some(true));
        }
      }
    }
  }

  lemma RefNamesAppend(a: seq<PostBackRef>, b: seq<PostBackRef>)
    ensures RefNames(a + b) == RefNames(a) + RefNames(b)
  {
  }

  lemma PartitionStep(events: seq<WidgetEvent>)
    requires |events| > 0
    ensures var prefix := events[..|events| - 1];
      var e := events[|events| - 1];
      && PlainEventNames(events) == PlainEventNames(prefix) + (if !e.causesPostBack then [e.name] else [])
      && RefNames(PostBackRefs(events)) == RefNames(PostBackRefs(prefix)) + (if e.causesPostBack then [e.name] else [])
      && EventNames(events) == EventNames(prefix) + [e.name]
  {
    var n := |events| - 1;
    var e := events[n];
    assert PlainEventNames(events) == PlainEventNames(events[..n]) + (if !e.causesPostBack then [e.name] else []);
    RefNamesStep(events);
    EventNamesStep(events);
  }

  lemma RefNamesStep(events: seq<WidgetEvent>)
    requires |events| > 0
    ensures var e := events[|events| - 1];
      RefNames(PostBackRefs(events)) == RefNames(PostBackRefs(events[..|events| - 1])) + (if e.causesPostBack then [e.name] else [])
  {
    var n := |events| - 1;
    var e := events[n];
    var refs := PostBackRefs(events[..n]);
    var refsAdded := if e.causesPostBack then [PostBackRef(e.name, e.dataChangedEvent)] else [];
    assert PostBackRefs(events) == refs + refsAdded;
    RefNamesAppend(refs, refsAdded);
    assert RefNames(refsAdded) == (if e.causesPostBack then [e.name] else []);
  }

  lemma EventNamesStep(events: seq<WidgetEvent>)
    requires |events| > 0
    ensures EventNames(events) == EventNames(events[..|events| - 1]) + [events[|events| - 1].name]
  {
    var n := |events| - 1;
    var names := EventNames(events[..n]) + [events[n].name];
    assert |EventNames(events)| == |names|;
    assert forall i :: 0 <= i < |names| ==> EventNames(events)[i] == names[i];
  }

  lemma MultisetSplit(a: seq<string>, b: seq<string>, c: seq<string>, x: seq<string>, y: seq<string>, z: string)
    requires multiset(a) + multiset(b) == multiset(c)
    requires multiset(x) + multiset(y) == multiset{z}
    ensures multiset(a + x) + multiset(b + y) == multiset(c + [z])
  {
  }

  /** Every event lands in exactly one of the two payload lists. */
  lemma {:induction false} PartitionCounts(events: seq<WidgetEvent>)
    ensures multiset(PlainEventNames(events)) + multiset(RefNames(PostBackRefs(events))) == multiset(EventNames(events))
  {
    if |events| > 0 {
      var n := |events| - 1;
      var prefix := events[..n];
      PartitionCounts(prefix);
      PartitionStep(events);
      var e := events[n];
      var x: seq<string> := if !e.causesPostBack then [e.name] else [];
      var y: seq<string> := if e.causesPostBack then [e.name] else [];
      MultisetSplit(PlainEventNames(prefix), RefNames(PostBackRefs(prefix)), EventNames(prefix), x, y, e.name);
    }
  }

  /** The two payload lists together are as long as the event list. */
  lemma PartitionLengths(events: seq<WidgetEvent>)
    ensures |PlainEventNames(events)| + |PostBackRefs(events)| == |events|
  {
    PartitionCounts(events);
    assert |multiset(PlainEventNames(events))| + |multiset(RefNames(PostBackRefs(events)))| == |multiset(EventNames(events))|;
  }

  /** The payload's `events` and `postBacks` lists partition the events by their
      CausesPostBack flag: every event lands in exactly one list, the plain list holds
      exactly the names of events that do not post back, the postback list exactly
      the events that do, with their data-changed flag, and neither list reorders. */
  lemma PartitionMembers(events: seq<WidgetEvent>)
    ensures forall n :: n in PlainEventNames(events) <==> exists i :: 0 <= i < |events| && !events[i].causesPostBack && events[i].name == n
    ensures forall r :: r in PostBackRefs(events) <==> exists i :: 0 <= i < |events| && events[i].causesPostBack && r == PostBackRef(events[i].name, events[i].dataChangedEvent)
    ensures forall k :: 0 <= k <= |events| ==> PlainEventNames(events[..k]) <= PlainEventNames(events) && PostBackRefs(events[..k]) <= PostBackRefs(events)
  {
    PlainMembers(events);
    RefMembers(events);
    PartitionOrder(events);
  }

  lemma {:induction false} PlainMembers(events: seq<WidgetEvent>)
    ensures forall n :: n in PlainEventNames(events) <==> exists i :: 0 <= i < |events| && !events[i].causesPostBack && events[i].name == n
  {
    if |events| > 0 {
      var n := |events| - 1;
      var prefix := events[..n];
      PlainMembers(prefix);
      forall x | exists i :: 0 <= i < |events| && !events[i].causesPostBack && events[i].name == x
        ensures x in PlainEventNames(events)
      {
        var i :| 0 <= i < |events| && !events[i].causesPostBack && events[i].name == x;
        if i < n {
          assert prefix[i] == events[i];
        }
      }
      forall x | x in PlainEventNames(events)
        ensures exists i :: 0 <= i < |events| && !events[i].causesPostBack && events[i].name == x
      {
        if x in PlainEventNames(prefix) {
          var i :| 0 <= i < |prefix| && !prefix[i].causesPostBack && prefix[i].name == x;
          assert prefix[i] == events[i];
        }
      }
    }
  }

  lemma {:induction false} RefMembers(events: seq<WidgetEvent>)
    ensures forall r :: r in PostBackRefs(events) <==> exists i :: 0 <= i < |events| && events[i].causesPostBack && r == PostBackRef(events[i].name, events[i].dataChangedEvent)
  {
    if |events| > 0 {
      var n := |events| - 1;
      var prefix := events[..n];
      RefMembers(prefix);
      forall r | exists i :: 0 <= i < |events| && events[i].causesPostBack && r == PostBackRef(events[i].name, events[i].dataChangedEvent)
        ensures r in PostBackRefs(events)
      {
        var i :| 0 <= i < |events| && events[i].causesPostBack && r == PostBackRef(events[i].name, events[i].dataChangedEvent);
        if i < n {
          assert prefix[i] == events[i];
        }
      }
      forall r | r in PostBackRefs(events)
        ensures exists i :: 0 <= i < |events| && events[i].causesPostBack && r == PostBackRef(events[i].name, events[i].dataChangedEvent)
      {
        if r in PostBackRefs(prefix) {
          var i :| 0 <= i < |prefix| && prefix[i].causesPostBack && r == PostBackRef(prefix[i].name, prefix[i].dataChangedEvent);
          assert prefix[i] == events[i];
        }
      }
    }
  }

  lemma {:induction false} PartitionOrder(events: seq<WidgetEvent>)
    ensures forall k :: 0 <= k <= |events| ==> PlainEventNames(events[..k]) <= PlainEventNames(events) && PostBackRefs(events[..k]) <= PostBackRefs(events)
  {
    if |events| > 0 {
      var n := |events| - 1;
      var prefix := events[..n];
      PartitionOrder(prefix);
      forall k | 0 <= k <= |events|
        ensures PlainEventNames(events[..k]) <= PlainEventNames(events) && PostBackRefs(events[..k]) <= PostBackRefs(events)
      {
        if k <= n {
          assert events[..k] == prefix[..k];
        } else {
          assert events[..k] == events;
        }
      }
    }
  }

  /** An event name that no `[WidgetEvent]` member declares invokes nothing and
      raises nothing. */
  lemma {:induction false} UnmatchedNameInvokesNothing(events: seq<EventDecl>, fields: map<string, seq<nat>>, eventName: string)
    requires forall j :: 0 <= j < |events| ==> !Matches(events[j], eventName)
    ensures Dispatch(events, fields, eventName) == Success([])
  {
    if |events| > 0 {
      UnmatchedNameInvokesNothing(events[..|events| - 1], fields, eventName);
    }
  }

  /** Invocation `x` is of a subscriber of member `j`, declared under `eventName`. */
  predicate InvokedBy(events: seq<EventDecl>, fields: map<string, seq<nat>>, eventName: string, j: int, x: Invocation) {
    && 0 <= j < |events|
    && Matches(events[j], eventName)
    && events[j].member == x.member
    && events[j].member in fields
    && x.handler in fields[events[j].member]
  }

  predicate MissingField(events: seq<EventDecl>, fields: map<string, seq<nat>>, eventName: string, j: int) {
    0 <= j < |events| && Matches(events[j], eventName) && events[j].member !in fields
  }

  /** Dispatch invokes only subscribers of members declared under `eventName`, and
      every subscriber of every such member; it fails exactly when such a member has
      no backing field. */
  lemma {:induction false} DispatchInvokesMatching(events: seq<EventDecl>, fields: map<string, seq<nat>>, eventName: string)
    ensures Dispatch(events, fields, eventName).Failure? <==> exists j :: MissingField(events, fields, eventName, j)
    ensures Dispatch(events, fields, eventName).Success? ==>
      forall x :: x in Dispatch(events, fields, eventName).value <==> exists j :: InvokedBy(events, fields, eventName, j, x)
  {
    if |events| > 0 {
      var n := |events| - 1;
      var prefix := events[..n];
      var e := events[n];
      DispatchInvokesMatching(prefix, fields, eventName);
      forall j | MissingField(prefix, fields, eventName, j) ensures MissingField(events, fields, eventName, j) {
        assert prefix[j] == events[j];
      }
      forall j | MissingField(events, fields, eventName, j) && j < n ensures MissingField(prefix, fields, eventName, j) {
        assert prefix[j] == events[j];
      }
      forall j, x | InvokedBy(prefix, fields, eventName, j, x) ensures InvokedBy(events, fields, eventName, j, x) {
        assert prefix[j] == events[j];
      }
      forall j, x | InvokedBy(events, fields, eventName, j, x) && j < n ensures InvokedBy(prefix, fields, eventName, j, x) {
        assert prefix[j] == events[j];
      }
      var r := Dispatch(events, fields, eventName);
      if r.Failure? {
        if Dispatch(prefix, fields, eventName).Failure? {
          var j :| MissingField(prefix, fields, eventName, j);
          assert MissingField(events, fields, eventName, j);
        } else {
          assert MissingField(events, fields, eventName, n);
        }
      }
      if r.Success? {
        forall j | 0 <= j < |events| ensures !MissingField(events, fields, eventName, j) {
          if j < n {
            assert prefix[j] == events[j];
          }
        }
      }
      if r.Success? && Matches(e, eventName) {
        var done := Dispatch(prefix, fields, eventName).value;
        var added := Invocations(e.member, fields[e.member]);
        assert r.value == done + added;
        forall x | x in r.value ensures exists j :: InvokedBy(events, fields, eventName, j, x) {
          if x !in done {
            var k :| 0 <= k < |added| && added[k] == x;
            assert InvokedBy(events, fields, eventName, n, x);
          }
        }
        forall x | InvokedBy(events, fields, eventName, n, x) ensures x in r.value {
          var k :| 0 <= k < |fields[e.member]| && fields[e.member][k] == x.handler;
          assert added[k] == x;
        }
      }
    }
  }

  /** A missing delegate field ends the dispatch: later members are not looked at. */
  lemma {:induction false} DispatchFaultStops(events: seq<EventDecl>, fields: map<string, seq<nat>>, eventName: string, k: nat)
    requires k <= |events| && Dispatch(events[..k], fields, eventName).Failure?
    ensures Dispatch(events, fields, eventName) == Dispatch(events[..k], fields, eventName)
  {
    if k < |events| {
      var n := |events| - 1;
      assert events[..n][..k] == events[..k];
      DispatchFaultStops(events[..n], fields, eventName, k);
    } else {
      assert events[..k] == events;
    }
  }
}
