/** The WidgetState object and the objects it updates in place: the widget (its
    property values, delegate fields and saved options), the page (its widget entries
    and its PreRenderComplete subscription), the target control's attributes and the
    per-type option cache. */
module Webforms {
  import opened Wrappers
  import opened Values
  import opened Descriptors
  import opened OptionDiff
  import opened WidgetEvents
  import opened Reconcile
  import Int32ArrayConverter

  // ---------------------------------------------------------------------------
  // The widget-name attribute of the target control
  // ---------------------------------------------------------------------------

  const WidgetAttribute: string := "data-ui-widget"

  /** `String.Contains`: `sub` occurs in `s` at some position (ordinal). */
  predicate Contains(s: string, sub: string)
    decreases |s|
  {
    |sub| <= |s| && (s[..|sub|] == sub || Contains(s[1..], sub))
  }

  lemma {:induction false} ContainsSuffix(pre: string, sub: string)
    ensures Contains(pre + sub, sub)
  {
    if |pre| > 0 {
      ContainsSuffix(pre[1..], sub);
      assert (pre + sub)[1..] == pre[1..] + sub;
    } else {
      assert (pre + sub)[..|sub|] == sub;
    }
  }

  /** The attribute value the method writes, as written: the name is appended after
      a comma unless it already occurs in the value as a substring. */
  function TaggedAsWritten(attr: string, name: string): string {
    if Contains(attr, name) then attr
    else if attr == "" then name
    else attr + "," + name
  }

  /** As written, the name ends up in the attribute value, and a second call changes
      nothing. */
  lemma TaggedAsWrittenContainsName(attr: string, name: string)
    ensures Contains(TaggedAsWritten(attr, name), name)
    ensures TaggedAsWritten(TaggedAsWritten(attr, name), name) == TaggedAsWritten(attr, name)
  {
    if !Contains(attr, name) {
      if attr == "" {
        ContainsSuffix("", name);
        assert "" + name == name;
      } else {
        ContainsSuffix(attr + ",", name);
      }
    }
  }

  /** The substring test mistakes a widget name that is part of another one for a
      recorded name: "button" is never recorded on a target that already lists
      "buttonset". */
  lemma SubstringNameNotRecorded()
    ensures TaggedAsWritten("buttonset", "button") == "buttonset"
    ensures "button" !in Int32ArrayConverter.Split(TaggedAsWritten("buttonset", "button"))
  {
    assert "buttonset"[..|"button"|] == "button";
    Int32ArrayConverter.SplitNoComma("buttonset");
  }

  lemma {:induction false} SplitAppendPiece(attr: string, name: string)
    requires ',' !in name
    ensures Int32ArrayConverter.Split(attr + "," + name) == Int32ArrayConverter.Split(attr) + [name]
  {
    var s := attr + "," + name;
    if |attr| == 0 {
      Int32ArrayConverter.SplitPiece("", name);
      Int32ArrayConverter.SplitNoComma(name);
      assert s == "" + "," + name;
    } else {
      SplitAppendPiece(attr[1..], name);
      assert s[1..] == attr[1..] + "," + name;
      assert s[0] == attr[0];
    }
  }

  /** The attribute value with the name recorded as an element of the comma list. */
  function Tagged(attr: string, name: string): string {
    if name in Int32ArrayConverter.Split(attr) then attr
    else if attr == "" then name
    else attr + "," + name
  }

  /** The name becomes an element of the comma list, the names already listed stay
      in front of it in order, and a second call changes nothing. */
  lemma TaggedRecordsName(attr: string, name: string)
    requires ',' !in name
    ensures name in Int32ArrayConverter.Split(Tagged(attr, name))
    ensures attr != "" ==>
      (Int32ArrayConverter.Split(Tagged(attr, name))
         == Int32ArrayConverter.Split(attr) + (if name in Int32ArrayConverter.Split(attr) then [] else [name]))
    ensures Tagged(Tagged(attr, name), name) == Tagged(attr, name)
  {
    if name !in Int32ArrayConverter.Split(attr) {
      if attr == "" {
        Int32ArrayConverter.SplitNoComma(name);
      } else {
        SplitAppendPiece(attr, name);
      }
    }
  }

  // ---------------------------------------------------------------------------
  // The objects
  // ---------------------------------------------------------------------------

  /** The process-wide cache of the options of each widget type. */
  class OptionCatalog {
    var cache: map<WidgetType, seq<OptionDescriptor>>

    /** Every cached entry is what reflection yields for its type. */
    ghost predicate Valid()
      reads this
    {
      forall t :: t in cache ==> cache[t] == OptionsOf(t)
    }

    constructor ()
      ensures Valid() && cache == map[]
    {
      cache := map[];
    }

    /** GetWidgetOptions: the cached options of the type, reflected and cached on a
        miss. */
    method GetWidgetOptions(t: WidgetType) returns (opts: seq<OptionDescriptor>)
      requires Valid()
      modifies this
      ensures Valid()
      ensures opts == OptionsOf(t)
      ensures cache == old(cache)[t := opts]
    {
      if t in cache {
        opts := cache[t];
      } else {
        opts := OptionsOf(t);
        cache := cache[t := opts];
      }
    }
  }

  /** The page, with the request data the engine reads and the items it keeps. */
  class Page {
    const isPostBack: bool
    /** `Request.Form["__brew"]`, the empty string when absent. */
    const brewField: string
    /** What the JSON reader makes of that field (None for null). */
    const deserialized: Option<seq<PostBackHash>>
    /** `Items[_hashesKey]`: the entries of the widgets rendered on this page. */
    var hashes: seq<WidgetHash>
    /** `Items[_pagePreRenderCompleteHandlerKey] != null`. */
    var handlerRegistered: bool
    /** The number of engine handlers subscribed to PreRenderComplete. */
    var preRenderHandlers: nat

    ghost predicate Valid()
      reads this
    {
      preRenderHandlers == if handlerRegistered then 1 else 0
    }

    constructor (isPostBack: bool, brewField: string, deserialized: Option<seq<PostBackHash>>)
      ensures this.isPostBack == isPostBack && this.brewField == brewField && this.deserialized == deserialized
      ensures hashes == [] && !handlerRegistered && preRenderHandlers == 0
      ensures Valid()
    {
      this.isPostBack := isPostBack;
      this.brewField := brewField;
      this.deserialized := deserialized;
      hashes := [];
      handlerRegistered := false;
      preRenderHandlers := 0;
    }
  }

  /** The control a widget is attached to. */
  class TargetControl {
    const clientId: string
    var attributes: map<string, string>

    constructor (clientId: string, attributes: map<string, string>)
      ensures this.clientId == clientId && this.attributes == attributes
    {
      this.clientId := clientId;
      this.attributes := attributes;
    }
  }

  /** A widget control: its type, identity, property values and event delegate
      fields (the subscribers of each event member, in subscription order). */
  class Widget {
    const wtype: WidgetType
    const widgetName: string
    const targetClientId: string
    const uniqueId: string
    /** `IAutoPostBackWidget.AutoPostBack`, None for a widget that is not one. */
    const autoPostBack: Option<bool>
    const page: Page
    var visible: bool
    var props: map<string, Value>
    var fields: map<string, seq<nat>>
    /** The subscriber invocations made so far. */
    var invoked: seq<Invocation>
    /** `IWidget.WidgetOptions`. */
    var savedOptions: seq<OptionEntry>

    /** Every declared property, and nothing else, has a value. */
    ghost predicate Valid()
      reads this
    {
      DistinctNames(wtype.properties) && props.Keys == PropertyNames(wtype.properties)
    }

    constructor (wtype: WidgetType, widgetName: string, targetClientId: string, uniqueId: string,
                 autoPostBack: Option<bool>, page: Page, visible: bool,
                 props: map<string, Value>, fields: map<string, seq<nat>>)
      requires DistinctNames(wtype.properties) && props.Keys == PropertyNames(wtype.properties)
      ensures this.wtype == wtype && this.widgetName == widgetName && this.targetClientId == targetClientId
      ensures this.uniqueId == uniqueId && this.autoPostBack == autoPostBack && this.page == page
      ensures this.visible == visible && this.props == props && this.fields == fields
      ensures invoked == [] && savedOptions == []
      ensures Valid()
    {
      this.wtype := wtype;
      this.widgetName := widgetName;
      this.targetClientId := targetClientId;
      this.uniqueId := uniqueId;
      this.autoPostBack := autoPostBack;
      this.page := page;
      this.visible := visible;
      this.props := props;
      this.fields := fields;
      invoked := [];
      savedOptions := [];
    }
  }

  // ---------------------------------------------------------------------------
  // WidgetState
  // ---------------------------------------------------------------------------

  class WidgetState {
    const widget: Widget
    const catalog: OptionCatalog
    /** `_options`, in insertion order. */
    var options: seq<OptionEntry>
    var encodedOptions: seq<string>
    var events: seq<WidgetEvent>
    /** The name of `_dataChangedEvent`. */
    var dataChangedEvent: Option<string>
    /** `_allWidgetPostbackOptions`, None while not loaded. */
    var memo: Option<seq<PostBackHash>>
    /** How often the posted field has been deserialized. */
    ghost var parses: nat

    ghost predicate Valid()
      reads this, widget, widget.page, catalog
    {
      && widget.Valid()
      && widget.page.Valid()
      && catalog.Valid()
      && dataChangedEvent == FirstDataChanged(widget.wtype.events)
      && MemoValid()
    }

    /** The posted field is deserialized at most once, and only to fill the memo. */
    ghost predicate MemoValid()
      reads this
    {
      parses <= 1 && (memo.None? ==> parses == 0)
    }

    /** The bundle every lookup sees: the memo once loaded, what loading yields before. */
    ghost function Bundle(): seq<PostBackHash>
      reads this, widget, widget.page
    {
      if memo.Some? then memo.value
      else LoadedBundle(widget.page.isPostBack, widget.page.brewField, widget.page.deserialized)
    }

    /** The options posted for this widget. */
    ghost function Posted(bundle: seq<PostBackHash>): map<string, Value>
      reads widget
    {
      LookupEntry(bundle, widget.targetClientId, widget.widgetName)
    }

    /** The constructor: remembers the first DataChangedHandler event member. */
    constructor (widget: Widget, catalog: OptionCatalog)
      requires widget.Valid() && widget.page.Valid() && catalog.Valid()
      ensures this.widget == widget && this.catalog == catalog
      ensures options == [] && encodedOptions == [] && events == [] && memo == None
      ensures dataChangedEvent == FirstDataChanged(widget.wtype.events)
      ensures Valid()
    {
      var evs := widget.wtype.events;
      var found: Option<string> := None;
      var i := 0;
      while i < |evs|
        invariant 0 <= i <= |evs|
        invariant FirstDataChanged(evs) == FirstDataChanged(evs[i..])
        invariant found.None?
      {
        if IsDataChangedHandler(evs[i]) {
          found := Some(evs[i].attr.value.name);
          break;
        }
        assert evs[i..][1..] == evs[i + 1..];
        i := i + 1;
      }
      this.widget := widget;
      this.catalog := catalog;
      options := [];
      encodedOptions := [];
      events := [];
      dataChangedEvent := found;
      memo := None;
      parses := 0;
    }

    /** SetWidgetNameOnTarget: the widget name is appended to the target's comma list
        of widget names unless the list already contains it as a substring. */
    method SetWidgetNameOnTarget(target: TargetControl)
      modifies target
      ensures var attr := if WidgetAttribute in old(target.attributes) then old(target.attributes)[WidgetAttribute] else "";
        target.attributes ==
          if Contains(attr, widget.widgetName) then old(target.attributes)
          else old(target.attributes)[WidgetAttribute := TaggedAsWritten(attr, widget.widgetName)]
      ensures Contains(if WidgetAttribute in target.attributes then target.attributes[WidgetAttribute] else "", widget.widgetName)
    {
      var attr := if WidgetAttribute in target.attributes then target.attributes[WidgetAttribute] else "";
      TaggedAsWrittenContainsName(attr, widget.widgetName);
      if !Contains(attr, widget.widgetName) {
        attr := if attr == "" then widget.widgetName else attr + "," + widget.widgetName;
        target.attributes := target.attributes[WidgetAttribute := attr];
      }
    }

    /** AddPagePreRenderCompleteHandler: the page gets exactly one engine handler,
        however many widgets ask. */
    method AddPagePreRenderCompleteHandler()
      requires widget.page.Valid()
      modifies widget.page
      ensures widget.page.Valid() && widget.page.handlerRegistered && widget.page.preRenderHandlers == 1
      ensures widget.page.hashes == old(widget.page.hashes)
    {
      var page := widget.page;
      if !page.handlerRegistered {
        page.preRenderHandlers := page.preRenderHandlers + 1;
        page.handlerRegistered := true;
      }
    }

    /** SetDefaultOptions: each option's default is written in turn; a default of the
        wrong type stops the pass with ArgumentException. */
    method SetDefaultOptions() returns (fault: Option<Fault>)
      requires Valid()
      modifies widget, catalog
      ensures Valid()
      ensures var o := DefaultsAll(OptionsOf(widget.wtype), old(widget.props));
        widget.props == o.props && fault == o.fault
      ensures widget.fields == old(widget.fields) && widget.invoked == old(widget.invoked)
      ensures widget.savedOptions == old(widget.savedOptions) && widget.visible == old(widget.visible)
    {
      var opts := catalog.GetWidgetOptions(widget.wtype);
      fault := WriteDefaults(opts);
    }

    /** The loop of SetDefaultOptions over `opts`. */
    method WriteDefaults(opts: seq<OptionDescriptor>) returns (fault: Option<Fault>)
      requires Covers(opts, widget.props)
      modifies widget
      ensures var o := DefaultsAll(opts, old(widget.props));
        widget.props == o.props && fault == o.fault
      ensures widget.fields == old(widget.fields) && widget.invoked == old(widget.invoked)
      ensures widget.savedOptions == old(widget.savedOptions) && widget.visible == old(widget.visible)
    {
      ghost var props0 := widget.props;
      fault := None;
      var i := 0;
      while i < |opts|
        invariant 0 <= i <= |opts|
        invariant Covers(opts[..i], props0)
        invariant DefaultsAll(opts[..i], props0) == Outcome(widget.props, None) && fault.None?
        invariant widget.fields == old(widget.fields) && widget.invoked == old(widget.invoked)
        invariant widget.savedOptions == old(widget.savedOptions) && widget.visible == old(widget.visible)
      {
        assert opts[..i + 1][..i] == opts[..i];
        assert DefaultsAll(opts[..i + 1], props0).props.Keys == props0.Keys;
        match DefaultOption(opts[i], widget.props) {
          case Success(p) =>
            widget.props := p;
          case Failure(f) =>
            fault := Some(f);
            DefaultsFaultStops(opts, props0, i + 1);
            return;
        }
        i := i + 1;
      }
      assert opts[..i] == opts;
    }

    /** EnsureWidgetPostDataLoaded: the posted field is deserialized at most once per
        state object. */
    method EnsureWidgetPostDataLoaded()
      requires MemoValid()
      modifies this
      ensures MemoValid()
      ensures memo == Some(old(Bundle()))
      ensures parses == old(parses) + if old(memo).None? && widget.page.isPostBack && widget.page.brewField != "" then 1 else 0
      ensures options == old(options) && encodedOptions == old(encodedOptions) && events == old(events)
      ensures dataChangedEvent == old(dataChangedEvent)
    {
      if memo.None? {
        var page := widget.page;
        if page.isPostBack && page.brewField != "" {
          memo := page.deserialized;
          parses := parses + 1;
        }
        if memo.None? {
          memo := Some([]);
        }
      }
    }

    /** LoadPostDataForControl: the options posted for this widget, never null. */
    method LoadPostDataForControl() returns (posted: map<string, Value>)
      requires MemoValid()
      modifies this
      ensures MemoValid()
      ensures posted == Posted(old(Bundle()))
      ensures memo == Some(old(Bundle()))
      ensures old(memo).Some? ==> parses == old(parses)
      ensures options == old(options) && encodedOptions == old(encodedOptions) && events == old(events)
      ensures dataChangedEvent == old(dataChangedEvent)
    {
      EnsureWidgetPostDataLoaded();
      posted := LookupEntry(memo.value, widget.targetClientId, widget.widgetName);
    }

    /** LoadPostData: every option is reconciled with the posted entry in turn; an
        option the entry does not name is handed null. The result is always false. */
    method LoadPostData(env: Env) returns (changed: bool, fault: Option<Fault>)
      requires Valid()
      modifies this, widget, catalog
      ensures Valid()
      ensures !changed
      ensures var o := ReconcileAll(OptionsOf(widget.wtype), old(widget.props), Posted(old(Bundle())), widget.wtype.properties, env);
        widget.props == o.props && fault == o.fault
      ensures memo == if |OptionsOf(widget.wtype)| == 0 then old(memo) else Some(old(Bundle()))
      ensures old(memo).Some? ==> parses == old(parses)
      ensures options == old(options) && encodedOptions == old(encodedOptions) && events == old(events)
      ensures widget.fields == old(widget.fields) && widget.invoked == old(widget.invoked)
      ensures widget.savedOptions == old(widget.savedOptions) && widget.visible == old(widget.visible)
    {
      changed := false;
      var opts := catalog.GetWidgetOptions(widget.wtype);
      fault := ReconcileOptions(opts, env);
    }

    /** The loop of LoadPostData over `opts`; the posted entry is looked up in every
        iteration, from the memo once loaded. */
    method ReconcileOptions(opts: seq<OptionDescriptor>, env: Env) returns (fault: Option<Fault>)
      requires Covers(opts, widget.props) && Fits(widget.wtype.properties, widget.props) && MemoValid()
      modifies this, widget
      ensures MemoValid()
      ensures var o := ReconcileAll(opts, old(widget.props), Posted(old(Bundle())), widget.wtype.properties, env);
        widget.props == o.props && fault == o.fault
      ensures memo == if |opts| == 0 then old(memo) else Some(old(Bundle()))
      ensures old(memo).Some? ==> parses == old(parses)
      ensures options == old(options) && encodedOptions == old(encodedOptions) && events == old(events)
      ensures dataChangedEvent == old(dataChangedEvent)
      ensures widget.fields == old(widget.fields) && widget.invoked == old(widget.invoked)
      ensures widget.savedOptions == old(widget.savedOptions) && widget.visible == old(widget.visible)
    {
      var decls := widget.wtype.properties;
      ghost var props0 := widget.props;
      ghost var bundle := Bundle();
      ghost var posted := Posted(bundle);
      fault := None;
      var i := 0;
      while i < |opts|
        invariant 0 <= i <= |opts|
        invariant Covers(opts[..i], props0)
        invariant ReconcileAll(opts[..i], props0, posted, decls, env) == Outcome(widget.props, None) && fault.None?
        invariant MemoValid() && Bundle() == bundle
        invariant memo == if i == 0 then old(memo) else Some(bundle)
        invariant old(memo).Some? ==> parses == old(parses)
        invariant options == old(options) && encodedOptions == old(encodedOptions) && events == old(events)
        invariant dataChangedEvent == old(dataChangedEvent)
        invariant widget.fields == old(widget.fields) && widget.invoked == old(widget.invoked)
        invariant widget.savedOptions == old(widget.savedOptions) && widget.visible == old(widget.visible)
      {
        assert opts[..i + 1][..i] == opts[..i];
        assert ReconcileAll(opts[..i + 1], props0, posted, decls, env).props.Keys == props0.Keys;
        var postedState := LoadPostDataForControl();
        match ReconcileOption(opts[i], widget.props, postedState, decls, env) {
          case Success(p) =>
            widget.props := p;
          case Failure(f) =>
            fault := Some(f);
            ReconcileFaultStops(opts, props0, posted, decls, env, i + 1);
            return;
        }
        i := i + 1;
      }
      assert opts[..i] == opts;
    }

    /** One iteration of ParseOptions. */
    method ParseOption(d: OptionDescriptor) returns (fault: Option<Fault>)
      requires d.property in widget.props
      modifies this
      ensures ParseStep(ParseState(old(options), old(encodedOptions), None), d, widget.props) == ParseState(options, encodedOptions, fault)
      ensures events == old(events) && memo == old(memo) && parses == old(parses) && dataChangedEvent == old(dataChangedEvent)
    {
      fault := None;
      var current := widget.props[d.property];
      if Emits(current, d.defaultValue) {
        if d.name in Keys(options) {
          fault := Some(ArgumentFault);
          return;
        }
        options := options + [OptionEntry(d.name, Rendered(d, current))];
      }
      if d.htmlEncoding {
        encodedOptions := encodedOptions + [d.name];
      }
    }

    /** ParseOptions: the options that differ from their defaults are added to the
        options dictionary, and every HtmlEncoding option name to the encoded list;
        adding a key already present raises ArgumentException. */
    method ParseOptions() returns (fault: Option<Fault>)
      requires Valid()
      modifies this, catalog
      ensures Valid()
      ensures var s := ParseFrom(OptionsOf(widget.wtype), widget.props, ParseState(old(options), old(encodedOptions), None));
        options == s.options && encodedOptions == s.encoded && fault == s.fault
      ensures events == old(events) && memo == old(memo) && parses == old(parses)
    {
      var opts := catalog.GetWidgetOptions(widget.wtype);
      assert Covers(opts, widget.props);
      fault := AppendOptions(opts);
    }

    /** The loop of ParseOptions over the options. */
    method AppendOptions(opts: seq<OptionDescriptor>) returns (fault: Option<Fault>)
      requires Covers(opts, widget.props)
      modifies this
      ensures var s := ParseFrom(opts, widget.props, ParseState(old(options), old(encodedOptions), None));
        options == s.options && encodedOptions == s.encoded && fault == s.fault
      ensures events == old(events) && memo == old(memo) && parses == old(parses) && dataChangedEvent == old(dataChangedEvent)
    {
      ghost var init := ParseState(options, encodedOptions, None);
      ghost var props := widget.props;
      fault := None;
      var i := 0;
      while i < |opts|
        invariant 0 <= i <= |opts|
        invariant ParseFrom(opts[..i], props, init) == ParseState(options, encodedOptions, None) && fault.None?
        invariant events == old(events) && memo == old(memo) && parses == old(parses) && dataChangedEvent == old(dataChangedEvent)
      {
        assert opts[..i + 1][..i] == opts[..i];
        fault := ParseOption(opts[i]);
        if fault.Some? {
          ParseFaultStops(opts, props, init, i + 1);
          return;
        }
        i := i + 1;
      }
      assert opts[..i] == opts;
    }

    /** ParseEvents: the class-level events, then one record per event member that
        carries `[WidgetEvent]`, are appended to the event list. */
    method ParseEvents()
      requires Valid()
      modifies this
      ensures Valid()
      ensures events == old(events) + EventsOf(widget.wtype, widget.autoPostBack)
      ensures options == old(options) && encodedOptions == old(encodedOptions) && memo == old(memo)
      ensures parses == old(parses)
    {
      var t := widget.wtype;
      events := events + ClassEvents(t.classEvents);
      AppendMemberEvents(t.events, WidgetAutoPostBack(widget.autoPostBack));
    }

    /** The loop of ParseEvents over the event members. */
    method AppendMemberEvents(members: seq<EventDecl>, autoPostBack: bool)
      modifies this
      ensures events == old(events) + MemberEvents(members, autoPostBack, dataChangedEvent)
      ensures options == old(options) && encodedOptions == old(encodedOptions) && memo == old(memo)
      ensures dataChangedEvent == old(dataChangedEvent) && parses == old(parses)
    {
      var i := 0;
      while i < |members|
        invariant 0 <= i <= |members|
        invariant dataChangedEvent == old(dataChangedEvent) && parses == old(parses)
        invariant events == old(events) + MemberEvents(members[..i], autoPostBack, dataChangedEvent)
        invariant options == old(options) && encodedOptions == old(encodedOptions) && memo == old(memo)
      {
        assert members[..i + 1][..i] == members[..i];
        var e := members[i];
        if e.attr.Some? {
          var a := e.attr.value;
          var event := WidgetEvent(a.name, a.autoPostBack && autoPostBack, dataChangedEvent.Some? && dataChangedEvent.value == a.name);
          events := events + [event];
        }
        i := i + 1;
      }
      assert members[..i] == members;
    }

    /** AddWidgetHash: only a visible widget's entry is recorded on the page. */
    method AddWidgetHash(hash: WidgetHash)
      requires widget.page.Valid()
      modifies widget.page
      ensures widget.page.Valid()
      ensures widget.page.hashes == old(widget.page.hashes) + if widget.visible then [hash] else []
      ensures widget.page.handlerRegistered == old(widget.page.handlerRegistered)
    {
      if widget.visible {
        widget.page.hashes := widget.page.hashes + [hash];
      }
    }

    /** ParseEverything: the options are saved on the widget, the events parsed, and
        the widget's entry recorded on the page. */
    method ParseEverything(target: TargetControl) returns (fault: Option<Fault>)
      requires Valid()
      modifies this, catalog, widget, widget.page
      ensures Valid()
      ensures var s := ParseFrom(OptionsOf(widget.wtype), widget.props, ParseState(old(options), old(encodedOptions), None));
        && fault == s.fault
        && options == s.options && encodedOptions == s.encoded
        && (s.fault.Some? ==> events == old(events) && widget.page.hashes == old(widget.page.hashes))
        && (s.fault.None? ==>
              && widget.savedOptions == s.options
              && events == old(events) + EventsOf(widget.wtype, widget.autoPostBack)
              && widget.page.hashes == old(widget.page.hashes)
                   + if widget.visible then [WidgetHash(widget.widgetName, target.clientId, widget.uniqueId, s.options, s.encoded, events)] else [])
      ensures widget.props == old(widget.props) && widget.fields == old(widget.fields)
      ensures widget.invoked == old(widget.invoked) && widget.visible == old(widget.visible)
      ensures fault.Some? ==> widget.savedOptions == old(widget.savedOptions)
      ensures memo == old(memo) && parses == old(parses)
      ensures widget.page.handlerRegistered == old(widget.page.handlerRegistered)
    {
      fault := ParseOptions();
      if fault.Some? {
        return;
      }
      widget.savedOptions := options;
      ParseEvents();
      var hash := WidgetHash(widget.widgetName, target.clientId, widget.uniqueId, widget.savedOptions, encodedOptions, events);
      AddWidgetHash(hash);
    }

    /** Page_PreRenderComplete: nothing when no widget was recorded, otherwise one
        payload item per recorded entry, in order. */
    method PagePreRenderComplete() returns (payload: Option<seq<RenderedItem>>)
      ensures payload.None? <==> |widget.page.hashes| == 0
      ensures payload.Some? ==>
        (|payload.value| == |widget.page.hashes|
         && forall i :: 0 <= i < |widget.page.hashes| ==> payload.value[i] == RenderItem(widget.page.hashes[i]))
    {
      var hashes := widget.page.hashes;
      if |hashes| == 0 {
        return None;
      }
      var items: seq<RenderedItem> := [];
      var i := 0;
      while i < |hashes|
        invariant 0 <= i <= |hashes|
        invariant |items| == i
        invariant forall k :: 0 <= k < i ==> items[k] == RenderItem(hashes[k])
      {
        items := items + [RenderItem(hashes[i])];
        i := i + 1;
      }
      payload := Some(items);
    }

    /** RaisePostBackEvent: the posted options are reconciled first; then every
        event member declared under `eventName` has its subscribers invoked, in
        declaration order. */
    method RaisePostBackEvent(eventName: string, env: Env) returns (fault: Option<Fault>)
      requires Valid()
      modifies this, widget, catalog
      ensures Valid()
      ensures var o := ReconcileAll(OptionsOf(widget.wtype), old(widget.props), Posted(old(Bundle())), widget.wtype.properties, env);
        && widget.props == o.props
        && (o.fault.Some? ==> fault == o.fault && widget.invoked == old(widget.invoked))
        && (o.fault.None? ==> DispatchedAsFarAs(widget.wtype.events, old(widget.fields), eventName, old(widget.invoked), widget.invoked, fault))
      ensures widget.fields == old(widget.fields) && widget.savedOptions == old(widget.savedOptions) && widget.visible == old(widget.visible)
      ensures options == old(options) && encodedOptions == old(encodedOptions) && events == old(events)
      ensures memo == if |OptionsOf(widget.wtype)| == 0 then old(memo) else Some(old(Bundle()))
      ensures old(memo).Some? ==> parses == old(parses)
    {
      var changed;
      changed, fault := LoadPostData(env);
      if fault.Some? {
        return;
      }
      fault := InvokeSubscribers(eventName);
    }

    /** The dispatch loop of RaisePostBackEvent. */
    method InvokeSubscribers(eventName: string) returns (fault: Option<Fault>)
      modifies widget
      ensures DispatchedAsFarAs(widget.wtype.events, old(widget.fields), eventName, old(widget.invoked), widget.invoked, fault)
      ensures widget.props == old(widget.props) && widget.fields == old(widget.fields)
      ensures widget.savedOptions == old(widget.savedOptions) && widget.visible == old(widget.visible)
    {
      var evs := widget.wtype.events;
      var fields := widget.fields;
      ghost var invoked0 := widget.invoked;
      fault := None;
      var i := 0;
      while i < |evs|
        invariant 0 <= i <= |evs|
        invariant Dispatch(evs[..i], fields, eventName).Success?
        invariant widget.invoked == invoked0 + Dispatch(evs[..i], fields, eventName).value
        invariant widget.props == old(widget.props) && widget.fields == fields && fault.None?
        invariant widget.savedOptions == old(widget.savedOptions) && widget.visible == old(widget.visible)
      {
        assert evs[..i + 1][..i] == evs[..i];
        var e := evs[i];
        if Matches(e, eventName) {
          if e.member !in fields {
            fault := Some(NullReferenceFault);
            DispatchFaultStops(evs, fields, eventName, i + 1);
            assert DispatchStopsAt(evs, fields, eventName, i);
            return;
          }
          var handlers := fields[e.member];
          if |handlers| > 0 {
            widget.invoked := widget.invoked + Invocations(e.member, handlers);
          }
        }
        i := i + 1;
      }
      assert evs[..i] == evs;
    }
  }

  /** The subscriber log after dispatch: on success every matching subscriber was
      invoked after the earlier log; on a missing delegate field the members before
      the failing one have had theirs invoked and the fault is NullReferenceException. */
  ghost predicate DispatchedAsFarAs(events: seq<EventDecl>, fields: map<string, seq<nat>>, eventName: string,
                                    before: seq<Invocation>, after: seq<Invocation>, fault: Option<Fault>)
  {
    match Dispatch(events, fields, eventName)
    case Success(xs) => fault.None? && after == before + xs
    case Failure(f) =>
      && fault == Some(f)
      && exists k :: 0 <= k < |events| && DispatchStopsAt(events, fields, eventName, k) && after == before + Dispatch(events[..k], fields, eventName).value
  }

  ghost predicate DispatchStopsAt(events: seq<EventDecl>, fields: map<string, seq<nat>>, eventName: string, k: int)
    requires 0 <= k < |events|
  {
    Dispatch(events[..k], fields, eventName).Success? && Dispatch(events[..k + 1], fields, eventName).Failure?
  }
}
