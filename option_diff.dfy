/** Render-side diff (ParseOptions): which options differ from their declared defaults,
    how an emitted option is rendered, and which option names travel HTML-encoded. */
module OptionDiff {
  import opened Wrappers
  import opened Values
  import opened Descriptors

  /** The element-wise array comparison: both values are arrays holding equal items
      in the same order, whatever their instances. */
  predicate ArraysEqual(current: Value, defaultValue: Value) {
    current.Arr? && defaultValue.Arr? && current.items == defaultValue.items
  }

  /** The emission test: a null value whose default is not null, or a non-null value
      that neither equals its default nor is an array element-wise equal to it. */
  predicate Emits(current: Value, defaultValue: Value) {
    || (current.Null? && !defaultValue.Null?)
    || (!current.Null? && current != defaultValue && !ArraysEqual(current, defaultValue))
  }

  /** An emitted value, wrapped as `{ eval = true, on = value }` when the option is
      script-valued. */
  function Rendered(d: OptionDescriptor, current: Value): Value {
    if d.requiresEval then EvalMarker(current) else current
  }

  /** Every option's property has a value. */
  predicate Covers(opts: seq<OptionDescriptor>, props: map<string, Value>) {
    forall i :: 0 <= i < |opts| ==> opts[i].property in props
  }

  function Keys(entries: seq<OptionEntry>): (r: seq<string>)
    ensures |r| == |entries| && forall i :: 0 <= i < |entries| ==> r[i] == entries[i].key
  {
    if |entries| == 0 then [] else [entries[0].key] + Keys(entries[1..])
  }

  predicate NoDuplicates(s: seq<string>) {
    forall i, j :: 0 <= i < j < |s| ==> s[i] != s[j]
  }

  function Names(opts: seq<OptionDescriptor>): (r: seq<string>)
    ensures |r| == |opts| && forall i :: 0 <= i < |opts| ==> r[i] == opts[i].name
  {
    if |opts| == 0 then [] else [opts[0].name] + Names(opts[1..])
  }

  /** The emitted entries, in declaration order: at most one per option. */
  function Diff(opts: seq<OptionDescriptor>, props: map<string, Value>): (r: seq<OptionEntry>)
    requires Covers(opts, props)
    ensures |r| <= |opts|
  {
    if |opts| == 0 then []
    else
      var d := opts[|opts| - 1];
      var cur := props[d.property];
      Diff(opts[..|opts| - 1], props) + (if Emits(cur, d.defaultValue) then [OptionEntry(d.name, Rendered(d, cur))] else [])
  }

  /** The names of the options flagged HtmlEncoding, in declaration order. */
  function EncodedNames(opts: seq<OptionDescriptor>): (r: seq<string>)
    ensures |r| <= |opts|
  {
    if |opts| == 0 then []
    else
      var d := opts[|opts| - 1];
      EncodedNames(opts[..|opts| - 1]) + (if d.htmlEncoding then [d.name] else [])
  }

  /** The state ParseOptions updates: the options dictionary (insertion ordered),
      the encoded option list and the exception that stopped the loop, if any. */
  datatype ParseState = ParseState(options: seq<OptionEntry>, encoded: seq<string>, fault: Option<Fault>)

  /** One iteration: `Dictionary.Add` raises ArgumentException on a key already
      present, before the encoded name of that option is recorded. */
  function ParseStep(s: ParseState, d: OptionDescriptor, props: map<string, Value>): (r: ParseState)
    requires d.property in props
    ensures s.fault.Some? ==> r == s
  {
    if s.fault.Some? then s
    else
      var cur := props[d.property];
      if Emits(cur, d.defaultValue) && d.name in Keys(s.options) then ParseState(s.options, s.encoded, Some(ArgumentFault))
      else
        var options := if Emits(cur, d.defaultValue) then s.options + [OptionEntry(d.name, Rendered(d, cur))] else s.options;
        var encoded := if d.htmlEncoding then s.encoded + [d.name] else s.encoded;
        ParseState(options, encoded, None)
  }

  /** The whole ParseOptions loop over `opts`, from state `init`. */
  function ParseFrom(opts: seq<OptionDescriptor>, props: map<string, Value>, init: ParseState): (r: ParseState)
    requires Covers(opts, props)
    ensures init.fault.Some? ==> r == init
  {
    if |opts| == 0 then init
    else ParseStep(ParseFrom(opts[..|opts| - 1], props, init), opts[|opts| - 1], props)
  }

  // ---------------------------------------------------------------------------
  // Properties
  // ---------------------------------------------------------------------------

  /** An option is emitted exactly when its value differs from the default, arrays
      being compared by their elements. */
  lemma EmitsIffDiffers(current: Value, defaultValue: Value)
    ensures Emits(current, defaultValue) <==> current != defaultValue && !ArraysEqual(current, defaultValue)
    ensures current.Arr? && defaultValue.Arr? ==> (Emits(current, defaultValue) <==> current.items != defaultValue.items)
  {
  }

  lemma KeysAppend(a: seq<OptionEntry>, b: seq<OptionEntry>)
    ensures Keys(a + b) == Keys(a) + Keys(b)
  {
  }

  /** Entry `e` is the rendering of option `i`, which differs from its default. */
  predicate EmittedFrom(opts: seq<OptionDescriptor>, props: map<string, Value>, i: int, e: OptionEntry)
    requires Covers(opts, props)
  {
    && 0 <= i < |opts|
    && opts[i].name == e.key
    && Emits(props[opts[i].property], opts[i].defaultValue)
    && e.value == Rendered(opts[i], props[opts[i].property])
  }

  /** A key is emitted exactly when a declared option of that name differs from its
      default; its value is the property value, eval-wrapped when the option asks so. */
  lemma {:induction false} DiffMembers(opts: seq<OptionDescriptor>, props: map<string, Value>)
    requires Covers(opts, props)
    ensures forall e :: e in Diff(opts, props) ==> exists i :: EmittedFrom(opts, props, i, e)
    ensures forall i :: 0 <= i < |opts| && Emits(props[opts[i].property], opts[i].defaultValue) ==>
      OptionEntry(opts[i].name, Rendered(opts[i], props[opts[i].property])) in Diff(opts, props)
  {
    if |opts| > 0 {
      var n := |opts| - 1;
      var prefix := opts[..n];
      DiffMembers(prefix, props);
      forall e | e in Diff(opts, props)
        ensures exists i :: EmittedFrom(opts, props, i, e)
      {
        if e in Diff(prefix, props) {
          var i :| EmittedFrom(prefix, props, i, e);
          assert opts[i] == prefix[i];
          assert EmittedFrom(opts, props, i, e);
        } else {
          assert EmittedFrom(opts, props, n, e);
        }
      }
      forall i | 0 <= i < |opts| && Emits(props[opts[i].property], opts[i].defaultValue)
        ensures OptionEntry(opts[i].name, Rendered(opts[i], props[opts[i].property])) in Diff(opts, props)
      {
        if i < n {
          assert opts[i] == prefix[i];
        }
      }
    }
  }

  /** The diff of a prefix of the options is a prefix of the diff: entries appear in
      declaration order. */
  lemma {:induction false} DiffPrefix(opts: seq<OptionDescriptor>, props: map<string, Value>, k: nat)
    requires Covers(opts, props) && k <= |opts|
    ensures Covers(opts[..k], props)
    ensures Diff(opts[..k], props) <= Diff(opts, props)
  {
    if k < |opts| {
      var n := |opts| - 1;
      assert opts[..n][..k] == opts[..k];
      DiffPrefix(opts[..n], props, k);
    } else {
      assert opts[..k] == opts;
    }
  }

  /** A widget whose option values all equal their defaults renders no options. */
  lemma {:induction false} AllDefaultsEmitNothing(opts: seq<OptionDescriptor>, props: map<string, Value>)
    requires Covers(opts, props)
    requires forall i :: 0 <= i < |opts| ==> props[opts[i].property] == opts[i].defaultValue
    ensures Diff(opts, props) == []
  {
    if |opts| > 0 {
      AllDefaultsEmitNothing(opts[..|opts| - 1], props);
    }
  }

  /** Every HtmlEncoding option name is listed, emitted or not, and nothing else is. */
  lemma {:induction false} EncodedNamesMembers(opts: seq<OptionDescriptor>)
    ensures forall n :: n in EncodedNames(opts) <==> exists i :: 0 <= i < |opts| && opts[i].htmlEncoding && opts[i].name == n
  {
    if |opts| > 0 {
      var k := |opts| - 1;
      EncodedNamesMembers(opts[..k]);
      forall n | n in EncodedNames(opts)
        ensures exists i :: 0 <= i < |opts| && opts[i].htmlEncoding && opts[i].name == n
      {
        if n in EncodedNames(opts[..k]) {
          var i :| 0 <= i < k && opts[..k][i].htmlEncoding && opts[..k][i].name == n;
          assert opts[i] == opts[..k][i];
        }
      }
      forall n | exists i :: 0 <= i < |opts| && opts[i].htmlEncoding && opts[i].name == n
        ensures n in EncodedNames(opts)
      {
        var i :| 0 <= i < |opts| && opts[i].htmlEncoding && opts[i].name == n;
        if i < k {
          assert opts[..k][i] == opts[i];
        }
      }
    }
  }

  lemma NoDuplicatesSnoc(s: seq<string>, x: string)
    ensures NoDuplicates(s + [x]) <==> NoDuplicates(s) && x !in s
  {
    if NoDuplicates(s) && x !in s {
      forall i, j | 0 <= i < j < |s + [x]| ensures (s + [x])[i] != (s + [x])[j] {
        if j == |s| {
          assert (s + [x])[i] == s[i];
        }
      }
    }
    if NoDuplicates(s + [x]) {
      forall i | 0 <= i < |s| ensures s[i] != x {
        assert (s + [x])[i] == s[i] && (s + [x])[|s|] == x;
      }
      forall i, j | 0 <= i < j < |s| ensures s[i] != s[j] {
        assert (s + [x])[i] == s[i] && (s + [x])[j] == s[j];
      }
    }
  }

  /** ParseOptions, run from a dictionary without repeated keys, stops with
      ArgumentException exactly when an emitted key repeats a key already in the
      dictionary or an earlier emitted key; otherwise it appends the diff to the
      dictionary and every HtmlEncoding name to the encoded list. */
  lemma {:induction false} ParseFromOutcome(opts: seq<OptionDescriptor>, props: map<string, Value>, init: ParseState)
    requires Covers(opts, props) && init.fault.None? && NoDuplicates(Keys(init.options))
    ensures ParseFrom(opts, props, init).fault.None? <==> NoDuplicates(Keys(init.options + Diff(opts, props)))
    ensures ParseFrom(opts, props, init).fault.None? ==>
      && ParseFrom(opts, props, init).options == init.options + Diff(opts, props)
      && ParseFrom(opts, props, init).encoded == init.encoded + EncodedNames(opts)
  {
    if |opts| > 0 {
      var n := |opts| - 1;
      var prefix := opts[..n];
      var d := opts[n];
      ParseFromOutcome(prefix, props, init);
      var before := init.options + Diff(prefix, props);
      var cur := props[d.property];
      var added := if Emits(cur, d.defaultValue) then [OptionEntry(d.name, Rendered(d, cur))] else [];
      assert Diff(opts, props) == Diff(prefix, props) + added;
      assert init.options + Diff(opts, props) == before + added;
      ParseStepOutcome(ParseFrom(prefix, props, init), d, props, before, init.encoded + EncodedNames(prefix));
    }
  }

  /** One step of ParseOptions from a state that holds `before` exactly when
      `before` has no repeated key. */
  lemma ParseStepOutcome(s: ParseState, d: OptionDescriptor, props: map<string, Value>, before: seq<OptionEntry>, encoded: seq<string>)
    requires d.property in props
    requires s.fault.None? <==> NoDuplicates(Keys(before))
    requires s.fault.None? ==> s.options == before && s.encoded == encoded
    ensures var cur := props[d.property];
      var added := if Emits(cur, d.defaultValue) then [OptionEntry(d.name, Rendered(d, cur))] else [];
      var r := ParseStep(s, d, props);
      && (r.fault.None? <==> NoDuplicates(Keys(before + added)))
      && (r.fault.None? ==> r.options == before + added && r.encoded == encoded + (if d.htmlEncoding then [d.name] else []))
  {
    var cur := props[d.property];
    var added := if Emits(cur, d.defaultValue) then [OptionEntry(d.name, Rendered(d, cur))] else [];
    KeysAppend(before, added);
    if added != [] {
      assert Keys(added) == [d.name];
      NoDuplicatesSnoc(Keys(before), d.name);
    } else {
      assert before + added == before;
    }
    if s.fault.Some? {
      assert !NoDuplicates(Keys(before + added)) by {
        assert forall i, j :: 0 <= i < j < |Keys(before)| ==> Keys(before + added)[i] == Keys(before)[i] && Keys(before + added)[j] == Keys(before)[j];
      }
    }
  }

  /** ParseOptions only appends: the dictionary and the encoded list it starts from
      stay in front, each option adds at most one entry to each, and a fault leaves
      the state it stopped in. */
  lemma ParseStepGrows(s: ParseState, d: OptionDescriptor, props: map<string, Value>)
    requires d.property in props
    ensures var r := ParseStep(s, d, props);
      && s.options <= r.options && |r.options| <= |s.options| + 1
      && s.encoded <= r.encoded && |r.encoded| <= |s.encoded| + 1
      && (r.fault.Some? ==> r.options == s.options && r.encoded == s.encoded)
  {
  }

  lemma {:induction false} ParseFromGrows(opts: seq<OptionDescriptor>, props: map<string, Value>, init: ParseState)
    requires Covers(opts, props)
    ensures var r := ParseFrom(opts, props, init);
      && init.options <= r.options && |r.options| <= |init.options| + |opts|
      && init.encoded <= r.encoded && |r.encoded| <= |init.encoded| + |opts|
  {
    if |opts| > 0 {
      var n := |opts| - 1;
      ParseFromGrows(opts[..n], props, init);
      ParseStepGrows(ParseFrom(opts[..n], props, init), opts[n], props);
    }
  }

  /** Running ParseOptions a second time on the same state raises ArgumentException
      as soon as one option was emitted the first time. */
  lemma SecondParseFaults(opts: seq<OptionDescriptor>, props: map<string, Value>)
    requires Covers(opts, props) && NoDuplicates(Keys(Diff(opts, props)))
    requires Diff(opts, props) != []
    ensures ParseFrom(opts, props, ParseState(Diff(opts, props), EncodedNames(opts), None)).fault.Some?
  {
    var diff := Diff(opts, props);
    ParseFromOutcome(opts, props, ParseState(diff, EncodedNames(opts), None));
    KeysAppend(diff, diff);
    assert Keys(diff + diff)[0] == Keys(diff + diff)[|diff|];
  }

  /** An ArgumentException ends ParseOptions: later options are neither emitted nor
      listed as encoded. */
  lemma {:induction false} ParseFaultStops(opts: seq<OptionDescriptor>, props: map<string, Value>, init: ParseState, k: nat)
    requires Covers(opts, props) && k <= |opts|
    requires ParseFrom(opts[..k], props, init).fault.Some?
    ensures ParseFrom(opts, props, init) == ParseFrom(opts[..k], props, init)
  {
    if k < |opts| {
      var n := |opts| - 1;
      assert opts[..n][..k] == opts[..k];
      ParseFaultStops(opts[..n], props, init, k);
    } else {
      assert opts[..k] == opts;
    }
  }
}
