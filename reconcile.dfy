/** Postback reconciliation (LoadPostData and the lookup it relies on) and the
    default-setting pass, as functions over a widget's property values. */
module Reconcile {
  import opened Wrappers
  import opened Values
  import opened Descriptors
  import OptionDiff
  import Int32ArrayConverter

  /** Library calls whose code is not part of this model: HttpUtility.HtmlDecode and
      the ConvertFrom of converters other than Int32ArrayConverter, by name. */
  datatype Env = Env(htmlDecode: string -> string, libraryConvert: (string, Value) -> Result<Value, Fault>)

  // ---------------------------------------------------------------------------
  // The posted bundle and the lookup of one widget's entry
  // ---------------------------------------------------------------------------

  /** What EnsureWidgetPostDataLoaded stores: the deserialized `__brew` field on a
      postback with a non-empty field (a null result counts as empty), and an empty
      list otherwise. */
  function LoadedBundle(isPostBack: bool, field: string, deserialized: Option<seq<PostBackHash>>): (r: seq<PostBackHash>)
    ensures !isPostBack || field == "" || deserialized.None? ==> r == []
    ensures isPostBack && field != "" && deserialized.Some? ==> r == deserialized.value
  {
    if isPostBack && field != "" && deserialized.Some? then deserialized.value else []
  }

  predicate EntryMatches(h: PostBackHash, controlId: string, widgetName: string) {
    h.controlId == controlId && h.widgetName == widgetName
  }

  function OptionsOrEmpty(h: PostBackHash): map<string, Value> {
    if h.options.Some? then h.options.value else map[]
  }

  /** LoadPostDataForControl: the options of the first entry for this (control id,
      widget name), an empty dictionary when there is none; never null. */
  function LookupEntry(bundle: seq<PostBackHash>, controlId: string, widgetName: string): (r: map<string, Value>)
    ensures (forall i :: 0 <= i < |bundle| ==> !EntryMatches(bundle[i], controlId, widgetName)) ==> r == map[]
    ensures r != map[] ==> exists i :: 0 <= i < |bundle| && EntryMatches(bundle[i], controlId, widgetName) && r == OptionsOrEmpty(bundle[i])
  {
    if |bundle| == 0 then map[]
    else if EntryMatches(bundle[0], controlId, widgetName) then OptionsOrEmpty(bundle[0])
    else LookupEntry(bundle[1..], controlId, widgetName)
  }

  /** The lookup returns the options of the first matching entry, and an empty map
      when no entry matches. */
  lemma {:induction false} LookupFirstMatch(bundle: seq<PostBackHash>, controlId: string, widgetName: string, i: nat)
    requires i <= |bundle|
    requires forall k :: 0 <= k < i ==> !EntryMatches(bundle[k], controlId, widgetName)
    requires i < |bundle| ==> EntryMatches(bundle[i], controlId, widgetName)
    ensures LookupEntry(bundle, controlId, widgetName) == if i < |bundle| then OptionsOrEmpty(bundle[i]) else map[]
  {
    if i > 0 {
      LookupFirstMatch(bundle[1..], controlId, widgetName, i - 1);
    }
  }

  // ---------------------------------------------------------------------------
  // One option
  // ---------------------------------------------------------------------------

  /** The value TryGetValue leaves: the posted value, or null for an absent key. */
  function PostedValue(d: OptionDescriptor, posted: map<string, Value>): Value {
    if d.name in posted then posted[d.name] else Null
  }

  /** An HtmlEncoding option's string value is decoded once; nothing else is touched,
      and the runtime type the converter is asked about stays the same. */
  function Decoded(d: OptionDescriptor, v: Value, env: Env): (r: Value)
    ensures TypeOf(r) == TypeOf(v)
    ensures !d.htmlEncoding || !v.Str? ==> r == v
  {
    if d.htmlEncoding && v.Str? then Str(env.htmlDecode(v.s)) else v
  }

  /** `value != currentValue` on object references. Posted values are freshly
      deserialized objects and a value-type property is boxed afresh on every read,
      so the two references coincide only when both are null. */
  predicate Differs(v: Value, current: Value) {
    !(v.Null? && current.Null?)
  }

  /** `converter.CanConvertFrom(value == null ? null : value.GetType())`. */
  predicate Accepts(c: Converter, t: Option<TypeTag>) {
    match c
    case NoConverter => false
    case Int32Array => Int32ArrayConverter.CanConvertFrom(t)
    case Library(_, accepts) => t.Some? && t.value in accepts
  }

  /** The converted value: the converter's result when it accepts the value's runtime
      type, the raw value otherwise; a converter's fault propagates. */
  function Convert(c: Converter, v: Value, env: Env): (r: Result<Value, Fault>)
    ensures !Accepts(c, TypeOf(v)) ==> r == Success(v)
    ensures c.NoConverter? ==> r == Success(v)
    ensures c.Int32Array? && (v.Str? || v.List?) ==> r == Int32ArrayConverter.ConvertFrom(v)
    ensures c.Int32Array? && (v.Str? || v.List?) && r.Success? ==> r.value.Arr? && r.value.elem == EInt
    ensures c.Int32Array? && v.List? && r.Success? ==> r.value.items == v.items
  {
    if !Accepts(c, TypeOf(v)) then Success(v)
    else
      match c
      case Int32Array => Int32ArrayConverter.ConvertFrom(v)
      case Library(name, _) => env.libraryConvert(name, v)
  }

  /** The property a value is written to, with its declared type. */
  datatype Target = Target(property: string, propType: PropType)

  function MatchingLinks(links: seq<PropertyLink>, t: TypeTag): (r: seq<PropertyLink>)
    ensures forall l :: l in r <==> l in links && l.targetType == t
  {
    if |links| == 0 then []
    else (if links[0].targetType == t then [links[0]] else []) + MatchingLinks(links[1..], t)
  }

  /** The property link resolution: the single link whose target type is the
      converted value's runtime type redirects the write to the property it names, if
      the widget type has one. Asking a null value for its type raises
      NullReferenceException once any link is declared, and two matching links make
      SingleOrDefault raise InvalidOperationException. */
  function LinkTarget(d: OptionDescriptor, newValue: Value, decls: seq<PropertyDecl>): (r: Result<Target, Fault>)
    ensures r.Success? ==> r.value == Target(d.property, d.propType) || r.value.property in PropertyNames(decls)
    ensures |d.links| == 0 ==> r == Success(Target(d.property, d.propType))
    ensures |d.links| > 0 && newValue.Null? ==> r == Failure(NullReferenceFault)
    ensures |d.links| > 0 && !newValue.Null? && |MatchingLinks(d.links, TypeOf(newValue).value)| > 1 ==> r == Failure(InvalidOperationFault)
    ensures |d.links| > 0 && !newValue.Null? && |MatchingLinks(d.links, TypeOf(newValue).value)| == 0 ==> r == Success(Target(d.property, d.propType))
    ensures |d.links| > 0 && !newValue.Null? && |MatchingLinks(d.links, TypeOf(newValue).value)| == 1 ==>
      var m := MatchingLinks(d.links, TypeOf(newValue).value);
      r == match FindProperty(decls, m[0].propertyName)
           case Some(p) => Success(Target(p.name, p.propType))
           case None => Success(Target(d.property, d.propType))
  {
    if |d.links| == 0 then Success(Target(d.property, d.propType))
    else if newValue.Null? then Failure(NullReferenceFault)
    else
      var m := MatchingLinks(d.links, TypeOf(newValue).value);
      if |m| == 0 then Success(Target(d.property, d.propType))
      else if |m| > 1 then Failure(InvalidOperationFault)
      else
        match FindProperty(decls, m[0].propertyName)
        case None => Success(Target(d.property, d.propType))
        case Some(p) => Success(Target(p.name, p.propType))
  }

  /** The value actually handed to the setter first: a `false` bound for a string
      option is replaced by the option's default. */
  function Corrected(d: OptionDescriptor, newValue: Value): (r: Value)
    ensures r != newValue ==> newValue == Bool(false) && d.propType == PString && r == d.defaultValue
  {
    if newValue == Bool(false) && d.propType == PString then d.defaultValue else newValue
  }

  /** The value of the retry after ArgumentException: `false` becomes null when the
      option's default is null, anything else is retried as it was. */
  function Retried(d: OptionDescriptor, v: Value): (r: Value)
    ensures r == v || (r.Null? && v == Bool(false))
  {
    if v == Bool(false) && d.defaultValue.Null? then Null else v
  }

  /** The guarded write with its one retry. */
  function WriteValue(d: OptionDescriptor, newValue: Value, target: Target, props: map<string, Value>): (r: Result<map<string, Value>, Fault>)
    requires target.property in props
    ensures var v := Corrected(d, newValue);
      r.Success? <==> v.Null? || Assignable(target.propType, v) || (v == Bool(false) && d.defaultValue.Null?)
    ensures r.Failure? ==> r.error == ArgumentFault
    ensures r.Success? ==> r.value.Keys == props.Keys && Holds(target.propType, r.value[target.property])
    ensures r.Success? ==> forall k :: k in props && k != target.property ==> r.value[k] == props[k]
    ensures r.Success? && Holds(target.propType, Corrected(d, newValue)) ==> r.value == props[target.property := Corrected(d, newValue)]
    ensures r.Success? && !Holds(target.propType, Corrected(d, newValue)) ==> r.value == props[target.property := NullStoredAs(target.propType)]
  {
    var v := Corrected(d, newValue);
    match SetValue(target.propType, v)
    case Success(stored) => Success(props[target.property := stored])
    case Failure(_) =>
      match SetValue(target.propType, Retried(d, v))
      case Success(stored) => Success(props[target.property := stored])
      case Failure(f) => Failure(f)
  }

  /** Every property an option may be written to has a value. */
  predicate Fits(decls: seq<PropertyDecl>, props: map<string, Value>) {
    PropertyNames(decls) <= props.Keys
  }

  /** One iteration of LoadPostData, as written. */
  function ReconcileOption(d: OptionDescriptor, props: map<string, Value>, posted: map<string, Value>, decls: seq<PropertyDecl>, env: Env): (r: Result<map<string, Value>, Fault>)
    requires d.property in props && Fits(decls, props)
    ensures r.Success? ==> r.value.Keys == props.Keys
  {
    var current := props[d.property];
    var v := Decoded(d, PostedValue(d, posted), env);
    if !Differs(v, current) then Success(props)
    else
      var newValue :- Convert(d.converter, v, env);
      var target :- LinkTarget(d, newValue, decls);
      WriteValue(d, newValue, target, props)
  }

  /** Property values after a loop, and the fault that stopped it, if any. Writes made
      before a fault stay in place. */
  datatype Outcome = Outcome(props: map<string, Value>, fault: Option<Fault>)

  /** The LoadPostData loop over the options, as written. */
  function ReconcileAll(opts: seq<OptionDescriptor>, props: map<string, Value>, posted: map<string, Value>, decls: seq<PropertyDecl>, env: Env): (r: Outcome)
    requires OptionDiff.Covers(opts, props) && Fits(decls, props)
    ensures r.props.Keys == props.Keys
  {
    if |opts| == 0 then Outcome(props, None)
    else ReconcileStep(ReconcileAll(opts[..|opts| - 1], props, posted, decls, env), opts[|opts| - 1], posted, decls, env)
  }

  /** One iteration of the LoadPostData loop: nothing more happens after a fault. */
  function ReconcileStep(prev: Outcome, d: OptionDescriptor, posted: map<string, Value>, decls: seq<PropertyDecl>, env: Env): (r: Outcome)
    requires d.property in prev.props && Fits(decls, prev.props)
    ensures r.props.Keys == prev.props.Keys
    ensures prev.fault.Some? ==> r == prev
  {
    if prev.fault.Some? then prev
    else
      match ReconcileOption(d, prev.props, posted, decls, env)
      case Success(p) => Outcome(p, None)
      case Failure(f) => Outcome(prev.props, Some(f))
  }

  /** The reconciliation the comments describe: an option absent from the posted
      entry keeps its current value. */
  function ReconcileOptionIntended(d: OptionDescriptor, props: map<string, Value>, posted: map<string, Value>, decls: seq<PropertyDecl>, env: Env): (r: Result<map<string, Value>, Fault>)
    requires d.property in props && Fits(decls, props)
    ensures d.name !in posted ==> r == Success(props)
    ensures r.Success? ==> r.value.Keys == props.Keys
  {
    if d.name !in posted then Success(props) else ReconcileOption(d, props, posted, decls, env)
  }

  function ReconcileAllIntended(opts: seq<OptionDescriptor>, props: map<string, Value>, posted: map<string, Value>, decls: seq<PropertyDecl>, env: Env): (r: Outcome)
    requires OptionDiff.Covers(opts, props) && Fits(decls, props)
    ensures r.props.Keys == props.Keys
  {
    if |opts| == 0 then Outcome(props, None)
    else
      var prev := ReconcileAllIntended(opts[..|opts| - 1], props, posted, decls, env);
      if prev.fault.Some? then prev
      else
        match ReconcileOptionIntended(opts[|opts| - 1], prev.props, posted, decls, env)
        case Success(p) => Outcome(p, None)
        case Failure(f) => Outcome(prev.props, Some(f))
  }

  // ---------------------------------------------------------------------------
  // Defaults
  // ---------------------------------------------------------------------------

  /** One iteration of SetDefaultOptions: the default is written unless the property
      already holds it. */
  function DefaultOption(d: OptionDescriptor, props: map<string, Value>): (r: Result<map<string, Value>, Fault>)
    requires d.property in props
    ensures r.Success? ==> r.value.Keys == props.Keys
  {
    if d.defaultValue == props[d.property] then Success(props)
    else
      match SetValue(d.propType, d.defaultValue)
      case Success(stored) => Success(props[d.property := stored])
      case Failure(f) => Failure(f)
  }

  /** The SetDefaultOptions loop over the options. */
  function DefaultsAll(opts: seq<OptionDescriptor>, props: map<string, Value>): (r: Outcome)
    requires OptionDiff.Covers(opts, props)
    ensures r.props.Keys == props.Keys
  {
    if |opts| == 0 then Outcome(props, None)
    else DefaultStep(DefaultsAll(opts[..|opts| - 1], props), opts[|opts| - 1])
  }

  /** One iteration of the SetDefaultOptions loop: nothing more happens after a fault. */
  function DefaultStep(prev: Outcome, d: OptionDescriptor): (r: Outcome)
    requires d.property in prev.props
    ensures r.props.Keys == prev.props.Keys
    ensures prev.fault.Some? ==> r == prev
  {
    if prev.fault.Some? then prev
    else
      match DefaultOption(d, prev.props)
      case Success(p) => Outcome(p, None)
      case Failure(f) => Outcome(prev.props, Some(f))
  }

  // ---------------------------------------------------------------------------
  // Properties of one option's reconciliation
  // ---------------------------------------------------------------------------

  /** A `false` bound for a string option stores the option's default in its place;
      the write fails only for a default a string property cannot hold. */
  lemma StringFalseStoresDefault(d: OptionDescriptor, props: map<string, Value>)
    requires d.propType == PString && d.property in props
    ensures WriteValue(d, Bool(false), Target(d.property, PString), props)
         == if Holds(PString, d.defaultValue) then Success(props[d.property := d.defaultValue]) else Failure(ArgumentFault)
  {
  }

  /** A `false` bound for a non-string option whose default is null and whose target
      cannot hold a boolean is retried as null: the target ends up null, or zero for a
      value type, and no fault escapes. */
  lemma FalseWithNullDefaultRetried(d: OptionDescriptor, target: Target, props: map<string, Value>)
    requires d.defaultValue.Null? && d.propType != PString && target.property in props
    requires !Assignable(target.propType, Bool(false))
    ensures WriteValue(d, Bool(false), target, props) == Success(props[target.property := NullStoredAs(target.propType)])
  {
  }

  /** An HtmlEncoding option posted as an encoded string is stored decoded, once,
      when its converter passes the decoded text through (as the string converter
      does). */
  lemma EncodedTextDecodedOnce(d: OptionDescriptor, props: map<string, Value>, posted: map<string, Value>, decls: seq<PropertyDecl>, env: Env, encoded: string)
    requires d.property in props && Fits(decls, props)
    requires d.htmlEncoding && d.propType == PString && d.links == []
    requires Convert(d.converter, Str(env.htmlDecode(encoded)), env) == Success(Str(env.htmlDecode(encoded)))
    requires d.name in posted && posted[d.name] == Str(encoded)
    ensures ReconcileOption(d, props, posted, decls, env) == Success(props[d.property := Str(env.htmlDecode(encoded))])
  {
  }

  /** A posted value that differs from the current one and converts to `w` is
      written, corrected, to the option's own property when the option has no
      links; no other property changes. */
  lemma ConvertedValueStored(d: OptionDescriptor, props: map<string, Value>, posted: map<string, Value>, decls: seq<PropertyDecl>, env: Env, w: Value)
    requires d.property in props && Fits(decls, props) && d.links == []
    requires Differs(Decoded(d, PostedValue(d, posted), env), props[d.property])
    requires Convert(d.converter, Decoded(d, PostedValue(d, posted), env), env) == Success(w)
    requires Holds(d.propType, Corrected(d, w))
    ensures ReconcileOption(d, props, posted, decls, env) == Success(props[d.property := Corrected(d, w)])
  {
  }

  /** With exactly one link matching the converted value's runtime type, naming a
      declared property `p`, the corrected value is written to `p` instead; the
      option's own property keeps its value when it is not `p`. */
  lemma LinkedValueStored(d: OptionDescriptor, props: map<string, Value>, posted: map<string, Value>, decls: seq<PropertyDecl>, env: Env, w: Value, p: PropertyDecl)
    requires d.property in props && Fits(decls, props) && |d.links| > 0 && !w.Null?
    requires Differs(Decoded(d, PostedValue(d, posted), env), props[d.property])
    requires Convert(d.converter, Decoded(d, PostedValue(d, posted), env), env) == Success(w)
    requires |MatchingLinks(d.links, TypeOf(w).value)| == 1
    requires FindProperty(decls, MatchingLinks(d.links, TypeOf(w).value)[0].propertyName) == Some(p)
    requires Holds(p.propType, Corrected(d, w))
    ensures p.name in props
    ensures ReconcileOption(d, props, posted, decls, env) == Success(props[p.name := Corrected(d, w)])
    ensures p.name != d.property ==> ReconcileOption(d, props, posted, decls, env).value[d.property] == props[d.property]
  {
    assert LinkTarget(d, w, decls) == Success(Target(p.name, p.propType));
  }

  /** As written, an option absent from the posted entry is handed null: a non-null
      property is reset to null (zero for a value type), or the link lookup faults. */
  lemma AbsentKeyResetsProperty(d: OptionDescriptor, props: map<string, Value>, posted: map<string, Value>, decls: seq<PropertyDecl>, env: Env)
    requires d.property in props && Fits(decls, props)
    requires d.name !in posted && !props[d.property].Null?
    ensures ReconcileOption(d, props, posted, decls, env)
         == if |d.links| == 0 then Success(props[d.property := NullStoredAs(d.propType)]) else Failure(NullReferenceFault)
  {
    assert !Accepts(d.converter, None);
  }

  /** The concrete case: a progress bar at 40 whose posted entry omits "value" is put
      back to 0 as written, and keeps 40 under the intended reading. */
  lemma ProgressbarValueReset(env: Env)
    ensures var d := OptionDescriptor("value", Int(0), false, false, "Value", PInt, NoConverter, []);
      var props := map["Value" := Int(40)];
      && ReconcileOption(d, props, map[], [], env) == Success(map["Value" := Int(0)])
      && ReconcileOptionIntended(d, props, map[], [], env) == Success(props)
  {
    var d := OptionDescriptor("value", Int(0), false, false, "Value", PInt, NoConverter, []);
    var props := map["Value" := Int(40)];
    AbsentKeyResetsProperty(d, props, map[], [], env);
    assert props["Value" := Int(0)] == map["Value" := Int(0)];
  }

  /** A posted value that echoes the current one: once decoded and converted it is
      the property's current value, and no link redirects the write. */
  predicate Echoes(d: OptionDescriptor, props: map<string, Value>, posted: map<string, Value>, env: Env) {
    && d.property in props
    && d.name in posted
    && Holds(d.propType, props[d.property])
    && d.links == []
    && Convert(d.converter, Decoded(d, posted[d.name], env), env) == Success(props[d.property])
  }

  lemma EchoKeepsOption(d: OptionDescriptor, props: map<string, Value>, posted: map<string, Value>, decls: seq<PropertyDecl>, env: Env)
    requires Echoes(d, props, posted, env) && Fits(decls, props)
    ensures ReconcileOption(d, props, posted, decls, env) == Success(props)
  {
    var cur := props[d.property];
    if Differs(Decoded(d, posted[d.name], env), cur) {
      assert Corrected(d, cur) == cur;
      assert SetValue(d.propType, cur) == Success(cur);
      assert props[d.property := cur] == props;
    }
  }

  /** The plain echo: the posted value is the current value itself, the converter
      does not take it and decoding leaves it alone. */
  lemma SameValueEchoes(d: OptionDescriptor, props: map<string, Value>, posted: map<string, Value>, env: Env)
    requires d.property in props && d.name in posted && posted[d.name] == props[d.property]
    requires Holds(d.propType, props[d.property]) && d.links == []
    requires !Accepts(d.converter, TypeOf(props[d.property]))
    requires d.htmlEncoding && props[d.property].Str? ==> env.htmlDecode(props[d.property].s) == props[d.property].s
    ensures Echoes(d, props, posted, env)
  {
  }

  /** An int[] option posted back as the JSON array of its own elements (an
      ArrayList of boxed Int32) is an echo: the converter rebuilds the same int[]. */
  lemma IntArrayListEchoes(d: OptionDescriptor, props: map<string, Value>, posted: map<string, Value>, decls: seq<PropertyDecl>, env: Env, a: seq<int32>)
    requires d.property in props && Fits(decls, props) && props[d.property] == Int32ArrayConverter.IntArray(a)
    requires d.propType == PArray(EInt) && d.converter == Int32Array && d.links == []
    requires d.name in posted && posted[d.name] == List(Int32ArrayConverter.IntArray(a).items)
    ensures Echoes(d, props, posted, env)
    ensures ReconcileOption(d, props, posted, decls, env) == Success(props)
  {
    var v := Decoded(d, posted[d.name], env);
    var r := Convert(d.converter, v, env);
    assert r.Success? by {
      assert Int32ArrayConverter.CanConvertFrom(TypeOf(v));
      assert Int32ArrayConverter.ConvertFromList(v.items).Success?;
    }
    assert r.value == Int32ArrayConverter.IntArray(a);
    EchoKeepsOption(d, props, posted, decls, env);
  }

  /** An int[] option posted back as its own comma rendering is an echo when the
      array is not empty (the empty array renders as text that does not parse). */
  lemma IntArrayTextEchoes(d: OptionDescriptor, props: map<string, Value>, posted: map<string, Value>, decls: seq<PropertyDecl>, env: Env, a: seq<int32>)
    requires |a| >= 1
    requires d.property in props && Fits(decls, props) && props[d.property] == Int32ArrayConverter.IntArray(a)
    requires d.propType == PArray(EInt) && d.converter == Int32Array && d.links == []
    requires d.name in posted && posted[d.name] == Str(Int32ArrayConverter.ConvertToString(a))
    requires d.htmlEncoding ==> env.htmlDecode(Int32ArrayConverter.ConvertToString(a)) == Int32ArrayConverter.ConvertToString(a)
    ensures Echoes(d, props, posted, env)
    ensures ReconcileOption(d, props, posted, decls, env) == Success(props)
  {
    Int32ArrayConverter.RoundTrip(a);
    EchoKeepsOption(d, props, posted, decls, env);
  }

  // ---------------------------------------------------------------------------
  // Properties of the loop
  // ---------------------------------------------------------------------------

  /** A postback that echoes every option's current value changes nothing. */
  lemma {:induction false} EchoKeepsAll(opts: seq<OptionDescriptor>, props: map<string, Value>, posted: map<string, Value>, decls: seq<PropertyDecl>, env: Env)
    requires OptionDiff.Covers(opts, props) && Fits(decls, props)
    requires forall i :: 0 <= i < |opts| ==> Echoes(opts[i], props, posted, env)
    ensures ReconcileAll(opts, props, posted, decls, env) == Outcome(props, None)
  {
    if |opts| > 0 {
      var init := opts[..|opts| - 1];
      EchoKeepsAll(init, props, posted, decls, env);
      EchoKeepsOption(opts[|opts| - 1], props, posted, decls, env);
    }
  }

  /** Under the intended reading, options the entry omits keep their values, so a
      postback whose entry holds only echoes (or nothing) changes nothing. */
  lemma {:induction false} IntendedKeepsUnchanged(opts: seq<OptionDescriptor>, props: map<string, Value>, posted: map<string, Value>, decls: seq<PropertyDecl>, env: Env)
    requires OptionDiff.Covers(opts, props) && Fits(decls, props)
    requires forall i :: 0 <= i < |opts| ==> opts[i].name !in posted || Echoes(opts[i], props, posted, env)
    ensures ReconcileAllIntended(opts, props, posted, decls, env) == Outcome(props, None)
  {
    if |opts| > 0 {
      var init := opts[..|opts| - 1];
      var d := opts[|opts| - 1];
      IntendedKeepsUnchanged(init, props, posted, decls, env);
      if d.name in posted {
        EchoKeepsOption(d, props, posted, decls, env);
      }
    }
  }

  // ---------------------------------------------------------------------------
  // Properties of the defaults pass
  // ---------------------------------------------------------------------------

  /** A default the option's setter accepts. */
  predicate DefaultSettable(d: OptionDescriptor) {
    d.defaultValue.Null? || Assignable(d.propType, d.defaultValue)
  }

  /** What the property holds once its default is written. */
  function StoredDefault(d: OptionDescriptor): Value {
    if d.defaultValue.Null? then NullStoredAs(d.propType) else d.defaultValue
  }

  /** Every option's property holds a value of its declared type. */
  predicate Conforms(opts: seq<OptionDescriptor>, props: map<string, Value>) {
    forall i :: 0 <= i < |opts| ==> opts[i].property in props && Holds(opts[i].propType, props[opts[i].property])
  }

  predicate NotAnOptionProperty(opts: seq<OptionDescriptor>, k: string) {
    forall i :: 0 <= i < |opts| ==> opts[i].property != k
  }

  /** One default write on a property holding a value of its type: it fails exactly
      for a default of the wrong type, and otherwise leaves the default stored. */
  lemma DefaultOptionEffect(d: OptionDescriptor, props: map<string, Value>)
    requires d.property in props && Holds(d.propType, props[d.property])
    ensures DefaultOption(d, props).Success? <==> DefaultSettable(d)
    ensures DefaultOption(d, props).Failure? ==> DefaultOption(d, props).error == ArgumentFault
    ensures DefaultOption(d, props).Success? ==> DefaultOption(d, props).value == props[d.property := StoredDefault(d)]
  {
    if d.defaultValue == props[d.property] {
      assert props[d.property := StoredDefault(d)] == props;
    }
  }

  /** The defaults pass touches only the properties that back options. */
  lemma {:induction false} DefaultsTouchOnlyOptions(opts: seq<OptionDescriptor>, props: map<string, Value>, k: string)
    requires OptionDiff.Covers(opts, props)
    requires k in props && NotAnOptionProperty(opts, k)
    ensures DefaultsAll(opts, props).props[k] == props[k]
  {
    if |opts| > 0 {
      var n := |opts| - 1;
      assert forall i :: 0 <= i < n ==> opts[..n][i] == opts[i];
      DefaultsTouchOnlyOptions(opts[..n], props, k);
    }
  }

  /** After the defaults pass every option property holds its default, unless some
      default is of the wrong type, in which case ArgumentException stops the pass. */
  lemma DefaultsApplied(opts: seq<OptionDescriptor>, props: map<string, Value>)
    requires OptionDiff.Covers(opts, props) && DistinctProperties(opts) && Conforms(opts, props)
    ensures var r := DefaultsAll(opts, props);
      && (r.fault.None? <==> forall i :: 0 <= i < |opts| ==> DefaultSettable(opts[i]))
      && (r.fault.Some? ==> r.fault.value == ArgumentFault)
      && (r.fault.None? ==> forall i :: 0 <= i < |opts| ==> r.props[opts[i].property] == StoredDefault(opts[i]))
  {
    DefaultsFault(opts, props);
    DefaultsStored(opts, props);
  }

  /** The next option's property still holds its initial value when its turn comes. */
  lemma DefaultsReachLast(opts: seq<OptionDescriptor>, props: map<string, Value>)
    requires OptionDiff.Covers(opts, props) && DistinctProperties(opts) && Conforms(opts, props) && |opts| > 0
    ensures var n := |opts| - 1;
      && OptionDiff.Covers(opts[..n], props) && DistinctProperties(opts[..n]) && Conforms(opts[..n], props)
      && DefaultsAll(opts[..n], props).props[opts[n].property] == props[opts[n].property]
      && Holds(opts[n].propType, DefaultsAll(opts[..n], props).props[opts[n].property])
  {
    var n := |opts| - 1;
    var init := opts[..n];
    assert forall i :: 0 <= i < n ==> init[i] == opts[i];
    DefaultsTouchOnlyOptions(init, props, opts[n].property);
  }

  lemma {:induction false} DefaultsFault(opts: seq<OptionDescriptor>, props: map<string, Value>)
    requires OptionDiff.Covers(opts, props) && DistinctProperties(opts) && Conforms(opts, props)
    ensures var r := DefaultsAll(opts, props);
      && (r.fault.None? <==> forall i :: 0 <= i < |opts| ==> DefaultSettable(opts[i]))
      && (r.fault.Some? ==> r.fault.value == ArgumentFault)
  {
    if |opts| > 0 {
      var n := |opts| - 1;
      var init := opts[..n];
      DefaultsReachLast(opts, props);
      DefaultsFault(init, props);
      var prev := DefaultsAll(init, props);
      if prev.fault.None? {
        DefaultOptionEffect(opts[n], prev.props);
      }
      assert forall i :: 0 <= i < n ==> init[i] == opts[i];
    }
  }

  lemma {:induction false} DefaultsStored(opts: seq<OptionDescriptor>, props: map<string, Value>)
    requires OptionDiff.Covers(opts, props) && DistinctProperties(opts) && Conforms(opts, props)
    ensures var r := DefaultsAll(opts, props);
      r.fault.None? ==> forall i :: 0 <= i < |opts| ==> r.props[opts[i].property] == StoredDefault(opts[i])
  {
    if |opts| > 0 {
      var n := |opts| - 1;
      var init := opts[..n];
      var d := opts[n];
      DefaultsReachLast(opts, props);
      DefaultsStored(init, props);
      var prev := DefaultsAll(init, props);
      var r := DefaultsAll(opts, props);
      if r.fault.None? {
        assert prev.fault.None?;
        DefaultOptionEffect(d, prev.props);
        assert r.props == prev.props[d.property := StoredDefault(d)];
        forall i | 0 <= i < |opts| ensures r.props[opts[i].property] == StoredDefault(opts[i]) {
          if i < n {
            assert init[i] == opts[i];
            assert opts[i].property != d.property;
          }
        }
      }
    }
  }

  /** A default that its own property can hold, so that writing it stores it
      unchanged. */
  predicate DefaultConforms(d: OptionDescriptor) {
    Holds(d.propType, d.defaultValue)
  }

  /** Defaults then render: once the defaults pass has run, no option is emitted. */
  lemma DefaultsThenNothingEmitted(opts: seq<OptionDescriptor>, props: map<string, Value>)
    requires OptionDiff.Covers(opts, props) && DistinctProperties(opts) && Conforms(opts, props)
    requires forall i :: 0 <= i < |opts| ==> DefaultConforms(opts[i])
    ensures DefaultsAll(opts, props).fault.None?
    ensures OptionDiff.Diff(opts, DefaultsAll(opts, props).props) == []
  {
    DefaultsApplied(opts, props);
    var r := DefaultsAll(opts, props);
    forall i | 0 <= i < |opts| ensures r.props[opts[i].property] == opts[i].defaultValue {
      assert DefaultConforms(opts[i]);
    }
    OptionDiff.AllDefaultsEmitNothing(opts, r.props);
  }

  /** Once an option faults, the loop stops: later options are not reconciled and
      the writes made before the fault stay. */
  lemma {:induction false} ReconcileFaultStops(opts: seq<OptionDescriptor>, props: map<string, Value>, posted: map<string, Value>, decls: seq<PropertyDecl>, env: Env, k: nat)
    requires OptionDiff.Covers(opts, props) && Fits(decls, props) && k <= |opts|
    requires ReconcileAll(opts[..k], props, posted, decls, env).fault.Some?
    ensures ReconcileAll(opts, props, posted, decls, env) == ReconcileAll(opts[..k], props, posted, decls, env)
  {
    if k < |opts| {
      var n := |opts| - 1;
      assert opts[..n][..k] == opts[..k];
      ReconcileFaultStops(opts[..n], props, posted, decls, env, k);
    } else {
      assert opts[..k] == opts;
    }
  }

  /** The same holds under the intended reading. */
  lemma {:induction false} IntendedFaultStops(opts: seq<OptionDescriptor>, props: map<string, Value>, posted: map<string, Value>, decls: seq<PropertyDecl>, env: Env, k: nat)
    requires OptionDiff.Covers(opts, props) && Fits(decls, props) && k <= |opts|
    requires ReconcileAllIntended(opts[..k], props, posted, decls, env).fault.Some?
    ensures ReconcileAllIntended(opts, props, posted, decls, env) == ReconcileAllIntended(opts[..k], props, posted, decls, env)
  {
    if k < |opts| {
      var n := |opts| - 1;
      assert opts[..n][..k] == opts[..k];
      IntendedFaultStops(opts[..n], props, posted, decls, env, k);
    } else {
      assert opts[..k] == opts;
    }
  }

  /** The defaults pass stops at the first fault in the same way. */
  lemma {:induction false} DefaultsFaultStops(opts: seq<OptionDescriptor>, props: map<string, Value>, k: nat)
    requires OptionDiff.Covers(opts, props) && k <= |opts|
    requires DefaultsAll(opts[..k], props).fault.Some?
    ensures DefaultsAll(opts, props) == DefaultsAll(opts[..k], props)
  {
    if k < |opts| {
      var n := |opts| - 1;
      var prefix := opts[..n];
      assert prefix[..k] == opts[..k];
      DefaultsFaultStops(prefix, props, k);
    } else {
      assert opts[..k] == opts;
    }
  }

  /** When the posted entry names every option, the reconciliation as written and the
      intended one agree. */
  lemma {:induction false} IntendedAgreesWhenAllPosted(opts: seq<OptionDescriptor>, props: map<string, Value>, posted: map<string, Value>, decls: seq<PropertyDecl>, env: Env)
    requires OptionDiff.Covers(opts, props) && Fits(decls, props)
    requires forall i :: 0 <= i < |opts| ==> opts[i].name in posted
    ensures ReconcileAllIntended(opts, props, posted, decls, env) == ReconcileAll(opts, props, posted, decls, env)
  {
    if |opts| > 0 {
      var n := |opts| - 1;
      assert forall i :: 0 <= i < n ==> opts[..n][i] == opts[i];
      IntendedAgreesWhenAllPosted(opts[..n], props, posted, decls, env);
    }
  }
}
