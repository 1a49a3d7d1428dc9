/** Explicit descriptor tables that stand in for the reflected metadata of a widget
    type, and the records the engine exchanges (WidgetEvent, PostBackHash, the page
    entry of one widget and its rendered form). */
module Descriptors {
  import opened Wrappers
  import opened Values

  /** The converter attached to a property. NoConverter is the base TypeConverter,
      whose CanConvertFrom accepts none of the values modelled here. Library
      converters (string, string array, JSON object converters) are known by name and
      by the source types their CanConvertFrom accepts; their conversion itself is a
      parameter of the model. */
  datatype Converter =
    | NoConverter
    | Int32Array
    | Library(name: string, accepts: set<TypeTag>)

  /** `[PropertyLink]`: when the converted value has runtime type `targetType`, write
      it to the property named `propertyName` instead. */
  datatype PropertyLink = PropertyLink(targetType: TypeTag, propertyName: string)

  /** `[WidgetOption]` on a property. */
  datatype OptionAttr = OptionAttr(name: string, defaultValue: Value, htmlEncoding: bool, requiresEval: bool)

  /** One property of a widget type, with what the engine reads from its metadata. */
  datatype PropertyDecl = PropertyDecl(
    name: string,
    propType: PropType,
    converter: Converter,
    links: seq<PropertyLink>,
    option: Option<OptionAttr>)

  /** A widget option: a property together with its `[WidgetOption]`. */
  datatype OptionDescriptor = OptionDescriptor(
    name: string,
    defaultValue: Value,
    htmlEncoding: bool,
    requiresEval: bool,
    property: string,
    propType: PropType,
    converter: Converter,
    links: seq<PropertyLink>)

  /** `[WidgetEvent]` on an event member. */
  datatype EventAttr = EventAttr(name: string, autoPostBack: bool, dataChangedHandler: bool)

  /** An event member of a widget type; `member` also names its delegate field. */
  datatype EventDecl = EventDecl(member: string, attr: Option<EventAttr>)

  /** What reflection yields for one widget type: its properties and event members in
      declaration order, and the `[WidgetEvent]` names declared on the class. */
  datatype WidgetType = WidgetType(
    tag: string,
    properties: seq<PropertyDecl>,
    events: seq<EventDecl>,
    classEvents: seq<string>)

  /** WidgetEvent (WidgetEvent.cs). */
  datatype WidgetEvent = WidgetEvent(name: string, causesPostBack: bool, dataChangedEvent: bool)

  /** PostBackHash (PostBackHash.cs): one entry of the posted bundle; a missing
      Options dictionary is None. */
  datatype PostBackHash = PostBackHash(controlId: string, widgetName: string, options: Option<map<string, Value>>)

  /** An ordered dictionary entry of the rendered options. */
  datatype OptionEntry = OptionEntry(key: string, value: Value)

  /** The page-level record of one widget at render time. */
  datatype WidgetHash = WidgetHash(
    widgetName: string,
    clientId: string,
    uniqueId: string,
    options: seq<OptionEntry>,
    encodedOptions: seq<string>,
    events: seq<WidgetEvent>)

  /** `{ name, dataChangedEvent }` of a postback-causing event. */
  datatype PostBackRef = PostBackRef(name: string, dataChangedEvent: bool)

  /** One element of the client payload. */
  datatype RenderedItem = RenderedItem(
    widgetName: string,
    id: string,
    uniqueId: string,
    options: seq<OptionEntry>,
    encodedOptions: seq<string>,
    events: seq<string>,
    postBacks: seq<PostBackRef>)

  function PropertyNames(props: seq<PropertyDecl>): (r: set<string>)
    ensures forall i :: 0 <= i < |props| ==> props[i].name in r
    ensures forall n :: n in r ==> exists i :: 0 <= i < |props| && props[i].name == n
  {
    if |props| == 0 then {} else {props[0].name} + PropertyNames(props[1..])
  }

  /** No two properties share a name (true of a .NET type). */
  predicate DistinctNames(props: seq<PropertyDecl>) {
    forall i, j :: 0 <= i < j < |props| ==> props[i].name != props[j].name
  }

  /** The property of that name, if any (`SingleOrDefault` by name). */
  function FindProperty(props: seq<PropertyDecl>, name: string): (r: Option<PropertyDecl>)
    ensures r.Some? ==> r.value in props && r.value.name == name
    ensures r.None? <==> name !in PropertyNames(props)
  {
    if |props| == 0 then None
    else if props[0].name == name then Some(props[0])
    else FindProperty(props[1..], name)
  }

  function Describe(p: PropertyDecl): OptionDescriptor
    requires p.option.Some?
  {
    var a := p.option.value;
    OptionDescriptor(a.name, a.defaultValue, a.htmlEncoding, a.requiresEval, p.name, p.propType, p.converter, p.links)
  }

  /** The option list reflection computes for a type: one descriptor per property that
      carries `[WidgetOption]`, in declaration order. */
  function Reflect(props: seq<PropertyDecl>): (r: seq<OptionDescriptor>)
    ensures |r| <= |props|
    ensures forall d :: d in r ==> d.property in PropertyNames(props)
  {
    if |props| == 0 then []
    else if props[0].option.Some? then [Describe(props[0])] + Reflect(props[1..])
    else Reflect(props[1..])
  }

  function OptionsOf(t: WidgetType): seq<OptionDescriptor> {
    Reflect(t.properties)
  }

  /** Reflection keeps exactly the properties that carry `[WidgetOption]`. */
  lemma {:induction false} ReflectMembers(props: seq<PropertyDecl>)
    ensures forall d :: d in Reflect(props) ==> exists p :: p in props && p.option.Some? && d == Describe(p)
    ensures forall p :: p in props && p.option.Some? ==> Describe(p) in Reflect(props)
  {
    if |props| > 0 {
      ReflectMembers(props[1..]);
      forall p | p in props && p.option.Some? && p != props[0]
        ensures p in props[1..]
      {
        var k :| 0 <= k < |props| && props[k] == p;
        assert props[1..][k - 1] == p;
      }
    }
  }

  /** No two options are backed by the same property. */
  predicate DistinctProperties(opts: seq<OptionDescriptor>) {
    forall i, j :: 0 <= i < j < |opts| ==> opts[i].property != opts[j].property
  }

  /** Distinct properties back distinct options. */
  lemma {:induction false} ReflectDistinctProperties(props: seq<PropertyDecl>)
    requires DistinctNames(props)
    ensures DistinctProperties(Reflect(props))
  {
    if |props| > 0 {
      var tail := props[1..];
      assert DistinctNames(tail);
      ReflectDistinctProperties(tail);
      var rest := Reflect(tail);
      assert props[0].name !in PropertyNames(tail);
      var r := Reflect(props);
      if props[0].option.Some? {
        assert r == [Describe(props[0])] + rest;
        forall i, j | 0 <= i < j < |r| ensures r[i].property != r[j].property {
          assert r[j] == rest[j - 1];
          if i > 0 {
            assert r[i] == rest[i - 1];
          } else {
            assert r[0].property == props[0].name;
            assert r[j] in rest;
            assert r[j].property in PropertyNames(tail);
          }
        }
      } else {
        assert r == rest;
      }
    }
  }

  /** Every option's property is a declared property, with the declared type,
      converter and links. */
  lemma ReflectMatchesDeclaration(props: seq<PropertyDecl>, d: OptionDescriptor)
    requires DistinctNames(props)
    requires d in Reflect(props)
    ensures FindProperty(props, d.property).Some?
    ensures var p := FindProperty(props, d.property).value;
      p.option.Some? && d == Describe(p)
  {
    ReflectMembers(props);
    var p :| p in props && p.option.Some? && d == Describe(p);
    FindDistinct(props, p);
  }

  lemma {:induction false} FindDistinct(props: seq<PropertyDecl>, p: PropertyDecl)
    requires DistinctNames(props) && p in props
    ensures FindProperty(props, p.name) == Some(p)
  {
    if props[0] != p {
      assert p in props[1..];
      var k :| 0 <= k < |props[1..]| && props[1..][k] == p;
      assert props[k + 1] == p;
      FindDistinct(props[1..], p);
    }
  }
}
