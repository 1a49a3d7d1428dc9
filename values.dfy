/** Runtime values that flow between widget properties, the rendered options and the
    posted bundle, with the .NET runtime types the engine inspects. */
module Values {
  import opened Wrappers

  /** A 32-bit signed integer, the width of System.Int32. */
  newtype int32 = x: int | -0x8000_0000 <= x < 0x8000_0000

  const MinInt32: int := -0x8000_0000
  const MaxInt32: int := 0x7FFF_FFFF

  /** Element type of a .NET array (int[], string[], object[]). */
  datatype ElemType = EInt | EString | EObject

  /** A boxed .NET object, or null.
      Arr is a typed .NET array, List an ArrayList (what the JSON reader produces for
      arrays), Other an object of any further runtime type (a posted JSON object, a
      date), told apart by an identity, and EvalMarker the anonymous
      `{ eval = true, on = value }` object that marks script-valued options. */
  datatype Value =
    | Null
    | Bool(b: bool)
    | Int(i: int32)
    | Str(s: string)
    | Arr(elem: ElemType, items: seq<Value>)
    | List(items: seq<Value>)
    | Other(typeName: string, id: nat)
    | EvalMarker(on: Value)

  /** Runtime type of a non-null value (`value.GetType()`). */
  datatype TypeTag =
    | TBool
    | TInt
    | TString
    | TArray(elem: ElemType)
    | TArrayList
    | TOther(name: string)
    | TEvalMarker

  /** `value == null ? null : value.GetType()` */
  function TypeOf(v: Value): (r: Option<TypeTag>)
    ensures r.None? <==> v.Null?
  {
    match v
    case Null => None
    case Bool(_) => Some(TBool)
    case Int(_) => Some(TInt)
    case Str(_) => Some(TString)
    case Arr(e, _) => Some(TArray(e))
    case List(_) => Some(TArrayList)
    case Other(n, _) => Some(TOther(n))
    case EvalMarker(_) => Some(TEvalMarker)
  }

  /** Declared type of a widget property. */
  datatype PropType =
    | PObject
    | PBool
    | PInt
    | PString
    | PArray(elem: ElemType)
    | PNamed(name: string)

  /** Faults (exceptions) that the engine lets propagate to the request. */
  datatype Fault =
    | ArgumentFault          // ArgumentException: a value of the wrong type handed to a property setter
    | FormatFault            // FormatException from Int32.Parse
    | OverflowFault          // OverflowException from Int32.Parse
    | InvalidCastFault       // InvalidCastException from ArrayList.ToArray(typeof(int))
    | NotSupportedFault      // NotSupportedException from TypeConverter's base conversions
    | NullReferenceFault     // NullReferenceException
    | InvalidOperationFault  // InvalidOperationException from SingleOrDefault over several matches
    | ConverterFault         // any fault raised inside a converter this model does not see

  /** True when the setter of a property of type `t` accepts the non-null value `v`
      without a conversion. */
  predicate Assignable(t: PropType, v: Value) {
    match t
    case PObject => true
    case PBool => v.Bool?
    case PInt => v.Int?
    case PString => v.Str?
    case PArray(e) => v.Arr? && v.elem == e
    case PNamed(n) => v.Other? && v.typeName == n
  }

  /** The value a property of type `t` holds after its setter is invoked with null:
      reflection passes a zero-initialised instance for a value-type parameter, the
      `default(T)` of its type. */
  function NullStoredAs(t: PropType): (r: Value)
    ensures r.Null? <==> !(t.PBool? || t.PInt?)
    ensures !r.Null? ==> Assignable(t, r)
    ensures t.PBool? ==> r == Bool(false)
    ensures t.PInt? ==> r == Int(0)
  {
    match t
    case PBool => Bool(false)
    case PInt => Int(0)
    case _ => Null
  }

  /** A value a property of type `t` can hold. */
  predicate Holds(t: PropType, v: Value) {
    if v.Null? then !(t.PBool? || t.PInt?) else Assignable(t, v)
  }

  /** `PropertyDescriptor.SetValue`: the value the property holds afterwards, or the
      ArgumentException raised for a value of the wrong runtime type. */
  function SetValue(t: PropType, v: Value): (r: Result<Value, Fault>)
    ensures r.Success? <==> (v.Null? || Assignable(t, v))
    ensures r.Failure? ==> r.error == ArgumentFault
    ensures r.Success? ==> Holds(t, r.value)
    ensures r.Success? && Holds(t, v) ==> r.value == v
    ensures v.Null? ==> r == Success(NullStoredAs(t))
  {
    if v.Null? then Success(NullStoredAs(t))
    else if Assignable(t, v) then Success(v)
    else Failure(ArgumentFault)
  }
}
