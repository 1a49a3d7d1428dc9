/** The type converter that turns a posted comma list (or a JSON array) into an int[]
    and renders an int[] back as a comma list (Int32ArrayConverter). */
module Int32ArrayConverter {
  import opened Wrappers
  import opened Values

  // ---------------------------------------------------------------------------
  // Capability queries
  // ---------------------------------------------------------------------------

  /** Rendering is offered to string only (the base converter adds nothing else). */
  predicate CanConvertTo(destination: TypeTag) {
    destination == TString
  }

  /** Reading is offered from a string and from an ArrayList; the base converter's
      InstanceDescriptor source never occurs among the values modelled here. */
  predicate CanConvertFrom(source: Option<TypeTag>) {
    source == Some(TString) || source == Some(TArrayList)
  }

  // ---------------------------------------------------------------------------
  // Text helpers: bracket stripping, splitting and joining on commas
  // ---------------------------------------------------------------------------

  /** Drops one leading '[' if present, then, independently, one trailing ']'. */
  function StripBrackets(s: string): string {
    var a := if |s| > 0 && s[0] == '[' then s[1..] else s;
    if |a| > 0 && a[|a| - 1] == ']' then a[..|a| - 1] else a
  }

  function CountChar(s: string, c: char): nat {
    if |s| == 0 then 0 else (if s[0] == c then 1 else 0) + CountChar(s[1..], c)
  }

  /** `String.Split(',')`: the pieces between commas, empty pieces included. */
  function Split(s: string): (r: seq<string>)
    ensures |r| >= 1
    ensures forall i :: 0 <= i < |r| ==> ',' !in r[i]
  {
    if |s| == 0 then [""]
    else
      var rest := Split(s[1..]);
      if s[0] == ',' then [""] + rest
      else [[s[0]] + rest[0]] + rest[1..]
  }

  /** `String.Join(",", pieces)`: exactly one comma between neighbouring pieces. */
  function Join(pieces: seq<string>): (r: string)
    ensures (forall i :: 0 <= i < |pieces| ==> ',' !in pieces[i]) ==>
      CountChar(r, ',') == if |pieces| == 0 then 0 else |pieces| - 1
  {
    if |pieces| == 0 then ""
    else if |pieces| == 1 then
      if ',' in pieces[0] then pieces[0] else CountCharAbsent(pieces[0], ','); pieces[0]
    else
      CountCharAppend(pieces[0] + ",", Join(pieces[1..]), ',');
      CountCharAppend(pieces[0], ",", ',');
      if ',' in pieces[0] then pieces[0] + "," + Join(pieces[1..])
      else
        CountCharAbsent(pieces[0], ',');
        pieces[0] + "," + Join(pieces[1..])
  }

  lemma {:induction false} CountCharAppend(a: string, b: string, c: char)
    ensures CountChar(a + b, c) == CountChar(a, c) + CountChar(b, c)
  {
    if |a| > 0 {
      assert (a + b)[1..] == a[1..] + b;
      CountCharAppend(a[1..], b, c);
    } else {
      assert a + b == b;
    }
  }

  lemma {:induction false} CountCharAbsent(a: string, c: char)
    requires c !in a
    ensures CountChar(a, c) == 0
  {
    if |a| > 0 {
      CountCharAbsent(a[1..], c);
    }
  }

  // ---------------------------------------------------------------------------
  // Int32 text form, invariant culture
  // ---------------------------------------------------------------------------

  predicate IsDigit(c: char) {
    '0' <= c <= '9'
  }

  predicate AllDigits(s: string) {
    forall i :: 0 <= i < |s| ==> IsDigit(s[i])
  }

  /** The white space NumberStyles.Integer tolerates around a number:
      U+0009 to U+000D and U+0020. */
  predicate IsWhite(c: char) {
    c == ' ' || '\t' <= c <= '\r'
  }

  function TrimStart(s: string): string {
    if |s| > 0 && IsWhite(s[0]) then TrimStart(s[1..]) else s
  }

  function TrimEnd(s: string): string {
    if |s| > 0 && IsWhite(s[|s| - 1]) then TrimEnd(s[..|s| - 1]) else s
  }

  function DigitChar(d: nat): (c: char)
    requires d < 10
    ensures IsDigit(c) && c as int - '0' as int == d
  {
    ('0' as int + d) as char
  }

  /** Value of a decimal digit string, most significant digit first. */
  function DigitsValue(s: string): nat
    requires AllDigits(s)
  {
    if |s| == 0 then 0
    else DigitsValue(s[..|s| - 1]) * 10 + (s[|s| - 1] as int - '0' as int)
  }

  /** Shortest decimal digit string of n. */
  function DecimalDigits(n: nat): (r: string)
    ensures |r| > 0 && AllDigits(r)
  {
    if n < 10 then [DigitChar(n)] else DecimalDigits(n / 10) + [DigitChar(n % 10)]
  }

  /** `Int32.ToString(CultureInfo.InvariantCulture)`. */
  function Render(i: int32): (r: string)
    ensures |r| > 0 && (r[0] == '-' || IsDigit(r[0])) && IsDigit(r[|r| - 1])
    ensures ',' !in r
  {
    if i < 0 then "-" + DecimalDigits(-(i as int)) else DecimalDigits(i as int)
  }

  /** `Int32.Parse(s, CultureInfo.InvariantCulture)` with NumberStyles.Integer:
      optional white space, an optional sign, one or more decimal digits, optional
      white space; a malformed text raises FormatException and a number outside the
      Int32 range OverflowException. */
  function ParseInt32(s: string): (r: Result<int32, Fault>)
    ensures r.Failure? ==> r.error == FormatFault || r.error == OverflowFault
  {
    var t := TrimEnd(TrimStart(s));
    var negative := |t| > 0 && t[0] == '-';
    var digits := if |t| > 0 && (t[0] == '-' || t[0] == '+') then t[1..] else t;
    if |digits| == 0 || !AllDigits(digits) then Failure(FormatFault)
    else
      var magnitude: int := DigitsValue(digits);
      var v: int := if negative then -magnitude else magnitude;
      if MinInt32 <= v <= MaxInt32 then Success(v as int32) else Failure(OverflowFault)
  }

  /** `pieces.Select(int.Parse).ToArray()`: every piece parsed in order; the first
      piece that does not parse raises its fault. */
  function ParseAll(pieces: seq<string>): (r: Result<seq<int32>, Fault>)
    ensures r.Success? <==> forall i :: 0 <= i < |pieces| ==> ParseInt32(pieces[i]).Success?
    ensures r.Success? ==> |r.value| == |pieces|
    ensures r.Success? ==> forall i :: 0 <= i < |pieces| ==> ParseInt32(pieces[i]) == Success(r.value[i])
    ensures r.Failure? ==> exists i :: 0 <= i < |pieces| && ParseInt32(pieces[i]) == Failure(r.error)
    ensures r.Failure? ==> r.error == FormatFault || r.error == OverflowFault
  {
    if |pieces| == 0 then Success([])
    else
      match ParseInt32(pieces[0])
      case Failure(e) => Failure(e)
      case Success(head) =>
        match ParseAll(pieces[1..])
        case Failure(e) => Failure(e)
        case Success(tail) => Success([head] + tail)
  }

  // ---------------------------------------------------------------------------
  // Conversions
  // ---------------------------------------------------------------------------

  /** The int[] value holding `a`: reading its items back as integers gives `a`. */
  function IntArray(a: seq<int32>): (v: Value)
    ensures v.Arr? && v.elem == EInt && |v.items| == |a|
    ensures forall i :: 0 <= i < |a| ==> v.items[i] == Int(a[i])
    ensures IntsOf(v.items) == Some(a)
  {
    var v := Arr(EInt, seq(|a|, i requires 0 <= i < |a| => Int(a[i])));
    assert IntsOf(v.items).value == a;
    v
  }

  /** The integers of a sequence of values, when every one is a boxed Int32. */
  function IntsOf(items: seq<Value>): (r: Option<seq<int32>>)
    ensures r.Some? <==> forall i :: 0 <= i < |items| ==> items[i].Int?
    ensures r.Some? ==> |r.value| == |items| && forall i :: 0 <= i < |items| ==> items[i] == Int(r.value[i])
  {
    if |items| == 0 then Some([])
    else if !items[0].Int? then None
    else
      match IntsOf(items[1..])
      case None => None
      case Some(tail) => Some([items[0].i] + tail)
  }

  /** ConvertFrom on a string: strip the brackets, split on commas, parse each piece.
      A success has one integer per comma-separated piece; a failure is a
      FormatException or an OverflowException from Int32.Parse. */
  function ConvertFromString(s: string): (r: Result<seq<int32>, Fault>)
    ensures r.Success? ==> |r.value| == CountChar(StripBrackets(s), ',') + 1
    ensures r.Failure? ==> r.error == FormatFault || r.error == OverflowFault
  {
    SplitCount(StripBrackets(s));
    ParseAll(Split(StripBrackets(s)))
  }

  /** ConvertFrom on an ArrayList: `list.ToArray(typeof(int))`, which raises
      InvalidCastException unless every element is a boxed Int32. */
  function ConvertFromList(items: seq<Value>): (r: Result<seq<int32>, Fault>)
    ensures r.Success? <==> forall i :: 0 <= i < |items| ==> items[i].Int?
    ensures r.Success? ==> |r.value| == |items| && forall i :: 0 <= i < |items| ==> items[i] == Int(r.value[i])
    ensures r.Failure? ==> r.error == InvalidCastFault
  {
    match IntsOf(items)
    case Some(a) => Success(a)
    case None => Failure(InvalidCastFault)
  }

  /** ConvertFrom on any value; a source other than a string or an ArrayList falls to
      the base converter, which raises NotSupportedException. */
  function ConvertFrom(v: Value): (r: Result<Value, Fault>)
    ensures r.Success? ==> r.value.Arr? && r.value.elem == EInt && IntsOf(r.value.items).Some?
    ensures v.Str? && r.Failure? ==> r.error == FormatFault || r.error == OverflowFault
    ensures v.List? ==> (r.Success? <==> forall i :: 0 <= i < |v.items| ==> v.items[i].Int?)
    ensures v.List? && r.Success? ==> r.value.items == v.items
    ensures v.List? && r.Failure? ==> r.error == InvalidCastFault
    ensures !v.Str? && !v.List? ==> r == Failure(NotSupportedFault)
  {
    match v
    case Str(s) =>
      (match ConvertFromString(s)
       case Success(a) => Success(IntArray(a))
       case Failure(e) => Failure(e))
    case List(items) =>
      (match ConvertFromList(items)
       case Success(a) => Success(IntArray(a))
       case Failure(e) => Failure(e))
    case _ => Failure(NotSupportedFault)
  }

  function Renders(a: seq<int32>): (r: seq<string>)
    ensures |r| == |a| && forall i :: 0 <= i < |a| ==> r[i] == Render(a[i])
  {
    if |a| == 0 then [] else [Render(a[0])] + Renders(a[1..])
  }

  /** ConvertTo(string) of an int[]: the comma join of the invariant renderings.
      Only the empty array renders as the empty text, and splitting the text on
      commas gives back the rendering of each element. */
  function ConvertToString(a: seq<int32>): (r: string)
    ensures r == "" <==> |a| == 0
    ensures |a| >= 1 ==> Split(r) == Renders(a)
  {
    if |a| == 0 then Join(Renders(a))
    else
      JoinEnds(Renders(a));
      SplitJoin(Renders(a));
      Join(Renders(a))
  }

  /** ConvertTo on any value and destination: `value as int[]` is null for anything
      but an int[], and Select over null raises ArgumentNullException (an
      ArgumentException); a destination other than string falls to the base
      converter, which raises NotSupportedException. */
  function ConvertTo(v: Value, destination: TypeTag): (r: Result<string, Fault>)
    ensures r.Success? <==> destination == TString && v.Arr? && v.elem == EInt && IntsOf(v.items).Some?
    ensures r.Failure? ==> r.error == (if destination == TString then ArgumentFault else NotSupportedFault)
    ensures r.Success? && |v.items| >= 1 ==> ConvertFrom(Str(r.value)) == Success(v)
  {
    if destination != TString then Failure(NotSupportedFault)
    else if !(v.Arr? && v.elem == EInt) then Failure(ArgumentFault)
    else
      match IntsOf(v.items)
      case Some(a) =>
        IntArrayOfInts(v, a);
        if |a| >= 1 then RoundTrip(a); Success(ConvertToString(a))
        else Success(ConvertToString(a))
      case None => Failure(ArgumentFault)
  }

  /** An int[] value is the IntArray of the integers it holds. */
  lemma IntArrayOfInts(v: Value, a: seq<int32>)
    requires v.Arr? && v.elem == EInt && IntsOf(v.items) == Some(a)
    ensures IntArray(a) == v
  {
    assert IntArray(a).items == v.items;
  }

  // ---------------------------------------------------------------------------
  // Properties
  // ---------------------------------------------------------------------------

  /** CanConvertFrom is exactly the set of sources ConvertFrom does not hand to the
      base converter. */
  lemma CanConvertFromAgreesWithConvertFrom(v: Value)
    ensures CanConvertFrom(TypeOf(v)) <==> ConvertFrom(v) != Failure(NotSupportedFault)
  {
  }

  /** ConvertTo succeeds only towards string, and always renders an int[] there. */
  lemma ConvertToOnlyString(v: Value, destination: TypeTag)
    ensures ConvertTo(v, destination).Success? ==> CanConvertTo(destination)
    ensures CanConvertTo(destination) && v.Arr? && v.elem == EInt && (forall i :: 0 <= i < |v.items| ==> v.items[i].Int?)
      ==> ConvertTo(v, destination).Success?
  {
  }

  lemma {:induction false} DigitsValueOfDecimal(n: nat)
    ensures DigitsValue(DecimalDigits(n)) == n
  {
    var d := DecimalDigits(n);
    if n >= 10 {
      var h := DecimalDigits(n / 10);
      assert d == h + [DigitChar(n % 10)];
      assert d[..|d| - 1] == h;
      DigitsValueOfDecimal(n / 10);
    }
  }

  lemma TrimsOfUnpadded(s: string)
    requires |s| > 0 && !IsWhite(s[0]) && !IsWhite(s[|s| - 1])
    ensures TrimEnd(TrimStart(s)) == s
  {
  }

  /** Int32.Parse reads back every invariant rendering of an Int32. */
  lemma ParseRender(i: int32)
    ensures ParseInt32(Render(i)) == Success(i)
  {
    var r := Render(i);
    TrimsOfUnpadded(r);
    if i < 0 {
      assert r[1..] == DecimalDigits(-(i as int));
      DigitsValueOfDecimal(-(i as int));
    } else {
      DigitsValueOfDecimal(i as int);
    }
  }

  /** A number outside [-2^31, 2^31 - 1] raises OverflowException, whatever its sign. */
  lemma OutOfRangeOverflows(n: nat)
    ensures n > MaxInt32 ==> ParseInt32(DecimalDigits(n)) == Failure(OverflowFault)
    ensures n > MaxInt32 + 1 ==> ParseInt32("-" + DecimalDigits(n)) == Failure(OverflowFault)
  {
    var d := DecimalDigits(n);
    TrimsOfUnpadded(d);
    TrimsOfUnpadded("-" + d);
    assert ("-" + d)[1..] == d;
    DigitsValueOfDecimal(n);
  }

  /** Splitting yields one more piece than there are commas. */
  lemma {:induction false} SplitCount(s: string)
    ensures |Split(s)| == CountChar(s, ',') + 1
  {
    if |s| > 0 {
      SplitCount(s[1..]);
    }
  }

  lemma {:induction false} SplitNoComma(p: string)
    requires ',' !in p
    ensures Split(p) == [p]
  {
    if |p| > 0 {
      SplitNoComma(p[1..]);
      assert [p[0]] + p[1..] == p;
    }
  }

  lemma {:induction false} SplitPiece(p: string, rest: string)
    requires ',' !in p
    ensures Split(p + "," + rest) == [p] + Split(rest)
  {
    var s := p + "," + rest;
    if |p| == 0 {
      assert s == "," + rest;
      assert s[1..] == rest;
    } else {
      assert s[1..] == p[1..] + "," + rest;
      SplitPiece(p[1..], rest);
      assert [p[0]] + p[1..] == p;
    }
  }

  /** Splitting undoes joining when no piece holds a comma and there is at least one piece. */
  lemma {:induction false} SplitJoin(pieces: seq<string>)
    requires |pieces| >= 1
    requires forall i :: 0 <= i < |pieces| ==> ',' !in pieces[i]
    ensures Split(Join(pieces)) == pieces
  {
    if |pieces| == 1 {
      SplitNoComma(pieces[0]);
    } else {
      SplitJoin(pieces[1..]);
      SplitPiece(pieces[0], Join(pieces[1..]));
      assert [pieces[0]] + pieces[1..] == pieces;
    }
  }

  lemma {:induction false} JoinEnds(pieces: seq<string>)
    requires |pieces| >= 1 && forall i :: 0 <= i < |pieces| ==> |pieces[i]| > 0
    ensures |Join(pieces)| > 0
    ensures Join(pieces)[0] == pieces[0][0]
    ensures Join(pieces)[|Join(pieces)| - 1] == pieces[|pieces| - 1][|pieces[|pieces| - 1]| - 1]
  {
    if |pieces| > 1 {
      JoinEnds(pieces[1..]);
    }
  }

  /** Stripping keeps a contiguous part of the text that loses at most a leading
      '[' and a trailing ']'; anything else, brackets inside included, stays. */
  lemma StripKeepsMiddle(s: string)
    ensures var r := StripBrackets(s);
      && |r| <= |s| <= |r| + 2
      && ((|s| > 0 && s[0] == '[') ==> |r| < |s| && r == s[1..1 + |r|])
      && (!(|s| > 0 && s[0] == '[') ==> r == s[..|r|])
      && (|r| < |s| ==> s[0] == '[' || s[|s| - 1] == ']')
  {
  }

  lemma StripUnbracketed(s: string)
    requires |s| > 0 && s[0] != '[' && s[|s| - 1] != ']'
    ensures StripBrackets(s) == s
  {
  }

  lemma {:induction false} ParseAllRenders(a: seq<int32>)
    ensures ParseAll(Renders(a)) == Success(a)
  {
    if |a| > 0 {
      ParseRender(a[0]);
      ParseAllRenders(a[1..]);
      assert Renders(a) == [Render(a[0])] + Renders(a[1..]);
      ParseAllCons(Render(a[0]), Renders(a[1..]), a[0], a[1..]);
      assert [a[0]] + a[1..] == a;
    }
  }

  lemma ParseAllCons(piece: string, rest: seq<string>, head: int32, tail: seq<int32>)
    requires ParseInt32(piece) == Success(head) && ParseAll(rest) == Success(tail)
    ensures ParseAll([piece] + rest) == Success([head] + tail)
  {
    assert ([piece] + rest)[1..] == rest;
  }

  /** ConvertTo then ConvertFrom gives back every non-empty int[]. */
  lemma RoundTrip(a: seq<int32>)
    requires |a| >= 1
    ensures ConvertFromString(ConvertToString(a)) == Success(a)
  {
    var pieces := Renders(a);
    var s := Join(pieces);
    JoinEnds(pieces);
    StripUnbracketed(s);
    SplitJoin(pieces);
    ParseAllRenders(a);
  }

  /** The empty int[] renders as the empty string, which does not parse back. */
  lemma EmptyArrayDoesNotRoundTrip()
    ensures ConvertToString([]) == ""
    ensures ConvertFromString(ConvertToString([])) == Failure(FormatFault)
  {
    assert Split("") == [""];
    assert ParseInt32("") == Failure(FormatFault);
  }

  /** A leading '[' and a trailing ']' are each optional, and are dropped independently. */
  lemma BracketsOptional(t: string)
    requires |t| == 0 || (t[0] != '[' && t[|t| - 1] != ']')
    ensures ConvertFromString("[" + t + "]") == ConvertFromString(t)
    ensures ConvertFromString("[" + t) == ConvertFromString(t)
    ensures ConvertFromString(t + "]") == ConvertFromString(t)
  {
    StripBracketed(t);
  }

  lemma StripBracketed(t: string)
    requires |t| == 0 || (t[0] != '[' && t[|t| - 1] != ']')
    ensures StripBrackets("[" + t + "]") == t
    ensures StripBrackets("[" + t) == t
    ensures StripBrackets(t + "]") == t
    ensures StripBrackets(t) == t
  {
    assert ("[" + t + "]")[1..] == t + "]";
    assert (t + "]")[..|t|] == t;
    assert ("[" + t)[1..] == t;
  }

  lemma OneTwoRendering()
    ensures ConvertToString([1, 2]) == "1,2"
  {
    assert DigitChar(1) == '1' && DigitChar(2) == '2';
    assert Render(1) == "1" && Render(2) == "2";
    assert Renders([1, 2]) == ["1", "2"];
    assert Join(["1", "2"]) == "1" + "," + "2";
  }

  /** The four spellings of the list 1,2 all read as [1, 2]. */
  lemma BracketExamples()
    ensures ConvertFromString("[1,2]") == Success([1, 2])
    ensures ConvertFromString("1,2") == Success([1, 2])
    ensures ConvertFromString("[1,2") == Success([1, 2])
    ensures ConvertFromString("1,2]") == Success([1, 2])
  {
    OneTwoRendering();
    RoundTrip([1, 2]);
    var t := "1,2";
    assert ConvertFromString(t) == Success([1, 2]);
    StripBracketed(t);
    assert "[" + t + "]" == "[1,2]";
    assert "[" + t == "[1,2";
    assert t + "]" == "1,2]";
  }

  /** The result has one element per comma-separated piece, each the parse of its
      piece, in order; a piece that does not parse fails the whole conversion. */
  lemma ConvertFromStringPieces(s: string)
    ensures var pieces := Split(StripBrackets(s));
      && |pieces| == CountChar(StripBrackets(s), ',') + 1
      && (ConvertFromString(s).Success? <==> forall i :: 0 <= i < |pieces| ==> ParseInt32(pieces[i]).Success?)
      && (ConvertFromString(s).Success? ==>
            |ConvertFromString(s).value| == |pieces|
            && forall i :: 0 <= i < |pieces| ==> ParseInt32(pieces[i]) == Success(ConvertFromString(s).value[i]))
  {
    SplitCount(StripBrackets(s));
  }

  /** An empty piece (the empty text, or two adjacent commas) fails the conversion. */
  lemma EmptyPieceFails(s: string, i: nat)
    requires i < |Split(StripBrackets(s))| && Split(StripBrackets(s))[i] == ""
    ensures ConvertFromString(s).Failure?
  {
    assert ParseInt32("").Failure?;
  }
}
