/**
 * The values the binding runtime stores and compares, standing in for .NET
 * `object`s: boxed scalars, and references to containers that live in a heap
 * (lists, string-keyed dictionaries and plain objects with typed public fields).
 * `ChangeType` is the explicit coercion table used where the source calls
 * `Convert.ChangeType`, and `CompareTo` the `IComparable` ordering.
 */
module Values {
  import opened Wrappers
  import opened Text

  type Addr = nat

  /** A .NET value: `null`, a boxed scalar, or a reference to a heap container. */
  datatype Value =
    | Null
    | Bool(b: bool)
    | Int(i: int)                    // System.Int32
    | Double(mant: int, scale: nat)  // System.Double, held as the decimal mant / 10^scale
    | Str(s: string)
    | Char(c: char)                  // System.Char
    | Ref(addr: Addr)

  /**
   * A reference object: `List<object>`, `Dictionary<string, object>` or a class
   * with public fields; `kinds` holds the declared type of the fields that are
   * not declared `object`.
   */
  datatype Container =
    | List(items: seq<Value>)
    | Dict(entries: map<string, Value>)
    | Obj(cls: string, fields: map<string, Value>, kinds: map<string, Kind>)

  type Heap = map<Addr, Container>

  /**
   * The run-time type (`GetType()`) of a value, or a declared type: `KObject` is
   * `object`, which is never the run-time type of a value.
   */
  datatype Kind = KNull | KBool | KInt | KDouble | KString | KChar | KList | KDict | KObj(cls: string) | KDangling | KObject

  function KindOf(heap: Heap, v: Value): Kind {
    match v
    case Null => KNull
    case Bool(_) => KBool
    case Int(_) => KInt
    case Double(_, _) => KDouble
    case Str(_) => KString
    case Char(_) => KChar
    case Ref(a) =>
      if a !in heap then KDangling
      else match heap[a]
        case List(_) => KList
        case Dict(_) => KDict
        case Obj(c, _, _) => KObj(c)
  }

  const MinInt32: int := -0x8000_0000
  const MaxInt32: int := 0x7FFF_FFFF

  predicate InInt32(i: int) { MinInt32 <= i <= MaxInt32 }

  function Pow10(n: nat): (r: nat)
    ensures r >= 1
  {
    if n == 0 then 1 else 10 * Pow10(n - 1)
  }

  // ---------------------------------------------------------------------------
  // IComparable

  /** The values whose type implements `IComparable`. */
  predicate Comparable(v: Value) {
    v.Bool? || v.Int? || v.Double? || v.Str? || v.Char?
  }

  predicate SameScalarKind(a: Value, b: Value) {
    (a.Bool? && b.Bool?) || (a.Int? && b.Int?) || (a.Double? && b.Double?) || (a.Str? && b.Str?)
    || (a.Char? && b.Char?)
  }

  function Sign(x: int): (r: int)
    ensures r == -1 || r == 0 || r == 1
  {
    if x < 0 then -1 else if x > 0 then 1 else 0
  }

  /** Ordinal string comparison, char by char. */
  function CompareStrings(a: string, b: string): (r: int)
    ensures r == -1 || r == 0 || r == 1
    ensures r == 0 <==> a == b
  {
    if a == [] && b == [] then 0
    else if a == [] then -1
    else if b == [] then 1
    else if a[0] < b[0] then -1
    else if a[0] > b[0] then 1
    else
      var r := CompareStrings(a[1..], b[1..]);
      assert a == [a[0]] + a[1..] && b == [b[0]] + b[1..];
      r
  }

  /**
   * `((IComparable)left).CompareTo(right)` for a right operand that is null or of
   * the left operand's type (any instance is greater than null).  `char`
   * returns the difference of the code points; only its sign is ever read, so
   * the sign stands for it here.
   */
  function CompareTo(left: Value, right: Value): (r: int)
    requires Comparable(left)
    requires right == Null || SameScalarKind(left, right)
    ensures r == -1 || r == 0 || r == 1
  {
    if right == Null then 1
    else match left
      case Bool(a) => if a == right.b then 0 else if a then 1 else -1
      case Int(a) => Sign(a - right.i)
      case Double(m, s) => Sign(m * Pow10(right.scale) - right.mant * Pow10(s))
      case Str(a) => CompareStrings(a, right.s)
      case Char(a) => Sign(a as int - right.c as int)
  }

  lemma {:induction false} CompareStringsAntisymmetric(a: string, b: string)
    ensures CompareStrings(a, b) == -CompareStrings(b, a)
  {
    if a != [] && b != [] && a[0] == b[0] {
      CompareStringsAntisymmetric(a[1..], b[1..]);
    }
  }

  /** Swapping same-typed operands negates the comparison. */
  lemma CompareToAntisymmetric(a: Value, b: Value)
    requires Comparable(a) && SameScalarKind(a, b)
    ensures CompareTo(a, b) == -CompareTo(b, a)
  {
    if a.Str? {
      CompareStringsAntisymmetric(a.s, b.s);
    }
  }

  // ---------------------------------------------------------------------------
  // Text forms

  function BoolToString(b: bool): string {
    if b then "True" else "False"
  }

  /** `t` is the word `w` in some letter case. */
  predicate SpellsIgnoreCase(t: string, w: string) {
    |t| == |w| && StartsWithIgnoreCase(t, w)
  }

  /**
   * `bool.Parse`: "True" or "False" in any letter case, once white space and
   * NUL characters are trimmed from both ends.
   */
  function ParseBool(s: string): (r: Option<bool>)
    ensures r.Some? ==> SpellsIgnoreCase(Trim(s, true), BoolToString(r.value))
    ensures r.None? ==> !SpellsIgnoreCase(Trim(s, true), "True") && !SpellsIgnoreCase(Trim(s, true), "False")
  {
    var t := Trim(s, true);
    if SpellsIgnoreCase(t, "True") then Some(true)
    else if SpellsIgnoreCase(t, "False") then Some(false)
    else None
  }

  lemma BoolTextRoundTrip(b: bool)
    ensures ParseBool(BoolToString(b)) == Some(b)
  {
    TrimKeeps(BoolToString(b), true);
  }

  function Zeros(n: nat): (r: string)
    ensures |r| == n
  {
    if n == 0 then "" else "0" + Zeros(n - 1)
  }

  /** `d` written with exactly `width` digits (left-padded with zeros), when it fits. */
  function PadDigits(d: nat, width: nat): string {
    var t := Digits(d);
    if |t| >= width then t else Zeros(width - |t|) + t
  }

  /** `double.ToString()` of a decimal: trailing fractional zeros are dropped. */
  function DoubleToString(mant: int, scale: nat): string
    decreases scale
  {
    if scale == 0 then IntToString(mant)
    else if mant % 10 == 0 then DoubleToString(mant / 10, scale - 1)
    else (if mant < 0 then "-" else "") + FixedPoint(if mant < 0 then -mant else mant, Pow10(scale), scale)
  }

  /** `a / p` written as integer part, '.', and `width` fractional digits. */
  function FixedPoint(a: nat, p: nat, width: nat): string
    requires p >= 1
  {
    var q: nat := a / p;
    var r: nat := a % p;
    Digits(q) + "." + PadDigits(r, width)
  }

  /** `value.ToString()`; containers print their .NET type name. */
  function ToText(heap: Heap, v: Value): string {
    match v
    case Null => ""
    case Bool(b) => BoolToString(b)
    case Int(i) => IntToString(i)
    case Double(m, s) => DoubleToString(m, s)
    case Str(s) => s
    case Char(c) => [c]
    case Ref(a) =>
      if a !in heap then ""
      else match heap[a]
        case List(_) => "System.Collections.Generic.List`1[System.Object]"
        case Dict(_) => "System.Collections.Generic.Dictionary`2[System.String,System.Object]"
        case Obj(c, _, _) => c
  }

  // ---------------------------------------------------------------------------
  // Decimal text of a double

  predicate IsDecimalChar(c: char) { IsDigit(c) || c == '.' }

  function CountDots(s: string): nat {
    if s == [] then 0 else (if s[0] == '.' then 1 else 0) + CountDots(s[1..])
  }

  function DropDot(s: string): (r: string)
    requires forall i :: 0 <= i < |s| ==> IsDecimalChar(s[i])
    ensures forall i :: 0 <= i < |r| ==> IsDigit(r[i])
    ensures |r| == |s| - CountDots(s)
  {
    if s == [] then []
    else
      var rest := DropDot(s[1..]);
      if s[0] == '.' then rest
      else
        assert IsDecimalChar(s[0]);
        var r := [s[0]] + rest;
        assert forall i :: 1 <= i < |r| ==> r[i] == rest[i - 1];
        r
  }

  /** Number of characters after the first '.'. */
  function FractionLength(s: string): nat {
    if s == [] then 0 else if s[0] == '.' then |s| - 1 else FractionLength(s[1..])
  }

  /**
   * `double.Parse` in `NumberStyles.Float`, restricted to plain decimals: after
   * trimming white space, an optional sign and digits with at most one '.'; at
   * least one digit is needed, and anything else is a format error.
   */
  function ParseDecimal(s: string): (r: Option<Value>)
    ensures r.Some? ==> r.value.Double?
  {
    SignedDecimal(Trim(s, false))
  }

  /** Digits with at most one '.', and at least one digit. */
  predicate DecimalBody(body: string) {
    (forall i :: 0 <= i < |body| ==> IsDecimalChar(body[i])) && CountDots(body) <= 1 && |body| > CountDots(body)
  }

  /** A decimal with an optional sign, once the surrounding white space is gone. */
  function SignedDecimal(t: string): (r: Option<Value>)
    ensures r.Some? ==> r.value.Double?
  {
    var neg := |t| >= 1 && t[0] == '-';
    var body := if |t| >= 1 && (t[0] == '-' || t[0] == '+') then t[1..] else t;
    if DecimalBody(body) then
      var m := DigitsValue(DropDot(body));
      Some(Double(if neg then -(m as int) else m as int, FractionLength(body)))
    else None
  }

  /** `Convert.ToInt32(double)`: round half to even. */
  function RoundHalfEven(mant: int, scale: nat): int {
    var p := Pow10(scale);
    var q := mant / p;
    var r := mant % p;
    if 2 * r < p then q
    else if 2 * r > p then q + 1
    else if q % 2 == 0 then q else q + 1
  }

  // ---------------------------------------------------------------------------
  // Convert.ChangeType

  datatype Conversion = Converted(v: Value) | FormatError | CastError | OverflowError

  predicate IsValueType(k: Kind) { k == KBool || k == KInt || k == KDouble || k == KChar }

  /** The UTF-16 surrogate code units, which have no `char` of their own here. */
  predicate IsSurrogate(i: int) { 0xD800 <= i <= 0xDFFF }

  /**
   * `Convert.ChangeType(v, type)` for the target type `k`.  A value already of the
   * target type is returned as it is, and so is any scalar for the target
   * `object`; scalars convert among themselves through the table below; a
   * container is not `IConvertible`, so unless it already has the target type
   * it raises `InvalidCastException`, as does every conversion to a container type.
   */
  function ChangeType(heap: Heap, v: Value, k: Kind): (r: Conversion)
    ensures r.Converted? ==> r.v == Null || KindOf(heap, r.v) == k || (k == KObject && r.v == v)
    ensures r.Converted? && r.v == Null ==> v == Null && !IsValueType(k)
  {
    if KindOf(heap, v) == k then Converted(v)
    else if v == Null then (if IsValueType(k) then CastError else Converted(Null))
    else if v.Ref? then CastError
    else match k
      case KObject => Converted(v)
      case KBool =>
        (match v
         case Int(i) => Converted(Bool(i != 0))
         case Double(m, _) => Converted(Bool(m != 0))
         case Str(s) => if ParseBool(s).Some? then Converted(Bool(ParseBool(s).value)) else FormatError
         case _ => CastError)
      case KInt =>
        (match v
         case Bool(b) => Converted(Int(if b then 1 else 0))
         case Double(m, s) =>
           var n := RoundHalfEven(m, s);
           if InInt32(n) then Converted(Int(n)) else OverflowError
         case Str(s) =>
           (match ParseInteger(s)
            case None => FormatError
            case Some(n) => if InInt32(n) then Converted(Int(n)) else OverflowError)
         case Char(c) => Converted(Int(c as int))
         case _ => CastError)
      case KDouble =>
        (match v
         case Bool(b) => Converted(Double(if b then 1 else 0, 0))
         case Int(i) => Converted(Double(i, 0))
         case Str(s) => if ParseDecimal(s).Some? then Converted(ParseDecimal(s).value) else FormatError
         case _ => CastError)
      case KChar =>
        (match v
         case Int(i) =>
           if i < 0 || i > 0xFFFF then OverflowError
           else if IsSurrogate(i) then CastError
           else Converted(Char(i as char))
         case Str(s) => if |s| == 1 then Converted(Char(s[0])) else FormatError
         case _ => CastError)
      case KString =>
        (match v
         case Bool(b) => Converted(Str(BoolToString(b)))
         case Int(i) => Converted(Str(IntToString(i)))
         case Double(m, s) => Converted(Str(DoubleToString(m, s)))
         case Char(c) => Converted(Str([c]))
         case _ => CastError)
      case _ => CastError
  }

  /**
   * The target `object` (the declared type of a dictionary entry, or of a field
   * declared `object`) lets null and every scalar through unchanged and rejects
   * every container.
   */
  lemma ObjectTarget(heap: Heap, v: Value)
    ensures ChangeType(heap, v, KObject) == if v.Ref? then CastError else Converted(v)
  {
  }

  /** Text converts to a bool exactly when `bool.Parse` accepts it. */
  lemma BoolFromText(heap: Heap, s: string)
    ensures ChangeType(heap, Str(s), KBool) == if ParseBool(s).Some? then Converted(Bool(ParseBool(s).value)) else FormatError
  {
  }

  /** Text converts to an `int` exactly when it is an integer in the Int32 range. */
  lemma IntFromText(heap: Heap, s: string)
    ensures ChangeType(heap, Str(s), KInt) ==
      match ParseInteger(s)
      case None => FormatError
      case Some(n) => if InInt32(n) then Converted(Int(n)) else OverflowError
  {
  }

  /** Text converts to a `double` exactly when `double.Parse` accepts it. */
  lemma DoubleFromText(heap: Heap, s: string)
    ensures ChangeType(heap, Str(s), KDouble) == if ParseDecimal(s).Some? then Converted(ParseDecimal(s).value) else FormatError
  {
  }

  /** Integer text converts to the `double` of that integer. */
  lemma IntegerTextIsADouble(heap: Heap, i: int)
    ensures ChangeType(heap, Str(IntToString(i)), KDouble) == Converted(Double(i, 0))
  {
    IntegerTextParsesAsDecimal(i);
    DoubleFromText(heap, IntToString(i));
  }

  lemma IntegerTextParsesAsDecimal(i: int)
    ensures ParseDecimal(IntToString(i)) == Some(Double(i, 0))
  {
    var s := IntToString(i);
    var n := if i < 0 then -i else i;
    var d := Digits(n);
    DigitsRoundTrip(n);
    assert IsDigit(d[|d| - 1]);
    if i < 0 {
      assert s[1..] == d;
      NegatedDigitsDecimal(s);
    } else {
      UnsignedDigitsDecimal(d);
    }
    assert s[|s| - 1] == d[|d| - 1];
    TrimKeeps(s, false);
  }

  lemma UnsignedDigitsDecimal(d: string)
    requires AllDigits(d) && |d| >= 1
    ensures SignedDecimal(d) == Some(Double(DigitsValue(d), 0))
  {
    DigitsAreADecimal(d);
  }

  lemma NegatedDigitsDecimal(t: string)
    requires |t| >= 2 && t[0] == '-' && AllDigits(t[1..])
    ensures SignedDecimal(t) == Some(Double(-(DigitsValue(t[1..]) as int), 0))
  {
    DigitsAreADecimal(t[1..]);
  }

  lemma DigitsAreADecimal(d: string)
    requires AllDigits(d) && |d| >= 1
    ensures DecimalBody(d) && DropDot(d) == d && FractionLength(d) == 0
  {
    DigitsNoDots(d);
    DropDotDigits(d);
    FractionLengthDigits(d);
  }

  lemma {:induction false} DigitsNoDots(d: string)
    requires AllDigits(d)
    ensures CountDots(d) == 0
  {
    if d != [] {
      DigitsNoDots(d[1..]);
    }
  }

  lemma {:induction false} DropDotDigits(d: string)
    requires AllDigits(d)
    ensures DropDot(d) == d
  {
    if d != [] {
      DropDotDigits(d[1..]);
    }
  }

  lemma {:induction false} FractionLengthDigits(d: string)
    requires AllDigits(d)
    ensures FractionLength(d) == 0
  {
    if d != [] {
      FractionLengthDigits(d[1..]);
    }
  }

  lemma ParseBoolPadded(w1: string, s: string, w2: string)
    requires AllWhite(w1) && AllWhite(w2)
    ensures ParseBool(w1 + s + w2) == ParseBool(s)
  {
    TrimPadded(w1, s, w2, true);
  }

  lemma ParseDecimalPadded(w1: string, s: string, w2: string)
    requires AllWhite(w1) && AllWhite(w2)
    ensures ParseDecimal(w1 + s + w2) == ParseDecimal(s)
  {
    TrimPadded(w1, s, w2, false);
  }

  /** White space around a text does not change what it converts to as a number or a bool. */
  lemma PaddedTextConverts(heap: Heap, w1: string, s: string, w2: string, k: Kind)
    requires AllWhite(w1) && AllWhite(w2)
    requires k == KBool || k == KInt || k == KDouble
    ensures ChangeType(heap, Str(w1 + s + w2), k) == ChangeType(heap, Str(s), k)
  {
    if k == KBool {
      ParseBoolPadded(w1, s, w2);
      BoolFromText(heap, w1 + s + w2);
      BoolFromText(heap, s);
    } else if k == KInt {
      ParseIntegerPadded(w1, s, w2);
      IntFromText(heap, w1 + s + w2);
      IntFromText(heap, s);
    } else {
      ParseDecimalPadded(w1, s, w2);
      DoubleFromText(heap, w1 + s + w2);
      DoubleFromText(heap, s);
    }
  }

  /** A `char` converts to its code point, and a code point back to the `char`. */
  lemma CharCodeRoundTrip(heap: Heap, c: char)
    requires c as int <= 0xFFFF
    ensures ChangeType(heap, Char(c), KInt) == Converted(Int(c as int))
    ensures ChangeType(heap, Int(c as int), KChar) == Converted(Char(c))
  {
  }

  /** An Int32 converted to a string and back is unchanged. */
  lemma IntStringRoundTrip(heap: Heap, i: int)
    requires InInt32(i)
    ensures ChangeType(heap, Int(i), KString) == Converted(Str(IntToString(i)))
    ensures ChangeType(heap, Str(IntToString(i)), KInt) == Converted(Int(i))
  {
    IntToStringRoundTrip(i);
  }

  /** A bool converted to a string and back is unchanged. */
  lemma BoolStringRoundTrip(heap: Heap, b: bool)
    ensures ChangeType(heap, Str(BoolToString(b)), KBool) == Converted(Bool(b))
  {
    BoolTextRoundTrip(b);
  }

  /** Nothing but null or a container of that very kind converts to a container type. */
  lemma NoConversionToContainers(heap: Heap, v: Value, k: Kind)
    requires k == KList || k == KDict || k.KObj?
    requires ChangeType(heap, v, k).Converted?
    ensures v == Null || (v.Ref? && KindOf(heap, v) == k)
  {
  }
}
