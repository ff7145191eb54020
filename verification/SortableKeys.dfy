/** The order-preserving key encoding (internal/bridge/encoding/sortable.go:15-332). */
module SortableKeys {
  import opened ByteStrings
  import opened KeyErrors
  import opened Decimals

  const SIGN32: int := 0x8000_0000
  const SIGN64: int := 0x8000_0000_0000_0000

  type int32 = x: int | -SIGN32 <= x < SIGN32
  type int64 = x: int | -SIGN64 <= x < SIGN64
  type uint32 = x: int | 0 <= x < 2 * SIGN32
  type uint64 = x: int | 0 <= x < 2 * SIGN64

  datatype Kind =
    | TypeInt | TypeBigInt | TypeVarchar | TypeBoolean | TypeText
    | TypeTimestamp | TypeFloat | TypeDouble | TypeDecimal | TypeNull

  /** A column value as Go holds it; floats by their bits, times by their nanoseconds. */
  datatype Val = Int32(i: int32) | Int64(l: int64) | Float32(f: uint32) | Float64(d: uint64)
               | Str(s: Bytes) | Bool(b: bool) | Time(nanos: int64) | Nil

  // ------------------------------------------------------------------ floats

  /** The two formats of section 3.4 of IEEE 754: the weight of the sign bit and of the exponent. */
  const HIDDEN32: nat := 0x80_0000
  const HIDDEN64: nat := 0x10_0000_0000_0000
  const INFINITY32: nat := 255 * HIDDEN32
  const INFINITY64: nat := 2047 * HIDDEN64

  /** The number a magnitude denotes, in units of the least subnormal. */
  function Units(m: nat, hidden: nat): nat
    requires hidden > 0
    decreases m
  {
    if m < 2 * hidden then m else 2 * Units(m - hidden, hidden)
  }

  function Pow2(n: nat): nat {
    if n == 0 then 1 else 2 * Pow2(n - 1)
  }

  /** That is the formula of the standard: subnormals count by one, and with exponent e > 0 the
      significand hidden + f is scaled by 2^(e-1). */
  lemma {:induction false} UnitsIsStandard(e: nat, f: nat, hidden: nat)
    requires f < hidden
    ensures Units(e * hidden + f, hidden) == if e == 0 then f else (hidden + f) * Pow2(e - 1)
    decreases e
  {
    if e >= 2 {
      OneExponentLess(e, f, hidden);
      UnitsIsStandard(e - 1, f, hidden);
      Doubled(hidden + f, Pow2(e - 2));
    }
  }

  lemma OneExponentLess(e: nat, f: nat, hidden: nat)
    requires e >= 2
    ensures e * hidden + f - hidden == (e - 1) * hidden + f
    ensures e * hidden >= 2 * hidden
  {
    assert (e - 1) * hidden == e * hidden - hidden;
    assert (e - 2) * hidden >= 0;
    assert (e - 2) * hidden == e * hidden - 2 * hidden;
  }

  lemma Doubled(x: nat, p: nat)
    ensures 2 * (x * p) == x * (2 * p)
  {
  }

  lemma {:induction false} UnitsMonotone(m: nat, n: nat, hidden: nat)
    requires hidden > 0 && m < n
    ensures Units(m, hidden) < Units(n, hidden)
    decreases n
  {
    if m >= 2 * hidden {
      UnitsMonotone(m - hidden, n - hidden, hidden);
    } else if n >= 2 * hidden {
      if n - hidden > hidden {
        UnitsMonotone(hidden, n - hidden, hidden);
      }
    }
  }

  function FloatValue(u: nat, sign: nat, hidden: nat): int
    requires hidden > 0 && u < 2 * sign
  {
    var magnitude: int := Units(if u < sign then u else u - sign, hidden);
    if u < sign then magnitude else -magnitude
  }

  predicate IsNaN(u: nat, sign: nat, infinity: nat) {
    (if u < sign then u else u - sign) > infinity
  }

  /** -0 is replaced by +0; then a set sign bit flips all bits, a clear one only itself. */
  function FloatCode(u: nat, sign: nat): (r: nat)
    requires u < 2 * sign
    ensures r < 2 * sign
  {
    if u == sign then sign
    else if u > sign then 2 * sign - 1 - u
    else u + sign
  }

  function FloatDecode(r: nat, sign: nat): (u: nat)
    requires r < 2 * sign
    ensures u < 2 * sign
  {
    if r >= sign then r - sign else 2 * sign - 1 - r
  }

  /** The codes compare like the numbers, infinities included, and +0 and -0 share one. */
  lemma FloatOrder(u: nat, v: nat, sign: nat, hidden: nat)
    requires hidden > 0 && u < 2 * sign && v < 2 * sign
    ensures FloatCode(u, sign) < FloatCode(v, sign) <==> FloatValue(u, sign, hidden) < FloatValue(v, sign, hidden)
    ensures FloatCode(u, sign) == FloatCode(v, sign) <==> FloatValue(u, sign, hidden) == FloatValue(v, sign, hidden)
  {
    var m, n := if u < sign then u else u - sign, if v < sign then v else v - sign;
    if m < n {
      UnitsMonotone(m, n, hidden);
    } else if n < m {
      UnitsMonotone(n, m, hidden);
    }
    if 0 < m { UnitsMonotone(0, m, hidden); }
    if 0 < n { UnitsMonotone(0, n, hidden); }
  }

  // ------------------------------------------------------------------ one column

  /** The encoding of one column. */
  function ElementCode(k: Kind, v: Val): Result<Bytes> {
    match (k, v)
    case (TypeInt, Int32(i)) => Success(BigEndian(i + SIGN32, 4))
    case (TypeBigInt, Int64(l)) => Success(BigEndian(l + SIGN64, 8))
    case (TypeTimestamp, Time(n)) => Success(BigEndian(n + SIGN64, 8))
    case (TypeFloat, Float32(f)) =>
      if IsNaN(f, SIGN32, INFINITY32) then Failure(ErrNaNNotAllowed) else Success(BigEndian(FloatCode(f, SIGN32), 4))
    case (TypeDouble, Float64(d)) =>
      if IsNaN(d, SIGN64, INFINITY64) then Failure(ErrNaNNotAllowed) else Success(BigEndian(FloatCode(d, SIGN64), 8))
    case (TypeVarchar, Str(s)) => TextCode(s)
    case (TypeText, Str(s)) => TextCode(s)
    case (TypeDecimal, Str(s)) =>
      if !WellFormed(s) then Failure(ErrInvalidDecimal)
      else if !Fits(s) then Failure(ErrDecimalTooLarge)
      else Success(Code(s))
    case (TypeBoolean, Bool(b)) => Success(if b then [1] else [0])
    case _ => Failure(ErrInvalidPK)
  }

  function TextCode(s: Bytes): Result<Bytes> {
    if 0 in s then Failure(ErrNulInString) else Success(s + [0])
  }

  predicate Encodes(k: Kind, v: Val) {
    ElementCode(k, v).Success?
  }

  /** The order of the column type. */
  predicate ValueLess(k: Kind, a: Val, b: Val)
    requires Encodes(k, a) && Encodes(k, b)
  {
    match k
    case TypeInt => a.i < b.i
    case TypeBigInt => a.l < b.l
    case TypeTimestamp => a.nanos < b.nanos
    case TypeFloat => FloatValue(a.f, SIGN32, HIDDEN32) < FloatValue(b.f, SIGN32, HIDDEN32)
    case TypeDouble => FloatValue(a.d, SIGN64, HIDDEN64) < FloatValue(b.d, SIGN64, HIDDEN64)
    case TypeVarchar => Less(a.s, b.s)
    case TypeText => Less(a.s, b.s)
    case TypeDecimal => Value(a.s) < Value(b.s)
    case TypeBoolean => !a.b && b.b
  }

  predicate SameValue(k: Kind, a: Val, b: Val)
    requires Encodes(k, a) && Encodes(k, b)
  {
    match k
    case TypeFloat => FloatValue(a.f, SIGN32, HIDDEN32) == FloatValue(b.f, SIGN32, HIDDEN32)
    case TypeDouble => FloatValue(a.d, SIGN64, HIDDEN64) == FloatValue(b.d, SIGN64, HIDDEN64)
    case TypeDecimal => Value(a.s) == Value(b.s)
    case _ => a == b
  }

  lemma Widths()
    ensures Pow256(4) == 2 * SIGN32 && Pow256(8) == 2 * SIGN64
  {
    assert Pow256(2) == 0x1_0000 && Pow256(4) == 0x1_0000_0000 && Pow256(6) == 0x1_0000_0000_0000;
  }

  /** NUL-terminated strings without NUL compare like the strings and are no prefixes of one another. */
  lemma {:induction false} TextOrder(a: Bytes, b: Bytes)
    requires 0 !in a && 0 !in b
    ensures Less(a + [0], b + [0]) <==> Less(a, b)
    ensures PrefixFree(a + [0], b + [0])
    ensures a + [0] == b + [0] <==> a == b
    decreases |a|
  {
    var x, y := a + [0], b + [0];
    if a != [] && b != [] && a[0] == b[0] {
      TextOrder(a[1..], b[1..]);
      var x', y' := a[1..] + [0], b[1..] + [0];
      assert x == [a[0]] + x' && y == [b[0]] + y' && x[1..] == x' && y[1..] == y';
      assert a == [a[0]] + a[1..] && b == [b[0]] + b[1..];
      assert HasPrefix(x, y) ==> x'[..|y'|] == x[..|y|][1..];
      assert HasPrefix(y, x) ==> y'[..|x'|] == y[..|x|][1..];
    } else {
      assert x[0] == (if a == [] then 0 else a[0]) && y[0] == (if b == [] then 0 else b[0]);
      assert HasPrefix(x, y) ==> x[..|y|][0] == y[0];
      assert HasPrefix(y, x) ==> y[..|x|][0] == x[0];
    }
  }

  lemma FixedWidthOrder(m: nat, n: nat, w: nat)
    requires m < Pow256(w) && n < Pow256(w)
    ensures Less(BigEndian(m, w), BigEndian(n, w)) <==> m < n
    ensures BigEndian(m, w) == BigEndian(n, w) <==> m == n
    ensures PrefixFree(BigEndian(m, w), BigEndian(n, w))
  {
    BigEndianOrder(m, n, w);
    SameLengthPrefixFree(BigEndian(m, w), BigEndian(n, w));
  }

  /** The bytes of a column compare like its values, are equal exactly for equal values, and the bytes
      of one value are never a proper prefix of those of another. */
  lemma ElementOrder(k: Kind, a: Val, b: Val)
    requires Encodes(k, a) && Encodes(k, b)
    ensures var x, y := ElementCode(k, a).value, ElementCode(k, b).value;
            && (Less(x, y) <==> ValueLess(k, a, b)) && (x == y <==> SameValue(k, a, b)) && PrefixFree(x, y)
  {
    hide Less, FloatCode, FloatValue, Pow256, PrefixFree, BigEndian, WellFormed, Fits, Code, Value, IsNaN;
    Widths();
    match k
    case TypeInt => FixedWidthOrder(a.i + SIGN32, b.i + SIGN32, 4);
    case TypeBigInt => FixedWidthOrder(a.l + SIGN64, b.l + SIGN64, 8);
    case TypeTimestamp => FixedWidthOrder(a.nanos + SIGN64, b.nanos + SIGN64, 8);
    case TypeFloat =>
      FloatOrder(a.f, b.f, SIGN32, HIDDEN32);
      FixedWidthOrder(FloatCode(a.f, SIGN32), FloatCode(b.f, SIGN32), 4);
    case TypeDouble =>
      FloatOrder(a.d, b.d, SIGN64, HIDDEN64);
      FixedWidthOrder(FloatCode(a.d, SIGN64), FloatCode(b.d, SIGN64), 8);
    case TypeVarchar => TextOrder(a.s, b.s);
    case TypeText => TextOrder(a.s, b.s);
    case TypeDecimal =>
      CodeOrder(a.s, b.s);
      SameLengthPrefixFree(Code(a.s), Code(b.s));
    case TypeBoolean => BooleanOrder(a.b, b.b);
  }

  lemma BooleanOrder(a: bool, b: bool)
    ensures var x: Bytes, y: Bytes := if a then [1] else [0], if b then [1] else [0];
            (Less(x, y) <==> !a && b) && (x == y <==> a == b) && PrefixFree(x, y)
  {
    var x: Bytes, y: Bytes := if a then [1] else [0], if b then [1] else [0];
    SameLengthPrefixFree(x, y);
    assert x[0] == (if a then 1 else 0) && y[0] == (if b then 1 else 0);
  }

  // ------------------------------------------------------------------ primary keys

  function Prepend(x: Bytes, rest: Result<Bytes>): Result<Bytes> {
    if rest.Failure? then rest else Success(x + rest.value)
  }

  function ColumnsCode(kinds: seq<Kind>, vals: seq<Val>): Result<Bytes>
    requires |kinds| == |vals|
  {
    if kinds == [] then Success([])
    else match ElementCode(kinds[0], vals[0])
      case Failure(e) => Failure(e)
      case Success(x) => Prepend(x, ColumnsCode(kinds[1..], vals[1..]))
  }

  function PKCode(kinds: seq<Kind>, vals: seq<Val>): Result<Bytes> {
    if |kinds| != |vals| then Failure(ErrInvalidPK) else ColumnsCode(kinds, vals)
  }

  predicate AllEncode(kinds: seq<Kind>, vals: seq<Val>) {
    |kinds| == |vals| && forall i :: 0 <= i < |kinds| ==> Encodes(kinds[i], vals[i])
  }

  /** A key is encoded exactly when all its columns are. */
  lemma {:induction false} EncodesIffAllDo(kinds: seq<Kind>, vals: seq<Val>)
    ensures PKCode(kinds, vals).Success? <==> AllEncode(kinds, vals)
    decreases |kinds|
  {
    if |kinds| == |vals| && kinds != [] {
      EncodesIffAllDo(kinds[1..], vals[1..]);
      if Encodes(kinds[0], vals[0]) && AllEncode(kinds[1..], vals[1..]) {
        forall i | 0 <= i < |kinds|
          ensures Encodes(kinds[i], vals[i])
        {
          assert i > 0 ==> kinds[1..][i - 1] == kinds[i] && vals[1..][i - 1] == vals[i];
        }
      }
    }
  }

  /** The first column on which the keys differ decides. */
  ghost predicate TupleLess(kinds: seq<Kind>, a: seq<Val>, b: seq<Val>)
    requires AllEncode(kinds, a) && AllEncode(kinds, b)
  {
    exists i :: 0 <= i < |kinds| && ValueLess(kinds[i], a[i], b[i]) && forall j :: 0 <= j < i ==> SameValue(kinds[j], a[j], b[j])
  }

  ghost predicate SameTuple(kinds: seq<Kind>, a: seq<Val>, b: seq<Val>)
    requires AllEncode(kinds, a) && AllEncode(kinds, b)
  {
    forall i :: 0 <= i < |kinds| ==> SameValue(kinds[i], a[i], b[i])
  }

  lemma TupleHead(kinds: seq<Kind>, a: seq<Val>, b: seq<Val>)
    requires AllEncode(kinds, a) && AllEncode(kinds, b) && kinds != []
    ensures AllEncode(kinds[1..], a[1..])
    ensures AllEncode(kinds[1..], b[1..])
    ensures TupleLess(kinds, a, b) <==>
            ValueLess(kinds[0], a[0], b[0]) || (SameValue(kinds[0], a[0], b[0]) && TupleLess(kinds[1..], a[1..], b[1..]))
    ensures SameTuple(kinds, a, b) <==> SameValue(kinds[0], a[0], b[0]) && SameTuple(kinds[1..], a[1..], b[1..])
  {
    hide ElementCode, ValueLess, SameValue, Encodes;
    var ks, as', bs := kinds[1..], a[1..], b[1..];
    assert forall i :: 0 <= i < |ks| ==> ks[i] == kinds[i + 1] && as'[i] == a[i + 1] && bs[i] == b[i + 1];
    if TupleLess(kinds, a, b) {
      var i :| 0 <= i < |kinds| && ValueLess(kinds[i], a[i], b[i]) && forall j :: 0 <= j < i ==> SameValue(kinds[j], a[j], b[j]);
      if i > 0 {
        assert ValueLess(ks[i - 1], as'[i - 1], bs[i - 1]);
      }
    }
    if SameValue(kinds[0], a[0], b[0]) && TupleLess(ks, as', bs) {
      var i :| 0 <= i < |ks| && ValueLess(ks[i], as'[i], bs[i]) && forall j :: 0 <= j < i ==> SameValue(ks[j], as'[j], bs[j]);
      forall j | 0 <= j < i + 1
        ensures SameValue(kinds[j], a[j], b[j])
      {
        assert j > 0 ==> SameValue(ks[j - 1], as'[j - 1], bs[j - 1]);
      }
      assert ValueLess(kinds[i + 1], a[i + 1], b[i + 1]);
    }
    if SameValue(kinds[0], a[0], b[0]) && SameTuple(ks, as', bs) {
      forall j | 0 <= j < |kinds|
        ensures SameValue(kinds[j], a[j], b[j])
      {
        assert j > 0 ==> SameValue(ks[j - 1], as'[j - 1], bs[j - 1]);
      }
    }
  }

  /** Comparing encoded keys is comparing the tuples of column values. */
  lemma {:induction false} PKOrder(kinds: seq<Kind>, a: seq<Val>, b: seq<Val>)
    requires AllEncode(kinds, a) && AllEncode(kinds, b)
    ensures PKCode(kinds, a).Success? && PKCode(kinds, b).Success?
    ensures Less(PKCode(kinds, a).value, PKCode(kinds, b).value) <==> TupleLess(kinds, a, b)
    ensures PKCode(kinds, a) == PKCode(kinds, b) <==> SameTuple(kinds, a, b)
    decreases |kinds|
  {
    EncodesIffAllDo(kinds, a);
    EncodesIffAllDo(kinds, b);
    if kinds != [] {
      TupleHead(kinds, a, b);
      PKOrder(kinds[1..], a[1..], b[1..]);
      hide ValueLess, SameValue, ElementCode, Less, PrefixFree, TupleLess, SameTuple, ColumnsCode;
      ElementOrder(kinds[0], a[0], b[0]);
      var x, y := ElementCode(kinds[0], a[0]).value, ElementCode(kinds[0], b[0]).value;
      var u, v := ColumnsCode(kinds[1..], a[1..]).value, ColumnsCode(kinds[1..], b[1..]).value;
      HeadCode(kinds, a);
      HeadCode(kinds, b);
      LessOfConcatenations(x, u, y, v);
      ConcatenationsEqual(x, u, y, v);
    } else {
      assert a == [] && b == [];
    }
  }

  lemma HeadCode(kinds: seq<Kind>, a: seq<Val>)
    requires |kinds| == |a| && kinds != [] && Encodes(kinds[0], a[0]) && ColumnsCode(kinds[1..], a[1..]).Success?
    ensures PKCode(kinds, a) == Success(ElementCode(kinds[0], a[0]).value + ColumnsCode(kinds[1..], a[1..]).value)
  {
  }

  lemma OneIsPrefix(x: Bytes, u: Bytes, y: Bytes, v: Bytes)
    requires x + u == y + v
    ensures HasPrefix(x, y) || HasPrefix(y, x)
  {
    if |x| <= |y| {
      assert y[..|x|] == (y + v)[..|x|] == x;
    } else {
      assert x[..|y|] == (x + u)[..|y|] == y;
    }
  }

  lemma ConcatenationsEqual(x: Bytes, u: Bytes, y: Bytes, v: Bytes)
    requires PrefixFree(x, y)
    ensures x + u == y + v <==> x == y && u == v
  {
    if x + u == y + v {
      OneIsPrefix(x, u, y, v);
      assert u == (x + u)[|x|..] && v == (y + v)[|y|..];
    }
  }

  // ------------------------------------------------------------------ decoding

  /** What a column reads back as: +0 for -0, decimals in canonical form. */
  function Normal(k: Kind, v: Val): Val
    requires Encodes(k, v)
  {
    match k
    case TypeFloat => if v.f == SIGN32 then Float32(0) else v
    case TypeDouble => if v.d == SIGN64 then Float64(0) else v
    case TypeDecimal => Str(DecimalOf(Code(v.s)))
    case _ => v
  }

  /** The first NUL. */
  function NulPlace(b: Bytes): (n: nat)
    ensures n <= |b| && (n < |b| ==> b[n] == 0) && forall i :: 0 <= i < n ==> b[i] != 0
  {
    if b == [] || b[0] == 0 then 0 else 1 + NulPlace(b[1..])
  }

  function FixedWidth(k: Kind): nat {
    match k
    case TypeInt => 4
    case TypeFloat => 4
    case TypeBigInt => 8
    case TypeDouble => 8
    case TypeTimestamp => 8
    case TypeBoolean => 1
    case TypeDecimal => ENCODED_LENGTH
    case _ => 0
  }

  /** One column read from the front of a key, and how many bytes it took. */
  function ElementOf(k: Kind, b: Bytes): Result<(Val, nat)> {
    if k == TypeNull then Failure(ErrInvalidPK)
    else if k == TypeVarchar || k == TypeText then
      (if NulPlace(b) == |b| then Failure(ErrKeyTooShort) else Success((Str(b[..NulPlace(b)]), NulPlace(b) + 1)))
    else if FixedWidth(k) > |b| then Failure(ErrKeyTooShort)
    else Success((FixedValue(k, b[..FixedWidth(k)]), FixedWidth(k)))
  }

  function FixedValue(k: Kind, b: Bytes): Val
    requires |b| == FixedWidth(k)
  {
    FromBigEndianBound(b);
    Widths();
    match k
    case TypeInt => Int32(FromBigEndian(b) - SIGN32)
    case TypeBigInt => Int64(FromBigEndian(b) - SIGN64)
    case TypeTimestamp => Time(FromBigEndian(b) - SIGN64)
    case TypeFloat => Float32(FloatDecode(FromBigEndian(b), SIGN32))
    case TypeDouble => Float64(FloatDecode(FromBigEndian(b), SIGN64))
    case TypeBoolean => Bool(b[0] == 1)
    case TypeDecimal => Str(DecimalOf(b))
    case _ => Nil
  }

  lemma {:induction false} FromBigEndianBound(b: Bytes)
    ensures FromBigEndian(b) < Pow256(|b|)
  {
    if b != [] {
      FromBigEndianBound(b[..|b| - 1]);
    }
  }

  function Columns(kinds: seq<Kind>, pk: Bytes): Result<seq<Val>> {
    if kinds == [] then (if pk == [] then Success([]) else Failure(ErrInvalidPK))
    else if pk == [] then Failure(ErrKeyTooShort)
    else match ElementOf(kinds[0], pk)
      case Failure(e) => Failure(e)
      case Success(x) => PrependValue([x.0], Columns(kinds[1..], pk[x.1..]))
  }

  function PrependValue(x: seq<Val>, rest: Result<seq<Val>>): Result<seq<Val>> {
    if rest.Failure? then rest else Success(x + rest.value)
  }

  lemma NulPlaceOfText(s: Bytes, rest: Bytes)
    requires 0 !in s
    ensures NulPlace(s + [0] + rest) == |s|
  {
    var b := s + [0] + rest;
    assert b[|s|] == 0;
    assert forall i :: 0 <= i < |s| ==> b[i] == s[i] && s[i] in s;
  }

  /** Reading a column back, whatever follows it. */
  lemma ElementRoundTrip(k: Kind, v: Val, rest: Bytes)
    requires Encodes(k, v)
    ensures var x := ElementCode(k, v).value;
            x != [] && ElementOf(k, x + rest) == Success((Normal(k, v), |x|))
  {
    hide Pow256, BigEndian, FromBigEndian, WellFormed, Fits, Code, DecimalOf, IsNaN;
    Widths();
    var x := ElementCode(k, v).value;
    assert (x + rest)[..|x|] == x;
    match k
    case TypeInt => BigEndianRoundTrip(v.i + SIGN32, 4);
    case TypeBigInt => BigEndianRoundTrip(v.l + SIGN64, 8);
    case TypeTimestamp => BigEndianRoundTrip(v.nanos + SIGN64, 8);
    case TypeFloat => BigEndianRoundTrip(FloatCode(v.f, SIGN32), 4);
    case TypeDouble => BigEndianRoundTrip(FloatCode(v.d, SIGN64), 8);
    case TypeVarchar => NulPlaceOfText(v.s, rest); assert (x + rest)[..|v.s|] == v.s;
    case TypeText => NulPlaceOfText(v.s, rest); assert (x + rest)[..|v.s|] == v.s;
    case TypeDecimal =>
    case TypeBoolean =>
  }

  function NormalTuple(kinds: seq<Kind>, vals: seq<Val>): seq<Val>
    requires AllEncode(kinds, vals)
  {
    seq(|kinds|, i requires 0 <= i < |kinds| => Normal(kinds[i], vals[i]))
  }

  /** Decoding inverts encoding, up to -0 and the canonical form of decimals. */
  lemma {:induction false} PKRoundTrip(kinds: seq<Kind>, vals: seq<Val>)
    requires AllEncode(kinds, vals)
    ensures PKCode(kinds, vals).Success?
    ensures Columns(kinds, PKCode(kinds, vals).value) == Success(NormalTuple(kinds, vals))
    decreases |kinds|
  {
    EncodesIffAllDo(kinds, vals);
    if kinds == [] {
      assert NormalTuple(kinds, vals) == [];
    } else {
      assert AllEncode(kinds[1..], vals[1..]) by {
        assert forall i :: 0 <= i < |kinds[1..]| ==> kinds[1..][i] == kinds[i + 1] && vals[1..][i] == vals[i + 1];
      }
      PKRoundTrip(kinds[1..], vals[1..]);
      hide ElementCode, ElementOf, Normal;
      var x, rest := ElementCode(kinds[0], vals[0]).value, ColumnsCode(kinds[1..], vals[1..]).value;
      ElementRoundTrip(kinds[0], vals[0], rest);
      assert (x + rest)[|x|..] == rest;
      assert NormalTuple(kinds, vals) == [Normal(kinds[0], vals[0])] + NormalTuple(kinds[1..], vals[1..]);
    }
  }

  /** What is read back has the same value, so it stands for the same key. */
  lemma NormalIsSame(k: Kind, v: Val)
    requires Encodes(k, v)
    ensures Encodes(k, Normal(k, v)) && SameValue(k, Normal(k, v), v)
  {
    hide Code, WellFormed, Fits, Value, DecimalOf;
    if k == TypeDecimal {
      DecodeInvertsCode(v.s);
    }
  }

  // ------------------------------------------------------------- the two operations

  /** XOR with the sign bit, and with all bits, as arithmetic on unsigned numbers. */
  function FlipSign(u: nat, sign: nat): nat {
    if u < sign then u + sign else u - sign
  }

  function FlipAll(u: nat, sign: nat): nat
    requires u < 2 * sign
  {
    2 * sign - 1 - u
  }

  /** They are what the operator does to the bits. */
  lemma FlipSignIsXor(u: bv32, d: bv64)
    ensures u ^ 0x8000_0000 == if u < 0x8000_0000 then u + 0x8000_0000 else u - 0x8000_0000
    ensures d ^ 0x8000_0000_0000_0000 == if d < 0x8000_0000_0000_0000 then d + 0x8000_0000_0000_0000 else d - 0x8000_0000_0000_0000
  {
  }

  lemma FlipAllIsXor(u: bv32, d: bv64)
    ensures (u ^ 0xFFFF_FFFF) + u == 0xFFFF_FFFF
    ensures (d ^ 0xFFFF_FFFF_FFFF_FFFF) + d == 0xFFFF_FFFF_FFFF_FFFF
  {
  }

  method PutBigEndian(u: nat, w: nat) returns (b: Bytes)
    ensures b == BigEndian(u, w)
  {
    b := [];
    var rest := u;
    for i := 0 to w
      invariant BigEndian(u, w) == BigEndian(rest, w - i) + b
    {
      b := [rest % 256] + b;
      rest := rest / 256;
    }
  }

  method GetBigEndian(b: Bytes) returns (u: nat)
    ensures u == FromBigEndian(b)
  {
    u := 0;
    for i := 0 to |b|
      invariant u == FromBigEndian(b[..i])
    {
      assert b[..i + 1][..i] == b[..i];
      u := 256 * u + b[i];
    }
    assert b[..|b|] == b;
  }

  /** EncodeInt32 and EncodeInt64: the two's complement, its sign bit flipped, most significant byte first. */
  method EncodeInt(v: int, sign: int, w: nat) returns (b: Bytes)
    requires -sign <= v < sign
    ensures b == BigEndian(v + sign, w)
  {
    var u := if v < 0 then v + 2 * sign else v;
    b := PutBigEndian(FlipSign(u, sign), w);
  }

  method DecodeInt(b: Bytes, sign: nat) returns (v: int)
    requires FromBigEndian(b) < 2 * sign
    ensures v == FromBigEndian(b) - sign
  {
    var u := GetBigEndian(b);
    u := FlipSign(u, sign);
    v := if u < sign then u else u - 2 * sign;
  }

  /** EncodeFloat32 and EncodeFloat64, on the bits of the float. */
  method EncodeFloat(bits: nat, sign: nat, infinity: nat, w: nat) returns (res: Result<Bytes>)
    requires bits < 2 * sign
    ensures res == if IsNaN(bits, sign, infinity) then Failure(ErrNaNNotAllowed) else Success(BigEndian(FloatCode(bits, sign), w))
  {
    if IsNaN(bits, sign, infinity) {
      return Failure(ErrNaNNotAllowed);
    }
    var u := bits;
    if u == 0 || u == sign {
      u := 0;
    }
    u := if u >= sign then FlipAll(u, sign) else FlipSign(u, sign);
    var b := PutBigEndian(u, w);
    return Success(b);
  }

  method DecodeFloat(b: Bytes, sign: nat) returns (bits: nat)
    requires FromBigEndian(b) < 2 * sign
    ensures bits == FloatDecode(FromBigEndian(b), sign)
  {
    var u := GetBigEndian(b);
    bits := if u >= sign then FlipSign(u, sign) else FlipAll(u, sign);
  }

  /** The terminator makes the string delimit itself. */
  method EncodeString(v: Bytes) returns (res: Result<Bytes>)
    ensures res == TextCode(v)
  {
    var nul := FirstNul(v);
    NulPlaceIs(v);
    if nul >= 0 {
      return Failure(ErrNulInString);
    }
    return Success(v + [0]);
  }

  lemma {:induction false} NulPlaceIs(v: Bytes)
    ensures NulPlace(v) == |v| <==> 0 !in v
  {
    if v != [] && v[0] != 0 {
      NulPlaceIs(v[1..]);
      assert v == [v[0]] + v[1..];
    }
  }

  method EncodeElement(kind: Kind, val: Val) returns (res: Result<Bytes>)
    ensures res == ElementCode(kind, val)
  {
    hide WellFormed, Fits, Code;
    var b: Bytes;
    match (kind, val)
    case (TypeInt, Int32(i)) =>
      b := EncodeInt(i, SIGN32, 4);
      res := Success(b);
    case (TypeBigInt, Int64(l)) =>
      b := EncodeInt(l, SIGN64, 8);
      res := Success(b);
    case (TypeTimestamp, Time(n)) =>
      b := EncodeInt(n, SIGN64, 8);
      res := Success(b);
    case (TypeFloat, Float32(f)) => res := EncodeFloat(f, SIGN32, INFINITY32, 4);
    case (TypeDouble, Float64(d)) => res := EncodeFloat(d, SIGN64, INFINITY64, 8);
    case (TypeVarchar, Str(s)) => res := EncodeString(s);
    case (TypeText, Str(s)) => res := EncodeString(s);
    case (TypeDecimal, Str(s)) => res := EncodeDecimal(s);
    case (TypeBoolean, Bool(v)) => res := Success(if v then [1] else [0]);
    case _ => res := Failure(ErrInvalidPK);
  }

  method EncodePK(cols: seq<Kind>, vals: seq<Val>) returns (res: Result<Bytes>)
    ensures res == PKCode(cols, vals)
  {
    hide ElementCode;
    if |cols| != |vals| {
      return Failure(ErrInvalidPK);
    }
    var out: Bytes := [];
    PrependNothing(ColumnsCode(cols, vals));
    assert cols[0..] == cols && vals[0..] == vals;
    for i := 0 to |cols|
      invariant PKCode(cols, vals) == Prepend(out, ColumnsCode(cols[i..], vals[i..]))
    {
      var element := EncodeElement(cols[i], vals[i]);
      assert cols[i..][1..] == cols[i + 1..] && vals[i..][1..] == vals[i + 1..];
      if element.Failure? {
        return element;
      }
      PrependTwice(out, element.value, ColumnsCode(cols[i + 1..], vals[i + 1..]));
      out := out + element.value;
    }
    assert out + [] == out;
    return Success(out);
  }

  lemma PrependNothing(rest: Result<Bytes>)
    ensures Prepend([], rest) == rest
  {
    if rest.Success? {
      assert [] + rest.value == rest.value;
    }
  }

  lemma PrependNoValue(rest: Result<seq<Val>>)
    ensures PrependValue([], rest) == rest
  {
    if rest.Success? {
      assert [] + rest.value == rest.value;
    }
  }

  lemma PrependTwice(x: Bytes, y: Bytes, rest: Result<Bytes>)
    ensures Prepend(x, Prepend(y, rest)) == Prepend(x + y, rest)
  {
    if rest.Success? {
      assert x + (y + rest.value) == x + y + rest.value;
    }
  }

  method FirstNul(b: Bytes) returns (n: int)
    ensures n == if NulPlace(b) == |b| then -1 else NulPlace(b)
  {
    n := 0;
    assert b[0..] == b;
    while n < |b| && b[n] != 0
      invariant 0 <= n <= |b| && NulPlace(b) == n + NulPlace(b[n..])
    {
      assert b[n..][1..] == b[n + 1..];
      n := n + 1;
    }
    if n == |b| {
      n := -1;
    }
  }

  /** The value at the front of the bytes, and how many of them it takes. */
  method DecodeElement(kind: Kind, b: Bytes) returns (res: Result<(Val, nat)>)
    ensures res == ElementOf(kind, b)
  {
    hide DecimalOf, NulPlace, FromBigEndian;
    Widths();
    match kind
    case TypeNull => res := Failure(ErrInvalidPK);
    case TypeVarchar => res := DecodeString(b);
    case TypeText => res := DecodeString(b);
    case _ =>
      if FixedWidth(kind) > |b| {
        return Failure(ErrKeyTooShort);
      }
      var v := DecodeFixed(kind, b[..FixedWidth(kind)]);
      res := Success((v, FixedWidth(kind)));
  }

  method DecodeString(b: Bytes) returns (res: Result<(Val, nat)>)
    ensures res == if NulPlace(b) == |b| then Failure(ErrKeyTooShort) else Success((Str(b[..NulPlace(b)]), NulPlace(b) + 1))
  {
    var idx := FirstNul(b);
    res := if idx < 0 then Failure(ErrKeyTooShort) else Success((Str(b[..idx]), idx + 1));
  }

  method DecodeFixed(kind: Kind, b: Bytes) returns (v: Val)
    requires FixedWidth(kind) > 0 && |b| == FixedWidth(kind)
    ensures v == FixedValue(kind, b)
  {
    hide DecimalOf, FromBigEndian;
    FromBigEndianBound(b);
    Widths();
    var n: int;
    match kind
    case TypeInt =>
      n := DecodeInt(b, SIGN32);
      v := Int32(n);
    case TypeBigInt =>
      n := DecodeInt(b, SIGN64);
      v := Int64(n);
    case TypeTimestamp =>
      n := DecodeInt(b, SIGN64);
      v := Time(n);
    case TypeFloat =>
      n := DecodeFloat(b, SIGN32);
      v := Float32(n);
    case TypeDouble =>
      n := DecodeFloat(b, SIGN64);
      v := Float64(n);
    case TypeBoolean => v := Bool(b[0] == 1);
    case TypeDecimal =>
      var s := DecodeDecimal(b);
      v := Str(s.value);
    case _ => v := Nil;
  }

  method DecodePK(cols: seq<Kind>, pk: Bytes) returns (res: Result<seq<Val>>)
    ensures res == Columns(cols, pk)
  {
    hide ElementOf;
    var vals: seq<Val> := [];
    var offset := 0;
    PrependNoValue(Columns(cols, pk));
    assert cols[0..] == cols && pk[0..] == pk;
    for i := 0 to |cols|
      invariant 0 <= offset <= |pk|
      invariant Columns(cols, pk) == PrependValue(vals, Columns(cols[i..], pk[offset..]))
    {
      if offset >= |pk| {
        return Failure(ErrKeyTooShort);
      }
      var element := DecodeElement(cols[i], pk[offset..]);
      assert cols[i..][1..] == cols[i + 1..];
      if element.Failure? {
        return Failure(element.error);
      }
      WithinKey(cols[i], pk[offset..]);
      assert pk[offset..][element.value.1..] == pk[offset + element.value.1..];
      PrependValueTwice(vals, [element.value.0], Columns(cols[i + 1..], pk[offset + element.value.1..]));
      vals := vals + [element.value.0];
      offset := offset + element.value.1;
    }
    if offset != |pk| {
      return Failure(ErrInvalidPK);
    }
    assert vals + [] == vals;
    return Success(vals);
  }

  lemma WithinKey(k: Kind, b: Bytes)
    requires ElementOf(k, b).Success?
    ensures ElementOf(k, b).value.1 <= |b|
  {
  }

  lemma PrependValueTwice(x: seq<Val>, y: seq<Val>, rest: Result<seq<Val>>)
    ensures PrependValue(x, PrependValue(y, rest)) == PrependValue(x + y, rest)
  {
    if rest.Success? {
      assert x + (y + rest.value) == x + y + rest.value;
    }
  }
}
