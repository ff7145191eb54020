/** The sortable encoding of decimals (internal/bridge/encoding/sortable.go:339-496). */
module Decimals {
  import opened ByteStrings
  import opened KeyErrors
  import opened Buffers

  // A sign byte, 64 integer digits and 64 fraction digits; a negative number has each digit replaced by
  // its complement to nine.

  const ZERO: byte := 48
  const NINE: byte := 57
  const PLUS: byte := 43
  const MINUS: byte := 45
  const DOT: byte := 46
  const PRECISION: nat := 64
  const ENCODED_LENGTH: nat := 129

  // ------------------------------------------------------------- digits and their value

  predicate IsDigit(c: byte) {
    ZERO <= c <= NINE
  }

  predicate AllDigits(d: Bytes) {
    forall i :: 0 <= i < |d| ==> IsDigit(d[i])
  }

  function Digit(c: byte): int {
    c - ZERO
  }

  function IntegerValue(d: Bytes): int {
    if d == [] then 0 else 10 * IntegerValue(d[..|d| - 1]) + Digit(d[|d| - 1])
  }

  function FractionValue(d: Bytes): real {
    if d == [] then 0.0 else (Digit(d[0]) as real + FractionValue(d[1..])) / 10.0
  }

  lemma {:induction false} FractionBounds(d: Bytes)
    requires AllDigits(d)
    ensures 0.0 <= FractionValue(d) < 1.0
  {
    if d != [] {
      FractionBounds(d[1..]);
    }
  }

  lemma {:induction false} IntegerNotNegative(d: Bytes)
    requires AllDigits(d)
    ensures 0 <= IntegerValue(d)
  {
    if d != [] {
      IntegerNotNegative(d[..|d| - 1]);
    }
  }

  /** Digit strings of one length compare like the integers they denote ... */
  lemma {:induction false} IntegerOrder(a: Bytes, b: Bytes)
    requires AllDigits(a) && AllDigits(b) && |a| == |b|
    ensures Less(a, b) <==> IntegerValue(a) < IntegerValue(b)
    ensures a == b <==> IntegerValue(a) == IntegerValue(b)
    decreases |a|
  {
    if a != [] {
      var m := |a| - 1;
      IntegerOrder(a[..m], b[..m]);
      SameLengthPrefixFree(a[..m], b[..m]);
      assert a == a[..m] + [a[m]] && b == b[..m] + [b[m]];
      LessOfConcatenations(a[..m], [a[m]], b[..m], [b[m]]);
    }
  }

  /** ... and like the fractions. */
  lemma {:induction false} FractionOrder(a: Bytes, b: Bytes)
    requires AllDigits(a) && AllDigits(b) && |a| == |b|
    ensures Less(a, b) <==> FractionValue(a) < FractionValue(b)
    ensures a == b <==> FractionValue(a) == FractionValue(b)
    decreases |a|
  {
    if a != [] {
      FractionOrder(a[1..], b[1..]);
      FractionBounds(a[1..]);
      FractionBounds(b[1..]);
      assert a == [a[0]] + a[1..] && b == [b[0]] + b[1..];
    }
  }

  function Zeros(n: nat): (z: Bytes)
    ensures |z| == n && forall i :: 0 <= i < n ==> z[i] == ZERO
  {
    seq(n, _ => ZERO)
  }

  lemma {:induction false} LeadingZeros(n: nat, d: Bytes)
    ensures IntegerValue(Zeros(n) + d) == IntegerValue(d)
    decreases n + |d|
  {
    if d == [] {
      if n > 0 {
        assert (Zeros(n) + d)[..n - 1] == Zeros(n - 1) + d;
        LeadingZeros(n - 1, d);
      }
    } else {
      assert (Zeros(n) + d)[..n + |d| - 1] == Zeros(n) + d[..|d| - 1];
      LeadingZeros(n, d[..|d| - 1]);
    }
  }

  lemma {:induction false} TrailingZeros(d: Bytes, n: nat)
    ensures FractionValue(d + Zeros(n)) == FractionValue(d)
    decreases n + |d|
  {
    if d == [] {
      if n > 0 {
        assert (d + Zeros(n))[1..] == d + Zeros(n - 1);
        TrailingZeros(d, n - 1);
      }
    } else {
      assert (d + Zeros(n))[1..] == d[1..] + Zeros(n);
      TrailingZeros(d[1..], n);
    }
  }

  function TrimLeading(d: Bytes): Bytes {
    if d != [] && d[0] == ZERO then TrimLeading(d[1..]) else d
  }

  function TrimTrailing(d: Bytes): Bytes {
    if d != [] && d[|d| - 1] == ZERO then TrimTrailing(d[..|d| - 1]) else d
  }

  lemma OneMoreZero(n: nat)
    ensures Zeros(n + 1) == Zeros(n) + [ZERO] == [ZERO] + Zeros(n)
  {
  }

  lemma {:induction false} TrimmedLeading(d: Bytes) returns (n: nat)
    ensures n <= |d| && d[..n] == Zeros(n) && TrimLeading(d) == d[n..]
    ensures n == |d| || d[n] != ZERO
  {
    n := 0;
    if d != [] && d[0] == ZERO {
      var m := TrimmedLeading(d[1..]);
      OneMoreZero(m);
      assert d[..m + 1] == [d[0]] + d[1..][..m];
      n := m + 1;
    }
  }

  lemma {:induction false} TrimmedTrailing(d: Bytes) returns (n: nat)
    ensures n <= |d|
    ensures d[n..] == Zeros(|d| - n)
    ensures TrimTrailing(d) == d[..n]
    ensures n == 0 || d[n - 1] != ZERO
  {
    n := |d|;
    if d != [] && d[|d| - 1] == ZERO {
      var m := |d| - 1;
      n := TrimmedTrailing(d[..m]);
      OneMoreZero(m - n);
      assert d[n..] == d[..m][n..] + [d[m]];
      assert d[..m][..n] == d[..n];
    }
  }

  /** Trimming and padding give the same digits back. */
  lemma {:induction false} TrimOfPaddedLeading(n: nat, d: Bytes)
    requires d == [] || d[0] != ZERO
    ensures TrimLeading(Zeros(n) + d) == d
  {
    if n == 0 {
      assert Zeros(0) + d == d;
    } else {
      assert (Zeros(n) + d)[1..] == Zeros(n - 1) + d;
      TrimOfPaddedLeading(n - 1, d);
    }
  }

  lemma {:induction false} TrimOfPaddedTrailing(d: Bytes, n: nat)
    requires d == [] || d[|d| - 1] != ZERO
    ensures TrimTrailing(d + Zeros(n)) == d
  {
    if n == 0 {
      assert d + Zeros(0) == d;
    } else {
      assert (d + Zeros(n))[..|d| + n - 1] == d + Zeros(n - 1);
      TrimOfPaddedTrailing(d, n - 1);
    }
  }

  // ------------------------------------------------------------------ literals

  predicate Negative(v: Bytes) {
    v != [] && v[0] == MINUS
  }

  function Unsigned(v: Bytes): Bytes {
    if v != [] && (v[0] == MINUS || v[0] == PLUS) then v[1..] else v
  }

  /** The place of the first dot, or the length. */
  function DotPlace(u: Bytes): (n: nat)
    ensures n <= |u| && (n < |u| ==> u[n] == DOT) && forall i :: 0 <= i < n ==> u[i] != DOT
  {
    if u == [] || u[0] == DOT then 0 else 1 + DotPlace(u[1..])
  }

  function IntDigits(v: Bytes): Bytes {
    var u := Unsigned(v);
    u[..DotPlace(u)]
  }

  function FracDigits(v: Bytes): Bytes {
    var u := Unsigned(v);
    if DotPlace(u) < |u| then u[DotPlace(u) + 1..] else []
  }

  /** An optional sign, digits with at most one dot, at least one digit. */
  predicate WellFormed(v: Bytes) {
    AllDigits(IntDigits(v)) && AllDigits(FracDigits(v)) && IntDigits(v) + FracDigits(v) != []
  }

  function Value(v: Bytes): real {
    var magnitude := IntegerValue(IntDigits(v)) as real + FractionValue(FracDigits(v));
    if Negative(v) then -magnitude else magnitude
  }

  /** Which literals fit the 64 + 64 digits. */
  predicate Fits(v: Bytes) {
    |TrimLeading(IntDigits(v))| <= PRECISION && |TrimTrailing(FracDigits(v))| <= PRECISION
  }

  // ------------------------------------------------------------------ the encoding

  function PadInt(t: Bytes): (d: Bytes)
    requires |t| <= PRECISION
    ensures |d| == PRECISION
  {
    Zeros(PRECISION - |t|) + t
  }

  function PadFrac(t: Bytes): (d: Bytes)
    requires |t| <= PRECISION
    ensures |d| == PRECISION
  {
    t + Zeros(PRECISION - |t|)
  }

  /** '9' - (c - '0') in byte arithmetic. */
  function Complement(c: byte): byte {
    if c <= 105 then 105 - c else 361 - c
  }

  function Complemented(d: Bytes): (r: Bytes)
    ensures |r| == |d| && forall i :: 0 <= i < |d| ==> r[i] == Complement(d[i])
  {
    seq(|d|, i requires 0 <= i < |d| => Complement(d[i]))
  }

  function SignedCode(negative: bool, digits: Bytes): Bytes {
    if negative then [0] + Complemented(digits) else [1] + digits
  }

  function Code(v: Bytes): (b: Bytes)
    requires Fits(v)
    ensures |b| == ENCODED_LENGTH
  {
    var i, f := TrimLeading(IntDigits(v)), TrimTrailing(FracDigits(v));
    SignedCode(Negative(v) && (i != [] || f != []), PadInt(i) + PadFrac(f))
  }

  // ------------------------------------------------------------------ order

  lemma {:induction false} ComplementedOrder(a: Bytes, b: Bytes)
    requires AllDigits(a) && AllDigits(b) && |a| == |b|
    ensures Less(Complemented(a), Complemented(b)) <==> Less(b, a)
    ensures Complemented(a) == Complemented(b) <==> a == b
    decreases |a|
  {
    if a != [] {
      assert Complemented(a)[1..] == Complemented(a[1..]) && Complemented(b)[1..] == Complemented(b[1..]);
      ComplementedOrder(a[1..], b[1..]);
      assert a == [a[0]] + a[1..] && b == [b[0]] + b[1..];
    }
  }

  function Magnitude(i: Bytes, f: Bytes): real {
    IntegerValue(i) as real + FractionValue(f)
  }

  /** The padded digits compare like the magnitudes. */
  lemma DigitsOrder(i: Bytes, f: Bytes, i': Bytes, f': Bytes)
    requires AllDigits(i) && AllDigits(f) && AllDigits(i') && AllDigits(f') && |i| == |i'| && |f| == |f'|
    ensures Less(i + f, i' + f') <==> Magnitude(i, f) < Magnitude(i', f')
    ensures i + f == i' + f' <==> Magnitude(i, f) == Magnitude(i', f')
  {
    SameLengthPrefixFree(i, i');
    LessOfConcatenations(i, f, i', f');
    IntegerOrder(i, i');
    FractionOrder(f, f');
    FractionBounds(f);
    FractionBounds(f');
    assert i + f == i' + f' ==> i == (i' + f')[..|i|] && f == (i' + f')[|i|..];
  }

  lemma PaddedInt(d: Bytes)
    requires AllDigits(d) && |TrimLeading(d)| <= PRECISION
    ensures AllDigits(PadInt(TrimLeading(d)))
    ensures IntegerValue(PadInt(TrimLeading(d))) == IntegerValue(d) >= 0
    ensures IntegerValue(d) == 0 <==> TrimLeading(d) == []
  {
    hide IntegerValue, TrimLeading;
    var n := TrimmedLeading(d);
    var i := TrimLeading(d);
    assert d == Zeros(n) + i;
    LeadingZeros(n, i);
    LeadingZeros(PRECISION - |i|, i);
    IntegerNotNegative(d);
    if i != [] { LeadingDigitCounts(i); } else { NoDigits(); }
  }

  lemma NoDigits()
    ensures IntegerValue([]) == 0 && FractionValue([]) == 0.0
  {
  }

  lemma PaddedFrac(d: Bytes)
    requires AllDigits(d) && |TrimTrailing(d)| <= PRECISION
    ensures AllDigits(PadFrac(TrimTrailing(d)))
    ensures FractionValue(PadFrac(TrimTrailing(d))) == FractionValue(d) >= 0.0
    ensures FractionValue(d) == 0.0 <==> TrimTrailing(d) == []
  {
    hide FractionValue, TrimTrailing;
    var n := TrimmedTrailing(d);
    var f := TrimTrailing(d);
    assert d == f + Zeros(|d| - n);
    TrailingZeros(f, |d| - n);
    TrailingZeros(f, PRECISION - |f|);
    FractionBounds(d);
    if f != [] { LastDigitCounts(f); } else { NoDigits(); }
  }

  /** The digits of the code of a literal denote its magnitude, which is zero only without digits left. */
  lemma CodeDigits(v: Bytes)
    requires WellFormed(v) && Fits(v)
    ensures var i, f := TrimLeading(IntDigits(v)), TrimTrailing(FracDigits(v));
            && AllDigits(PadInt(i)) && AllDigits(PadFrac(f))
            && Magnitude(PadInt(i), PadFrac(f)) == Magnitude(IntDigits(v), FracDigits(v)) >= 0.0
            && (Magnitude(IntDigits(v), FracDigits(v)) == 0.0 <==> i == [] && f == [])
  {
    hide FractionValue, IntegerValue, TrimLeading, TrimTrailing, IntDigits, FracDigits, AllDigits;
    PaddedInt(IntDigits(v));
    PaddedFrac(FracDigits(v));
  }

  lemma {:induction false} LeadingDigitCounts(i: Bytes)
    requires AllDigits(i) && i != [] && i[0] != ZERO
    ensures IntegerValue(i) > 0
  {
    if |i| == 1 {
      assert i[..0] == [];
    } else {
      LeadingDigitCounts(i[..|i| - 1]);
    }
  }

  lemma {:induction false} LastDigitCounts(f: Bytes)
    requires AllDigits(f) && f != [] && f[|f| - 1] != ZERO
    ensures FractionValue(f) > 0.0
  {
    if |f| > 1 {
      LastDigitCounts(f[1..]);
    }
  }

  lemma SignedCodeOrder(n: bool, a: Bytes, n': bool, b: Bytes)
    requires AllDigits(a) && AllDigits(b) && |a| == |b|
    ensures Less(SignedCode(n, a), SignedCode(n', b)) <==> (n && !n') || (n && n' && Less(b, a)) || (!n && !n' && Less(a, b))
    ensures SignedCode(n, a) == SignedCode(n', b) <==> n == n' && a == b
  {
    ComplementedOrder(a, b);
    assert SignedCode(n, a)[1..] == if n then Complemented(a) else a;
    assert SignedCode(n', b)[1..] == if n' then Complemented(b) else b;
  }

  /** Encoded decimals compare like the numbers, and two literals have one code exactly when they
      denote one number. */
  lemma CodeOrder(v: Bytes, w: Bytes)
    requires WellFormed(v) && Fits(v) && WellFormed(w) && Fits(w)
    ensures Less(Code(v), Code(w)) <==> Value(v) < Value(w)
    ensures Code(v) == Code(w) <==> Value(v) == Value(w)
  {
    CodeDigits(v);
    CodeDigits(w);
    hide TrimLeading, TrimTrailing, IntDigits, FracDigits, SignedCode, Less, IntegerValue, FractionValue;
    var i, f := PadInt(TrimLeading(IntDigits(v))), PadFrac(TrimTrailing(FracDigits(v)));
    var i', f' := PadInt(TrimLeading(IntDigits(w))), PadFrac(TrimTrailing(FracDigits(w)));
    DigitsOrder(i, f, i', f');
    DigitsOrder(i', f', i, f);
    var n := Negative(v) && (TrimLeading(IntDigits(v)) != [] || TrimTrailing(FracDigits(v)) != []);
    var n' := Negative(w) && (TrimLeading(IntDigits(w)) != [] || TrimTrailing(FracDigits(w)) != []);
    SignedCodeOrder(n, i + f, n', i' + f');
  }

  lemma ComplementTwice(d: Bytes)
    requires AllDigits(d)
    ensures Complemented(Complemented(d)) == d && AllDigits(Complemented(d))
    ensures forall i :: 0 <= i < |d| ==> d[i] == 105 - Complemented(d)[i]
  {
  }

  lemma SignAndDigits(negative: bool, i: Bytes, f: Bytes)
    requires AllDigits(i) && AllDigits(f) && |i| == |f| == 64
    ensures var b := SignedCode(negative, i + f);
            var d := if negative then Complemented(b[1..]) else b[1..];
            && |b| == 129 && b[0] == (if negative then 0 else 1)
            && AllDigits(d) && d[..64] == i && d[64..] == f
            && forall j :: 0 <= j < 128 ==> d[j] as int == if negative then 105 - (b[j + 1] as int) else b[j + 1] as int
  {
    ComplementTwice(i + f);
    var b := SignedCode(negative, i + f);
    assert b[1..] == if negative then Complemented(i + f) else i + f;
  }

  /** The code place by place: one byte for the sign, 64 digits before and 64 behind the point, all taken from nine
      in a negative number. */
  lemma CodeLayout(v: Bytes) returns (d: Bytes)
    requires WellFormed(v) && Fits(v)
    ensures |d| == 128 && |Code(v)| == 129 && AllDigits(d)
    ensures Code(v)[0] == if Value(v) < 0.0 then 0 else 1
    ensures forall j :: 0 <= j < 128 ==>
              d[j] as int == if Value(v) < 0.0 then 105 - (Code(v)[j + 1] as int) else Code(v)[j + 1] as int
    ensures IntegerValue(d[..64]) as real + FractionValue(d[64..]) == if Value(v) < 0.0 then -Value(v) else Value(v)
  {
    hide TrimLeading, TrimTrailing, IntDigits, FracDigits, SignedCode, IntegerValue, FractionValue;
    hide AllDigits, Value, WellFormed, PadInt, PadFrac;
    var i, f := PadInt(TrimLeading(IntDigits(v))), PadFrac(TrimTrailing(FracDigits(v)));
    var negative := SignAndMagnitude(v);
    SignAndDigits(negative, i, f);
    d := if negative then Complemented(SignedCode(negative, i + f)[1..]) else SignedCode(negative, i + f)[1..];
  }

  lemma SignAndMagnitude(v: Bytes) returns (negative: bool)
    requires WellFormed(v) && Fits(v)
    ensures var i, f := PadInt(TrimLeading(IntDigits(v))), PadFrac(TrimTrailing(FracDigits(v)));
            && AllDigits(i) && AllDigits(f) && Code(v) == SignedCode(negative, i + f) && (negative <==> Value(v) < 0.0)
            && IntegerValue(i) as real + FractionValue(f) == if Value(v) < 0.0 then -Value(v) else Value(v)
  {
    CodeDigits(v);
    hide TrimLeading, TrimTrailing, IntDigits, FracDigits, SignedCode, IntegerValue, FractionValue, AllDigits;
    negative := Negative(v) && (TrimLeading(IntDigits(v)) != [] || TrimTrailing(FracDigits(v)) != []);
  }

  // ------------------------------------------------------------------ decoding

  /** The literal that decoding writes for a sign and trimmed digits. */
  function Literal(negative: bool, i: Bytes, f: Bytes): Bytes {
    var whole := if i == [] then [ZERO] else i;
    if f == [] then (if negative && whole != [ZERO] then [MINUS] + whole else whole)
    else (if negative then [MINUS] else []) + whole + [DOT] + f
  }

  function DigitsOf(b: Bytes): (d: Bytes)
    requires |b| >= ENCODED_LENGTH
    ensures |d| == PRECISION + PRECISION
  {
    var digits := b[1..ENCODED_LENGTH];
    if b[0] == 0 then Complemented(digits) else digits
  }

  function DecimalOf(b: Bytes): Bytes
    requires |b| >= ENCODED_LENGTH
  {
    Literal(b[0] == 0, TrimLeading(DigitsOf(b)[..PRECISION]), TrimTrailing(DigitsOf(b)[PRECISION..]))
  }

  lemma {:induction false} DotPlaceIs(u: Bytes, n: nat)
    requires n <= |u| && (n < |u| ==> u[n] == DOT) && forall i :: 0 <= i < n ==> u[i] != DOT
    ensures DotPlace(u) == n
  {
    if n > 0 {
      DotPlaceIs(u[1..], n - 1);
    }
  }

  lemma LiteralParts(negative: bool, i: Bytes, f: Bytes)
    requires AllDigits(i) && AllDigits(f)
    ensures var v := Literal(negative, i, f);
            && IntDigits(v) == (if i == [] then [ZERO] else i) && FracDigits(v) == f && WellFormed(v)
            && (Negative(v) <==> negative && !(f == [] && (i == [] || i == [ZERO])))
  {
    var v, whole := Literal(negative, i, f), if i == [] then [ZERO] else i;
    var u := if f == [] then whole else whole + [DOT] + f;
    assert IsDigit(whole[0]) && u[0] == whole[0];
    assert Unsigned(v) == u;
    DotPlaceIs(u, |whole|);
    assert f != [] ==> u[..|whole|] == whole && u[|whole| + 1..] == f;
  }

  lemma ComplementedTwice(d: Bytes)
    ensures Complemented(Complemented(d)) == d
  {
  }

  lemma DigitsOfCode(v: Bytes)
    requires Fits(v)
    ensures var i, f := TrimLeading(IntDigits(v)), TrimTrailing(FracDigits(v));
            && DigitsOf(Code(v)) == PadInt(i) + PadFrac(f)
            && (Code(v)[0] == 0 <==> Negative(v) && (i != [] || f != []))
  {
    hide TrimLeading, TrimTrailing, IntDigits, FracDigits;
    var i, f := TrimLeading(IntDigits(v)), TrimTrailing(FracDigits(v));
    ComplementedTwice(PadInt(i) + PadFrac(f));
    assert Code(v)[1..] == Code(v)[1..ENCODED_LENGTH];
  }

  /** Decoding gives the canonical literal of the same number: it has the same code, so equal numbers
      decode to one literal. */
  lemma DecodeInvertsCode(v: Bytes)
    requires WellFormed(v) && Fits(v)
    ensures var c := DecimalOf(Code(v));
            && WellFormed(c)
            && Fits(c)
            && Code(c) == Code(v)
            && Value(c) == Value(v)
  {
    hide Less, IntegerValue, FractionValue, IntDigits, FracDigits, Negative, DigitsOf;
    var i, f := TrimLeading(IntDigits(v)), TrimTrailing(FracDigits(v));
    var n := TrimmedLeading(IntDigits(v));
    var m := TrimmedTrailing(FracDigits(v));
    assert AllDigits(i) && AllDigits(f);
    DigitsOfCode(v);
    TrimOfPaddedLeading(PRECISION - |i|, i);
    TrimOfPaddedTrailing(f, PRECISION - |f|);
    assert (PadInt(i) + PadFrac(f))[..PRECISION] == PadInt(i) && (PadInt(i) + PadFrac(f))[PRECISION..] == PadFrac(f);
    var c := DecimalOf(Code(v));
    assert c == Literal(Code(v)[0] == 0, i, f);
    LiteralParts(Code(v)[0] == 0, i, f);
    TrimOfPaddedLeading(0, i);
    TrimOfPaddedTrailing(f, 0);
    assert Zeros(0) + i == i && f + Zeros(0) == f;
    assert TrimLeading([ZERO]) == [] by { assert [ZERO][1..] == []; }
    CodeOrder(c, v);
  }

  // ------------------------------------------------------------- the two operations

  predicate UnsignedOk(u: Bytes) {
    var dot := DotPlace(u);
    AllDigits(u[..dot]) && (if dot < |u| then AllDigits(u[dot + 1..]) && |u| > 1 else u != [])
  }

  lemma UnsignedOkIsWellFormed(v: Bytes)
    ensures WellFormed(v) <==> UnsignedOk(Unsigned(v))
  {
    var u := Unsigned(v);
    assert DotPlace(u) == |u| ==> u[..DotPlace(u)] == u;
  }

  /** The scan for the dot: digits on both sides, and at least one. */
  method ScanLiteral(u: Bytes) returns (ok: bool, dotIdx: int)
    ensures ok <==> UnsignedOk(u)
    ensures ok ==> dotIdx == if DotPlace(u) < |u| then DotPlace(u) else -1
  {
    dotIdx := -1;
    var hasDigit := false;
    for i := 0 to |u|
      invariant -1 <= dotIdx < i
      invariant dotIdx == -1 ==> AllDigits(u[..i]) && (hasDigit <==> i > 0)
      invariant dotIdx != -1 ==> u[dotIdx] == DOT && AllDigits(u[..dotIdx]) && AllDigits(u[dotIdx + 1..i]) && (hasDigit <==> i > 1)
    {
      if dotIdx != -1 {
        DotPlaceIs(u, dotIdx);
      }
      if u[i] == DOT {
        if dotIdx != -1 {
          assert u[dotIdx + 1..][i - dotIdx - 1] == DOT;
          return false, dotIdx;
        }
        dotIdx := i;
      } else if u[i] < ZERO || u[i] > NINE {
        if dotIdx == -1 {
          BadBeforeDot(u, i);
        } else {
          assert u[dotIdx + 1..][i - dotIdx - 1] == u[i];
        }
        return false, dotIdx;
      } else {
        assert dotIdx == -1 ==> u[..i + 1] == u[..i] + [u[i]];
        assert dotIdx != -1 ==> u[dotIdx + 1..i + 1] == u[dotIdx + 1..i] + [u[i]];
        hasDigit := true;
      }
    }
    DotPlaceIs(u, if dotIdx == -1 then |u| else dotIdx);
    assert u[..|u|] == u;
    ok := hasDigit;
  }

  /** A character that is neither digit nor dot spoils the integer part. */
  lemma BadBeforeDot(u: Bytes, i: nat)
    requires i < |u| && u[i] != DOT && !IsDigit(u[i]) && forall j :: 0 <= j < i ==> u[j] != DOT
    ensures !UnsignedOk(u)
  {
    assert DotPlace(u) > i;
    assert u[..DotPlace(u)][i] == u[i];
  }

  method SkipLeadingZeros(d: Bytes) returns (start: nat)
    ensures start <= |d| && d[start..] == TrimLeading(d)
  {
    start := 0;
    while start < |d| && d[start] == ZERO
      invariant start <= |d| && TrimLeading(d[start..]) == TrimLeading(d)
    {
      assert d[start..][1..] == d[start + 1..];
      start := start + 1;
    }
  }

  method SkipTrailingZeros(d: Bytes) returns (end: nat)
    ensures end <= |d| && d[..end] == TrimTrailing(d)
  {
    end := |d|;
    assert d[..end] == d;
    while end > 0 && d[end - 1] == ZERO
      invariant end <= |d| && TrimTrailing(d[..end]) == TrimTrailing(d)
    {
      assert d[..end][..end - 1] == d[..end - 1];
      end := end - 1;
    }
  }

  lemma PaddedWhole(t: Bytes)
    requires |t| <= PRECISION
    ensures var whole := if t == [] then [ZERO] else t;
            |whole| <= PRECISION && Zeros(PRECISION - |whole|) + whole == PadInt(t)
  {
    OneMoreZero(PRECISION - 1);
  }

  method EncodeDecimal(v: Bytes) returns (res: Result<Bytes>)
    ensures res == if !WellFormed(v) then Failure(ErrInvalidDecimal)
                   else if !Fits(v) then Failure(ErrDecimalTooLarge)
                   else Success(Code(v))
  {
    hide AllDigits, DotPlace, TrimLeading, TrimTrailing, UnsignedOk, PadInt, PadFrac, SignedCode;
    UnsignedOkIsWellFormed(v);
    EmptyIsNotOk();
    if v == [] {
      return Failure(ErrInvalidDecimal);
    }
    var isNeg := v[0] == MINUS;
    var u := if v[0] == MINUS || v[0] == PLUS then v[1..] else v;
    if u == [] {
      return Failure(ErrInvalidDecimal);
    }
    var ok, dotIdx := ScanLiteral(u);
    if !ok {
      return Failure(ErrInvalidDecimal);
    }
    var intPart, fracPart := if dotIdx == -1 then u else u[..dotIdx], if dotIdx == -1 then [] else u[dotIdx + 1..];
    assert intPart == IntDigits(v) && fracPart == FracDigits(v) by { WholeWithoutDot(u); }
    var start := SkipLeadingZeros(intPart);
    intPart := intPart[start..];
    NotJustZero(IntDigits(v));
    if intPart == [] {
      intPart := [ZERO];
    }
    var end := SkipTrailingZeros(fracPart);
    fracPart := fracPart[..end];
    if intPart == [ZERO] && fracPart == [] {
      isNeg := false;
    }
    if |intPart| > PRECISION || |fracPart| > PRECISION {
      return Failure(ErrDecimalTooLarge);
    }
    PaddedWhole(TrimLeading(IntDigits(v)));
    var b := Fill(isNeg, intPart, fracPart);
    return Success(b);
  }

  lemma NotJustZero(d: Bytes)
    ensures TrimLeading(d) != [ZERO]
  {
    var n := TrimmedLeading(d);
  }

  /** The buffer: sign, padded digits, complemented when negative. */
  method Fill(isNeg: bool, intPart: Bytes, fracPart: Bytes) returns (b: Bytes)
    requires |intPart| <= PRECISION && |fracPart| <= PRECISION
    ensures b == SignedCode(isNeg, Zeros(PRECISION - |intPart|) + intPart + PadFrac(fracPart))
  {
    hide Complemented;
    var out := new byte[ENCODED_LENGTH](_ => 0);
    out[0] := if isNeg then 0 else 1;
    FillDigits(out, intPart, fracPart);
    assert out[..] == [out[0]] + out[1..];
    if isNeg {
      Invert(out);
    }
    b := out[..];
  }

  /** The digits behind the sign, padded in front of the point and after it. */
  method FillDigits(out: array<byte>, intPart: Bytes, fracPart: Bytes)
    requires out.Length == ENCODED_LENGTH && |intPart| <= PRECISION && |fracPart| <= PRECISION
    modifies out
    ensures out[0] == old(out[0])
    ensures out[1..] == Zeros(PRECISION - |intPart|) + intPart + PadFrac(fracPart)
  {
    hide Zeros;
    ghost var front := out[..1] + Zeros(PRECISION - |intPart|);
    CopyAt(out, 1, Zeros(PRECISION - |intPart|));
    CopyAt(out, 1 + PRECISION - |intPart|, intPart);
    CopyAt(out, 1 + PRECISION, fracPart);
    CopyAt(out, 1 + PRECISION + |fracPart|, Zeros(PRECISION - |fracPart|));
    assert out[..] == out[..ENCODED_LENGTH] == front + intPart + fracPart + Zeros(PRECISION - |fracPart|);
    assert out[..] == out[..1] + out[1..];
  }

  method Invert(out: array<byte>)
    requires out.Length == ENCODED_LENGTH
    modifies out
    ensures out[..] == [old(out[0])] + Complemented(old(out[1..]))
  {
    for i := 1 to ENCODED_LENGTH
      invariant out[0] == old(out[0])
      invariant forall j :: 1 <= j < i ==> out[j] == Complement(old(out[j]))
      invariant forall j :: i <= j < ENCODED_LENGTH ==> out[j] == old(out[j])
    {
      out[i] := Complement(out[i]);
    }
  }

  lemma EmptyIsNotOk()
    ensures !UnsignedOk([])
  {
  }

  lemma WholeWithoutDot(u: Bytes)
    ensures DotPlace(u) == |u| ==> u[..DotPlace(u)] == u
  {
  }

  method InvertBoth(intDigits: array<byte>, fracDigits: array<byte>)
    requires intDigits != fracDigits && intDigits.Length == fracDigits.Length == PRECISION
    modifies intDigits, fracDigits
    ensures intDigits[..] == Complemented(old(intDigits[..]))
    ensures fracDigits[..] == Complemented(old(fracDigits[..]))
  {
    for i := 0 to PRECISION
      invariant forall j :: 0 <= j < i ==> intDigits[j] == Complement(old(intDigits[j]))
      invariant forall j :: 0 <= j < i ==> fracDigits[j] == Complement(old(fracDigits[j]))
      invariant forall j :: i <= j < PRECISION ==> intDigits[j] == old(intDigits[j])
      invariant forall j :: i <= j < PRECISION ==> fracDigits[j] == old(fracDigits[j])
    {
      intDigits[i] := Complement(intDigits[i]);
      fracDigits[i] := Complement(fracDigits[i]);
    }
  }

  lemma DigitsHalves(b: Bytes)
    requires |b| >= ENCODED_LENGTH
    ensures var i, f := b[1..1 + PRECISION], b[1 + PRECISION..ENCODED_LENGTH];
            && DigitsOf(b)[..PRECISION] == (if b[0] == 0 then Complemented(i) else i)
            && DigitsOf(b)[PRECISION..] == (if b[0] == 0 then Complemented(f) else f)
  {
  }

  method DecodeDecimal(b: Bytes) returns (res: Result<Bytes>)
    ensures res == if |b| < ENCODED_LENGTH then Failure(ErrKeyTooShort) else Success(DecimalOf(b))
  {
    hide TrimLeading, TrimTrailing, Complemented, DigitsOf;
    if |b| < ENCODED_LENGTH {
      return Failure(ErrKeyTooShort);
    }
    var isNeg := b[0] == 0;
    var intDigits, fracDigits := new byte[PRECISION](_ => 0), new byte[PRECISION](_ => 0);
    CopyAt(intDigits, 0, b[1..1 + PRECISION]);
    CopyAt(fracDigits, 0, b[1 + PRECISION..ENCODED_LENGTH]);
    assert intDigits[..] == intDigits[..PRECISION] && fracDigits[..] == fracDigits[..PRECISION];
    assert intDigits[..] == b[1..1 + PRECISION] && fracDigits[..] == b[1 + PRECISION..ENCODED_LENGTH];
    if isNeg {
      InvertBoth(intDigits, fracDigits);
    }
    DigitsHalves(b);
    var start := SkipLeadingZeros(intDigits[..]);
    var intPart := intDigits[start..];
    if intPart == [] {
      intPart := [ZERO];
    }
    var end := SkipTrailingZeros(fracDigits[..]);
    var fracPart := fracDigits[..end];
    if fracPart == [] {
      return Success(if isNeg && intPart != [ZERO] then [MINUS] + intPart else intPart);
    }
    return Success((if isNeg then [MINUS] else []) + intPart + [DOT] + fracPart);
  }
}
