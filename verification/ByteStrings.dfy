/** Byte strings under the order of Go's bytes.Compare, and the fixed-width integers of
    the on-disk formats. */
module ByteStrings {

  type byte = x: int | 0 <= x < 256
  type Bytes = seq<byte>

  /** bytes.Compare(a, b) < 0 */
  predicate Less(a: Bytes, b: Bytes) {
    b != [] && (a == [] || a[0] < b[0] || (a[0] == b[0] && Less(a[1..], b[1..])))
  }

  /** bytes.Compare(a, b) <= 0 */
  predicate AtMost(a: Bytes, b: Bytes) {
    a == b || Less(a, b)
  }

  /** bytes.HasPrefix(k, p) */
  predicate HasPrefix(k: Bytes, p: Bytes) {
    |p| <= |k| && k[..|p|] == p
  }

  lemma LessIrreflexive(a: Bytes)
    ensures !Less(a, a)
  {
  }

  lemma {:induction false} LessTransitive(a: Bytes, b: Bytes, c: Bytes)
    requires Less(a, b) && Less(b, c)
    ensures Less(a, c)
    decreases |a|
  {
    if a != [] && a[0] == b[0] == c[0] {
      LessTransitive(a[1..], b[1..], c[1..]);
    }
  }

  lemma {:induction false} LessTotal(a: Bytes, b: Bytes)
    ensures Less(a, b) || a == b || Less(b, a)
    ensures !(Less(a, b) && Less(b, a))
    ensures a == b ==> !Less(a, b)
    decreases |a|
  {
    if a != [] && b != [] && a[0] == b[0] {
      LessTotal(a[1..], b[1..]);
      assert a == [a[0]] + a[1..] && b == [b[0]] + b[1..];
    }
  }

  /** Less is a strict total order; the form in which the other modules use it. */
  lemma LessIsStrictTotalOrder()
    ensures forall a: Bytes :: !Less(a, a)
    ensures forall a: Bytes, b: Bytes :: Less(a, b) ==> !Less(b, a)
    ensures forall a: Bytes, b: Bytes :: !Less(a, b) && !Less(b, a) ==> a == b
    ensures forall a: Bytes, b: Bytes, c: Bytes :: Less(a, b) && Less(b, c) ==> Less(a, c)
  {
    forall a: Bytes, b: Bytes
      ensures !Less(a, a)
      ensures Less(a, b) ==> !Less(b, a)
      ensures !Less(a, b) && !Less(b, a) ==> a == b
    {
      LessTotal(a, a);
      LessTotal(a, b);
    }
    forall a: Bytes, b: Bytes, c: Bytes | Less(a, b) && Less(b, c)
      ensures Less(a, c)
    {
      LessTransitive(a, b, c);
    }
  }

  /** Neither string is a proper prefix of the other. */
  predicate PrefixFree(a: Bytes, b: Bytes) {
    a == b || (!HasPrefix(a, b) && !HasPrefix(b, a))
  }

  /** Two strings that are not prefixes of one another are compared before what follows them. */
  lemma {:induction false} LessOfConcatenations(a: Bytes, x: Bytes, b: Bytes, y: Bytes)
    requires PrefixFree(a, b)
    ensures Less(a + x, b + y) <==> Less(a, b) || (a == b && Less(x, y))
    decreases |a|
  {
    if a == b {
      LessOfCommonPrefix(a, x, y);
      LessTotal(a, a);
    } else {
      assert HasPrefix(a, []) && HasPrefix(b, []);
      assert (a + x)[0] == a[0] && (b + y)[0] == b[0];
      if a[0] == b[0] {
        assert (a + x)[1..] == a[1..] + x && (b + y)[1..] == b[1..] + y;
        assert a == [a[0]] + a[1..] && b == [b[0]] + b[1..];
        assert HasPrefix(a[1..], b[1..]) ==> HasPrefix(a, b);
        assert HasPrefix(b[1..], a[1..]) ==> HasPrefix(b, a);
        LessOfConcatenations(a[1..], x, b[1..], y);
      }
    }
  }

  lemma {:induction false} LessOfCommonPrefix(p: Bytes, x: Bytes, y: Bytes)
    ensures Less(p + x, p + y) <==> Less(x, y)
    decreases |p|
  {
    if p == [] {
      assert p + x == x && p + y == y;
    } else {
      assert (p + x)[1..] == p[1..] + x && (p + y)[1..] == p[1..] + y;
      LessOfCommonPrefix(p[1..], x, y);
    }
  }

  /** Keys that carry a prefix are not below it ... */
  lemma PrefixedNotBelow(k: Bytes, p: Bytes)
    requires HasPrefix(k, p)
    ensures !Less(k, p)
  {
    assert k == p + k[|p|..] && p == p + [];
    LessOfCommonPrefix(p, k[|p|..], []);
  }

  /** ... and form an interval: nothing between two of them lacks the prefix. */
  lemma {:induction false} PrefixedInterval(p: Bytes, k: Bytes, m: Bytes)
    requires !Less(k, p) && Less(k, m) && HasPrefix(m, p)
    ensures HasPrefix(k, p)
    decreases |p|
  {
    if p != [] {
      LessTotal(k, p);
      assert k != [] && m != [] && m[0] == p[0];
      assert k[0] == p[0];
      assert m[..|p|][1..] == m[1..][..|p| - 1];
      assert p[1..] == m[1..][..|p| - 1];
      PrefixedInterval(p[1..], k[1..], m[1..]);
      assert k[..|p|] == [k[0]] + k[1..][..|p| - 1];
      assert p == [p[0]] + p[1..];
    }
  }

  /** Little-endian encoding of n on w bytes (n < 256^w). */
  function LittleEndian(n: nat, w: nat): (b: Bytes)
    ensures |b| == w
  {
    if w == 0 then [] else [n % 256] + LittleEndian(n / 256, w - 1)
  }

  /** The least significant byte comes first. */
  lemma {:induction false} LittleEndianAt(n: nat, w: nat, i: nat)
    requires i < w
    ensures LittleEndian(n, w)[i] == n / Pow256(i) % 256
  {
    if i > 0 {
      LittleEndianAt(n / 256, w - 1, i - 1);
      DividedTwice(n, 256, Pow256(i - 1));
    }
  }

  lemma DividedTwice(n: nat, a: nat, b: nat)
    requires a > 0 && b > 0
    ensures n / a / b == n / (a * b)
  {
    var q, r, s := n / a / b, n / a % b, n % a;
    InRange(a, b, r, s);
    Regrouped(n, a, b, q, r, s);
    QuotientIs(n, a * b, q, a * r + s);
  }

  lemma InRange(a: nat, b: nat, r: nat, s: nat)
    requires r < b && s < a
    ensures a * r + s < a * b
  {
    Products(a, r, b - 1 - r);
  }

  lemma Products(a: nat, r: nat, d: nat)
    ensures a * (r + 1 + d) == a * r + a + a * d && a * d >= 0
  {
  }

  lemma Regrouped(n: nat, a: nat, b: nat, q: nat, r: nat, s: nat)
    requires n == a * (b * q + r) + s
    ensures n == q * (a * b) + (a * r + s)
  {
  }

  /** A wider number is cut to the width. */
  lemma {:induction false} LittleEndianWraps(n: nat, w: nat)
    ensures LittleEndian(n, w) == LittleEndian(n % Pow256(w), w)
  {
    if w > 0 {
      var p := Pow256(w - 1);
      CutDivides(n, p);
      LittleEndianWraps(n / 256, w - 1);
    }
  }

  lemma CutDivides(n: nat, p: nat)
    requires p > 0
    ensures n % (256 * p) % 256 == n % 256
    ensures n % (256 * p) / 256 == n / 256 % p
  {
    var a, b := n / 256, n % 256;
    var q, r := a / p, a % p;
    assert a == q * p + r;
    assert n == q * (256 * p) + (256 * r + b);
    QuotientIs(n, 256 * p, q, 256 * r + b);
  }

  lemma QuotientIs(n: nat, d: nat, q: nat, r: nat)
    requires n == q * d + r && r < d
    ensures n / d == q && n % d == r
  {
    var q', r' := n / d, n % d;
    assert (q' - q) * d == r - r';
    assert q' - q >= 1 ==> (q' - q) * d >= d;
    assert q' - q <= -1 ==> (q' - q) * d + d <= 0;
  }

  function FromLittleEndian(b: Bytes): nat {
    if b == [] then 0 else b[0] + 256 * FromLittleEndian(b[1..])
  }

  function Pow256(w: nat): (p: nat)
    ensures p > 0
  {
    if w == 0 then 1 else 256 * Pow256(w - 1)
  }

  /** Go truncates to the width: reading back gives the value exactly when it fits. */
  lemma {:induction false} LittleEndianRoundTrip(n: nat, w: nat)
    ensures FromLittleEndian(LittleEndian(n, w)) == n <==> n < Pow256(w)
  {
    if w > 0 {
      LittleEndianRoundTrip(n / 256, w - 1);
      LittleEndianBound(n / 256, w - 1);
      assert LittleEndian(n, w)[1..] == LittleEndian(n / 256, w - 1);
    }
  }

  lemma {:induction false} LittleEndianBound(n: nat, w: nat)
    ensures FromLittleEndian(LittleEndian(n, w)) < Pow256(w)
  {
    if w > 0 {
      LittleEndianBound(n / 256, w - 1);
      assert LittleEndian(n, w)[1..] == LittleEndian(n / 256, w - 1);
    }
  }

  /** Every byte string is the encoding of the number it reads as. */
  lemma {:induction false} LittleEndianOfRead(b: Bytes)
    ensures LittleEndian(FromLittleEndian(b), |b|) == b
    ensures FromLittleEndian(b) < Pow256(|b|)
  {
    if b != [] {
      LittleEndianOfRead(b[1..]);
      var n := FromLittleEndian(b);
      assert n % 256 == b[0] && n / 256 == FromLittleEndian(b[1..]);
      assert b == [b[0]] + b[1..];
    }
  }

  /** Big-endian encoding of n on w bytes. */
  function BigEndian(n: nat, w: nat): (b: Bytes)
    ensures |b| == w
  {
    if w == 0 then [] else BigEndian(n / 256, w - 1) + [n % 256]
  }

  function FromBigEndian(b: Bytes): nat {
    if b == [] then 0 else 256 * FromBigEndian(b[..|b| - 1]) + b[|b| - 1]
  }

  lemma {:induction false} BigEndianRoundTrip(n: nat, w: nat)
    requires n < Pow256(w)
    ensures FromBigEndian(BigEndian(n, w)) == n
  {
    if w > 0 {
      BigEndianRoundTrip(n / 256, w - 1);
      assert BigEndian(n, w)[..w - 1] == BigEndian(n / 256, w - 1);
    }
  }

  /** Big-endian bytes of one width compare like the numbers. */
  lemma {:induction false} BigEndianOrder(m: nat, n: nat, w: nat)
    requires m < Pow256(w) && n < Pow256(w)
    ensures Less(BigEndian(m, w), BigEndian(n, w)) <==> m < n
    ensures BigEndian(m, w) == BigEndian(n, w) <==> m == n
  {
    if w > 0 {
      var m', n' := m / 256, n / 256;
      BigEndianOrder(m', n', w - 1);
      var a, b := BigEndian(m', w - 1), BigEndian(n', w - 1);
      SameLengthPrefixFree(a, b);
      LessOfConcatenations(a, [m % 256], b, [n % 256]);
      assert BigEndian(m, w)[..w - 1] == a && BigEndian(n, w)[..w - 1] == b;
      assert BigEndian(m, w)[w - 1] == m % 256 && BigEndian(n, w)[w - 1] == n % 256;
    }
  }

  lemma SameLengthPrefixFree(a: Bytes, b: Bytes)
    requires |a| == |b|
    ensures PrefixFree(a, b)
  {
    assert a[..|b|] == a && b[..|a|] == b;
  }
}
