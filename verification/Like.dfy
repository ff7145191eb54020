/** The LIKE matcher (internal/sql/executor/eval.go, matchLike): `%` stands for any substring, `_` for any
    one character, every other character for itself. */
module Like {

  // ------------------------------------------------------------------ definition

  predicate OneCharacter(c: char, x: char) {
    c == '_' || c == x
  }

  /** What a specifier of the pattern stands for. */
  predicate StandsFor(c: char, x: string) {
    c == '%' || (|x| == 1 && OneCharacter(c, x[0]))
  }

  function Join(pieces: seq<string>): string {
    if pieces == [] then [] else pieces[0] + Join(pieces[1..])
  }

  /** s partitioned into one substring for each specifier of the pattern, in order. */
  predicate Partition(s: string, p: string, pieces: seq<string>) {
    |pieces| == |p| && Join(pieces) == s && forall i :: 0 <= i < |p| ==> StandsFor(p[i], pieces[i])
  }

  /** The definition of section 8.5 of ISO/IEC 9075-2, without ESCAPE. */
  ghost predicate Matches(s: string, p: string) {
    exists pieces :: Partition(s, p, pieces)
  }

  /** The same by recursion on the pattern. */
  ghost predicate Like(s: string, p: string)
    decreases |p|
  {
    if p == [] then s == []
    else if p[0] == '%' then exists k :: 0 <= k <= |s| && Like(s[k..], p[1..])
    else s != [] && OneCharacter(p[0], s[0]) && Like(s[1..], p[1..])
  }

  lemma {:induction false} LikePartition(s: string, p: string) returns (pieces: seq<string>)
    requires Like(s, p)
    ensures Partition(s, p, pieces)
    decreases |p|
  {
    if p == [] {
      pieces := [];
    } else {
      var k: nat := 1;
      if p[0] == '%' {
        k :| 0 <= k <= |s| && Like(s[k..], p[1..]);
      }
      var rest := LikePartition(s[k..], p[1..]);
      pieces := [s[..k]] + rest;
      assert pieces[1..] == rest && s == s[..k] + s[k..];
      forall i | 0 <= i < |p|
        ensures StandsFor(p[i], pieces[i])
      {
        assert i > 0 ==> p[i] == p[1..][i - 1] && pieces[i] == rest[i - 1];
      }
    }
  }

  lemma {:induction false} PartitionLike(s: string, p: string, pieces: seq<string>)
    requires Partition(s, p, pieces)
    ensures Like(s, p)
    decreases |p|
  {
    if p != [] {
      var k := |pieces[0]|;
      var rest := pieces[1..];
      assert s == pieces[0] + Join(rest) && s[k..] == Join(rest);
      assert forall i :: 0 <= i < |p[1..]| ==> p[1..][i] == p[i + 1] && rest[i] == pieces[i + 1];
      PartitionLike(s[k..], p[1..], rest);
    }
  }

  lemma LikeIffMatches(s: string, p: string)
    ensures Like(s, p) <==> Matches(s, p)
  {
    if Like(s, p) {
      var pieces := LikePartition(s, p);
    }
    if Matches(s, p) {
      var pieces :| Partition(s, p, pieces);
      PartitionLike(s, p, pieces);
    }
  }

  // ------------------------------------------------- why one '%' to go back to suffices

  predicate NoPercent(p: string) {
    forall i :: 0 <= i < |p| ==> p[i] != '%'
  }

  /** A stretch of the pattern without `%` takes exactly its length. */
  lemma {:induction false} PlainTakesItsLength(s: string, q: string, rest: string)
    requires NoPercent(q) && Like(s, q + rest)
    ensures |q| <= |s| && Like(s[|q|..], rest)
    decreases |q|
  {
    if q == [] {
      assert q + rest == rest && s[0..] == s;
    } else {
      assert (q + rest)[0] == q[0] && (q + rest)[1..] == q[1..] + rest;
      PlainTakesItsLength(s[1..], q[1..], rest);
      assert s[1..][|q[1..]|..] == s[|q|..];
    }
  }

  /** With a second `%` reached at place i, a match found by moving the first one further is also found
      by moving only the second. */
  lemma EarlierPercentNeedNotMove(s: string, p: string, star: nat, sMatch: nat, i: nat, k: nat)
    requires star < i < |p| && p[i] == '%' && NoPercent(p[star + 1..i])
    requires sMatch < k <= |s| && sMatch + (i - (star + 1)) <= |s|
    requires Like(s[k..], p[star + 1..])
    ensures Like(s[sMatch + (i - (star + 1))..], p[i..])
  {
    var q, m := p[star + 1..i], i - (star + 1);
    assert p[star + 1..] == q + p[i..];
    PlainTakesItsLength(s[k..], q, p[i..]);
    assert s[k..][m..] == s[k + m..];
    PercentReaches(s, p[i..], sMatch + m, k + m);
  }

  lemma PercentReaches(s: string, q: string, i: nat, j: nat)
    requires i <= j <= |s| && q != [] && q[0] == '%' && Like(s[j..], q)
    ensures Like(s[i..], q)
  {
    var k :| 0 <= k <= |s[j..]| && Like(s[j..][k..], q[1..]);
    assert s[j..][k..] == s[i..][j - i + k..];
  }

  /** The match may still be found from a later start of the text after the last `%`. */
  ghost predicate FromLater(s: string, q: string, sMatch: nat) {
    exists k :: sMatch < k <= |s| && Like(s[k..], q)
  }

  lemma NextStart(s: string, q: string, sMatch: nat)
    requires sMatch < |s|
    ensures FromLater(s, q, sMatch) <==> Like(s[sMatch + 1..], q) || FromLater(s, q, sMatch + 1)
  {
    hide Like;
    if FromLater(s, q, sMatch) {
      var k :| sMatch < k <= |s| && Like(s[k..], q);
    }
  }

  lemma PercentHere(s: string, q: string, i: nat)
    requires i <= |s| && q != [] && q[0] == '%'
    ensures Like(s[i..], q) <==> Like(s[i..], q[1..]) || FromLater(s, q[1..], i)
  {
    if Like(s[i..], q) {
      var k :| 0 <= k <= |s[i..]| && Like(s[i..][k..], q[1..]);
      assert s[i..][k..] == s[i + k..];
    }
    if Like(s[i..], q[1..]) {
      assert s[i..][0..] == s[i..];
    }
    if FromLater(s, q[1..], i) {
      var k :| i < k <= |s| && Like(s[k..], q[1..]);
      assert s[i..][k - i..] == s[k..];
    }
  }

  /** Nothing can start later once the plain stretch already reaches the end of the string. */
  lemma NoRoomLater(s: string, p: string, star: nat, sMatch: nat, pIdx: nat)
    requires star < pIdx <= |p| && NoPercent(p[star + 1..pIdx]) && sMatch <= |s| && pIdx - (star + 1) == |s| - sMatch
    ensures !FromLater(s, p[star + 1..], sMatch)
  {
    if k :| sMatch < k <= |s| && Like(s[k..], p[star + 1..]) {
      assert p[star + 1..] == p[star + 1..pIdx] + p[pIdx..];
      PlainTakesItsLength(s[k..], p[star + 1..pIdx], p[pIdx..]);
    }
  }

  lemma {:induction false} EmptyIsLike(q: string)
    ensures Like([], q) <==> forall i :: 0 <= i < |q| ==> q[i] == '%'
    decreases |q|
  {
    if q != [] {
      EmptyIsLike(q[1..]);
      var none: string := [];
      assert none[0..] == none;
      assert forall i :: 1 <= i < |q| ==> q[i] == q[1..][i - 1];
    }
  }

  // ------------------------------------------------------------------ the matcher

  /** What the loop has not decided yet decides the whole question. */
  ghost predicate Undecided(s: string, p: string, sIdx: nat, pIdx: nat, star: int, sMatch: nat)
    requires sIdx <= |s| && pIdx <= |p| && -1 <= star < |p|
  {
    Like(s[sIdx..], p[pIdx..]) || (star != -1 && FromLater(s, p[star + 1..], sMatch))
  }

  method MatchLike(s: string, p: string) returns (matched: bool)
    ensures matched <==> Matches(s, p)
  {
    hide Matches, FromLater, Like;
    LikeIffMatches(s, p);
    assert s[0..] == s && p[0..] == p;
    var sIdx, pIdx, starIdx, sMatch := 0, 0, -1, 0;
    while sIdx < |s|
      invariant 0 <= sIdx <= |s| && 0 <= pIdx <= |p| && -1 <= starIdx < pIdx && 0 <= sMatch <= sIdx
      invariant starIdx != -1 ==> NoPercent(p[starIdx + 1..pIdx]) && pIdx - (starIdx + 1) == sIdx - sMatch
      invariant Like(s, p) <==> Undecided(s, p, sIdx, pIdx, starIdx, sMatch)
      decreases |p| - starIdx, |s| - sMatch, |s| - sIdx
    {
      if pIdx < |p| && p[pIdx] == '%' {
        AtPercent(s, p, sIdx, pIdx, starIdx, sMatch);
        starIdx := pIdx;
        sMatch := sIdx;
        pIdx := pIdx + 1;
      } else if pIdx < |p| && (p[pIdx] == '_' || p[pIdx] == s[sIdx]) {
        StepBoth(s, p, sIdx, pIdx);
        assert starIdx != -1 ==> p[starIdx + 1..pIdx + 1] == p[starIdx + 1..pIdx] + [p[pIdx]];
        sIdx := sIdx + 1;
        pIdx := pIdx + 1;
      } else if starIdx != -1 {
        Mismatch(s, p, sIdx, pIdx);
        NextStart(s, p[starIdx + 1..], sMatch);
        pIdx := starIdx + 1;
        sMatch := sMatch + 1;
        sIdx := sMatch;
      } else {
        Mismatch(s, p, sIdx, pIdx);
        return false;
      }
    }
    if starIdx != -1 {
      NoRoomLater(s, p, starIdx, sMatch, pIdx);
    }
    assert s[sIdx..] == [];
    EmptyIsLike(p[pIdx..]);
    ghost var from := pIdx;
    while pIdx < |p| && p[pIdx] == '%'
      invariant from <= pIdx <= |p| && forall i :: from <= i < pIdx ==> p[i] == '%'
    {
      pIdx := pIdx + 1;
    }
    assert pIdx < |p| ==> p[from..][pIdx - from] != '%';
    return pIdx == |p|;
  }

  lemma AtPercent(s: string, p: string, sIdx: nat, pIdx: nat, star: int, sMatch: nat)
    requires sIdx <= |s| && pIdx < |p| && p[pIdx] == '%' && -1 <= star < pIdx && sMatch <= sIdx
    requires star != -1 ==> NoPercent(p[star + 1..pIdx]) && pIdx - (star + 1) == sIdx - sMatch
    ensures Undecided(s, p, sIdx, pIdx, star, sMatch) <==> Undecided(s, p, sIdx, pIdx + 1, pIdx, sIdx)
  {
    assert p[pIdx..][1..] == p[pIdx + 1..];
    PercentHere(s, p[pIdx..], sIdx);
    if star != -1 && FromLater(s, p[star + 1..], sMatch) {
      var k :| sMatch < k <= |s| && Like(s[k..], p[star + 1..]);
      EarlierPercentNeedNotMove(s, p, star, sMatch, pIdx, k);
    }
  }

  lemma StepBoth(s: string, p: string, sIdx: nat, pIdx: nat)
    requires sIdx < |s| && pIdx < |p| && p[pIdx] != '%' && OneCharacter(p[pIdx], s[sIdx])
    ensures Like(s[sIdx..], p[pIdx..]) <==> Like(s[sIdx + 1..], p[pIdx + 1..])
  {
    assert s[sIdx..][1..] == s[sIdx + 1..] && p[pIdx..][1..] == p[pIdx + 1..];
  }

  lemma Mismatch(s: string, p: string, sIdx: nat, pIdx: nat)
    requires sIdx < |s| && pIdx <= |p| && (pIdx < |p| ==> p[pIdx] != '%' && !OneCharacter(p[pIdx], s[sIdx]))
    ensures !Like(s[sIdx..], p[pIdx..])
  {
  }
}
