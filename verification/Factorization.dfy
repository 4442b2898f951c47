/** The combinatorics behind the two-way search: maximal suffixes under an order on
    bytes and under the opposite order, periods, and the critical factorisation of a
    needle.  Everything is stated on positions of one sequence `n`. */
module Factorization {
  import opened Arith
  import opened Bytes

  /** The order on bytes, or its opposite. */
  function Rank(c: byte, opposite: bool): int {
    if opposite then 0 - c else c as int
  }

  /** The letters at offset `i` of the suffixes at `a` and `b` exist and are equal. */
  ghost predicate Same(n: seq<byte>, a: nat, b: nat, i: nat) {
    a + i < |n| && b + i < |n| && n[a + i] == n[b + i]
  }

  /** The suffixes at `a` and `b` first differ at offset `e`, and there `a` is smaller. */
  ghost predicate LessAt(n: seq<byte>, a: nat, b: nat, e: nat, opposite: bool) {
    && a + e < |n| && b + e < |n|
    && (forall i: nat :: i < e ==> Same(n, a, b, i))
    && Rank(n[a + e], opposite) < Rank(n[b + e], opposite)
  }

  /** The suffix at `a` is a proper prefix of the suffix at `b`. */
  ghost predicate PrefixOf(n: seq<byte>, a: nat, b: nat) {
    && b < a
    && forall i: nat :: i < |n| - a ==> Same(n, a, b, i)
  }

  /** Lexicographic order on suffixes. */
  ghost predicate Below(n: seq<byte>, a: nat, b: nat, opposite: bool) {
    PrefixOf(n, a, b) || exists e: nat :: LessAt(n, a, b, e, opposite)
  }

  /** The suffix at `s` is the largest one. */
  ghost predicate IsMaximalSuffix(n: seq<byte>, s: nat, opposite: bool) {
    && s < |n|
    && forall a: nat :: a < |n| && a != s ==> Below(n, a, s, opposite)
  }

  /** `p` is a period of the suffix at `lo`. */
  ghost predicate IsPeriod(n: seq<byte>, lo: nat, p: nat) {
    1 <= p && forall j :: lo + p <= j < |n| ==> n[j] == n[j - p]
  }

  /** `p` is the smallest period of the suffix at `lo`. */
  ghost predicate IsSmallestPeriod(n: seq<byte>, lo: nat, p: nat) {
    && IsPeriod(n, lo, p)
    && forall q: nat :: IsPeriod(n, lo, q) ==> p <= q
  }

  /** A square of half-length `r` centred at position `s`, where letters that would fall
      outside `n` match anything. */
  ghost predicate LocalRepetition(n: seq<byte>, s: nat, r: nat) {
    1 <= r && forall j :: s <= j < s + r && r <= j < |n| ==> n[j] == n[j - r]
  }

  /** Position `s` is critical: every local repetition there is a period of all of `n`. */
  ghost predicate IsCritical(n: seq<byte>, s: nat) {
    forall r: nat :: LocalRepetition(n, s, r) ==> s < r && IsPeriod(n, 0, r)
  }

  lemma LessIsAsymmetric(n: seq<byte>, a: nat, b: nat, e: nat, opposite: bool)
    requires LessAt(n, a, b, e, opposite) && a < b
    ensures !Below(n, b, a, opposite)
  {
    assert !Same(n, b, a, e);
    forall f: nat ensures !LessAt(n, b, a, f, opposite) {
      if f < e {
        assert Same(n, a, b, f);
      }
    }
  }

  /** If the letters before a repetition at `s` are smaller than the suffix at `s`, the
      difference lies after the repetition. */
  lemma DifferenceMoves(n: seq<byte>, s: nat, r: nat, e: nat, opposite: bool)
    requires LocalRepetition(n, s, r) && r <= s && LessAt(n, s - r, s, e, opposite)
    ensures r <= e && LessAt(n, s, s + r, e - r, opposite)
  {
    var a, b := s - r, s + r;
    forall i: nat | i < e - r ensures Same(n, s, b, i) {
      assert Same(n, a, s, r + i);
    }
  }

  /** A repetition at a maximal suffix reaches back beyond the start of `n`. */
  lemma RepetitionIsLong(n: seq<byte>, s: nat, r: nat, opposite: bool)
    requires IsMaximalSuffix(n, s, opposite)
    requires LocalRepetition(n, s, r)
    ensures s < r
  {
    if r <= s {
      assert Below(n, s - r, s, opposite);
      var e: nat :| LessAt(n, s - r, s, e, opposite);
      DifferenceMoves(n, s, r, e, opposite);
      LessIsAsymmetric(n, s, s + r, e - r, opposite);
    }
  }

  /** The part of `n` between the two maximal suffixes repeats, so a difference found at
      the later one is found at the earlier one too. */
  lemma DifferenceReachesBack(n: seq<byte>, s: nat, t: nat, r: nat, e: nat, opposite: bool)
    requires t <= s < r && LocalRepetition(n, s, r) && LessAt(n, s + r, s, e, opposite)
    ensures LessAt(n, t, t + r, s - t + e, !opposite)
  {
    var b, d := t + r, s - t;
    forall i: nat | i < d + e ensures Same(n, t, b, i) {
      if i < d {
        assert n[t + r + i] == n[t + r + i - r];
      } else {
        assert Same(n, s + r, s, i - d);
      }
    }
  }

  /** A repetition that starts at the later of the two maximal suffixes extends to a
      period: the two orders bound the letter after the repetition from both sides. */
  lemma RepetitionIsPeriod(n: seq<byte>, s: nat, t: nat, r: nat, opposite: bool)
    requires IsMaximalSuffix(n, s, opposite) && IsMaximalSuffix(n, t, !opposite) && t <= s
    requires LocalRepetition(n, s, r) && s < r
    ensures IsPeriod(n, 0, r)
  {
    if s + r < |n| {
      assert Below(n, s + r, s, opposite);
      if !PrefixOf(n, s + r, s) {
        var e: nat :| LessAt(n, s + r, s, e, opposite);
        DifferenceReachesBack(n, s, t, r, e, opposite);
        LessIsAsymmetric(n, t, t + r, s - t + e, !opposite);
      } else {
        forall j | s + r <= j < |n| ensures n[j] == n[j - r] {
          assert Same(n, s + r, s, j - s - r);
        }
      }
    }
  }

  /** The critical factorisation theorem: the later of the two maximal suffixes starts at
      a critical position. */
  lemma CriticalFactorization(n: seq<byte>, s: nat, t: nat, opposite: bool)
    requires IsMaximalSuffix(n, s, opposite) && IsMaximalSuffix(n, t, !opposite) && t <= s
    ensures IsCritical(n, s)
  {
    forall r: nat | LocalRepetition(n, s, r) ensures s < r && IsPeriod(n, 0, r) {
      RepetitionIsLong(n, s, r, opposite);
      RepetitionIsPeriod(n, s, t, r, opposite);
    }
  }

  lemma PeriodSteps(n: seq<byte>, lo: nat, p: nat, a: nat, b: nat, k: nat)
    requires IsPeriod(n, lo, p) && lo <= a && b < |n| && b == a + k * p
    ensures n[a] == n[b]
    decreases k
  {
    if k > 0 {
      assert b - p == a + (k - 1) * p;
      assert (k - 1) * p >= 0;
      PeriodSteps(n, lo, p, a, b - p, k - 1);
    }
  }

  /** Two positions in the same residue class of a period carry the same letter. */
  lemma SameResidue(n: seq<byte>, lo: nat, p: nat, a: nat, b: nat)
    requires IsPeriod(n, lo, p) && lo <= a <= b < |n| && (b - a) % p == 0
    ensures n[a] == n[b]
  {
    PeriodSteps(n, lo, p, a, b, (b - a) / p);
  }

  /** A short period of the whole needle gives a short local repetition, hence (at a
      critical position) is a multiple of the smallest period of the right part, which is
      then a period of the whole needle. */
  lemma ShortPeriodIsSmallest(n: seq<byte>, s: nat, p: nat, r: nat)
    requires s < |n| && IsCritical(n, s) && IsSmallestPeriod(n, s, p)
    requires IsPeriod(n, 0, r) && s < r <= |n| - s
    ensures IsPeriod(n, 0, p)
  {
    var b := if r % p == 0 then p else r % p;
    assert IsPeriod(n, s, r);
    assert p <= r;
    assert (r - b) % p == 0 by {
      assert r == p * (r / p) + r % p;
      if r % p == 0 {
        assert r - b == p * (r / p - 1);
        ModOfMultiple(r / p - 1, p);
      } else {
        assert r - b == p * (r / p);
        ModOfMultiple(r / p, p);
      }
    }
    forall j | s <= j < s + b && b <= j < |n| ensures n[j] == n[j - b] {
      var i := j - b + r;
      assert n[i] == n[i - r];
      SameResidue(n, s, p, j, i);
    }
    assert LocalRepetition(n, s, b);
    assert IsPeriod(n, 0, b);
    assert IsPeriod(n, s, b);
  }
}
