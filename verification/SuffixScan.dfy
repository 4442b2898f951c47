/** The invariant of one maximal-suffix pass over a needle, and why each of its three
    moves keeps it. */
module SuffixScan {
  import opened Arith
  import opened Bytes
  import opened Factorization

  /** `d` is a whole number of periods. */
  ghost predicate Whole(d: int, p: int) {
    0 < p && d % p == 0
  }

  lemma WholeSum(a: int, b: int, p: int)
    requires Whole(a, p) && Whole(b, p)
    ensures Whole(a + b, p) && Whole(a - b, p)
  {
    CongAdd(a, 0, b, 0, p);
    CongSub(a, 0, b, 0, p);
  }

  lemma WholePeriod(p: int)
    requires 0 < p
    ensures Whole(p, p) && Whole(0, p)
  {
    ModOfMultiple(1, p);
    ModOfMultiple(0, p);
  }

  /** The candidate starts at `s`, `n[s..t+o)` has period `p`, and `t` lies a whole number
      of periods after `s`.  The block `n[s..s+p)` beats each of its own suffixes, and the
      candidate beats every earlier suffix. */
  ghost predicate Scanned(n: seq<byte>, s: nat, t: nat, o: nat, p: nat, opposite: bool) {
    && s < t && t + o <= |n| && o < p <= t - s && Whole(t - s, p)
    && IsPeriod(n[..t + o], s, p)
    && BlockBeats(n, s, s + p, opposite)
    && (forall q: nat :: q < s ==> Beaten(n, q, s, |n|, opposite))
  }

  /** The suffix at `q` is smaller than the one at `s`, as its letters before `end` show. */
  ghost predicate Beaten(n: seq<byte>, q: nat, s: nat, end: nat, opposite: bool) {
    exists e: nat :: LessAt(n, q, s, e, opposite) && q + e < end
  }

  /** The block `n[s..end)` beats each of its own shorter suffixes. */
  ghost predicate BlockBeats(n: seq<byte>, s: nat, end: nat, opposite: bool) {
    forall q: nat :: s < q < end ==> Beaten(n, q, s, end, opposite)
  }

  /** Letters of the scanned part repeat with period `p`. */
  lemma Repeats(n: seq<byte>, s: nat, t: nat, o: nat, p: nat, opposite: bool, a: nat, b: nat)
    requires Scanned(n, s, t, o, p, opposite)
    requires s <= a <= b < t + o && Whole(b - a, p)
    ensures n[a] == n[b]
  {
    SameResidue(n[..t + o], s, p, a, b);
  }

  lemma ScanStarts(n: seq<byte>, opposite: bool)
    requires 1 <= |n|
    ensures Scanned(n, 0, 1, 0, 1, opposite)
  {
  }

  /** Equal letters: the period goes on. */
  lemma ScanExtends(n: seq<byte>, s: nat, t: nat, o: nat, p: nat, opposite: bool)
    requires Scanned(n, s, t, o, p, opposite) && t + o < |n| && n[s + o] == n[t + o]
    ensures if o + 1 == p then Scanned(n, s, t + p, 0, p, opposite) else Scanned(n, s, t, o + 1, p, opposite)
  {
    hide Whole;
    WholePeriod(p);
    WholeSum(t - s, p, p);
    Repeats(n, s, t, o, p, opposite, s + o, t + o - p);
    var m := n[..t + o];
    forall j | s + p <= j < t + o + 1 ensures n[j] == n[j - p] {
      assert j < t + o ==> m[j] == m[j - p];
    }
  }

  /** Two offsets below `p` in the same residue class are equal. */
  lemma SameOffset(a: nat, b: nat, d: int, p: nat)
    requires a < p && b < p && Whole(d, p) && a == b + d
    ensures a == b
  {
    assert d == p * (d / p);
    if d / p >= 1 {
      MulMono(1, d / p, p);
    } else if d / p <= -1 {
      MulMono(d / p, -1, p);
    }
  }

  /** A position of the scanned part, compared with the candidate: either it lies a whole
      number of periods after it, or the block decides. */
  lemma BlockOffset(n: seq<byte>, s: nat, t: nat, o: nat, p: nat, opposite: bool, q: nat)
      returns (d: nat, e: nat)
    requires Scanned(n, s, t, o, p, opposite) && s < q && !Whole(q - s, p)
    ensures d == (q - s) % p && 0 < d < p && Whole(q - s - d, p)
    ensures LessAt(n, s + d, s, e, opposite) && d + e < p
  {
    d := (q - s) % p;
    CongMod(q - s, p);
    CongSub(q - s, d, d, d, p);
    assert Beaten(n, s + d, s, s + p, opposite);
    e :| LessAt(n, s + d, s, e, opposite) && s + d + e < s + p;
  }

  /** The new letter is smaller: everything read so far becomes one block. */
  lemma ScanShrinks(n: seq<byte>, s: nat, t: nat, o: nat, p: nat, opposite: bool)
    requires Scanned(n, s, t, o, p, opposite) && t + o < |n|
    requires Rank(n[t + o], opposite) < Rank(n[s + o], opposite)
    ensures Scanned(n, s, t + o + 1, 0, t + o + 1 - s, opposite)
  {
    hide Whole;
    var end := t + o + 1;
    forall q: nat | s < q < end ensures Beaten(n, q, s, end, opposite) {
      if Whole(q - s, p) {
        AlignedIsBeaten(n, s, t, o, p, opposite, q);
      } else {
        UnalignedIsBeaten(n, s, t, o, p, opposite, q);
      }
    }
    WholePeriod(end - s);
  }

  lemma AlignedIsBeaten(n: seq<byte>, s: nat, t: nat, o: nat, p: nat, opposite: bool, q: nat)
    requires Scanned(n, s, t, o, p, opposite) && t + o < |n|
    requires Rank(n[t + o], opposite) < Rank(n[s + o], opposite)
    requires s < q <= t + o && Whole(q - s, p)
    ensures LessAt(n, q, s, t + o - q, opposite)
  {
    hide Whole;
    var e := t + o - q;
    WholeSum(t - s, q - s, p);
    WholeSum(q - s, t - s, p);
    if t < q {
      SameOffset(q - t, 0, q - t, p);
    }
    forall i: nat | i < e ensures Same(n, q, s, i) {
      Repeats(n, s, t, o, p, opposite, s + i, q + i);
    }
    Repeats(n, s, t, o, p, opposite, s + o, s + e);
  }

  lemma UnalignedIsBeaten(n: seq<byte>, s: nat, t: nat, o: nat, p: nat, opposite: bool, q: nat)
    requires Scanned(n, s, t, o, p, opposite) && t + o < |n|
    requires Rank(n[t + o], opposite) < Rank(n[s + o], opposite)
    requires s < q <= t + o && !Whole(q - s, p)
    ensures Beaten(n, q, s, t + o + 1, opposite)
  {
    hide Whole, IsPeriod, BlockBeats, LessAt;
    var d, f := BlockOffset(n, s, t, o, p, opposite, q);
    if f < t + o - q {
      DiffersInBlock(n, s, t, o, p, opposite, q, d, f);
    } else {
      DiffersAtNewLetter(n, s, t, o, p, opposite, q, d, f);
    }
  }

  lemma DiffersInBlock(n: seq<byte>, s: nat, t: nat, o: nat, p: nat, opposite: bool, q: nat, d: nat, f: nat)
    requires Scanned(n, s, t, o, p, opposite) && s < q
    requires 0 < d < p && s + d <= q && Whole(q - s - d, p) && LessAt(n, s + d, s, f, opposite) && f < t + o - q
    ensures LessAt(n, q, s, f, opposite)
  {
    hide Whole, IsPeriod, BlockBeats;
    BlockDecides(n, s, t, o, p, opposite, q, d, f, f);
    Repeats(n, s, t, o, p, opposite, s + d + f, q + f);
  }

  lemma DiffersAtNewLetter(n: seq<byte>, s: nat, t: nat, o: nat, p: nat, opposite: bool, q: nat, d: nat, f: nat)
    requires Scanned(n, s, t, o, p, opposite) && t + o < |n| && s < q <= t + o
    requires Rank(n[t + o], opposite) < Rank(n[s + o], opposite)
    requires 0 < d && s + d <= q && Whole(q - s - d, p) && LessAt(n, s + d, s, f, opposite)
    requires d + f < p && t + o - q <= f
    ensures LessAt(n, q, s, t + o - q, opposite)
  {
    hide Whole, IsPeriod, BlockBeats;
    var e := t + o - q;
    BlockDecides(n, s, t, o, p, opposite, q, d, f, e);
    NewLetterOffset(s, t, o, p, q, d);
    assert e < f ==> Same(n, s + d, s, e);
  }

  /** The new letter continues the block at the offset `o` it is compared with. */
  lemma NewLetterOffset(s: nat, t: nat, o: nat, p: nat, q: nat, d: nat)
    requires 0 < p && Whole(t - s, p) && Whole(q - s - d, p)
    requires o < p && q <= t + o && d + (t + o - q) < p
    ensures d + (t + o - q) == o
  {
    WholeSum(t - s, q - s - d, p);
    SameOffset(d + (t + o - q), o, t - s - (q - s - d), p);
  }

  lemma BlockDecides(n: seq<byte>, s: nat, t: nat, o: nat, p: nat, opposite: bool, q: nat, d: nat, f: nat, g: nat)
    requires Scanned(n, s, t, o, p, opposite) && s < q
    requires 0 < d < p && s + d <= q && Whole(q - s - d, p) && LessAt(n, s + d, s, f, opposite)
    requires g <= f && q + g <= t + o
    ensures forall i: nat :: i < g ==> Same(n, q, s, i)
  {
    hide Whole;
    forall i: nat | i < g ensures Same(n, q, s, i) {
      Repeats(n, s, t, o, p, opposite, s + d + i, q + i);
      assert Same(n, s + d, s, i);
    }
  }

  /** The new letter is larger: the candidate moves to `t`. */
  lemma ScanRestarts(n: seq<byte>, s: nat, t: nat, o: nat, p: nat, opposite: bool)
    requires Scanned(n, s, t, o, p, opposite) && t + o < |n|
    requires Rank(n[s + o], opposite) < Rank(n[t + o], opposite)
    ensures Scanned(n, t, t + 1, 0, 1, opposite)
  {
    hide Whole;
    WholePeriod(p);
    WholePeriod(1);
    forall q: nat | q < t ensures Beaten(n, q, t, |n|, opposite) {
      if q < s {
        assert Beaten(n, q, s, |n|, opposite);
        var e: nat :| LessAt(n, q, s, e, opposite) && q + e < |n|;
        NewCandidateBeats(n, s, t, o, p, opposite, q, e);
      } else if Whole(q - s, p) {
        NewCandidateBeatsAligned(n, s, t, o, p, opposite, q);
      } else {
        NewCandidateBeatsUnaligned(n, s, t, o, p, opposite, q);
      }
    }
  }

  /** A whole number of periods before `t` is at least one period before it. */
  lemma OnePeriodShort(s: nat, t: nat, o: nat, p: nat, q: nat)
    requires o < p && s <= q < t && Whole(t - s, p) && Whole(q - s, p)
    ensures q + p <= t
  {
    hide Whole;
    WholeSum(t - s, q - s, p);
    if t - q < p {
      SameOffset(t - q, 0, t - q, p);
    }
  }

  lemma AlignedBelow(s: nat, t: nat, p: nat, q: nat, d: nat)
    requires 0 < d < p && s < q < t && Whole(t - s, p) && s + d <= q && Whole(q - s - d, p)
    ensures q - d + p <= t
  {
    hide Whole;
    OnePeriodShort(s, t, 0, p, q - d);
  }

  lemma NewCandidateBeats(n: seq<byte>, s: nat, t: nat, o: nat, p: nat, opposite: bool, q: nat, e: nat)
    requires Scanned(n, s, t, o, p, opposite) && t + o < |n|
    requires Rank(n[s + o], opposite) < Rank(n[t + o], opposite)
    requires q < t && LessAt(n, q, s, e, opposite)
    ensures Beaten(n, q, t, |n|, opposite)
  {
    hide Whole, BlockBeats;
    var g := if e < o then e else o;
    forall i: nat | i < g ensures Same(n, q, t, i) {
      Repeats(n, s, t, o, p, opposite, s + i, t + i);
      assert Same(n, q, s, i);
    }
    if e < o {
      Repeats(n, s, t, o, p, opposite, s + e, t + e);
    } else if o < e {
      assert Same(n, q, s, o);
    }
    assert LessAt(n, q, t, g, opposite);
  }

  lemma NewCandidateBeatsAligned(n: seq<byte>, s: nat, t: nat, o: nat, p: nat, opposite: bool, q: nat)
    requires Scanned(n, s, t, o, p, opposite) && t + o < |n|
    requires Rank(n[s + o], opposite) < Rank(n[t + o], opposite)
    requires s <= q < t && Whole(q - s, p)
    ensures Beaten(n, q, t, |n|, opposite)
  {
    hide Whole;
    OnePeriodShort(s, t, o, p, q);
    forall i: nat | i < o ensures Same(n, q, t, i) {
      Repeats(n, s, t, o, p, opposite, s + i, q + i);
      Repeats(n, s, t, o, p, opposite, s + i, t + i);
    }
    Repeats(n, s, t, o, p, opposite, s + o, q + o);
    assert LessAt(n, q, t, o, opposite);
  }

  lemma NewCandidateBeatsUnaligned(n: seq<byte>, s: nat, t: nat, o: nat, p: nat, opposite: bool, q: nat)
    requires Scanned(n, s, t, o, p, opposite) && t + o < |n|
    requires Rank(n[s + o], opposite) < Rank(n[t + o], opposite)
    requires s < q < t && !Whole(q - s, p)
    ensures Beaten(n, q, t, |n|, opposite)
  {
    hide Whole, IsPeriod, BlockBeats, LessAt, Beaten, Rank;
    var d, e := BlockOffset(n, s, t, o, p, opposite, q);
    AlignedBelow(s, t, p, q, d);
    DiffersInBlock(n, s, t, o, p, opposite, q, d, e);
    NewCandidateBeats(n, s, t, o, p, opposite, q, e);
  }

  /** The whole needle is scanned: the candidate is the maximal suffix. */
  lemma ScanFinishes(n: seq<byte>, s: nat, t: nat, o: nat, p: nat, opposite: bool)
    requires Scanned(n, s, t, o, p, opposite) && t + o == |n|
    ensures IsMaximalSuffix(n, s, opposite) && IsSmallestPeriod(n, s, p)
  {
    forall a: nat | a < |n| && a != s ensures Below(n, a, s, opposite) {
      if a < s {
        assert Beaten(n, a, s, |n|, opposite);
      } else {
        LaterIsBelow(n, s, t, o, p, opposite, a);
      }
    }
    assert n[..t + o] == n;
    forall q: nat | q < p ensures !IsPeriod(n, s, q) {
      if 0 < q {
        assert Beaten(n, s + q, s, s + p, opposite);
        var e: nat :| LessAt(n, s + q, s, e, opposite) && s + q + e < s + p;
        assert n[s + q + e] != n[s + q + e - q];
      }
    }
  }

  lemma LaterIsBelow(n: seq<byte>, s: nat, t: nat, o: nat, p: nat, opposite: bool, a: nat)
    requires Scanned(n, s, t, o, p, opposite) && t + o == |n| && s < a < |n|
    ensures Below(n, a, s, opposite)
  {
    hide Whole, IsPeriod, BlockBeats, LessAt;
    if Whole(a - s, p) {
      AlignedIsPrefix(n, s, t, o, p, opposite, a);
    } else {
      var d, e := BlockOffset(n, s, t, o, p, opposite, a);
      if a + e < |n| {
        DiffersInBlock(n, s, t, o, p, opposite, a, d, e);
      } else {
        BlockDecides(n, s, t, o, p, opposite, a, d, e, |n| - a);
      }
    }
  }

  lemma AlignedIsPrefix(n: seq<byte>, s: nat, t: nat, o: nat, p: nat, opposite: bool, a: nat)
    requires Scanned(n, s, t, o, p, opposite) && t + o == |n| && s < a < |n| && Whole(a - s, p)
    ensures PrefixOf(n, a, s)
  {
    hide Whole;
    forall i: nat | i < |n| - a ensures Same(n, a, s, i) {
      Repeats(n, s, t, o, p, opposite, s + i, a + i);
    }
  }
}
