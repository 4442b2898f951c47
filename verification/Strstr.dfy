/** String search in the C library of the firmware.  A C string is a sequence of bytes
    whose last byte is its only NUL; a pointer into it is a position, and the null pointer
    is -1.  Every read below is checked to stay inside the string. */
module Strstr {
  import opened Bytes
  import opened Factorization
  import opened SuffixScan

  ghost predicate IsCString(s: seq<byte>) {
    && 1 <= |s| && s[|s| - 1] == 0
    && forall i :: 0 <= i < |s| - 1 ==> s[i] != 0
  }

  /** The string without its NUL. */
  ghost function Chars(s: seq<byte>): seq<byte>
    requires IsCString(s)
  {
    s[..|s| - 1]
  }

  ghost predicate OccursAt(h: seq<byte>, n: seq<byte>, i: int) {
    0 <= i && i + |n| <= |h| && forall j :: 0 <= j < |n| ==> n[j] == h[i + j]
  }

  /** No occurrence starts in `[lo, hi)`. */
  ghost predicate NoneIn(h: seq<byte>, n: seq<byte>, lo: int, hi: int) {
    forall i :: lo <= i < hi ==> !OccursAt(h, n, i)
  }

  /** `r` is the leftmost occurrence of `n` in `h` from position `from` on, or -1 if there
      is none. */
  ghost predicate IsLeftmost(h: seq<byte>, n: seq<byte>, from: int, r: int) {
    if r == -1 then NoneIn(h, n, from, |h| + 1)
    else from <= r && OccursAt(h, n, r) && NoneIn(h, n, from, r)
  }

  method Memchr(s: seq<byte>, from: nat, c: byte, count: nat) returns (r: int)
    requires from <= |s|
    requires from + count <= |s| || exists i :: from <= i < |s| && s[i] == c
    ensures r == -1 ==> from + count <= |s| && forall i :: from <= i < from + count ==> s[i] != c
    ensures r != -1 ==> from <= r < from + count && r < |s| && s[r] == c
    ensures r != -1 ==> forall i :: from <= i < r ==> s[i] != c
  {
    var i, k := from, count;
    while k > 0 && s[i] != c
      invariant from <= i <= |s| && i + k == from + count
      invariant forall j :: from <= j < i ==> s[j] != c
    {
      i, k := i + 1, k - 1;
    }
    r := if k > 0 then i else -1;
  }

  method Strchr(s: seq<byte>, from: nat, c: byte) returns (r: int)
    requires IsCString(s) && from < |s|
    ensures r == -1 ==> forall i :: from <= i < |s| ==> s[i] != c
    ensures r != -1 ==> from <= r < |s| && s[r] == c && forall i :: from <= i < r ==> s[i] != c
  {
    var i := from;
    while true
      invariant from <= i < |s|
      invariant forall j :: from <= j < i ==> s[j] != c
      decreases |s| - i
    {
      if s[i] == c { return i; }
      if s[i] == 0 { return -1; }
      i := i + 1;
    }
  }

  method MaximalSuffix(n: seq<byte>, l: nat, opposite: bool) returns (ip: int, p: nat)
    requires 1 <= l <= |n|
    ensures -1 <= ip < l - 1 && IsMaximalSuffix(n[..l], ip + 1, opposite)
    ensures IsSmallestPeriod(n[..l], ip + 1, p)
  {
    hide Scanned, IsMaximalSuffix, IsSmallestPeriod;
    ghost var x := n[..l];
    ip := -1;
    var jp, k := 0, 1;
    p := 1;
    ScanStarts(x, opposite);
    while jp + k < l
      invariant -1 <= ip < jp && 1 <= k <= p <= jp - ip && jp + k <= l
      invariant Scanned(x, ip + 1, jp + 1, k - 1, p, opposite)
      decreases 3 * l - ip - jp - k
    {
      if n[ip + k] == n[jp + k] {
        ScanExtends(x, ip + 1, jp + 1, k - 1, p, opposite);
        if k == p {
          jp, k := jp + p, 1;
        } else {
          k := k + 1;
        }
      } else if Rank(n[ip + k], opposite) > Rank(n[jp + k], opposite) {
        ScanShrinks(x, ip + 1, jp + 1, k - 1, p, opposite);
        jp := jp + k;
        k := 1;
        p := jp - ip;
      } else {
        ScanRestarts(x, ip + 1, jp + 1, k - 1, p, opposite);
        ip := jp;
        jp := jp + 1;
        k, p := 1, 1;
      }
    }
    ScanFinishes(x, ip + 1, jp + 1, k - 1, p, opposite);
  }

  /** The last byte of the window does not occur in the last `k` places of the needle. */
  lemma SkipByLastByte(h: seq<byte>, x: seq<byte>, o: nat, k: nat)
    requires 1 <= |x| && o + |x| <= |h| && k <= |x|
    requires forall j :: |x| - k <= j < |x| ==> x[j] != h[o + |x| - 1]
    ensures NoneIn(h, x, o, o + k)
  {
    forall i | o <= i < o + k ensures !OccursAt(h, x, i) {
      var j := |x| - 1 - (i - o);
      assert x[j] != h[i + j];
    }
  }

  /** A remembered prefix of a periodic needle rules out every shift inside it. */
  lemma SkipByMemory(h: seq<byte>, x: seq<byte>, o: nat, p: nat, mem: nat)
    requires 1 <= |x| && o + |x| <= |h| && IsPeriod(x, 0, p) && mem + p == |x|
    requires forall j :: 0 <= j < mem ==> x[j] == h[o + j]
    requires x[|x| - 1] != h[o + |x| - 1]
    ensures NoneIn(h, x, o, o + mem)
  {
    var l := |x|;
    forall i | o <= i < o + mem ensures !OccursAt(h, x, i) {
      var r := i - o;
      assert x[l - 1] == x[l - 1 - p] == h[o + mem - 1];
      assert x[l - 1 - r] == x[l - 1 - r - p];
      assert o + mem - 1 == i + (l - 1 - r - p);
      assert o + l - 1 == i + (l - 1 - r);
    }
  }

  /** The right part matches up to a mismatch at `k`: an earlier shift would be a local
      repetition, hence a period, and would meet the same mismatch. */
  lemma SkipByRightPart(h: seq<byte>, x: seq<byte>, o: nat, s: nat, k: nat)
    requires IsCritical(x, s) && s <= k < |x| && o + |x| <= |h|
    requires forall j :: s <= j < k ==> x[j] == h[o + j]
    requires x[k] != h[o + k]
    ensures NoneIn(h, x, o, o + k - s + 1)
  {
    forall i | o <= i < o + k - s + 1 ensures !OccursAt(h, x, i) {
      var r: nat := i - o;
      if r > 0 {
        MatchIsRepetition(h, x, o, s, k, r);
        assert LocalRepetition(x, s, r) ==> x[k - r] == x[k];
        assert i + (k - r) == o + k;
      }
    }
  }

  lemma MatchIsRepetition(h: seq<byte>, x: seq<byte>, o: nat, s: nat, k: nat, r: nat)
    requires s <= k <= |x| && o + |x| <= |h| && 1 <= r
    requires s + r <= k || k == |x|
    requires forall j :: s <= j < k ==> x[j] == h[o + j]
    ensures OccursAt(h, x, o + r) ==> LocalRepetition(x, s, r)
  {
    if OccursAt(h, x, o + r) {
      forall j | s <= j < s + r && r <= j < |x| ensures x[j] == x[j - r] {
        assert x[j - r] == h[o + r + (j - r)];
      }
    }
  }

  /** The right part matches and the left part does not: shifts below every period of the
      needle are impossible. */
  lemma SkipByPeriod(h: seq<byte>, x: seq<byte>, o: nat, s: nat, q: nat, bad: nat)
    requires IsCritical(x, s) && s <= |x| && o + |x| <= |h|
    requires forall j :: s <= j < |x| ==> x[j] == h[o + j]
    requires bad < |x| && x[bad] != h[o + bad]
    requires forall r: nat :: s < r && IsPeriod(x, 0, r) ==> q <= r
    ensures NoneIn(h, x, o, o + q)
  {
    forall i | o <= i < o + q ensures !OccursAt(h, x, i) {
      var r: nat := i - o;
      if r > 0 {
        MatchIsRepetition(h, x, o, s, |x|, r);
      }
    }
  }

  /** What the preparation of the search establishes: a critical position `s`, a shift `q`
      not above any period of the needle, and the prefix `mem0` worth remembering after a
      shift by a period. */
  ghost predicate Prepared(x: seq<byte>, s: nat, q: nat, mem0: nat) {
    && s < |x| && IsCritical(x, s) && 1 <= q <= |x|
    && (forall r: nat :: s < r && IsPeriod(x, 0, r) ==> q <= r)
    && (mem0 == 0 || (mem0 + q == |x| && IsPeriod(x, 0, q) && s <= q))
  }

  lemma PreparedPeriodic(x: seq<byte>, s: nat, p: nat)
    requires s < |x| && IsCritical(x, s) && IsSmallestPeriod(x, s, p) && p <= |x| - s
    requires x[..s] == x[p..p + s]
    ensures Prepared(x, s, p, |x| - p)
  {
    forall j | p <= j < |x| ensures x[j] == x[j - p] {
      if j < p + s {
        assert x[..s][j - p] == x[p..p + s][j - p];
      }
    }
    assert LocalRepetition(x, s, p);
    forall r: nat | s < r && IsPeriod(x, 0, r) ensures p <= r {
      assert IsPeriod(x, s, r);
    }
  }

  lemma PeriodRepeatsLeftPart(x: seq<byte>, s: nat, p: nat)
    requires p + s <= |x|
    ensures IsPeriod(x, 0, p) ==> x[..s] == x[p..p + s]
  {
    if IsPeriod(x, 0, p) {
      forall j | 0 <= j < s ensures x[j] == x[p + j] {
        assert x[p + j] == x[p + j - p];
      }
    }
  }

  lemma PreparedAperiodic(x: seq<byte>, s: nat, p: nat)
    requires s < |x| && IsCritical(x, s) && IsSmallestPeriod(x, s, p) && p <= |x| - s
    requires x[..s] != x[p..p + s]
    ensures Prepared(x, s, if s - 1 > |x| - s then s else |x| - s + 1, 0)
  {
    PeriodRepeatsLeftPart(x, s, p);
    forall r: nat | s < r && IsPeriod(x, 0, r) ensures |x| - s < r {
      if r <= |x| - s {
        ShortPeriodIsSmallest(x, s, p, r);
      }
    }
  }

  /** The two tables of the needle: which bytes occur, and one past the last occurrence. */
  ghost predicate TablesOf(x: seq<byte>, byteset: array<bool>, shift: array<nat>)
    requires byteset.Length == 256 && shift.Length == 256
    reads byteset, shift
  {
    forall c: byte :: if byteset[c] then LastAt(x, c, shift[c]) else c !in x
  }

  ghost predicate LastAt(x: seq<byte>, c: byte, last: nat) {
    && 1 <= last <= |x| && x[last - 1] == c
    && forall j :: last <= j < |x| ==> x[j] != c
  }

  /** Lines 310-313: measures the needle and fills the tables; stops when the haystack
      ends first. */
  method FillTables(h: seq<byte>, from: nat, n: seq<byte>, byteset: array<bool>, shift: array<nat>)
      returns (l: nat)
    requires IsCString(h) && IsCString(n) && from < |h|
    requires byteset.Length == 256 && shift.Length == 256
    modifies byteset, shift
    ensures l < |n| && from + l < |h|
    ensures n[l] != 0 ==> from + l == |h| - 1
    ensures n[l] == 0 ==> n[..l] == Chars(n) && TablesOf(n[..l], byteset, shift)
  {
    for c := 0 to 256
      invariant forall d :: 0 <= d < c ==> !byteset[d]
    {
      byteset[c] := false;
    }
    l := 0;
    while n[l] != 0 && h[from + l] != 0
      invariant l < |n| && from + l < |h|
      invariant TablesOf(n[..l], byteset, shift)
      decreases |n| - l
    {
      ghost var x := n[..l];
      assert n[..l + 1] == x + [n[l]];
      byteset[n[l]] := true;
      shift[n[l]] := l + 1;
      l := l + 1;
    }
  }

  method Prepare(n: seq<byte>, l: nat) returns (ms: int, p: nat, mem0: nat)
    requires IsCString(n) && l == |n| - 1 && 1 <= l
    ensures -1 <= ms && Prepared(n[..l], ms + 1, p, mem0)
  {
    hide IsMaximalSuffix, IsSmallestPeriod, IsCritical, Prepared;
    ghost var x := n[..l];
    var ip, p0;
    ms, p0 := MaximalSuffix(n, l, false);
    ip, p := MaximalSuffix(n, l, true);
    if ip + 1 > ms + 1 {
      CriticalFactorization(x, ip + 1, ms + 1, true);
      ms := ip;
    } else {
      CriticalFactorization(x, ms + 1, ip + 1, false);
      p := p0;
    }
    ghost var s := ms + 1;
    PeriodInRange(x, s, p);
    PartOfPrefix(n, l, 0, s);
    PartOfPrefix(n, l, p, p + s);
    if n[..ms + 1] != n[p..p + (ms + 1)] {
      PreparedAperiodic(x, s, p);
      mem0 := 0;
      p := (if ms > l - ms - 1 then ms else l - ms - 1) + 1;
    } else {
      PreparedPeriodic(x, s, p);
      mem0 := l - p;
    }
  }

  lemma PartOfPrefix(n: seq<byte>, l: nat, a: nat, b: nat)
    requires a <= b <= l <= |n|
    ensures n[..l][a..b] == n[a..b]
  {
  }

  /** The smallest period of a suffix is at most its length. */
  lemma PeriodInRange(x: seq<byte>, s: nat, p: nat)
    requires s < |x| && IsSmallestPeriod(x, s, p)
    ensures 1 <= p <= |x| - s
  {
    assert IsPeriod(x, s, |x| - s);
  }

  lemma NoneInJoins(h: seq<byte>, x: seq<byte>, lo: int, mid: int, hi: int)
    requires NoneIn(h, x, lo, mid) && NoneIn(h, x, mid, hi)
    ensures NoneIn(h, x, lo, hi)
  {
  }

  method TwowayStrstr(h: seq<byte>, from: nat, n: seq<byte>) returns (r: int)
    requires IsCString(h) && IsCString(n) && from < |h| && 2 <= |n|
    ensures IsLeftmost(Chars(h), Chars(n), from, r)
  {
    var byteset, shift := new bool[256], new nat[256];
    var l := FillTables(h, from, n, byteset, shift);
    if n[l] != 0 {
      return -1;
    }
    var ms, p, mem0 := Prepare(n, l);
    r := Search(h, from, n, l, byteset, shift, ms, p, mem0);
  }

  /** Lines 360-405. */
  method Search(h: seq<byte>, from: nat, n: seq<byte>, l: nat, byteset: array<bool>, shift: array<nat>,
                ms: int, p: nat, mem0: nat)
      returns (r: int)
    requires IsCString(h) && IsCString(n) && from < |h| && l == |n| - 1 && 1 <= l
    requires byteset.Length == 256 && shift.Length == 256 && TablesOf(n[..l], byteset, shift)
    requires -1 <= ms && Prepared(n[..l], ms + 1, p, mem0)
    ensures IsLeftmost(Chars(h), Chars(n), from, r)
  {
    ghost var x, y := Chars(n), Chars(h);
    assert x == n[..l];
    var o, z, mem := from, from, 0;
    while true
      invariant from <= o <= z < |h| && NoneIn(y, x, from, o)
      invariant mem == 0 || (mem == mem0 && Remembered(y, x, o, mem))
      decreases |h| - o
    {
      if z - o < l {
        var grow := (l / 64) * 64 + 63;
        assert exists i :: z <= i < |h| && h[i] == 0;
        var z2 := Memchr(h, z, 0, grow);
        if z2 != -1 {
          z := z2;
          if z - o < l {
            assert z == |h| - 1;
            assert NoneIn(y, x, o, |y| + 1);
            NoneInJoins(y, x, from, o, |y| + 1);
            return -1;
          }
        } else {
          z := z + grow;
        }
      }
      r, o, mem := Window(h, n, l, byteset, shift, ms, p, mem0, o, mem, from);
      if r != -1 { return r; }
    }
  }

  /** What one step of the search promises: a match `r`, or the next window `o'` with no
      occurrence before it and the prefix `mem'` that is known to match there. */
  ghost predicate Step(h: seq<byte>, x: seq<byte>, from: int, o: nat, r: int, o': nat, mem0: nat, mem': nat) {
    if r != -1 then IsLeftmost(h, x, from, r)
    else
      && o < o' <= o + |x| && NoneIn(h, x, from, o')
      && (mem' == 0 || (mem' == mem0 && o' + mem' <= |h| && Remembered(h, x, o', mem')))
  }

  ghost predicate Remembered(h: seq<byte>, x: seq<byte>, o: nat, mem: nat) {
    mem <= |x| && o + mem <= |h| && forall j :: 0 <= j < mem ==> x[j] == h[o + j]
  }

  /** One window of the search at `o`, lines 378-404. */
  method Window(h: seq<byte>, n: seq<byte>, l: nat, byteset: array<bool>, shift: array<nat>,
                ms: int, p: nat, mem0: nat, o: nat, mem: nat, ghost from: nat)
      returns (r: int, o': nat, mem': nat)
    requires IsCString(h) && IsCString(n) && l == |n| - 1 && 1 <= l && from <= o && o + l < |h|
    requires byteset.Length == 256 && shift.Length == 256 && TablesOf(n[..l], byteset, shift)
    requires -1 <= ms && Prepared(n[..l], ms + 1, p, mem0)
    requires NoneIn(Chars(h), Chars(n), from, o)
    requires mem == 0 || (mem == mem0 && Remembered(Chars(h), Chars(n), o, mem))
    ensures Step(Chars(h), Chars(n), from, o, r, o', mem0, mem')
  {
    ghost var x, y := Chars(n), Chars(h);
    assert x == n[..l];
    if byteset[h[o + l - 1]] {
      var k := l - shift[h[o + l - 1]];
      assert LastAt(x, h[o + l - 1], shift[h[o + l - 1]]);
      if k != 0 {
        SkipByLastByte(y, x, o, k);
        if k < mem {
          k := mem;
          SkipByMemory(y, x, o, p, mem);
        }
        NoneInJoins(y, x, from, o, o + k);
        return -1, o + k, 0;
      }
    } else {
      SkipByLastByte(y, x, o, l);
      NoneInJoins(y, x, from, o, o + l);
      return -1, o + l, 0;
    }
    r, o', mem' := CompareParts(h, n, l, ms, p, mem0, o, mem, from);
  }

  /** The right part, then the left part, lines 393-404. */
  method CompareParts(h: seq<byte>, n: seq<byte>, l: nat, ms: int, p: nat, mem0: nat, o: nat, mem: nat,
                      ghost from: nat)
      returns (r: int, o': nat, mem': nat)
    requires IsCString(h) && IsCString(n) && l == |n| - 1 && 1 <= l && from <= o && o + l < |h|
    requires -1 <= ms && Prepared(n[..l], ms + 1, p, mem0)
    requires NoneIn(Chars(h), Chars(n), from, o)
    requires mem == 0 || (mem == mem0 && Remembered(Chars(h), Chars(n), o, mem))
    ensures Step(Chars(h), Chars(n), from, o, r, o', mem0, mem')
  {
    ghost var x, y := Chars(n), Chars(h);
    assert x == n[..l];
    var k := MatchRight(h, n, l, o, if ms + 1 > mem then ms + 1 else mem);
    if n[k] != 0 {
      StepByRightPart(y, x, from, o, ms + 1, k, mem0, mem);
      return -1, o + (k - ms), 0;
    }
    k := MatchLeft(h, n, l, o, ms + 1, mem);
    if k <= mem {
      return o, o, 0;
    }
    StepByPeriod(y, x, from, o, ms + 1, p, mem0, mem, k - 1);
    return -1, o + p, mem0;
  }

  lemma StepByRightPart(h: seq<byte>, x: seq<byte>, from: int, o: nat, s: nat, k: nat, mem0: nat, mem: nat)
    requires IsCritical(x, s) && s <= k < |x| && o + |x| <= |h| && NoneIn(h, x, from, o)
    requires mem == 0 || Remembered(h, x, o, mem)
    requires forall j :: s <= j && mem <= j < k ==> x[j] == h[o + j]
    requires x[k] != h[o + k]
    ensures Step(h, x, from, o, -1, o + k - s + 1, mem0, 0)
  {
    SkipByRightPart(h, x, o, s, k);
  }

  lemma StepByPeriod(h: seq<byte>, x: seq<byte>, from: int, o: nat, s: nat, p: nat, mem0: nat, mem: nat, bad: nat)
    requires Prepared(x, s, p, mem0) && o + |x| <= |h| && NoneIn(h, x, from, o)
    requires mem == 0 || Remembered(h, x, o, mem)
    requires forall j :: s <= j && mem <= j < |x| ==> x[j] == h[o + j]
    requires bad < |x| && x[bad] != h[o + bad]
    ensures Step(h, x, from, o, -1, o + p, mem0, mem0)
  {
    SkipByPeriod(h, x, o, s, p, bad);
    if mem0 != 0 {
      ShiftByPeriodRemembers(h, x, o, s, p, mem0);
    }
  }

  /** Line 394: the first mismatch from `k0` on, or the needle's NUL. */
  method MatchRight(h: seq<byte>, n: seq<byte>, l: nat, o: nat, k0: nat) returns (k: nat)
    requires IsCString(n) && l == |n| - 1 && o + l < |h| && k0 <= l
    ensures k0 <= k <= l && forall j :: k0 <= j < k ==> n[j] == h[o + j]
    ensures k < l ==> n[k] != h[o + k]
  {
    k := k0;
    while n[k] != 0 && n[k] == h[o + k]
      invariant k0 <= k <= l && forall j :: k0 <= j < k ==> n[j] == h[o + j]
      decreases l - k
    {
      k := k + 1;
    }
  }

  /** Line 401: one past the last mismatch before `k0`, or at most `mem`. */
  method MatchLeft(h: seq<byte>, n: seq<byte>, l: nat, o: nat, k0: nat, mem: nat) returns (k: nat)
    requires k0 <= l <= |n| && o + l < |h|
    ensures k <= k0 && forall j :: k <= j < k0 ==> n[j] == h[o + j]
    ensures k > mem ==> n[k - 1] != h[o + k - 1]
  {
    k := k0;
    while k > mem && n[k - 1] == h[o + k - 1]
      invariant k <= k0 && forall j :: k <= j < k0 ==> n[j] == h[o + j]
    {
      k := k - 1;
    }
  }

  lemma ShiftByPeriodRemembers(h: seq<byte>, x: seq<byte>, o: nat, s: nat, p: nat, mem0: nat)
    requires Prepared(x, s, p, mem0) && mem0 != 0 && o + |x| <= |h|
    requires forall j :: s <= j < |x| ==> x[j] == h[o + j]
    ensures Remembered(h, x, o + p, mem0)
  {
    forall j | 0 <= j < mem0 ensures x[j] == h[o + p + j] {
      assert x[j + p] == x[j];
    }
  }

  /** Bytes packed into a word, first byte highest. */
  function Pack2(a: int, b: int): int {
    a * 0x100 + b
  }

  function Pack4(a: int, b: int, c: int, d: int): int {
    a * 0x100_0000 + b * 0x1_0000 + c * 0x100 + d
  }

  lemma Pack4Shifts(a: byte, b: byte, c: byte, d: byte, e: byte)
    ensures (Pack4(a, b, c, d) * 0x100) % 0x1_0000_0000 + e == Pack4(b, c, d, e)
    ensures ((Pack4(a, b, c, 0) + d) * 0x100) % 0x1_0000_0000 == Pack4(b, c, d, 0)
  {
  }

  lemma Pack4Decides(a: byte, b: byte, c: byte, d: byte, a': byte, b': byte, c': byte, d': byte)
    ensures Pack4(a, b, c, d) == Pack4(a', b', c', d') <==> a == a' && b == b' && c == c' && d == d'
  {
    if Pack4(a, b, c, d) == Pack4(a', b', c', d') {
      LastByte(Pack2(Pack2(a, b), c), d, Pack2(Pack2(a', b'), c'), d');
      LastByte(Pack2(a, b), c, Pack2(a', b'), c');
      LastByte(a, b, a', b');
    }
  }

  lemma LastByte(x: int, b: byte, x': int, b': byte)
    requires Pack2(x, b) == Pack2(x', b')
    ensures x == x' && b == b'
  {
  }

  lemma MismatchExcludes(h: seq<byte>, x: seq<byte>, lo: int, i: nat, j: nat)
    requires NoneIn(h, x, lo, i) && j < |x| && i + j < |h| && x[j] != h[i + j]
    ensures NoneIn(h, x, lo, i + 1)
  {
  }

  /** Lines 274-279: the last two bytes of the haystack, kept as one 16-bit number. */
  method TwobyteStrstr(h: seq<byte>, from: nat, n: seq<byte>) returns (r: int)
    requires IsCString(h) && from + 2 < |h| && IsCString(n) && |n| == 3
    ensures IsLeftmost(Chars(h), Chars(n), from, r)
  {
    var nw, hw := Pack2(n[0], n[1]), Pack2(h[from], h[from + 1]);
    var o := from + 1;
    while h[o] != 0 && hw != nw
      invariant from + 1 <= o < |h| && NoneIn(Chars(h), Chars(n), from, o - 1)
      invariant hw == Pack2(h[o - 1], h[o])
      decreases |h| - o
    {
      assert Chars(n)[0] != Chars(h)[o - 1] || Chars(n)[1] != Chars(h)[o - 1 + 1];
      o := o + 1;
      hw := (hw * 256) % 65536 + h[o];
    }
    r := if h[o] != 0 then o - 1 else -1;
  }

  /** Lines 281-287: three bytes in the upper part of a 32-bit number. */
  method ThreebyteStrstr(h: seq<byte>, from: nat, n: seq<byte>) returns (r: int)
    requires IsCString(h) && from + 3 < |h| && IsCString(n) && |n| == 4
    ensures IsLeftmost(Chars(h), Chars(n), from, r)
  {
    var nw, hw := Pack4(n[0], n[1], n[2], 0), Pack4(h[from], h[from + 1], h[from + 2], 0);
    var o := from + 2;
    while h[o] != 0 && hw != nw
      invariant from + 2 <= o < |h| && NoneIn(Chars(h), Chars(n), from, o - 2)
      invariant hw == Pack4(h[o - 2], h[o - 1], h[o], 0)
      decreases |h| - o
    {
      Pack4Decides(n[0], n[1], n[2], 0, h[o - 2], h[o - 1], h[o], 0);
      MismatchExcludes(Chars(h), Chars(n), from, o - 2,
        if n[0] != h[o - 2] then 0 else if n[1] != h[o - 1] then 1 else 2);
      Pack4Shifts(h[o - 2], h[o - 1], h[o], h[o + 1], 0);
      o := o + 1;
      hw := ((hw + h[o]) * 256) % 0x1_0000_0000;
    }
    if hw == nw { Pack4Decides(n[0], n[1], n[2], 0, h[o - 2], h[o - 1], h[o], 0); }
    r := if h[o] != 0 then o - 2 else -1;
  }

  /** Lines 289-295. */
  method FourbyteStrstr(h: seq<byte>, from: nat, n: seq<byte>) returns (r: int)
    requires IsCString(h) && from + 4 < |h| && IsCString(n) && |n| == 5
    ensures IsLeftmost(Chars(h), Chars(n), from, r)
  {
    var nw, hw := Pack4(n[0], n[1], n[2], n[3]), Pack4(h[from], h[from + 1], h[from + 2], h[from + 3]);
    var o := from + 3;
    while h[o] != 0 && hw != nw
      invariant from + 3 <= o < |h| && NoneIn(Chars(h), Chars(n), from, o - 3)
      invariant hw == Pack4(h[o - 3], h[o - 2], h[o - 1], h[o])
      decreases |h| - o
    {
      Pack4Decides(n[0], n[1], n[2], n[3], h[o - 3], h[o - 2], h[o - 1], h[o]);
      MismatchExcludes(Chars(h), Chars(n), from, o - 3,
        if n[0] != h[o - 3] then 0 else if n[1] != h[o - 2] then 1 else if n[2] != h[o - 1] then 2 else 3);
      Pack4Shifts(h[o - 3], h[o - 2], h[o - 1], h[o], h[o + 1]);
      o := o + 1;
      hw := (hw * 256) % 0x1_0000_0000 + h[o];
    }
    if hw == nw { Pack4Decides(n[0], n[1], n[2], n[3], h[o - 3], h[o - 2], h[o - 1], h[o]); }
    r := if h[o] != 0 then o - 3 else -1;
  }

  /** Lines 420-436: the leftmost occurrence of any needle in any haystack. */
  method Strstr(h: seq<byte>, n: seq<byte>) returns (r: int)
    requires IsCString(h) && IsCString(n)
    ensures IsLeftmost(Chars(h), Chars(n), 0, r)
  {
    if n[0] == 0 { return 0; }
    var f := Strchr(h, 0, n[0]);
    ghost var x, y := Chars(n), Chars(h);
    ghost var g := if f == -1 then |h| else f;
    forall i | 0 <= i < g ensures !OccursAt(y, x, i) {
      assert 0 < |x| && (i < |y| ==> x[0] != y[i + 0]);
    }
    if f == -1 { return -1; }
    if n[1] == 0 { assert |x| == 1; return f; }
    if h[f + 1] == 0 { return -1; }
    if n[2] == 0 {
      r := TwobyteStrstr(h, f, n);
    } else if h[f + 2] == 0 {
      return -1;
    } else if n[3] == 0 {
      r := ThreebyteStrstr(h, f, n);
    } else if h[f + 3] == 0 {
      return -1;
    } else if n[4] == 0 {
      r := FourbyteStrstr(h, f, n);
    } else {
      r := TwowayStrstr(h, f, n);
    }
    NoneInJoins(y, x, 0, f, if r == -1 then |y| + 1 else r);
  }
}
