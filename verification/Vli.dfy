/** The multi-word integer routines of micro-ecc.  Numbers live in arrays of words that the
    routines update in place; a result may be one of the operands unless a precondition
    says otherwise.  A shift by k bits is written as a product or quotient by 2^k, and an
    "or" of two values with no common bit as their sum. */
module Vli {
  import opened Arith
  import opened Words

  /** The number in the first `n` words of `a`. */
  ghost function Num(a: array<Word>, n: nat): (r: nat)
    requires n <= a.Length
    reads a
  {
    Val(a[..n])
  }

  method Clear(vli: array<Word>, n: nat)
    requires n <= vli.Length
    modifies vli
    ensures Num(vli, n) == 0 && vli[n..] == old(vli[n..])
    ensures forall i :: 0 <= i < n ==> vli[i] == 0
  {
    for i := 0 to n
      invariant forall j :: 0 <= j < i ==> vli[j] == 0
      invariant vli[n..] == old(vli[n..])
    {
      vli[i] := 0;
    }
    ValZeros(vli[..n]);
  }

  /** The accumulated "or" of the words is zero exactly when all of them are. */
  method IsZero(vli: array<Word>, n: nat) returns (r: bool)
    requires n <= vli.Length
    ensures r == (Num(vli, n) == 0)
  {
    var bits := false;
    for i := 0 to n
      invariant bits == exists j :: 0 <= j < i && vli[j] != 0
    {
      bits := bits || vli[i] != 0;
    }
    ValZeros(vli[..n]);
    r := !bits;
  }

  method Set(dest: array<Word>, src: array<Word>, n: nat)
    requires n <= dest.Length && n <= src.Length
    modifies dest
    ensures dest[..n] == old(src[..n]) && dest[n..] == old(dest[n..])
  {
    for i := 0 to n
      invariant dest[..i] == old(src[..i]) && dest[n..] == old(dest[n..])
      invariant forall j :: i <= j < n ==> src[j] == old(src[j])
    {
      dest[i] := src[i];
    }
  }

  /** The sign of left - right, from the highest differing word. */
  method CmpUnsafe(left: array<Word>, right: array<Word>, n: nat) returns (r: int)
    requires n <= left.Length && n <= right.Length
    ensures r == Sign(Num(left, n) - Num(right, n))
  {
    var i := n - 1;
    while i >= 0
      invariant -1 <= i < n && left[i + 1..n] == right[i + 1..n]
    {
      assert left[..n][i + 1..] == left[i + 1..n] && right[..n][i + 1..] == right[i + 1..n];
      if left[i] > right[i] {
        HighWordDecides(right[..n], left[..n], i);
        return 1;
      } else if left[i] < right[i] {
        HighWordDecides(left[..n], right[..n], i);
        return -1;
      }
      i := i - 1;
    }
    assert left[..n] == right[..n];
    return 0;
  }

  function Sign(d: int): int {
    if d > 0 then 1 else if d < 0 then -1 else 0
  }

  /** The sign of left - right, without branching on the words. */
  method Cmp(left: array<Word>, right: array<Word>, n: nat) returns (r: int)
    requires n <= left.Length && n <= right.Length
    ensures r == Sign(Num(left, n) - Num(right, n))
  {
    var tmp := new Word[n];
    var borrow := Sub(tmp, left, right, n);
    var neg := if borrow != 0 then 1 else 0;
    var isZero := IsZero(tmp, n);
    ValBound(tmp[..n]);
    ValBound(right[..n]);
    r := (if isZero then 0 else 1) - 2 * neg;
  }

  lemma AddColumn(x: int, y: int, c: Word, z: int, c': Word, i: nat)
    requires x + y + c == z + c' * 0x1_0000_0000 && c <= 1 && c' <= 1
    ensures x * P(i) + y * P(i) + CarryAt(c, i) == z * P(i) + CarryAt(c', i + 1)
  {
    var q := P(i);
    assert (x + y + c) * q == x * q + y * q + c * q;
    assert (z + c' * 0x1_0000_0000) * q == z * q + c' * (0x1_0000_0000 * q);
  }

  /** x + y + c in one word, wrapping around. */
  function WrapSum(x: Word, y: Word, c: Word): Word
    requires c <= 1
  {
    var sum := x + y + c as int;
    if sum < 0x1_0000_0000 then sum else sum - 0x1_0000_0000
  }

  /** x - y - c in one word, wrapping around. */
  function WrapDiff(x: Word, y: Word, c: Word): Word
    requires c <= 1
  {
    var diff := x - y - c as int;
    if diff < 0 then diff + 0x1_0000_0000 else diff
  }

  lemma ValPrefix(s: seq<Word>, i: nat)
    requires i < |s|
    ensures Val(s[..i + 1]) == Val(s[..i]) + s[i] * P(i)
  {
    assert s[..i + 1] == s[..i] + [s[i]];
    ValSnoc(s[..i], s[i]);
  }

  /** The first words of `l` and `r` add up to `done` and the carry `c`. */
  ghost predicate Added(done: seq<Word>, l: seq<Word>, r: seq<Word>, c: Word) {
    && |done| <= |l| == |r| && c <= 1
    && Val(done) + CarryAt(c, |done|) == Val(l[..|done|]) + Val(r[..|done|])
  }

  /** One column of an addition. */
  lemma AddStep(done: seq<Word>, l: seq<Word>, r: seq<Word>, c: Word, sum: Word, c': Word)
    requires |done| < |l| && Added(done, l, r, c) && sum == WrapSum(l[|done|], r[|done|], c)
    requires c' == if sum != l[|done|] then (if sum < l[|done|] then 1 else 0) else c
    ensures Added(done + [sum], l, r, c')
  {
    var i := |done|;
    ValSnoc(done, sum);
    ValPrefix(l, i);
    ValPrefix(r, i);
    AddColumn(l[i], r[i], c, sum, c', i);
  }

  /** Subtracting the first words of `r` from those of `l` leaves `done` and the borrow `c`. */
  ghost predicate Subtracted(done: seq<Word>, l: seq<Word>, r: seq<Word>, c: Word) {
    && |done| <= |l| == |r| && c <= 1
    && Val(done) - CarryAt(c, |done|) == Val(l[..|done|]) - Val(r[..|done|])
  }

  /** One column of a subtraction. */
  lemma SubStep(done: seq<Word>, l: seq<Word>, r: seq<Word>, c: Word, diff: Word, c': Word)
    requires |done| < |l| && Subtracted(done, l, r, c) && diff == WrapDiff(l[|done|], r[|done|], c)
    requires c' == if diff != l[|done|] then (if diff > l[|done|] then 1 else 0) else c
    ensures Subtracted(done + [diff], l, r, c')
  {
    var i := |done|;
    ValSnoc(done, diff);
    ValPrefix(l, i);
    ValPrefix(r, i);
    AddColumn(diff, r[i], c, l[i], c', i);
  }

  /** result = left + right, returning the carry. */
  method Add(result: array<Word>, left: array<Word>, right: array<Word>, n: nat) returns (carry: Word)
    requires n <= result.Length && n <= left.Length && n <= right.Length
    modifies result
    ensures carry <= 1 && result[n..] == old(result[n..])
    ensures Num(result, n) + CarryAt(carry, n) == old(Num(left, n)) + old(Num(right, n))
  {
    ghost var l, r := left[..n], right[..n];
    carry := 0;
    for i := 0 to n
      invariant forall j :: n <= j < result.Length ==> result[j] == old(result[j])
      invariant forall j :: i <= j < n ==> left[j] == l[j] && right[j] == r[j]
      invariant Added(result[..i], l, r, carry)
    {
      ghost var done, c := result[..i], carry;
      var sum: Word := WrapSum(left[i], right[i], carry);
      if sum != left[i] {
        carry := if sum < left[i] then 1 else 0;
      }
      AddStep(done, l, r, c, sum, carry);
      result[i] := sum;
      assert result[..i + 1] == done + [sum];
    }
    assert result[n..] == old(result[n..]);
    assert l[..n] == l && r[..n] == r;
  }

  /** result = left - right, returning the borrow. */
  method Sub(result: array<Word>, left: array<Word>, right: array<Word>, n: nat) returns (borrow: Word)
    requires n <= result.Length && n <= left.Length && n <= right.Length
    modifies result
    ensures borrow <= 1 && result[n..] == old(result[n..])
    ensures Num(result, n) - CarryAt(borrow, n) == old(Num(left, n)) - old(Num(right, n))
  {
    ghost var l, r := left[..n], right[..n];
    borrow := 0;
    for i := 0 to n
      invariant forall j :: n <= j < result.Length ==> result[j] == old(result[j])
      invariant forall j :: i <= j < n ==> left[j] == l[j] && right[j] == r[j]
      invariant Subtracted(result[..i], l, r, borrow)
    {
      ghost var done, c := result[..i], borrow;
      var diff: Word := WrapDiff(left[i], right[i], borrow);
      if diff != left[i] {
        borrow := if diff > left[i] then 1 else 0;
      }
      SubStep(done, l, r, c, diff, borrow);
      result[i] := diff;
      assert result[..i + 1] == done + [diff];
    }
    assert result[n..] == old(result[n..]);
    assert l[..n] == l && r[..n] == r;
  }

  /** vli = vli >> 1 on the words `lo .. lo + n`. */
  method Rshift1(vli: array<Word>, lo: nat, n: nat)
    requires lo + n <= vli.Length
    modifies vli
    ensures Val(vli[lo..lo + n]) == old(Val(vli[lo..lo + n])) / 2
    ensures vli[..lo] == old(vli[..lo]) && vli[lo + n..] == old(vli[lo + n..])
  {
    ghost var s := vli[lo..lo + n];
    var carry: Word := 0;
    var i := lo + n;
    while i > lo
      invariant lo <= i <= lo + n
      invariant vli[..i] == old(vli[..i]) && vli[lo + n..] == old(vli[lo + n..])
      invariant Halved(vli[i..lo + n], s[i - lo..], carry)
    {
      ghost var done, c := vli[i..lo + n], carry;
      i := i - 1;
      var temp: Word := vli[i];
      vli[i] := temp / 2 + carry;
      carry := LowBitToTop(temp);
      assert vli[i..lo + n] == [vli[i]] + done;
      assert s[i - lo..] == [temp] + s[i - lo + 1..];
      HalveStep(done, s[i - lo + 1..], c, temp);
    }
    assert s[0..] == s;
  }

  /** temp << 31. */
  function LowBitToTop(temp: Word): (r: Word)
    ensures r == (temp % 2) * 0x8000_0000
  {
    (temp * 0x8000_0000) % 0x1_0000_0000
  }

  /** `done` is the half of `s`, with remainder 1 exactly when `carry` is set. */
  ghost predicate Halved(done: seq<Word>, s: seq<Word>, carry: Word) {
    && (carry == 0 || carry == 0x8000_0000)
    && 2 * Val(done) + (if carry == 0 then 0 else 1) == Val(s)
  }

  lemma HalveStep(done: seq<Word>, s: seq<Word>, c: Word, temp: Word)
    requires Halved(done, s, c)
    ensures Halved([temp / 2 + c] + done, [temp] + s, LowBitToTop(temp))
  {
    ValCons(temp / 2 + c, done);
    ValCons(temp, s);
  }

  /** A word shifted left by `b` bits splits into the part that stays and the part that is
      carried out. */
  lemma ShiftWord(w: Word, b: nat)
    requires 0 < b < 32
    ensures (w * Pow2(b)) % 0x1_0000_0000 + (w / Pow2(32 - b)) * 0x1_0000_0000 == w * Pow2(b)
    ensures 0 <= w / Pow2(32 - b) < Pow2(b)
    ensures 0 <= (w * Pow2(b)) % 0x1_0000_0000 <= 0x1_0000_0000 - Pow2(b)
  {
    Pow2Word();
    Pow2Add(b, 32 - b);
    SplitProduct(w, Pow2(b), Pow2(32 - b));
  }

  lemma SplitProduct(w: int, x: int, y: int)
    requires 0 < x && 0 < y && 0 <= w < x * y
    ensures (w * x) % (x * y) + (w / y) * (x * y) == w * x
    ensures 0 <= w / y < x
    ensures 0 <= (w * x) % (x * y) <= x * y - x
  {
    var q, r := w / y, w % y;
    assert w == y * q + r && 0 <= r < y;
    QuotientBound(w, x, y, q, r);
    assert w * x == q * (x * y) + r * x by {
      assert (y * q) * x == q * (x * y);
    }
    MulMono(r, y - 1, x);
    MulMono(0, r, x);
    assert (y - 1) * x == x * y - x;
    DivModUnique(w * x, x * y, q, r * x);
  }

  lemma QuotientBound(w: int, x: int, y: int, q: int, r: int)
    requires 0 < x && 0 < y && 0 <= w < x * y && w == y * q + r && 0 <= r < y
    ensures 0 <= q < x
  {
    if q >= x {
      MulMono(x, q, y);
    } else if q < 0 {
      MulMono(q, -1, y);
    }
  }

  lemma ShiftColumn(v: int, c: int, l: int, w: int, x: int, low: int, high: int, q: int)
    requires v + c * q == l * x && low + high * 0x1_0000_0000 == w * x
    ensures (v + (low + c) * q) + high * (0x1_0000_0000 * q) == (l + w * q) * x
  {
    assert (low + high * 0x1_0000_0000) * q == (w * x) * q == (w * q) * x;
    assert (low + high * 0x1_0000_0000) * q == low * q + high * (0x1_0000_0000 * q);
    assert (l + w * q) * x == l * x + (w * q) * x;
    assert (low + c) * q == low * q + c * q;
  }

  /** `done` and the carry are the first words of `m` times 2^b. */
  ghost predicate Shifted(done: seq<Word>, m: seq<Word>, b: nat, carry: int) {
    |done| <= |m| && Val(done) + carry * P(|done|) == Val(m[..|done|]) * Pow2(b)
  }

  /** One word of the shifted modulus: `c` is carried in, `c'` carried out. */
  lemma ShiftStep(done: seq<Word>, m: seq<Word>, b: nat, c: int, word: Word, c': int)
    requires |done| < |m| && 0 < b < 32 && Shifted(done, m, b, c)
    requires word == (m[|done|] * Pow2(b)) % 0x1_0000_0000 + c && c' == m[|done|] / Pow2(32 - b)
    ensures Shifted(done + [word], m, b, c')
  {
    var i := |done|;
    ValSnoc(done, word);
    ValPrefix(m, i);
    ShiftWord(m[i], b);
    ShiftColumn(Val(done), c, Val(m[..i]), m[i], Pow2(b), word - c, c', P(i));
  }

  lemma TopHasNoCarry(s: seq<Word>, n: nat, m: seq<Word>, shift: nat, carry: nat)
    requires |s| == 2 * n && Val(s[..n]) == 0 && 32 * n <= shift
    requires Val(s[n..]) + carry * P(n) == Val(m) * Pow2(shift - 32 * n)
    requires Val(m) * Pow2(shift) < P(2 * n)
    ensures Val(s) == Val(m) * Pow2(shift)
  {
    ValSplit(s, n);
    WeightIsPow2(n);
    Pow2Add(32 * n, shift - 32 * n);
    PAdd(n, n);
    TopCarry(Val(m), P(n), Pow2(shift - 32 * n), Val(s[n..]), carry);
  }

  lemma TopCarry(m: nat, q: nat, x: nat, v: nat, carry: nat)
    requires 0 < q && v + carry * q == m * x && m * (q * x) < q * q
    ensures q * v == m * (q * x)
  {
    assert m * (q * x) == (m * x) * q;
    if m * x >= q {
      MulMono(q, m * x, q);
    }
    if carry >= 1 {
      MulMono(1, carry, q);
    }
  }

  /** Lines 580-591: mod, shifted so that its highest bit is the highest of 2n words. */
  method ShiftToTop(modMultiple: array<Word>, mod: array<Word>, n: nat, shift: nat)
    requires modMultiple.Length == 2 * n && n <= mod.Length && modMultiple != mod
    requires 32 * n <= shift < 32 * n + 32
    requires Num(mod, n) * Pow2(shift) < P(2 * n)
    modifies modMultiple
    ensures Num(modMultiple, 2 * n) == Num(mod, n) * Pow2(shift)
  {
    var wordShift, bitShift := shift / 32, shift % 32;
    ghost var m := mod[..n];
    assert wordShift == n;
    Clear(modMultiple, wordShift);
    if bitShift > 0 {
      var carry := ShiftUp(modMultiple, wordShift, mod, n, bitShift);
      assert modMultiple[..2 * n][n..] == modMultiple[n..n + n];
      assert modMultiple[..2 * n][..n] == modMultiple[..n];
      TopHasNoCarry(modMultiple[..2 * n], n, m, shift, carry);
    } else {
      SetAt(modMultiple, wordShift, mod, n);
      assert modMultiple[..2 * n][n..] == modMultiple[n..n + n] == m;
      assert modMultiple[..2 * n][..n] == modMultiple[..n];
      assert Pow2(bitShift) == 1;
      TopHasNoCarry(modMultiple[..2 * n], n, m, shift, 0);
    }
  }

  /** Lines 585-588: the words of `mod` shifted left by `bitShift`, stored from `at` on. */
  method ShiftUp(modMultiple: array<Word>, at: nat, mod: array<Word>, n: nat, bitShift: nat) returns (carry: Word)
    requires modMultiple.Length == at + n && n <= mod.Length && modMultiple != mod && 0 < bitShift < 32
    modifies modMultiple
    ensures modMultiple[..at] == old(modMultiple[..at])
    ensures Val(modMultiple[at..at + n]) + carry * P(n) == Num(mod, n) * Pow2(bitShift)
  {
    ghost var m := mod[..n];
    carry := 0;
    for index := 0 to n
      invariant modMultiple[..at] == old(modMultiple[..at])
      invariant carry < Pow2(bitShift)
      invariant Shifted(modMultiple[at..at + index], m, bitShift, carry)
    {
      ghost var done, c := modMultiple[at..at + index], carry;
      assert mod[index] == m[index];
      ShiftWord(mod[index], bitShift);
      var word: Word := (mod[index] * Pow2(bitShift)) % 0x1_0000_0000 + carry;
      carry := mod[index] / Pow2(32 - bitShift);
      ShiftStep(done, m, bitShift, c, word, carry);
      modMultiple[at + index] := word;
      assert modMultiple[at..at + index + 1] == done + [word];
    }
    assert m[..n] == m;
  }

  method SetAt(dest: array<Word>, at: nat, src: array<Word>, n: nat)
    requires at + n <= dest.Length && n <= src.Length && dest != src
    modifies dest
    ensures dest[at..at + n] == src[..n] && dest[..at] == old(dest[..at])
  {
    for i := 0 to n
      invariant dest[at..at + i] == src[..i] && dest[..at] == old(dest[..at])
    {
      dest[at + i] := src[i];
    }
  }

  /** The number of words of vli that matter. */
  method NumDigits(vli: array<Word>, maxWords: nat) returns (d: nat)
    requires maxWords <= vli.Length
    ensures d <= maxWords && Num(vli, maxWords) == Num(vli, d) && (d > 0 ==> vli[d - 1] != 0)
  {
    var i := maxWords - 1;
    while i >= 0 && vli[i] == 0
      invariant -1 <= i < maxWords && forall j :: i < j < maxWords ==> vli[j] == 0
    {
      i := i - 1;
    }
    d := i + 1;
    ValDropZeros(vli[..maxWords], d);
    assert vli[..maxWords][..d] == vli[..d];
  }

  /** `b` is the number of bits of `v`. */
  ghost predicate HasBits(v: int, b: nat) {
    if b == 0 then v == 0 else Pow2(b - 1) <= v < Pow2(b)
  }

  /** `digit` is what `i` right shifts leave of `word`. */
  ghost predicate ShiftedRight(word: Word, digit: Word, i: nat) {
    && digit * Pow2(i) <= word < (digit + 1) * Pow2(i)
    && (i > 0 ==> Pow2(i - 1) <= word)
  }

  /** Lines 257-260: the bits of one nonzero word. */
  method WordBits(word: Word) returns (i: nat)
    requires word != 0
    ensures 0 < i && HasBits(word, i)
  {
    var digit := word;
    i := 0;
    while digit != 0
      invariant ShiftedRight(word, digit, i) && (digit == 0 ==> i > 0)
    {
      ShiftRightStep(word, digit, i);
      digit := digit / 2;
      i := i + 1;
    }
  }

  lemma ShiftRightStep(word: Word, digit: Word, i: nat)
    requires ShiftedRight(word, digit, i) && digit != 0
    ensures ShiftedRight(word, digit / 2, i + 1)
  {
    HalveDigit(digit, Pow2(i), word);
  }

  lemma HalveDigit(d: int, x: int, w: int)
    requires 1 <= d && 0 < x && d * x <= w < (d + 1) * x
    ensures (d / 2) * (2 * x) <= w < (d / 2 + 1) * (2 * x) && x <= w
  {
    var h := d / 2;
    MulMono(2 * h, d, x);
    MulMono(d + 1, 2 * h + 2, x);
    MulMono(1, d, x);
    assert (2 * h) * x == h * (2 * x) && (2 * h + 2) * x == (h + 1) * (2 * x);
  }

  method NumBits(vli: array<Word>, maxWords: nat) returns (b: nat)
    requires maxWords <= vli.Length
    ensures HasBits(Num(vli, maxWords), b)
  {
    var d := NumDigits(vli, maxWords);
    if d == 0 {
      return 0;
    }
    var i := WordBits(vli[d - 1]);
    b := (d - 1) * 32 + i;
    ghost var s := vli[..d];
    ValTop(s);
    ValBound(s[..d - 1]);
    WeightIsPow2(d - 1);
    Pow2Add(32 * (d - 1), i - 1);
    Pow2Add(32 * (d - 1), i);
    BitsOfTop(Val(s[..d - 1]), s[d - 1], P(d - 1), Pow2(i - 1), Pow2(i));
  }

  lemma BitsOfTop(low: int, w: int, q: int, x: int, y: int)
    requires 0 <= low < q && x <= w < y
    ensures q * x <= low + w * q < q * y
  {
    MulMono(x, w, q);
    MulMono(w + 1, y, q);
    assert (w + 1) * q == w * q + q;
  }

  /** What one conditional subtraction of the modulus makes of a sum. */
  function AddOnce(l: int, r: int, m: int): int {
    if l + r >= m then l + r - m else l + r
  }

  function SubOnce(l: int, r: int, m: int): int {
    if l < r then l - r + m else l - r
  }

  lemma AddOnceIsMod(l: int, r: int, m: int)
    requires 0 < m
    ensures Cong(AddOnce(l, r, m), l + r, m)
    ensures 0 <= l < m && 0 <= r < m ==> AddOnce(l, r, m) == (l + r) % m
  {
    CongFrom(l + r - m, l + r, -1, m);
    if 0 <= l < m && 0 <= r < m {
      DivModUnique(l + r, m, if l + r >= m then 1 else 0, AddOnce(l, r, m));
    }
  }

  lemma SubOnceIsMod(l: int, r: int, m: int)
    requires 0 < m
    ensures Cong(SubOnce(l, r, m), l - r, m)
    ensures 0 <= l < m && 0 <= r < m ==> SubOnce(l, r, m) == (l - r) % m
  {
    CongFrom(l - r + m, l - r, 1, m);
    if 0 <= l < m && 0 <= r < m {
      DivModUnique(l - r, m, if l < r then -1 else 0, SubOnce(l, r, m));
    }
  }

  /** result = left + right, less the modulus once if that is possible. */
  method ModAdd(result: array<Word>, left: array<Word>, right: array<Word>, mod: array<Word>, n: nat)
    requires n <= result.Length && n <= left.Length && n <= right.Length && n <= mod.Length && result != mod
    requires Num(left, n) + Num(right, n) < P(n) + Num(mod, n)
    modifies result
    ensures Num(result, n) == old(AddOnce(Num(left, n), Num(right, n), Num(mod, n)))
    ensures result[n..] == old(result[n..])
  {
    ghost var l, r, m := Num(left, n), Num(right, n), Num(mod, n);
    ValBound(mod[..n]);
    var carry := Add(result, left, right, n);
    ValBound(result[..n]);
    var below := CmpUnsafe(mod, result, n);
    if carry != 0 || below != 1 {
      var borrow := Sub(result, result, mod, n);
      ValBound(result[..n]);
    }
  }

  /** result = left - right, plus the modulus if that is negative. */
  method ModSub(result: array<Word>, left: array<Word>, right: array<Word>, mod: array<Word>, n: nat)
    requires n <= result.Length && n <= left.Length && n <= right.Length && n <= mod.Length && result != mod
    requires Num(right, n) <= Num(left, n) + Num(mod, n)
    modifies result
    ensures Num(result, n) == old(SubOnce(Num(left, n), Num(right, n), Num(mod, n)))
    ensures result[n..] == old(result[n..])
  {
    var borrow := Sub(result, left, right, n);
    ValBound(result[..n]);
    if borrow != 0 {
      var carry := Add(result, result, mod, n);
      ValBound(result[..n]);
    }
  }

  lemma TopWordSmall(s: seq<Word>, v: nat)
    requires |s| >= 1 && v < P(|s|) && Val(s) == v / 2
    ensures s[|s| - 1] < 0x8000_0000
  {
    ValTop(s);
    var q := P(|s| - 1);
    if s[|s| - 1] >= 0x8000_0000 {
      MulMono(0x8000_0000, s[|s| - 1], q);
    }
  }

  /** Lines 604-605: the low words halved, with the low bit of the high words on top. */
  method HalveLowWords(modMultiple: array<Word>, n: nat) returns (ghost half: seq<Word>)
    requires 1 <= n && modMultiple.Length == 2 * n
    modifies modMultiple
    ensures |half| == n && Val(half) == old(Num(modMultiple, n)) / 2
    ensures modMultiple[n..] == old(modMultiple[n..]) && half[n - 1] + LowBitToTop(modMultiple[n]) < 0x1_0000_0000
    ensures modMultiple[..n] == half[n - 1 := half[n - 1] + LowBitToTop(modMultiple[n])]
  {
    ghost var low := modMultiple[..n];
    assert modMultiple[0..0 + n] == low;
    Rshift1(modMultiple, 0, n);
    half := modMultiple[0..0 + n];
    ValBound(low);
    TopWordSmall(half, Val(low));
    modMultiple[n - 1] := modMultiple[n - 1] + LowBitToTop(modMultiple[n]);
  }

  /** Lines 604-606: the 2n words of the shifted modulus, halved in two parts. */
  method HalveModMultiple(modMultiple: array<Word>, n: nat)
    requires 1 <= n && modMultiple.Length == 2 * n
    modifies modMultiple
    ensures Num(modMultiple, 2 * n) == old(Num(modMultiple, 2 * n)) / 2
  {
    ghost var low, high := modMultiple[..n], modMultiple[n..];
    assert modMultiple[..2 * n] == low + high;
    ghost var half := HalveLowWords(modMultiple, n);
    ghost var low' := modMultiple[..n];
    assert modMultiple[n..n + n] == high && modMultiple[n] == high[0];
    Rshift1(modMultiple, n, n);
    ghost var high' := modMultiple[n..n + n];
    assert modMultiple[..2 * n] == low' + high';
    JoinHalves(low, high, half, high');
  }

  /** The low bit of the high part moves to the top of the low part. */
  lemma JoinHalves(low: seq<Word>, high: seq<Word>, low': seq<Word>, high': seq<Word>)
    requires 1 <= |low| == |high| == |low'| == |high'|
    requires Val(low') == Val(low) / 2 && Val(high') == Val(high) / 2
    requires low'[|low| - 1] + LowBitToTop(high[0]) < 0x1_0000_0000
    ensures Val(low'[|low| - 1 := low'[|low| - 1] + LowBitToTop(high[0])] + high') == Val(low + high) / 2
  {
    var k, d := |low| - 1, LowBitToTop(high[0]);
    var joined := low'[k := low'[k] + d];
    ValConcat(low, high);
    ValConcat(joined, high');
    RaiseTop(low', d);
    HalvesJoin(Val(low), Val(high), high[0], P(k), P(k + 1), Val(high[1..]));
  }

  lemma RaiseTop(s: seq<Word>, d: Word)
    requires |s| >= 1 && s[|s| - 1] + d < 0x1_0000_0000
    ensures Val(s[|s| - 1 := s[|s| - 1] + d]) == Val(s) + d * P(|s| - 1)
  {
    var k := |s| - 1;
    var t := s[k := s[k] + d];
    ValTop(s);
    ValTop(t);
    assert t[..k] == s[..k];
    MulDistrib(s[k], d, P(k));
  }

  lemma HalvesJoin(low: nat, high: nat, h0: Word, q: nat, w: nat, hs: nat)
    requires high == h0 + 0x1_0000_0000 * hs && w == 0x1_0000_0000 * q
    ensures low / 2 + LowBitToTop(h0) * q + w * (high / 2) == (low + w * high) / 2
  {
    var bit := h0 % 2;
    assert high == 2 * (high / 2) + bit;
    assert LowBitToTop(h0) * q == 0x8000_0000 * (bit * q);
    assert w * high == 2 * (w * (high / 2)) + 0x1_0000_0000 * (bit * q) by {
      assert w * high == w * (2 * (high / 2)) + w * bit;
      assert w * bit == 0x1_0000_0000 * (bit * q);
      assert w * (2 * (high / 2)) == 2 * (w * (high / 2));
    }
  }

  /** One round of the reduction, on values: `v` is below twice the shifted modulus, and
      subtracting it when possible brings it below once. */
  lemma ReduceStep(v: int, m: int, x: int, v': int, borrow: Word, top: int)
    requires 0 < m && 0 <= v < m * (2 * x) && 0 <= v' < top
    requires v' - (if borrow == 0 then 0 else top) == v - m * x
    ensures var w := if borrow == 0 then v' else v; 0 <= w < m * x && Cong(w, v, m)
  {
    assert m * (2 * x) == 2 * (m * x);
    if borrow == 0 {
      assert v' == v + (-x) * m;
      CongFrom(v', v, -x, m);
    }
  }

  /** What the reduction keeps before the round for `shift`: the running value is congruent
      to the product and below twice mod * 2^shift. */
  ghost predicate Reducing(v: int, p: int, m: int, shift: int) {
    -1 <= shift && 0 < m && 0 <= v < m * Pow2(shift + 1) && Cong(v, p, m)
  }

  /** Lines 594-606: one round of the reduction; `cur` and `other` are v[index] and
      v[1 - index], to be swapped when there is no borrow. */
  method ReduceRound(cur: array<Word>, other: array<Word>, modMultiple: array<Word>, n: nat,
                     ghost m: nat, ghost p: nat, ghost shift: nat)
      returns (borrow: Word)
    requires 1 <= n && 2 * n <= cur.Length && 2 * n <= other.Length && modMultiple.Length == 2 * n
    requires cur != other && cur != modMultiple && other != modMultiple
    requires Num(modMultiple, 2 * n) == m * Pow2(shift) && Reducing(Num(cur, 2 * n), p, m, shift)
    modifies other, modMultiple
    ensures Reducing(if borrow == 0 then Num(other, 2 * n) else Num(cur, 2 * n), p, m, shift - 1)
    ensures shift > 0 ==> Num(modMultiple, 2 * n) == m * Pow2(shift - 1)
  {
    ghost var v, c := Num(cur, 2 * n), cur[..2 * n];
    borrow := Sub(other, cur, modMultiple, 2 * n);
    ghost var d := other[..2 * n];
    ValBound(d);
    ReduceStep(v, m, Pow2(shift), Val(d), borrow, P(2 * n));
    HalveModMultiple(modMultiple, n);
    assert cur[..2 * n] == c && other[..2 * n] == d;
    if shift > 0 {
      HalfPower(m, Pow2(shift - 1));
    }
  }

  /** result = product % mod for a product of 2n words and a modulus whose top word is not
      zero. */
  method Mmod(result: array<Word>, product: array<Word>, mod: array<Word>, n: nat)
    requires 1 <= n <= result.Length && 2 * n <= product.Length && n <= mod.Length
    requires product != mod && mod[n - 1] != 0
    modifies result, product
    ensures old(Num(mod, n)) > 0
    ensures Num(result, n) == old(Num(product, 2 * n)) % old(Num(mod, n))
    ensures result != product ==> result[n..] == old(result[n..])
  {
    var modMultiple, tmp := new Word[2 * n], new Word[2 * n];
    var cur, other := product, tmp;
    ghost var m, p := Num(mod, n), Num(product, 2 * n);
    var bits := NumBits(mod, n);
    TopBitPosition(mod[..n], bits);
    var shift: int := n * 2 * 32 - bits;
    ValBound(product[..2 * n]);
    ShiftFits(m, bits, n, p);
    ShiftToTop(modMultiple, mod, n, shift);
    while shift >= 0
      invariant fresh(modMultiple) && fresh(tmp)
      invariant (cur == product && other == tmp) || (cur == tmp && other == product)
      invariant result != product ==> result[..] == old(result[..])
      invariant shift >= 0 ==> Num(modMultiple, 2 * n) == m * Pow2(shift)
      invariant Reducing(Num(cur, 2 * n), p, m, shift)
    {
      var borrow := ReduceRound(cur, other, modMultiple, n, m, p, shift);
      if borrow == 0 {
        cur, other := other, cur;
      }
      shift := shift - 1;
    }
    ReducedFits(cur[..2 * n], n, p, m, old(mod[..n]));
    assert cur[..2 * n][..n] == cur[..n];
    Set(result, cur, n);
  }

  lemma ReducedFits(s: seq<Word>, n: nat, p: int, m: nat, mod: seq<Word>)
    requires |s| == 2 * n && |mod| == n && m == Val(mod) && Reducing(Val(s), p, m, -1)
    ensures Val(s[..n]) == p % m
  {
    ValBound(mod);
    LowWordsSuffice(s, n, m);
    DivModUnique(Val(s), m, 0, Val(s));
  }

  lemma HalfPower(m: int, x: int)
    ensures (m * (2 * x)) / 2 == m * x
  {
    assert m * (2 * x) == 2 * (m * x);
  }

  lemma LowWordsSuffice(s: seq<Word>, n: nat, m: nat)
    requires |s| == 2 * n && Val(s) < m <= P(n)
    ensures Val(s) == Val(s[..n])
  {
    ValSplit(s, n);
    if Val(s[n..]) >= 1 {
      MulMono(1, Val(s[n..]), P(n));
    }
  }

  lemma TopBitPosition(s: seq<Word>, bits: nat)
    requires |s| >= 1 && s[|s| - 1] != 0 && HasBits(Val(s), bits)
    ensures 32 * (|s| - 1) < bits <= 32 * |s| && Val(s) > 0
  {
    ValTop(s);
    ValBound(s);
    WeightIsPow2(|s| - 1);
    WeightIsPow2(|s|);
    MulMono(1, s[|s| - 1], P(|s| - 1));
    Pow2Below(32 * (|s| - 1), bits);
    Pow2Below(bits - 1, 32 * |s|);
  }

  lemma ShiftFits(m: int, bits: nat, n: nat, p: nat)
    requires HasBits(m, bits) && 0 < bits <= 64 * n && p < P(2 * n)
    ensures var shift := 64 * n - bits; m * Pow2(shift) < P(2 * n) && p < m * Pow2(shift + 1)
  {
    var shift := 64 * n - bits;
    WeightIsPow2(2 * n);
    Pow2Add(bits, shift);
    Pow2Add(bits - 1, shift + 1);
    assert 32 * (2 * n) == bits + shift == (bits - 1) + (shift + 1);
    MulMono(m + 1, Pow2(bits), Pow2(shift));
    assert (m + 1) * Pow2(shift) == m * Pow2(shift) + Pow2(shift);
    MulMono(Pow2(bits - 1), m, Pow2(shift + 1));
  }
}
