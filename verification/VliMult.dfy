/** Products of multi-word integers, computed column by column with a three-word
    accumulator.  `result` has 2n words and is not one of the factors. */
module VliMult {
  import opened Arith
  import opened Words
  import opened Vli

  /** The product of word `i` of `l` with the word of `r` that falls into column `k`. */
  function Term(l: seq<Word>, r: seq<Word>, i: nat, k: nat): (t: nat)
    requires i < |l|
  {
    if i <= k < i + |r| then WordProduct(l[i], r[k - i]) else 0
  }

  function WordProduct(a: Word, b: Word): (t: nat)
    ensures t <= 0xFFFF_FFFE_0000_0001
  {
    MulMono(a, 0xFFFF_FFFF, b);
    MulMono(0, a, b);
    a * b
  }

  /** The terms of column `k` from the first `m` words of `l`. */
  function Col(l: seq<Word>, r: seq<Word>, m: nat, k: nat): (c: nat)
    requires m <= |l|
    ensures c <= m * 0xFFFF_FFFE_0000_0001
  {
    if m == 0 then 0 else Col(l, r, m - 1, k) + Term(l, r, m - 1, k)
  }

  /** The first `cols` columns of the product of the first `m` words of `l` with `r`. */
  ghost function Columns(l: seq<Word>, r: seq<Word>, m: nat, cols: nat): nat
    requires m <= |l|
  {
    if cols == 0 then 0 else Columns(l, r, m, cols - 1) + Shl(Col(l, r, m, cols - 1), cols - 1)
  }

  /** One row of the schoolbook product, cut off after `cols` columns. */
  ghost function Row(l: seq<Word>, r: seq<Word>, i: nat, cols: nat): nat
    requires i < |l|
  {
    if cols == 0 then 0 else Row(l, r, i, cols - 1) + Shl(Term(l, r, i, cols - 1), cols - 1)
  }

  lemma {:induction false} ColumnsAddRow(l: seq<Word>, r: seq<Word>, m: nat, cols: nat)
    requires m < |l|
    ensures Columns(l, r, m + 1, cols) == Columns(l, r, m, cols) + Row(l, r, m, cols)
  {
    if cols > 0 {
      ColumnsAddRow(l, r, m, cols - 1);
      ShlAdd(Col(l, r, m, cols - 1), Term(l, r, m, cols - 1), cols - 1);
    }
  }

  lemma {:induction false} RowIsShiftedProduct(l: seq<Word>, r: seq<Word>, i: nat, cols: nat)
    requires i < |l| && cols <= i + |r|
    ensures Row(l, r, i, cols) == if cols <= i then 0 else (l[i] * P(i)) * Val(r[..cols - i])
  {
    if cols > 0 {
      RowIsShiftedProduct(l, r, i, cols - 1);
      if cols > i {
        var j := cols - 1 - i;
        ValPrefix(r, j);
        PAdd(i, j);
        ShlIsProduct(WordProduct(l[i], r[j]), i + j);
        RowTerm(l[i], r[j], P(i), P(j), Val(r[..j]));
      }
    }
  }

  lemma RowTerm(a: int, b: int, q: int, w: int, v: int)
    ensures (a * q) * v + (a * b) * (q * w) == (a * q) * (v + b * w)
  {
    assert (a * b) * (q * w) == (a * q) * (b * w);
    assert (a * q) * (v + b * w) == (a * q) * v + (a * q) * (b * w);
  }

  lemma {:induction false} RowStops(l: seq<Word>, r: seq<Word>, i: nat, cols: nat)
    requires i < |l| && i + |r| <= cols
    ensures Row(l, r, i, cols) == Row(l, r, i, i + |r|)
  {
    if i + |r| < cols {
      RowStops(l, r, i, cols - 1);
      ShlIsProduct(0, cols - 1);
    }
  }

  /** All columns together are the product. */
  lemma {:induction false} ColumnsAreProduct(l: seq<Word>, r: seq<Word>, m: nat, cols: nat)
    requires m <= |l| && m + |r| <= cols + 1 && 1 <= |r|
    ensures Columns(l, r, m, cols) == Val(l[..m]) * Val(r)
  {
    if m == 0 {
      NoRows(l, r, cols);
    } else {
      ColumnsAreProduct(l, r, m - 1, cols);
      ColumnsAddRow(l, r, m - 1, cols);
      RowStops(l, r, m - 1, cols);
      RowIsShiftedProduct(l, r, m - 1, m - 1 + |r|);
      assert r[..|r|] == r;
      ValPrefix(l, m - 1);
      MulDistrib(Val(l[..m - 1]), l[m - 1] * P(m - 1), Val(r));
    }
  }

  lemma {:induction false} NoRows(l: seq<Word>, r: seq<Word>, cols: nat)
    ensures Columns(l, r, 0, cols) == 0
  {
    if cols > 0 {
      NoRows(l, r, cols - 1);
    }
  }

  /** The words before `k + 1 - |r|` have no term in column `k`. */
  lemma {:induction false} ColLow(l: seq<Word>, r: seq<Word>, m: nat, k: nat)
    requires m <= |l| && m + |r| <= k + 1
    ensures Col(l, r, m, k) == 0
  {
    if m > 0 {
      ColLow(l, r, m - 1, k);
    }
  }

  /** The words after `k` have no term in column `k`. */
  lemma {:induction false} ColHigh(l: seq<Word>, r: seq<Word>, m: nat, k: nat)
    requires k < m <= |l|
    ensures Col(l, r, m, k) == Col(l, r, k + 1, k)
  {
    if k + 1 < m {
      ColHigh(l, r, m - 1, k);
    }
  }

  /** The value of the accumulator. */
  function Acc(r0: Word, r1: Word, r2: Word): nat {
    r0 + 0x1_0000_0000 * (r1 + 0x1_0000_0000 * r2)
  }

  /** A sum below twice 2^64, in 64 bits. */
  function Wrap64(x: nat): nat {
    if x < 0x1_0000_0000_0000_0000 then x else x - 0x1_0000_0000_0000_0000
  }

  /** A sum below twice 2^32, in one word. */
  function Wrap32(x: nat): (w: Word)
    requires x < 0x2_0000_0000
  {
    if x < 0x1_0000_0000 then x else x - 0x1_0000_0000
  }

  /** A sum below twice 2^96, in the three words of the accumulator. */
  function Wrap96(x: nat): nat {
    if x < 0x1_0000_0000_0000_0000_0000_0000 then x else x - 0x1_0000_0000_0000_0000_0000_0000
  }

  /** Adds a * b to the accumulator, modulo 2^96. */
  method MulAdd(a: Word, b: Word, r0: Word, r1: Word, r2: Word) returns (s0: Word, s1: Word, s2: Word)
    ensures Acc(s0, s1, s2) == Wrap96(Acc(r0, r1, r2) + WordProduct(a, b))
  {
    var p := WordProduct(a, b);
    var r01 := Wrap64(r1 * 0x1_0000_0000 + r0 + p);
    s2 := Wrap32(r2 + (if r01 < p then 1 else 0));
    s1 := r01 / 0x1_0000_0000;
    s0 := r01 % 0x1_0000_0000;
  }

  /** Adds 2 * a * b to the accumulator, modulo 2^96. */
  method Mul2Add(a: Word, b: Word, r0: Word, r1: Word, r2: Word) returns (s0: Word, s1: Word, s2: Word)
    ensures Acc(s0, s1, s2) == Wrap96(Acc(r0, r1, r2) + 2 * WordProduct(a, b))
  {
    var p := WordProduct(a, b);
    var r01 := r1 * 0x1_0000_0000 + r0;
    s2 := Wrap32(r2 + p / 0x8000_0000_0000_0000);
    p := Wrap64(p * 2);
    r01 := Wrap64(r01 + p);
    s2 := Wrap32(s2 + (if r01 < p then 1 else 0));
    s1 := r01 / 0x1_0000_0000;
    s0 := r01 % 0x1_0000_0000;
  }

  /** The columns below `k` are finished in `done`; `acc` is carried into column `k`. */
  ghost predicate Accumulated(done: seq<Word>, l: seq<Word>, r: seq<Word>, acc: nat) {
    && Val(done) + Shl(acc, |done|) == Columns(l, r, |l|, |done|)
    && acc <= |l| * 0x1_0000_0000
  }

  lemma NothingAccumulated(done: seq<Word>, l: seq<Word>, r: seq<Word>, r0: Word, r1: Word)
    requires |done| == 0 && r0 == 0 && r1 == 0
    ensures Accumulated(done, l, r, Acc(r0, r1, 0))
  {
    assert done == [];
  }

  /** Storing the low word of a finished column and shifting the accumulator. */
  lemma ColumnDone(done: seq<Word>, l: seq<Word>, r: seq<Word>, acc: nat, r0: Word, r1: Word, r2: Word)
    requires Accumulated(done, l, r, acc)
    requires Acc(r0, r1, r2) == acc + Col(l, r, |l|, |done|)
    ensures Accumulated(done + [r0], l, r, Acc(r1, r2, 0))
  {
    var k, next := |done|, Acc(r1, r2, 0);
    ValSnoc(done, r0);
    ShlIsProduct(r0, k);
    ShlStep(next, k);
    ShlAdd(r0, 0x1_0000_0000 * next, k);
    ShlAdd(acc, Col(l, r, |l|, k), k);
    assert acc + Col(l, r, |l|, k) == r0 + 0x1_0000_0000 * next;
  }

  /** The inner loops of lines 427-429 and 436-438: the words `from .. to` of `left`. */
  method Column(left: array<Word>, right: array<Word>, n: nat, k: nat, from: nat, to: nat,
                r0: Word, r1: Word, r2: Word)
      returns (s0: Word, s1: Word, s2: Word)
    requires n <= left.Length && n <= right.Length && n <= 0x1_0000_0000
    requires from <= to <= n && to <= k + 1 && k < from + n
    requires Acc(r0, r1, r2) <= n * 0x1_0000_0000 && Col(left[..n], right[..n], from, k) == 0
    ensures Acc(s0, s1, s2) == Acc(r0, r1, r2) + Col(left[..n], right[..n], to, k)
  {
    ghost var l, r := left[..n], right[..n];
    s0, s1, s2 := r0, r1, r2;
    for i := from to to
      invariant Acc(s0, s1, s2) == Acc(r0, r1, r2) + Col(l, r, i, k)
    {
      assert Term(l, r, i, k) == WordProduct(left[i], right[k - i]);
      assert Acc(s0, s1, s2) + WordProduct(left[i], right[k - i]) == Acc(r0, r1, r2) + Col(l, r, i + 1, k);
      s0, s1, s2 := MulAdd(left[i], right[k - i], s0, s1, s2);
    }
  }

  /** One column: adds it up, stores its low word, and shifts the accumulator. */
  method StoreColumn(result: array<Word>, left: array<Word>, right: array<Word>, n: nat, k: nat, from: nat, to: nat,
                     r0: Word, r1: Word)
      returns (s0: Word, s1: Word)
    requires n <= left.Length && n <= right.Length && n <= 0x1_0000_0000
    requires k < result.Length && result != left && result != right
    requires from <= to <= n && to <= k + 1 && k < from + n
    requires Col(left[..n], right[..n], from, k) == 0
    requires Col(left[..n], right[..n], to, k) == Col(left[..n], right[..n], n, k)
    requires Accumulated(result[..k], left[..n], right[..n], Acc(r0, r1, 0))
    modifies result
    ensures left[..n] == old(left[..n]) && right[..n] == old(right[..n])
    ensures Accumulated(result[..k + 1], left[..n], right[..n], Acc(s0, s1, 0))
  {
    ghost var l, r, done := left[..n], right[..n], result[..k];
    var c0, c1, c2 := Column(left, right, n, k, from, to, r0, r1, 0);
    ColumnDone(done, l, r, Acc(r0, r1, 0), c0, c1, c2);
    result[k] := c0;
    assert result[..k + 1] == done + [c0];
    assert left[..n] == l && right[..n] == r;
    s0, s1 := c1, c2;
  }

  /** Lines 420-443: all columns but the top word. */
  method MultColumns(result: array<Word>, left: array<Word>, right: array<Word>, n: nat) returns (r0: Word, r1: Word)
    requires 1 <= n <= left.Length && n <= right.Length && n <= 0x1_0000_0000
    requires result.Length == 2 * n && result != left && result != right
    modifies result
    ensures left[..n] == old(left[..n]) && right[..n] == old(right[..n])
    ensures Accumulated(result[..2 * n - 1], left[..n], right[..n], Acc(r0, r1, 0))
  {
    ghost var l, r := left[..n], right[..n];
    r0, r1 := 0, 0;
    NothingAccumulated(result[..0], l, r, r0, r1);
    for k := 0 to n
      invariant left[..n] == l && right[..n] == r
      invariant Accumulated(result[..k], l, r, Acc(r0, r1, 0))
    {
      ColHigh(l, r, n, k);
      r0, r1 := StoreColumn(result, left, right, n, k, 0, k + 1, r0, r1);
    }
    for k := n to n * 2 - 1
      invariant left[..n] == l && right[..n] == r
      invariant Accumulated(result[..k], l, r, Acc(r0, r1, 0))
    {
      ColLow(l, r, k + 1 - n, k);
      r0, r1 := StoreColumn(result, left, right, n, k, k + 1 - n, n, r0, r1);
    }
  }

  /** result = left * right. */
  method Mult(result: array<Word>, left: array<Word>, right: array<Word>, n: nat)
    requires 1 <= n <= left.Length && n <= right.Length && n <= 0x1_0000_0000
    requires result.Length == 2 * n && result != left && result != right
    modifies result
    ensures Num(result, 2 * n) == Num(left, n) * Num(right, n)
  {
    var r0, r1 := MultColumns(result, left, right, n);
    StoreTop(result, n, left[..n], right[..n], r0, r1);
  }

  method StoreTop(result: array<Word>, n: nat, ghost l: seq<Word>, ghost r: seq<Word>, r0: Word, ghost r1: Word)
    requires 1 <= n == |l| == |r| && result.Length == 2 * n
    requires Accumulated(result[..2 * n - 1], l, r, Acc(r0, r1, 0))
    modifies result
    ensures Num(result, 2 * n) == Val(l) * Val(r)
  {
    ghost var done := result[..2 * n - 1];
    result[n * 2 - 1] := r0;
    assert result[..2 * n] == done + [r0];
    LastWord(done, l, r, r0, r1);
  }

  /** What is left in the accumulator after the last column fits the top word. */
  lemma LastWord(done: seq<Word>, l: seq<Word>, r: seq<Word>, r0: Word, r1: Word)
    requires 1 <= |l| == |r| && |done| == 2 * |l| - 1 && Accumulated(done, l, r, Acc(r0, r1, 0))
    ensures Val(done + [r0]) == Val(l) * Val(r)
  {
    hide Val, P, Shl;
    var n, k := |l|, |done|;
    ColumnsAreProduct(l, r, n, k);
    assert l[..n] == l;
    ProductFits(l, r);
    TopFits(Acc(r0, r1, 0), k, Val(l) * Val(r));
    ValSnoc(done, r0);
    ShlIsProduct(r0, k);
  }

  lemma TopFits(top: nat, k: nat, w: nat)
    requires Shl(top, k) <= w < P(k + 1)
    ensures top < 0x1_0000_0000
  {
    ShlIsProduct(top, k);
    if top >= 0x1_0000_0000 {
      MulMono(0x1_0000_0000, top, P(k));
    }
  }

  lemma ProductFits(l: seq<Word>, r: seq<Word>)
    requires |l| == |r|
    ensures Val(l) * Val(r) < P(2 * |l|)
  {
    ValBound(l);
    ValBound(r);
    ProductBound(Val(l), Val(r), P(|l|));
    PAdd(|l|, |l|);
  }

  lemma ProductBound(a: nat, b: nat, q: nat)
    requires a < q && b < q
    ensures a * b < q * q
  {
    MulMono(a, q, b);
    MulMono(b + 1, q, q);
    MulDistrib(b, 1, q);
  }

  /** In the square of `l`, words `i` and `k - i` make the same term of column `k`. */
  lemma TermSymmetric(l: seq<Word>, i: nat, k: nat)
    requires i < |l| && i <= k && k - i < |l|
    ensures Term(l, l, i, k) == Term(l, l, k - i, k) == WordProduct(l[i], l[k - i])
  {
  }

  /** The terms of column `k` between word `i` and its mirror image. */
  ghost function Middle(l: seq<Word>, i: nat, k: nat): int
    requires i <= k ==> k - i < |l|
  {
    if i <= k - i then Col(l, l, k - i + 1, k) - Col(l, l, i, k) else 0
  }

  /** Lines 508-515: one column of a square, with the mirrored terms doubled. */
  method SquareColumn(left: array<Word>, n: nat, k: nat, r0: Word, r1: Word, r2: Word)
      returns (s0: Word, s1: Word, s2: Word)
    requires 1 <= n <= left.Length && n <= 0x1_0000_0000 && k < 2 * n - 1
    requires Acc(r0, r1, r2) <= n * 0x1_0000_0000
    ensures Acc(s0, s1, s2) == Acc(r0, r1, r2) + Col(left[..n], left[..n], n, k)
  {
    ghost var l := left[..n];
    var min: nat := if k < n then 0 else (k + 1) - n;
    s0, s1, s2 := r0, r1, r2;
    var i := min;
    hide Col, Middle, WordProduct, Acc, Wrap96;
    MiddleStarts(l, k, min);
    ColumnFits(l, k, Acc(r0, r1, r2));
    while i <= k && i <= k - i
      invariant min <= i <= k + 1
      invariant Acc(s0, s1, s2) == Acc(r0, r1, r2) + Col(l, l, n, k) - Middle(l, i, k)
    {
      MiddleStep(l, i, k);
      assert left[i] == l[i] && left[k - i] == l[k - i];
      NoWrap(Acc(s0, s1, s2) + (if i < k - i then 2 else 1) * WordProduct(l[i], l[k - i]));
      if i < k - i {
        s0, s1, s2 := Mul2Add(left[i], left[k - i], s0, s1, s2);
      } else {
        s0, s1, s2 := MulAdd(left[i], left[k - i], s0, s1, s2);
      }
      i := i + 1;
    }
    NothingLeft(l, i, k);
  }

  lemma NoWrap(x: nat)
    requires x < 0x1_0000_0000_0000_0000_0000_0000
    ensures Wrap96(x) == x
  {
  }

  /** A column and what is carried into it fit three words. */
  lemma ColumnFits(l: seq<Word>, k: nat, acc: nat)
    requires |l| <= 0x1_0000_0000 && acc <= |l| * 0x1_0000_0000
    ensures acc + Col(l, l, |l|, k) < 0x1_0000_0000_0000_0000_0000_0000
  {
  }

  /** At first the middle is the whole column. */
  lemma MiddleStarts(l: seq<Word>, k: nat, min: nat)
    requires 1 <= |l| && k < 2 * |l| - 1 && min == if k < |l| then 0 else (k + 1) - |l|
    ensures Middle(l, min, k) == Col(l, l, |l|, k)
  {
    if k < |l| {
      ColHigh(l, l, |l|, k);
    } else {
      ColLow(l, l, min, k);
    }
  }

  lemma NothingLeft(l: seq<Word>, i: nat, k: nat)
    requires k < i || (k - i < i && k - i < |l|)
    ensures Middle(l, i, k) == 0
  {
  }

  /** Taking a word and its mirror image out of the middle. */
  lemma MiddleStep(l: seq<Word>, i: nat, k: nat)
    requires i <= k - i && k - i < |l|
    ensures 0 <= Middle(l, i + 1, k)
    ensures Middle(l, i, k) == Middle(l, i + 1, k) + (if i < k - i then 2 else 1) * WordProduct(l[i], l[k - i])
  {
    TermSymmetric(l, i, k);
    MiddleNonnegative(l, i + 1, k);
  }

  lemma MiddleNonnegative(l: seq<Word>, i: nat, k: nat)
    requires i <= k ==> k - i < |l|
    ensures Middle(l, i, k) >= 0
  {
    if i <= k - i {
      ColGrows(l, i, k - i + 1, k);
    }
  }

  lemma {:induction false} ColGrows(l: seq<Word>, i: nat, j: nat, k: nat)
    requires i <= j <= |l|
    ensures Col(l, l, i, k) <= Col(l, l, j, k)
  {
    if i < j {
      ColGrows(l, i, j - 1, k);
    }
  }

  method StoreSquareColumn(result: array<Word>, left: array<Word>, n: nat, k: nat, r0: Word, r1: Word)
      returns (s0: Word, s1: Word)
    requires 1 <= n <= left.Length && n <= 0x1_0000_0000 && k < 2 * n - 1 <= result.Length && result != left
    requires Accumulated(result[..k], left[..n], left[..n], Acc(r0, r1, 0))
    modifies result
    ensures left[..n] == old(left[..n])
    ensures Accumulated(result[..k + 1], left[..n], left[..n], Acc(s0, s1, 0))
  {
    ghost var l, done := left[..n], result[..k];
    var c0, c1, c2 := SquareColumn(left, n, k, r0, r1, 0);
    ColumnDone(done, l, l, Acc(r0, r1, 0), c0, c1, c2);
    result[k] := c0;
    assert result[..k + 1] == done + [c0];
    assert left[..n] == l;
    s0, s1 := c1, c2;
  }

  /** Lines 501-520: all columns of a square but the top word. */
  method SquareColumns(result: array<Word>, left: array<Word>, n: nat) returns (r0: Word, r1: Word)
    requires 1 <= n <= left.Length && n <= 0x1_0000_0000 && result.Length == 2 * n && result != left
    modifies result
    ensures left[..n] == old(left[..n])
    ensures Accumulated(result[..2 * n - 1], left[..n], left[..n], Acc(r0, r1, 0))
  {
    ghost var l := left[..n];
    r0, r1 := 0, 0;
    NothingAccumulated(result[..0], l, l, r0, r1);
    for k := 0 to n * 2 - 1
      invariant left[..n] == l
      invariant Accumulated(result[..k], l, l, Acc(r0, r1, 0))
    {
      r0, r1 := StoreSquareColumn(result, left, n, k, r0, r1);
    }
  }

  /** result = left^2. */
  method Square(result: array<Word>, left: array<Word>, n: nat)
    requires 1 <= n <= left.Length && n <= 0x1_0000_0000 && result.Length == 2 * n && result != left
    modifies result
    ensures Num(result, 2 * n) == Num(left, n) * Num(left, n)
  {
    var r0, r1 := SquareColumns(result, left, n);
    StoreTop(result, n, left[..n], left[..n], r0, r1);
  }

  /** Squaring and multiplying a number by itself give the same words. */
  method SquareAgreesWithMult(left: array<Word>, n: nat) returns (squared: array<Word>, multiplied: array<Word>)
    requires 1 <= n <= left.Length && n <= 0x1_0000_0000
    ensures squared[..] == multiplied[..]
  {
    squared, multiplied := new Word[2 * n], new Word[2 * n];
    Square(squared, left, n);
    Mult(multiplied, left, left, n);
    assert squared[..2 * n] == squared[..] && multiplied[..2 * n] == multiplied[..];
    ValInjective(squared[..], multiplied[..]);
  }

  /** result = left * right % mod. */
  method ModMult(result: array<Word>, left: array<Word>, right: array<Word>, mod: array<Word>, n: nat)
    requires 1 <= n <= result.Length && n <= left.Length && n <= right.Length && n <= mod.Length
    requires n <= 0x1_0000_0000 && mod[n - 1] != 0
    modifies result
    ensures old(Num(mod, n)) > 0
    ensures Num(result, n) == old(Num(left, n) * Num(right, n)) % old(Num(mod, n))
    ensures result[n..] == old(result[n..])
  {
    var product := new Word[2 * n];
    Mult(product, left, right, n);
    Mmod(result, product, mod, n);
  }
}
