/** The regularised scalar: which number the ladder is given in place of `k`, and for
    exactly which `k` the ladder then meets its exceptional case. */
module Regularize {
  import opened Arith
  import opened Words
  import opened Vli
  import opened PrimeField
  import opened FieldWords
  import opened VliInv
  import opened CoZ
  import opened Ladder
  import opened EccRounds
  import opened EccPoint
  import opened ScalarBits

  /** k + n or k + 2 n, whichever has its highest bit just above the bits of n. */
  function RegularScalar(k: nat, n: nat, nBits: nat): nat {
    if k + n >= Pow2(nBits) then k + n else k + 2 * n
  }

  lemma RegularisedValue(k: nat, n: nat, nBits: nat, words: nat, k0: nat, c0: Word, k1: nat, c1: Word, carry: bool)
    requires 0 < k < n && 0 < nBits <= 32 * words && HasBits(n, nBits)
    requires k0 < P(words) && k0 + CarryAt(c0, words) == k + n
    requires k1 < P(words) && k1 + CarryAt(c1, words) == k0 + n
    requires carry == (c0 != 0 || (nBits < 32 * words && Bit(k0, nBits) == 1))
    ensures carry == (k + n >= Pow2(nBits))
    ensures Effective(if carry then k0 else k1, nBits) == RegularScalar(k, n, nBits)
  {
    var top := Pow2(nBits);
    assert top == 2 * Pow2(nBits - 1);
    WeightIsPow2(words);
    if nBits < 32 * words {
      Pow2Mono(nBits + 1, 32 * words);
      assert Pow2(nBits + 1) == 2 * top;
      assert c0 == 0;
      DivModUnique(k0, top, if k0 >= top then 1 else 0, if k0 >= top then k0 - top else k0);
      if !carry {
        assert k1 == k + 2 * n && c1 == 0;
        DivModUnique(k1, top, 1, k1 - top);
      }
    } else {
      DivModUnique(k0, top, 0, k0);
      DivModUnique(k1, top, 0, k1);
    }
  }

  /** Both candidates for the scalar, and which of them to use. */
  method RegularizeK(k: array<Word>, k0: array<Word>, k1: array<Word>, order: array<Word>, words: nat, nBits: nat)
      returns (carry: bool)
    requires words <= k.Length && words <= k0.Length && words <= k1.Length && words <= order.Length
    requires k0 != order && k1 != order && k0 != k1
    requires 0 < nBits <= 32 * words && HasBits(Num(order, words), nBits) && 0 < Num(k, words) < Num(order, words)
    modifies k0, k1
    ensures order[..words] == old(order[..words])
    ensures carry == (old(Num(k, words)) + Num(order, words) >= Pow2(nBits))
    ensures Effective(if carry then Num(k0, words) else Num(k1, words), nBits)
         == RegularScalar(old(Num(k, words)), Num(order, words), nBits)
  {
    ghost var v, ns := Num(k, words), order[..words];
    var c0 := Add(k0, k, order, words);
    ghost var s0 := k0[..words];
    ValBound(s0);
    assert order[..words] == ns;
    carry := c0 != 0;
    if !carry && nBits < 32 * words {
      carry := TestBit(k0, words, nBits);
    }
    var c1 := Add(k1, k0, order, words);
    assert order[..words] == ns && k0[..words] == s0;
    ValBound(k1[..words]);
    RegularisedValue(v, Val(ns), nBits, words, Val(s0), c0, Num(k1, words), c1, carry);
  }

  /** The scalars whose regularised ladder runs into opposite points. */
  predicate Unlucky(k: nat, n: nat, nBits: nat) {
    k == n - 1 || k == n - 2 || (k == 1 && n + 1 < Pow2(nBits))
  }

  lemma SmallMultiple(v: int, n: int, c: int)
    requires 0 < n && v % n == 0 && 0 < v && v < (c + 1) * n && 0 <= c <= 3
    ensures exists i :: 1 <= i <= c && v == i * n
  {
    var q := v / n;
    assert v == n * q;
    if q >= c + 1 {
      MulMono(c + 1, q, n);
    } else if q <= 0 {
      MulMono(q, 0, n);
    }
    assert v == q * n;
  }

  lemma BetweenMultiples(v: int, n: int)
    requires n < v < 3 * n && v != 2 * n
    ensures v % n != 0
  {
    if v < 2 * n {
      DivModUnique(v, n, 1, v - n);
    } else {
      DivModUnique(v, n, 2, v - 2 * n);
    }
  }

  /** For the prefixes of a regularised scalar, the only round that can meet opposite points
      is the one that follows all but two bits. */
  lemma ExceptionalPrefix(k: nat, n: nat, nBits: nat, i: nat)
    requires 0 < k < n && 5 <= n && n % 2 == 1 && HasBits(n, nBits) && 1 <= i <= nBits
    ensures var K := RegularScalar(k, n, nBits);
      Exceptional(n, K, i) <==> i == 2 && 2 * n - 2 <= K <= 2 * n + 1
  {
    var K := RegularScalar(k, n, nBits);
    ScalarRange(k, n, nBits);
    var v := 2 * Prefix(K, i) + 1;
    if i == 1 {
      assert Pow2(1) == 2;
      BetweenMultiples(v, n);
    } else if i == 2 {
      assert Pow2(2) == 4;
      SecondPrefix(K, n);
    } else {
      LatePrefix(K, n, i);
      DivModUnique(v, n, 0, v);
    }
  }

  lemma ScalarRange(k: nat, n: nat, nBits: nat)
    requires 0 < k < n && 5 <= n && n % 2 == 1 && HasBits(n, nBits)
    ensures 3 <= nBits && n < RegularScalar(k, n, nBits) <= 3 * n - 2
    ensures k >= n - 2 ==> k + n >= Pow2(nBits)
  {
    assert Pow2(2) == 4;
    Pow2Below(2, nBits);
    assert Pow2(nBits) == 2 * Pow2(nBits - 1) && Pow2(nBits - 1) == 2 * Pow2(nBits - 2);
  }

  lemma SecondPrefix(K: nat, n: nat)
    requires 5 <= n && n % 2 == 1 && n < K <= 3 * n - 2
    ensures (2 * (K / 4) + 1) % n == 0 <==> 2 * n - 2 <= K <= 2 * n + 1
  {
    var v := 2 * (K / 4) + 1;
    if v % n == 0 {
      SmallMultiple(v, n, 1);
    }
    if v == n {
      DivModUnique(v, n, 1, 0);
    }
  }

  lemma LatePrefix(K: nat, n: nat, i: nat)
    requires 5 <= n && K <= 3 * n - 2 && 3 <= i
    ensures 0 < 2 * Prefix(K, i) + 1 < n
  {
    hide Quotient;
    var q := Prefix(K, i);
    var r := QuotientSpec(K, Pow2(i));
    Pow2Mono(3, i);
    assert Pow2(3) == 8;
    MulMono(8, Pow2(i), q);
  }

  /** The ladder on a regularised scalar is free of exceptions for every k but the unlucky
      ones, at most three per curve. */
  lemma ExceptionExactly(k: nat, n: nat, nBits: nat)
    requires 0 < k < n && 5 <= n && n % 2 == 1 && HasBits(n, nBits)
    ensures NoException(n, RegularScalar(k, n, nBits), 1, nBits + 1) <==> !Unlucky(k, n, nBits)
  {
    var K := RegularScalar(k, n, nBits);
    ScalarRange(k, n, nBits);
    forall i: nat | 1 <= i < nBits + 1
      ensures Exceptional(n, K, i) <==> i == 2 && 2 * n - 2 <= K <= 2 * n + 1
    {
      ExceptionalPrefix(k, n, nBits, i);
    }
    if NoException(n, K, 1, nBits + 1) {
      assert !Exceptional(n, K, 2);
    }
  }

  /** k P from the regularised scalar, as in lines 963-973, 1079-1090 and 1278-1287: the
      affine point k P, or (0, 0) exactly for an unlucky k or a P with a zero coordinate. */
  method ComputePoint(ghost m: Multiples, mod: array<Word>, n: nat, rx: array<Word>, ry: array<Word>,
                      px: array<Word>, py: array<Word>, k: array<Word>, order: array<Word>, words: nat,
                      nBits: nat, initialZ: array?<Word>, dbl: (nat, nat, nat) -> (nat, nat, nat))
    requires Point(m, px, py, mod, n) && Doubles(m, dbl) && Blinding(initialZ, mod, n)
    requires rx.Length == ry.Length == n && rx != ry && rx != mod && ry != mod
    requires words <= k.Length && words <= order.Length && 0 < nBits <= 32 * words
    requires Num(order, words) == m.order && 5 <= m.order && HasBits(m.order, nBits)
    requires 0 < Num(k, words) < m.order
    modifies rx, ry
    ensures Element(rx, mod, n) && Element(ry, mod, n)
    ensures IsMultiple(m, old(Num(k, words)), nBits, old(Num(px, n)), old(Num(py, n)), Num(rx, n), Num(ry, n))
  {
    hide Modulus, Num, LadderResult, Effective, RegularScalar, Doubles, Unlucky;
    ghost var v, x, y := Num(k, words), Num(px, n), Num(py, n);
    var k0, k1 := new Word[words], new Word[words];
    var carry := RegularizeK(k, k0, k1, order, words, nBits);
    var scalar := if carry then k0 else k1;
    EccPointMult(m, mod, n, rx, ry, px, py, scalar, words, initialZ, nBits + 1, dbl);
    RegularResult(m, v, nBits, x, y, Num(rx, n), Num(ry, n));
  }

  ghost predicate IsMultiple(m: Multiples, k: nat, nBits: nat, px: int, py: int, rx: int, ry: int)
    requires 0 < m.p
  {
    if !Unlucky(k, m.order, nBits) && !Cong(px, 0, m.p) && !Cong(py, 0, m.p)
    then Cong(rx, m.x(k), m.p) && Cong(ry, m.y(k), m.p)
    else rx == 0 && ry == 0
  }

  lemma RegularResult(m: Multiples, k: nat, nBits: nat, px: int, py: int, rx: int, ry: int)
    requires m.Valid() && 0 < k < m.order && 5 <= m.order && HasBits(m.order, nBits)
    requires LadderResult(m, RegularScalar(k, m.order, nBits), nBits, px, py, rx, ry)
    ensures IsMultiple(m, k, nBits, px, py, rx, ry)
  {
    ExceptionExactly(k, m.order, nBits);
    SameMultiple(m, k, RegularScalar(k, m.order, nBits), if k + m.order >= Pow2(nBits) then 1 else 2);
  }

  lemma SameMultiple(m: Multiples, k: nat, K: nat, c: nat)
    requires m.Valid() && 0 < k < m.order && K == k + c * m.order
    ensures m.SamePoint(k, K)
  {
    DivModUnique(k, m.order, 0, k);
    DivModUnique(k - K, m.order, 0 - c as int, 0);
  }
}
