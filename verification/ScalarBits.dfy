/** The bits of a scalar, and the number the ladder reads from them. */
module ScalarBits {
  import opened Arith
  import opened Words
  import opened Vli

  /** The number made of the bits of `K` from bit `i` up. */
  function Prefix(K: nat, i: nat): nat {
    Quotient(K, Pow2(i))
  }

  lemma PrefixStep(K: nat, i: nat)
    ensures Prefix(K, i) == 2 * Prefix(K, i + 1) + Prefix(K, i) % 2
  {
    hide Quotient;
    QuotientOfQuotient(K, Pow2(i), 2);
    HalfOf(Prefix(K, i));
  }

  lemma HalfOf(v: nat)
    ensures v == 2 * Quotient(v, 2) + v % 2
  {
  }

  /** Bit `i` of the scalar. */
  function Bit(s: nat, i: nat): nat {
    Prefix(s, i) % 2
  }

  /** The number the ladder multiplies by: it reads `t` bits of the scalar and takes bit
      `t` for granted. */
  function Effective(s: nat, t: nat): nat {
    Pow2(t) + s % Pow2(t)
  }

  lemma QuotientSplit(q: nat, c: nat, l: nat)
    requires 0 < q
    ensures Quotient(q * c + l, q) == c + Quotient(l, q)
  {
    hide Quotient;
    var r := QuotientSpec(l, q);
    MulDistrib(c, Quotient(l, q), q);
    QuotientUnique(q * c + l, q, c + Quotient(l, q), r);
  }

  lemma SameParity(h: int, v: int)
    ensures (2 * h + v) % 2 == v % 2
  {
  }

  /** Above position `i < t`, any multiple of 2^t leaves bit `i` alone. */
  lemma BitIgnoresHigh(h: nat, l: nat, t: nat, i: nat)
    requires i < t
    ensures Bit(Pow2(t) * h + l, i) == Bit(l, i)
  {
    hide Quotient;
    var q, e := Pow2(i), Pow2(t - i - 1);
    Pow2Add(i, t - i);
    MulAssoc(q, 2 * e, h);
    MulAssoc(2, e, h);
    QuotientSplit(q, 2 * (e * h), l);
    SameParity(e * h, Prefix(l, i));
  }

  lemma EffectiveBit(s: nat, t: nat, i: nat)
    requires i < t
    ensures Prefix(Effective(s, t), i) % 2 == Bit(s, i)
  {
    hide Quotient;
    var l := QuotientSpec(s, Pow2(t));
    DivModUnique(s, Pow2(t), Quotient(s, Pow2(t)), l);
    BitIgnoresHigh(1, l, t, i);
    BitIgnoresHigh(Quotient(s, Pow2(t)), l, t, i);
  }

  lemma EffectiveTop(s: nat, t: nat)
    ensures Prefix(Effective(s, t), t) == 1
  {
    DivModUnique(Effective(s, t), Pow2(t), 1, s % Pow2(t));
  }

  lemma NextPrefix(scalar: nat, t: nat, i: nat)
    requires i < t
    ensures var K := Effective(scalar, t); Prefix(K, i) == 2 * Prefix(K, i + 1) + Bit(scalar, i)
  {
    PrefixStep(Effective(scalar, t), i);
    EffectiveBit(scalar, t, i);
  }

  lemma WholePrefix(K: nat)
    ensures Prefix(K, 0) == K
  {
    assert Pow2(0) == 1;
  }

  /** A bit of a number is a bit of one of its words. */
  lemma BitOfWord(s: seq<Word>, bit: nat)
    requires bit / 32 < |s|
    ensures Bit(Val(s), bit) == Bit(s[bit / 32], bit % 32)
  {
    var q, r := bit / 32, bit % 32;
    ShiftByWords(s, q);
    Pow2Add(32 * q, r);
    QuotientOfQuotient(Val(s), Pow2(32 * q), Pow2(r));
    BitOfLowWord(s[q..], r);
  }

  lemma ShiftByWords(s: seq<Word>, q: nat)
    requires q <= |s|
    ensures Quotient(Val(s), Pow2(32 * q)) == Val(s[q..])
  {
    ValSplit(s, q);
    ValBound(s[..q]);
    WeightIsPow2(q);
    HighPart(Val(s), Pow2(32 * q), Val(s[q..]), Val(s[..q]));
  }

  lemma HighPart(v: nat, w: nat, high: nat, low: nat)
    requires low < w && v == low + w * high
    ensures Quotient(v, w) == high
  {
    QuotientUnique(v, w, high, low);
  }

  lemma BitOfLowWord(s: seq<Word>, r: nat)
    requires 1 <= |s| && r < 32
    ensures Bit(Val(s), r) == Bit(s[0], r)
  {
    Pow2Word();
    BitIgnoresHigh(Val(s[1..]), s[0], 32, r);
  }

  /** Nonzero if the bit is set. */
  method TestBit(vli: array<Word>, n: nat, bit: nat) returns (r: bool)
    requires n <= vli.Length && bit / 32 < n
    ensures r == (Bit(Num(vli, n), bit) == 1)
  {
    BitOfWord(vli[..n], bit);
    r := Quotient(vli[bit / 32], Pow2(bit % 32)) % 2 != 0;
  }
}
