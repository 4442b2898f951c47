/** Numbers written as sequences of 32-bit words, least significant word first, as
    micro-ecc lays them out on this 32-bit processor.  The word base 2^32 is written as a
    literal throughout, so that products with it stay linear. */
module Words {
  import opened Arith


  type Word = x: int | 0 <= x < 0x1_0000_0000

  /** The weight of word `i`. */
  function P(i: nat): (r: nat)
    ensures r > 0
  {
    if i == 0 then 1 else 0x1_0000_0000 * P(i - 1)
  }

  /** The number a sequence of words stands for. */
  function Val(s: seq<Word>): (r: nat) {
    if |s| == 0 then 0 else s[0] + 0x1_0000_0000 * Val(s[1..])
  }

  /** `x`, shifted left by `i` words. */
  function Shl(x: int, i: nat): (r: int)
    ensures x >= 0 ==> r >= 0
  {
    if i == 0 then x else 0x1_0000_0000 * Shl(x, i - 1)
  }

  lemma {:induction false} ShlIsProduct(x: int, i: nat)
    ensures Shl(x, i) == x * P(i)
  {
    if i > 0 {
      ShlIsProduct(x, i - 1);
      MulAssoc(x, 0x1_0000_0000, P(i - 1));
    }
  }

  lemma ShlAdd(x: int, y: int, i: nat)
    ensures Shl(x + y, i) == Shl(x, i) + Shl(y, i)
  {
    ShlIsProduct(x, i);
    ShlIsProduct(y, i);
    ShlIsProduct(x + y, i);
    MulDistrib(x, y, P(i));
  }

  lemma {:induction false} ShlStep(x: int, i: nat)
    ensures Shl(0x1_0000_0000 * x, i) == Shl(x, i + 1)
  {
    if i > 0 {
      ShlStep(x, i - 1);
    }
  }

  /** A carry or borrow `c`, at the weight of word `i`. */
  function CarryAt(c: Word, i: nat): (r: nat)
    ensures c == 0 ==> r == 0
    ensures c != 0 ==> r == P(i)
  {
    if c == 0 then 0 else P(i)
  }

  lemma ValCons(x: Word, s: seq<Word>)
    ensures Val([x] + s) == x + 0x1_0000_0000 * Val(s)
  {
    assert ([x] + s)[1..] == s;
  }

  lemma {:induction false} ValSnoc(s: seq<Word>, x: Word)
    ensures Val(s + [x]) == Val(s) + x * P(|s|)
  {
    if |s| == 0 {
      assert s + [x] == [x] + [];
      ValCons(x, []);
    } else {
      var t := s[1..];
      assert s + [x] == [s[0]] + (t + [x]);
      ValCons(s[0], t + [x]);
      ValSnoc(t, x);
      MulAssoc(0x1_0000_0000, P(|t|), x);
    }
  }

  lemma {:induction false} ValBound(s: seq<Word>)
    ensures Val(s) < P(|s|)
  {
    if |s| > 0 {
      ValBound(s[1..]);
    }
  }

  lemma {:induction false} PAdd(i: nat, j: nat)
    ensures P(i + j) == P(i) * P(j)
  {
    if i > 0 {
      PAdd(i - 1, j);
      MulAssoc(0x1_0000_0000, P(i - 1), P(j));
    }
  }

  lemma SplitStep(x: int, low: int, q: int, high: int)
    ensures x + 0x1_0000_0000 * (low + q * high) == (x + 0x1_0000_0000 * low) + (0x1_0000_0000 * q) * high
  {
    MulAssoc(0x1_0000_0000, q, high);
  }

  lemma {:induction false} ValSplit(s: seq<Word>, i: nat)
    requires i <= |s|
    ensures Val(s) == Val(s[..i]) + P(i) * Val(s[i..])
  {
    if i == 0 {
      assert s[0..] == s;
    } else {
      var t := s[1..];
      ValSplit(t, i - 1);
      assert t[i - 1..] == s[i..] && s[..i] == [s[0]] + t[..i - 1];
      ValCons(s[0], t[..i - 1]);
      SplitStep(s[0], Val(t[..i - 1]), P(i - 1), Val(t[i - 1..]));
    }
  }

  lemma ValConcat(s: seq<Word>, t: seq<Word>)
    ensures Val(s + t) == Val(s) + P(|s|) * Val(t)
  {
    ValSplit(s + t, |s|);
    assert (s + t)[..|s|] == s && (s + t)[|s|..] == t;
  }

  lemma LowWord(x: Word, v: int, y: Word, w: int)
    requires x + 0x1_0000_0000 * v == y + 0x1_0000_0000 * w
    ensures x == y && v == w
  {
  }

  /** A number has one representation of each length. */
  lemma {:induction false} ValInjective(s: seq<Word>, t: seq<Word>)
    requires |s| == |t| && Val(s) == Val(t)
    ensures s == t
  {
    if |s| > 0 {
      LowWord(s[0], Val(s[1..]), t[0], Val(t[1..]));
      ValInjective(s[1..], t[1..]);
      assert s == [s[0]] + s[1..] && t == [t[0]] + t[1..];
    }
  }

  lemma HighPartDecides(l: nat, h: int, l': nat, h': int, q: int)
    requires l < q && h < h'
    ensures l + q * h < l' + q * h'
  {
    MulMono(h + 1, h', q);
    assert (h + 1) * q == h * q + q;
  }

  /** The highest word in which two numbers differ decides their order. */
  lemma HighWordDecides(s: seq<Word>, t: seq<Word>, i: nat)
    requires |s| == |t| && i < |s| && s[i + 1..] == t[i + 1..] && s[i] < t[i]
    ensures Val(s) < Val(t)
  {
    ValSplit(s, i);
    ValSplit(t, i);
    assert s[i..][1..] == s[i + 1..] && t[i..][1..] == t[i + 1..];
    ValBound(s[..i]);
    ValBound(t[..i]);
    HighPartDecides(Val(s[..i]), Val(s[i..]), Val(t[..i]), Val(t[i..]), P(i));
  }

  lemma {:induction false} ValZeros(s: seq<Word>)
    ensures Val(s) == 0 <==> forall i :: 0 <= i < |s| ==> s[i] == 0
  {
    if |s| > 0 {
      ValZeros(s[1..]);
      if Val(s) == 0 {
        forall i | 0 <= i < |s| ensures s[i] == 0 {
          assert i > 0 ==> s[i] == s[1..][i - 1];
        }
      }
    }
  }

  /** Zero words at the top can be dropped. */
  lemma ValDropZeros(s: seq<Word>, d: nat)
    requires d <= |s| && forall i :: d <= i < |s| ==> s[i] == 0
    ensures Val(s) == Val(s[..d])
  {
    ValSplit(s, d);
    ValZeros(s[d..]);
  }

  /** The top word of a number, and the rest. */
  lemma ValTop(s: seq<Word>)
    requires |s| >= 1
    ensures Val(s) == Val(s[..|s| - 1]) + s[|s| - 1] * P(|s| - 1)
  {
    var k := |s| - 1;
    assert s == s[..k] + [s[k]];
    ValSnoc(s[..k], s[k]);
  }

  function Pow2(e: nat): (r: nat)
    ensures r > 0
  {
    if e == 0 then 1 else 2 * Pow2(e - 1)
  }

  lemma {:induction false} Pow2Add(e: nat, f: nat)
    ensures Pow2(e + f) == Pow2(e) * Pow2(f)
  {
    if e > 0 {
      Pow2Add(e - 1, f);
      MulAssoc(2, Pow2(e - 1), Pow2(f));
    }
  }

  lemma Pow2Mono(e: nat, f: nat)
    requires e <= f
    ensures Pow2(e) <= Pow2(f)
  {
    Pow2Add(e, f - e);
    MulMono(1, Pow2(f - e), Pow2(e));
  }

  lemma Pow2Word()
    ensures Pow2(32) == 0x1_0000_0000 && Pow2(31) == 0x8000_0000
  {
    assert Pow2(8) == 256;
    Pow2Add(8, 8);
    Pow2Add(16, 15);
    Pow2Add(8, 7);
    assert Pow2(7) == 128;
  }

  lemma {:induction false} WeightIsPow2(i: nat)
    ensures P(i) == Pow2(32 * i)
  {
    if i > 0 {
      WeightIsPow2(i - 1);
      Pow2Word();
      Pow2Add(32, 32 * (i - 1));
    }
  }

  lemma Pow2Below(e: nat, f: nat)
    requires Pow2(e) < Pow2(f)
    ensures e < f
  {
    if f <= e {
      Pow2Mono(f, e);
    }
  }
}
