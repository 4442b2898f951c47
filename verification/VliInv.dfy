/** Modular inversion by the binary extended Euclidean algorithm. */
module VliInv {
  import opened Arith
  import opened Words
  import opened Vli

  ghost predicate Divides(d: nat, a: int) {
    0 < d && a % d == 0
  }

  /** `g` is a common divisor of `a` and `b`, and every common divisor divides it. */
  ghost predicate IsGcd(g: nat, a: int, b: int) {
    && Divides(g, a) && Divides(g, b)
    && forall d: nat :: Divides(d, a) && Divides(d, b) ==> Divides(d, g)
  }

  ghost predicate Coprime(a: int, b: int) {
    forall d: nat :: Divides(d, a) && Divides(d, b) ==> d == 1
  }

  lemma DividesSum(d: nat, a: int, b: int)
    requires Divides(d, a) && Divides(d, b)
    ensures Divides(d, a + b) && Divides(d, a - b)
  {
    CongAdd(a, 0, b, 0, d);
    CongSub(a, 0, b, 0, d);
  }

  lemma DividesProduct(d: nat, a: int, k: int)
    requires Divides(d, a)
    ensures Divides(d, k * a)
  {
    CongMul(k, k, a, 0, d);
  }

  lemma CoprimeGcd(g: nat, a: int, b: int)
    requires IsGcd(g, a, b) && Coprime(a, b)
    ensures g == 1
  {
  }

  /** Half of `x` modulo an odd `m`. */
  function HalfMod(x: int, m: int): int {
    if x % 2 == 0 then x / 2 else (x + m) / 2
  }

  lemma CancelTwo(x: int, y: int, m: int)
    requires 0 < m && m % 2 == 1 && Cong(2 * x, 2 * y, m)
    ensures Cong(x, y, m)
  {
    var h := (m + 1) / 2;
    CongMul(h, h, 2 * x, 2 * y, m);
    HalfOfTwice(h, x, m);
    HalfOfTwice(h, y, m);
    ModAddMultiple(x, x, m);
    ModAddMultiple(y, y, m);
  }

  lemma HalfOfTwice(h: int, x: int, m: int)
    requires 2 * h == m + 1
    ensures h * (2 * x) == x + x * m
  {
    MulAssoc(h, 2, x);
    MulDistrib(m, 1, x);
  }

  /** The state of the algorithm: `u` and `v` express `a` and `b` as multiples of `x`
      modulo `m`, and no common divisor is gained on the way. */
  ghost predicate Inverting(a: int, b: int, u: int, v: int, x: int, m: int) {
    && 0 < a && 0 < b && 0 <= u < m && 0 <= v < m
    && Cong(u * x, a, m) && Cong(v * x, b, m)
    && forall d: nat :: Divides(d, a) && Divides(d, b) ==> Divides(d, x) && Divides(d, m)
  }

  lemma InvertingSwaps(a: int, b: int, u: int, v: int, x: int, m: int)
    requires Inverting(a, b, u, v, x, m)
    ensures Inverting(b, a, v, u, x, m)
  {
  }

  lemma InvertingStarts(x: int, m: int)
    requires 0 < x && 1 < m
    ensures Inverting(x, m, 1, 0, x, m)
  {
    ModOfMultiple(1, m);
  }

  lemma HalfTimes(u: int, x: int, m: int)
    requires 0 <= u < m && m % 2 == 1
    ensures 2 * (HalfMod(u, m) * x) == u * x + (if u % 2 == 0 then 0 else x) * m && 0 <= HalfMod(u, m) < m
  {
    var h := HalfMod(u, m);
    assert 2 * h == u + (if u % 2 == 0 then 0 else m);
    MulAssoc(2, h, x);
    MulDistrib(u, m, x);
  }

  lemma InvertingHalves(a: int, b: int, u: int, v: int, x: int, m: int)
    requires Inverting(a, b, u, v, x, m) && a % 2 == 0 && m % 2 == 1
    ensures Inverting(a / 2, b, HalfMod(u, m), v, x, m)
  {
    hide Divides, HalfMod;
    var h := HalfMod(u, m);
    var k := if u % 2 == 0 then 0 else x;
    HalfTimes(u, x, m);
    ModAddMultiple(u * x, k, m);
    CancelTwo(h * x, a / 2, m);
    forall d: nat | Divides(d, a / 2) && Divides(d, b) ensures Divides(d, x) && Divides(d, m) {
      DividesProduct(d, a / 2, 2);
      assert Divides(d, a);
    }
  }

  lemma InvertingSubtracts(a: int, b: int, u: int, v: int, x: int, m: int)
    requires Inverting(a, b, u, v, x, m) && b < a
    ensures Inverting(a - b, b, SubOnce(u, v, m), v, x, m)
  {
    var w := SubOnce(u, v, m);
    var k := if u < v then x else 0;
    assert w * x == u * x - v * x + k * m by {
      MulDistrib(u, v, x);
      if u < v {
        MulDistrib(u - v, m, x);
      }
    }
    CongSub(u * x, a, v * x, b, m);
    ModAddMultiple(u * x - v * x, k, m);
    forall d: nat | Divides(d, a - b) && Divides(d, b) ensures Divides(d, x) && Divides(d, m) {
      DividesSum(d, a - b, b);
    }
  }

  lemma InvertingSubtractsAndHalves(a: int, b: int, u: int, v: int, x: int, m: int)
    requires Inverting(a, b, u, v, x, m) && b < a && a % 2 == b % 2 && m % 2 == 1
    ensures Inverting((a - b) / 2, b, HalfMod(SubOnce(u, v, m), m), v, x, m)
  {
    hide Inverting;
    InvertingSubtracts(a, b, u, v, x, m);
    InvertingHalves(a - b, b, SubOnce(u, v, m), v, x, m);
  }

  lemma InvertingEnds(a: int, u: int, v: int, x: int, m: int)
    requires Inverting(a, a, u, v, x, m)
    ensures IsGcd(a, x, m) && Cong(u * x, a, m)
  {
    ModOfMultiple(1, a);
    assert Divides(a, a);
    forall d: nat | Divides(d, x) && Divides(d, m) ensures Divides(d, a) {
      var k := CongFactor(u * x, a, m);
      DividesProduct(d, x, u);
      DividesProduct(d, m, k);
      DividesSum(d, u * x, k * m);
    }
  }

  /** The result is an inverse exactly when one exists. */
  lemma InverseIffCoprime(r: int, g: nat, x: int, m: int)
    requires 1 < m && IsGcd(g, x, m) && Cong(r * x, g, m)
    ensures Cong(r * x, 1, m) <==> Coprime(x, m)
  {
    if Coprime(x, m) {
      CoprimeGcd(g, x, m);
    }
    if Cong(r * x, 1, m) {
      var k := CongFactor(r * x, 1, m);
      forall d: nat | Divides(d, x) && Divides(d, m) ensures d == 1 {
        DividesProduct(d, x, r);
        DividesProduct(d, m, k);
        DividesSum(d, r * x, k * m);
        if d > 1 {
          DivModUnique(1, d, 0, 1);
        }
      }
    }
  }

  lemma LowBit(s: seq<Word>)
    requires |s| >= 1
    ensures s[0] % 2 == Val(s) % 2
  {
  }

  method Even(vli: array<Word>, n: nat) returns (r: bool)
    requires 1 <= n <= vli.Length
    ensures r == (Num(vli, n) % 2 == 0)
  {
    LowBit(vli[..n]);
    r := vli[0] % 2 == 0;
  }

  /** Lines 686-689: half of the words with the carry above them. */
  method HalveWithCarry(uv: array<Word>, n: nat, carry: Word)
    requires 1 <= n <= uv.Length
    modifies uv
    ensures Num(uv, n) == (old(Num(uv, n)) + CarryAt(carry, n)) / 2
  {
    ghost var y := Num(uv, n);
    ValBound(uv[..n]);
    assert uv[0..0 + n] == uv[..n];
    Rshift1(uv, 0, n);
    ghost var half := uv[..n];
    assert half == uv[0..0 + n];
    if carry != 0 {
      TopWordSmall(half, y);
      uv[n - 1] := uv[n - 1] + 0x8000_0000;
      assert uv[..n] == half[n - 1 := half[n - 1] + 0x8000_0000];
      RaiseTop(half, 0x8000_0000);
      HalfWeight(n);
    }
  }

  /** uv = uv / 2 modulo mod; a carry out of the addition becomes the top bit. */
  method ModInvUpdate(uv: array<Word>, mod: array<Word>, n: nat)
    requires 1 <= n <= uv.Length && n <= mod.Length && uv != mod
    requires Num(mod, n) % 2 == 1
    modifies uv
    ensures Num(uv, n) == HalfMod(old(Num(uv, n)), Num(mod, n))
  {
    var carry: Word := 0;
    var even := Even(uv, n);
    if !even {
      carry := Add(uv, uv, mod, n);
    }
    HalveWithCarry(uv, n, carry);
  }

  lemma HalfWeight(n: nat)
    requires 1 <= n
    ensures 0x8000_0000 * P(n - 1) == P(n) / 2 && P(n) % 2 == 0
  {
  }

  /** Lines 715-716: a = a / 2, u = u / 2. */
  method HalveFirst(a: array<Word>, b: array<Word>, u: array<Word>, v: array<Word>, mod: array<Word>, n: nat, ghost x: int)
    requires 1 <= n <= a.Length && n <= b.Length && n <= u.Length && n <= v.Length && n <= mod.Length
    requires a != b && a != u && a != v && a != mod && b != u && u != v && u != mod && v != mod
    requires Num(mod, n) % 2 == 1 && Num(a, n) % 2 == 0
    requires Inverting(Num(a, n), Num(b, n), Num(u, n), Num(v, n), x, Num(mod, n))
    modifies a, u
    ensures b[..n] == old(b[..n]) && v[..n] == old(v[..n]) && mod[..n] == old(mod[..n])
    ensures Inverting(Num(a, n), Num(b, n), Num(u, n), Num(v, n), x, Num(mod, n))
    ensures Num(a, n) == old(Num(a, n)) / 2
  {
    InvertingHalves(Num(a, n), Num(b, n), Num(u, n), Num(v, n), x, Num(mod, n));
    ghost var w, m, q, t := u[..n], mod[..n], b[..n], v[..n];
    assert a[0..0 + n] == a[..n];
    Rshift1(a, 0, n);
    assert a[0..0 + n] == a[..n] && u[..n] == w && mod[..n] == m;
    ghost var c := a[..n];
    ModInvUpdate(u, mod, n);
    assert a[..n] == c && mod[..n] == m && b[..n] == q && v[..n] == t;
  }

  /** Lines 723-726: u = u - v modulo mod; the carry of u + mod is dropped and the borrow
      of the subtraction makes up for it. */
  method SubMod(u: array<Word>, v: array<Word>, mod: array<Word>, n: nat)
    requires 1 <= n <= u.Length && n <= v.Length && n <= mod.Length && u != v && u != mod && v != mod
    requires Num(u, n) < Num(mod, n) && Num(v, n) < Num(mod, n)
    modifies u
    ensures Num(u, n) == SubOnce(old(Num(u, n)), Num(v, n), Num(mod, n))
  {
    ghost var x, y, m := Num(u, n), Num(v, n), Num(mod, n);
    ghost var vs, ms := v[..n], mod[..n];
    ValBound(mod[..n]);
    var order := CmpUnsafe(u, v, n);
    ghost var c: Word := 0;
    if order < 0 {
      var carry := Add(u, u, mod, n);
      c := carry;
    }
    assert v[..n] == vs && mod[..n] == ms;
    ValBound(u[..n]);
    var borrow := Sub(u, u, v, n);
    assert v[..n] == vs && mod[..n] == ms;
    ValBound(u[..n]);
  }

  method SubHalve(a: array<Word>, b: array<Word>, n: nat)
    requires 1 <= n <= a.Length && n <= b.Length && a != b && Num(b, n) < Num(a, n)
    modifies a
    ensures Num(a, n) == (old(Num(a, n)) - Num(b, n)) / 2
  {
    ghost var q := b[..n];
    var borrow := Sub(a, a, b, n);
    ValBound(a[..n]);
    assert a[0..0 + n] == a[..n];
    Rshift1(a, 0, n);
    assert a[0..0 + n] == a[..n] && b[..n] == q;
  }

  method SubUpdate(u: array<Word>, v: array<Word>, mod: array<Word>, n: nat)
    requires 1 <= n <= u.Length && n <= v.Length && n <= mod.Length && u != v && u != mod && v != mod
    requires Num(u, n) < Num(mod, n) && Num(v, n) < Num(mod, n) && Num(mod, n) % 2 == 1
    modifies u
    ensures Num(u, n) == HalfMod(SubOnce(old(Num(u, n)), Num(v, n), Num(mod, n)), Num(mod, n))
  {
    ghost var s, t := v[..n], mod[..n];
    SubMod(u, v, mod, n);
    assert v[..n] == s && mod[..n] == t;
    ModInvUpdate(u, mod, n);
    assert v[..n] == s && mod[..n] == t;
  }

  /** Lines 721-727: a = (a - b) / 2, u = (u - v) / 2. */
  method SubtractFirst(a: array<Word>, b: array<Word>, u: array<Word>, v: array<Word>, mod: array<Word>, n: nat, ghost x: int)
    requires 1 <= n <= a.Length && n <= b.Length && n <= u.Length && n <= v.Length && n <= mod.Length
    requires a != b && a != u && a != v && a != mod && b != u && u != v && u != mod && v != mod
    requires Num(mod, n) % 2 == 1 && Num(a, n) % 2 == 1 && Num(b, n) % 2 == 1 && Num(b, n) < Num(a, n)
    requires Inverting(Num(a, n), Num(b, n), Num(u, n), Num(v, n), x, Num(mod, n))
    modifies a, u
    ensures b[..n] == old(b[..n]) && v[..n] == old(v[..n]) && mod[..n] == old(mod[..n])
    ensures Inverting(Num(a, n), Num(b, n), Num(u, n), Num(v, n), x, Num(mod, n))
    ensures Num(a, n) == (old(Num(a, n)) - Num(b, n)) / 2
  {
    ghost var p, q, r, s, t := a[..n], b[..n], u[..n], v[..n], mod[..n];
    InvertingSubtractsAndHalves(Val(p), Val(q), Val(r), Val(s), x, Val(t));
    SubHalve(a, b, n);
    ghost var c := a[..n];
    assert b[..n] == q && u[..n] == r && v[..n] == s && mod[..n] == t;
    SubUpdate(u, v, mod, n);
    assert a[..n] == c && b[..n] == q && v[..n] == s && mod[..n] == t;
  }

  /** result = 1 / input modulo mod, for an odd modulus.  In general result * input is
      congruent to the greatest common divisor `g` of input and mod. */
  method ModInv(result: array<Word>, input: array<Word>, mod: array<Word>, n: nat) returns (ghost g: nat)
    requires 1 <= n <= result.Length && n <= input.Length && n <= mod.Length
    requires Num(mod, n) % 2 == 1 && Num(mod, n) > 1
    modifies result
    ensures old(Num(mod, n)) > 1 && Num(result, n) < old(Num(mod, n))
    ensures old(Num(input, n)) == 0 ==> Num(result, n) == 0
    ensures old(Num(input, n)) != 0 ==> IsGcd(g, old(Num(input, n)), old(Num(mod, n)))
    ensures old(Num(input, n)) != 0 ==> Cong(Num(result, n) * old(Num(input, n)), g, old(Num(mod, n)))
  {
    var zero := IsZero(input, n);
    if zero {
      Clear(result, n);
      return 0;
    }
    hide Inverting, IsGcd;
    ghost var x, m := Num(input, n), Num(mod, n);
    var a, b, u, v := new Word[n], new Word[n], new Word[n], new Word[n];
    Set(a, input, n);
    Set(b, mod, n);
    SetOne(u, n);
    Clear(v, n);
    InvertingStarts(x, m);
    Rounds(a, b, u, v, mod, n, x);
    g := Num(a, n);
    InvertingEnds(Num(a, n), Num(u, n), Num(v, n), x, m);
    Set(result, u, n);
  }

  /** Lines 713-737: the loop. */
  method Rounds(a: array<Word>, b: array<Word>, u: array<Word>, v: array<Word>, mod: array<Word>, n: nat, ghost x: int)
    requires 1 <= n <= a.Length && n <= b.Length && n <= u.Length && n <= v.Length && n <= mod.Length
    requires a != b && a != u && a != v && a != mod && b != u && b != v && b != mod && u != v && u != mod && v != mod
    requires Num(mod, n) % 2 == 1
    requires Inverting(Num(a, n), Num(b, n), Num(u, n), Num(v, n), x, Num(mod, n))
    modifies a, b, u, v
    ensures Num(a, n) == Num(b, n) && Num(u, n) < Num(mod, n)
    ensures Inverting(Num(a, n), Num(a, n), Num(u, n), Num(v, n), x, Num(mod, n))
  {
    var order := CmpUnsafe(a, b, n);
    while order != 0
      invariant order == Sign(Num(a, n) - Num(b, n))
      invariant Inverting(Num(a, n), Num(b, n), Num(u, n), Num(v, n), x, Num(mod, n))
      decreases Num(a, n) + Num(b, n)
    {
      order := Round(a, b, u, v, mod, n, order, x);
    }
  }

  method SetOne(u: array<Word>, n: nat)
    requires 1 <= n <= u.Length
    modifies u
    ensures Num(u, n) == 1
  {
    Clear(u, n);
    u[0] := 1;
    ghost var s := u[..n];
    ValZeros(s[1..]);
  }

  /** Lines 713-736: one round, with the comparison for the next. */
  method Round(a: array<Word>, b: array<Word>, u: array<Word>, v: array<Word>, mod: array<Word>, n: nat,
               order: int, ghost x: int)
      returns (next: int)
    requires 1 <= n <= a.Length && n <= b.Length && n <= u.Length && n <= v.Length && n <= mod.Length
    requires a != b && a != u && a != v && a != mod && b != u && b != v && b != mod && u != v && u != mod && v != mod
    requires Num(mod, n) % 2 == 1 && order == Sign(Num(a, n) - Num(b, n)) != 0
    requires Inverting(Num(a, n), Num(b, n), Num(u, n), Num(v, n), x, Num(mod, n))
    modifies a, b, u, v
    ensures Inverting(Num(a, n), Num(b, n), Num(u, n), Num(v, n), x, Num(mod, n))
    ensures Num(a, n) + Num(b, n) < old(Num(a, n) + Num(b, n))
    ensures next == Sign(Num(a, n) - Num(b, n))
  {
    ghost var m := mod[..n];
    var evenA := Even(a, n);
    var evenB := Even(b, n);
    if evenA {
      HalveFirst(a, b, u, v, mod, n, x);
    } else if evenB {
      InvertingSwaps(Num(a, n), Num(b, n), Num(u, n), Num(v, n), x, Num(mod, n));
      HalveFirst(b, a, v, u, mod, n, x);
      InvertingSwaps(Num(b, n), Num(a, n), Num(v, n), Num(u, n), x, Num(mod, n));
    } else if order > 0 {
      SubtractFirst(a, b, u, v, mod, n, x);
    } else {
      InvertingSwaps(Num(a, n), Num(b, n), Num(u, n), Num(v, n), x, Num(mod, n));
      SubtractFirst(b, a, v, u, mod, n, x);
      InvertingSwaps(Num(b, n), Num(a, n), Num(v, n), Num(u, n), x, Num(mod, n));
    }
    next := CmpUnsafe(a, b, n);
  }
}
