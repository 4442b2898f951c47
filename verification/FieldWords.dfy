/** Arithmetic modulo the field prime on words: the modular routines of micro-ecc compute
    the operations of the field. */
module FieldWords {
  import opened Arith
  import opened Words
  import opened Vli
  import opened VliMult
  import opened VliInv
  import opened PrimeField

  /** `mod` holds an odd number with its top word set, as every curve's prime does. */
  ghost predicate Modulus(mod: array<Word>, n: nat)
    reads mod
  {
    && 1 <= n <= mod.Length && n <= 0x1_0000_0000 && mod[n - 1] != 0
    && Num(mod, n) % 2 == 1 && Num(mod, n) > 1
  }

  /** `a` is a register of `n` words that holds an element of the field. */
  ghost predicate Element(a: array<Word>, mod: array<Word>, n: nat)
    reads a, mod
  {
    a.Length == n <= mod.Length && a != mod && Num(a, n) < Num(mod, n)
  }

  method FieldSub(result: array<Word>, left: array<Word>, right: array<Word>, mod: array<Word>, n: nat)
    requires Modulus(mod, n) && Element(left, mod, n) && Element(right, mod, n) && result.Length == n && result != mod
    modifies result
    ensures Element(result, mod, n) && Num(result, n) == FSub(old(Num(left, n)), old(Num(right, n)), Num(mod, n))
  {
    SubOnceIsMod(Num(left, n), Num(right, n), Num(mod, n));
    ModSub(result, left, right, mod, n);
  }

  method FieldAdd(result: array<Word>, left: array<Word>, right: array<Word>, mod: array<Word>, n: nat)
    requires Modulus(mod, n) && Element(left, mod, n) && Element(right, mod, n) && result.Length == n && result != mod
    modifies result
    ensures Element(result, mod, n) && Num(result, n) == FAdd(old(Num(left, n)), old(Num(right, n)), Num(mod, n))
  {
    AddOnceIsMod(Num(left, n), Num(right, n), Num(mod, n));
    ValBound(left[..n]);
    ModAdd(result, left, right, mod, n);
  }

  /** uECC_vli_modMult_fast, at optimisation level 0. */
  method FieldMult(result: array<Word>, left: array<Word>, right: array<Word>, mod: array<Word>, n: nat)
    requires Modulus(mod, n) && n <= left.Length && n <= right.Length && result.Length == n && result != mod
    modifies result
    ensures Element(result, mod, n) && Num(result, n) == FMul(old(Num(left, n)), old(Num(right, n)), Num(mod, n))
  {
    ModMult(result, left, right, mod, n);
  }

  /** uECC_vli_modSquare_fast, by default a product. */
  method FieldSquare(result: array<Word>, left: array<Word>, mod: array<Word>, n: nat)
    requires Modulus(mod, n) && n <= left.Length && result.Length == n && result != mod
    modifies result
    ensures Element(result, mod, n) && Num(result, n) == FMul(old(Num(left, n)), old(Num(left, n)), Num(mod, n))
  {
    FieldMult(result, left, left, mod, n);
  }

  lemma GcdWithPrime(g: nat, x: nat, n: nat)
    requires IsPrime(n) && IsGcd(g, x, n) && !Cong(x, 0, n) && x < n
    ensures g == 1
  {
  }

  /** Inversion modulo a prime, in place; zero is sent to zero. */
  method FieldInv(z: array<Word>, mod: array<Word>, n: nat)
    requires Modulus(mod, n) && Element(z, mod, n) && IsPrime(Num(mod, n))
    modifies z
    ensures Element(z, mod, n)
    ensures if Cong(old(Num(z, n)), 0, Num(mod, n)) then Num(z, n) == 0
      else Cong(Num(z, n) * old(Num(z, n)), 1, Num(mod, n))
  {
    ghost var x, p := Num(z, n), Num(mod, n);
    DivModUnique(x, p, 0, x);
    DivModUnique(0, p, 0, 0);
    ghost var g := ModInv(z, z, mod, n);
    if x != 0 {
      GcdWithPrime(g, x, p);
    }
  }

  method Copy(dest: array<Word>, src: array<Word>, n: nat)
    requires n <= src.Length && dest.Length == n
    modifies dest
    ensures Num(dest, n) == old(Num(src, n))
  {
    Set(dest, src, n);
  }

  /** The words of a number below 2^(32 n). */
  method Store(a: array<Word>, v: nat, n: nat)
    requires v < P(n) && a.Length == n
    modifies a
    ensures Num(a, n) == v
  {
    var w := v;
    for i := 0 to n
      invariant Remaining(a[..i], w, v, n - i)
    {
      ghost var s := a[..i];
      NextWord(s, w, v, n - i);
      a[i] := LowPart(w);
      w := w / 0x1_0000_0000;
      assert a[..i + 1] == s + [a[i]];
    }
  }

  ghost predicate Remaining(done: seq<Word>, w: nat, v: nat, left: nat) {
    w < P(left) && Val(done) + w * P(|done|) == v
  }

  function LowPart(w: nat): Word {
    w % 0x1_0000_0000
  }

  lemma NextWord(done: seq<Word>, w: nat, v: nat, left: nat)
    requires 1 <= left && Remaining(done, w, v, left)
    ensures Remaining(done + [LowPart(w)], w / 0x1_0000_0000, v, left - 1)
  {
    ValSnoc(done, LowPart(w));
    MulDistrib(LowPart(w), 0x1_0000_0000 * (w / 0x1_0000_0000), P(|done|));
    MulAssoc(0x1_0000_0000, w / 0x1_0000_0000, P(|done|));
    MulAssoc(w / 0x1_0000_0000, 0x1_0000_0000, P(|done|));
  }
}
