/** Scalar multiplication as micro-ecc performs it, on registers of words that every step
    updates in place. */
module EccPoint {
  import opened Arith
  import opened Words
  import opened Vli
  import opened PrimeField
  import opened FieldWords
  import opened VliInv
  import opened CoZ
  import opened Ladder
  import opened ScalarBits
  import opened EccRounds

  /** R0, R1, and the difference of their X. */
  datatype Pair = Pair(X0: array<Word>, Y0: array<Word>, X1: array<Word>, Y1: array<Word>, sub: array<Word>)
  {
    function X(b: nat): array<Word> {
      if b == 0 then X0 else X1
    }

    function Y(b: nat): array<Word> {
      if b == 0 then Y0 else Y1
    }

    ghost predicate Without(a: array<Word>) {
      a != X0 && a != Y0 && a != X1 && a != Y1 && a != sub
    }

    ghost predicate Ready(mod: array<Word>, n: nat)
      reads X0, Y0, X1, Y1, mod
    {
      Modulus(mod, n) && Elements(X0, Y0, X1, Y1, mod, n) && Apart(X0, Y0, X1, Y1, sub) && sub.Length == n && sub != mod
    }
  }

  /** The registers before a round on prefix `k`. */
  ghost predicate Opened(m: Multiples, r: Pair, mod: array<Word>, n: nat, ok: bool, k: int)
    reads r.X0, r.Y0, r.X1, r.Y1, r.sub, mod
  {
    && m.Valid() && r.Ready(mod, n) && Element(r.sub, mod, n) && m.p == Num(mod, n)
    && Before(m, ok, Num(r.X0, n), Num(r.Y0, n), Num(r.X1, n), Num(r.Y1, n), Num(r.sub, n), k, k + 1)
  }

  /** The registers in the middle of it. */
  ghost predicate Halfway(m: Multiples, r: Pair, mod: array<Word>, n: nat, nb: nat, ok: bool, k: int)
    reads r.X0, r.Y0, r.X1, r.Y1, mod
  {
    && m.Valid() && r.Ready(mod, n) && nb <= 1 && m.p == Num(mod, n)
    && Between(m, ok, Num(r.X(1 - nb), n), Num(r.Y(1 - nb), n), Num(r.X(nb), n), Num(r.Y(nb), n), DifferenceSign(nb), 2 * k + 1)
  }

  /** Lines 890 and 895: R[1-nb] becomes the difference, R[nb] the sum. */
  method DifferenceAndSum(ghost m: Multiples, mod: array<Word>, n: nat, r: Pair, nb: nat, ghost ok: bool, ghost k: int)
    requires Opened(m, r, mod, n, ok, k) && nb <= 1
    modifies r.X0, r.Y0, r.X1, r.Y1
    ensures Halfway(m, r, mod, n, nb, ok && m.Finite(2 * k + 1), k)
  {
    hide Before, Between, Modulus, Num, SumFirst, SumOfX, DifferenceProgram;
    ghost var was := Holding(r.X(1 - nb), r.Y(1 - nb), r.X(nb), r.Y(nb), n);
    ghost var i, j := if nb == 0 then k + 1 else k, if nb == 0 then k else k + 1;
    if nb == 0 {
      BeforeSwaps(m, ok, was.X2, was.Y2, was.X1, was.Y1, Num(r.sub, n), k, k + 1);
    }
    DifferenceProgramMeans(was, Num(r.sub, n), m.p);
    ghost var now := DifferenceProgram(was, Num(r.sub, n), m.p);
    AddCStep(m, ok, was.X1, was.Y1, was.X2, was.Y2, Num(r.sub, n), i, j, now.X1, now.Y1, now.X2, now.Y2);
    assert i + j == 2 * k + 1 && i - j == DifferenceSign(nb);
    XYcZAddC(r.X(1 - nb), r.Y(1 - nb), r.X(nb), r.Y(nb), r.sub, mod, n);
  }

  /** Line 891: the registers of the two points meet again. */
  method SumAgain(ghost m: Multiples, mod: array<Word>, n: nat, r: Pair, nb: nat, ghost ok: bool, ghost k: int)
    requires Halfway(m, r, mod, n, nb, ok, k) && (ok ==> m.Finite(k) && m.Finite(k + 1))
    modifies r.X0, r.Y0, r.X1, r.Y1, r.sub
    ensures Opened(m, r, mod, n, ok, 2 * k + 1 - nb)
  {
    hide Before, Between, Modulus, Num, SumProgram;
    ghost var was := Holding(r.X(nb), r.Y(nb), r.X(1 - nb), r.Y(1 - nb), n);
    ghost var i, j := 2 * k + 1, DifferenceSign(nb);
    if ok {
      RoundIsFinite(m, k, j);
    }
    SumProgramMeans(was, m.p);
    ghost var now := SumProgram(was, m.p);
    ghost var s := FSub(now.X1, now.X2, m.p);
    CongMod(now.X1 - now.X2, m.p);
    EccRounds.AddStep(m, ok, was.X1, was.Y1, was.X2, was.Y2, i, j, now.X1, now.Y1, now.X2, now.Y2, s);
    if nb == 1 {
      BeforeSwaps(m, ok, now.X1, now.Y1, now.X2, now.Y2, s, 2 * k + 1, 2 * k);
    }
    XYcZAdd(r.X(nb), r.Y(nb), r.X(1 - nb), r.Y(1 - nb), r.sub, mod, n);
  }

  /** Lines 889-891: the round for one bit, on prefix `k`. */
  method Round(ghost m: Multiples, mod: array<Word>, n: nat, r: Pair, bit: bool, ghost ok: bool, ghost k: int)
    requires Opened(m, r, mod, n, ok, k)
    modifies r.X0, r.Y0, r.X1, r.Y1, r.sub
    ensures Opened(m, r, mod, n, ok && m.Finite(2 * k + 1), 2 * k + if bit then 1 else 0)
  {
    hide Modulus, Num, Between;
    var nb := if bit then 0 else 1;
    DifferenceAndSum(m, mod, n, r, nb, ok, k);
    SumAgain(m, mod, n, r, nb, ok && m.Finite(2 * k + 1), k);
  }

  /** Lines 887-892: the rounds for all bits but the last. */
  method Rounds(ghost m: Multiples, mod: array<Word>, n: nat, r: Pair, scalar: array<Word>, words: nat, t: nat)
    requires 1 <= t <= 32 * words && words <= scalar.Length
    requires r.Without(scalar)
    requires Opened(m, r, mod, n, true, 1)
    modifies r.X0, r.Y0, r.X1, r.Y1, r.sub
    ensures var K := Effective(Num(scalar, words), t);
      Opened(m, r, mod, n, NoException(m.order, K, 2, t + 1), Prefix(K, 1))
  {
    hide Before, Modulus, Num, Prefix, Effective, NoException;
    ghost var v := Num(scalar, words);
    ghost var K := Effective(v, t);
    EffectiveTop(v, t);
    NothingExceptional(m.order, K, t + 1);
    var i := t - 1;
    while i > 0
      invariant 0 <= i < t && Num(scalar, words) == v
      invariant Opened(m, r, mod, n, NoException(m.order, K, i + 2, t + 1), Prefix(K, i + 1))
    {
      OneMoreRound(m, K, i, t);
      NextPrefix(v, t, i);
      var bit := TestBit(scalar, words, i);
      Round(m, mod, n, r, bit, NoException(m.order, K, i + 2, t + 1), Prefix(K, i + 1));
      i := i - 1;
    }
  }

  lemma NothingExceptional(order: nat, K: nat, i: nat)
    requires 0 < order
    ensures NoException(order, K, i, i)
  {
  }

  /** double_jacobian, which is not part of this model: it doubles P and finds the new Z. */
  ghost predicate Doubles(m: Multiples, dbl: (nat, nat, nat) -> (nat, nat, nat))
    requires 0 < m.p
  {
    forall X: nat, Y: nat, Z: nat :: On(m, X, Y, 1, Z) && !Cong(Z, 0, m.p) ==> IsDouble(m, dbl(X, Y, Z))
  }

  ghost predicate IsDouble(m: Multiples, r: (nat, nat, nat))
    requires 0 < m.p
  {
    On(m, r.0, r.1, 2, r.2) && !Cong(r.2, 0, m.p) && r.0 < m.p && r.1 < m.p && r.2 < m.p
  }

  /** The registers and Z overwritten by the doubling routine. */
  method DoubleJacobian(ghost m: Multiples, X: array<Word>, Y: array<Word>, Z: array<Word>, mod: array<Word>, n: nat,
                        dbl: (nat, nat, nat) -> (nat, nat, nat))
    requires Modulus(mod, n) && Element(X, mod, n) && Element(Y, mod, n) && Element(Z, mod, n)
    requires X != Y && Z != X && Z != Y && m.Valid() && m.p == Num(mod, n) && Doubles(m, dbl)
    requires On(m, Num(X, n), Num(Y, n), 1, Num(Z, n)) && !Cong(Num(Z, n), 0, m.p)
    modifies X, Y, Z
    ensures Element(X, mod, n) && Element(Y, mod, n) && Element(Z, mod, n)
    ensures On(m, Num(X, n), Num(Y, n), 2, Num(Z, n)) && !Cong(Num(Z, n), 0, m.p)
  {
    hide On, Modulus;
    var r := dbl(Val(X[..n]), Val(Y[..n]), Val(Z[..n]));
    assert IsDouble(m, r);
    ValBound(mod[..n]);
    Store(X, r.0, n);
    Store(Y, r.1, n);
    Store(Z, r.2, n);
  }

  /** The point that is multiplied: P itself. */
  ghost predicate Point(m: Multiples, px: array<Word>, py: array<Word>, mod: array<Word>, n: nat)
    reads px, py, mod
  {
    && m.Valid() && Modulus(mod, n) && m.p == Num(mod, n) && Element(px, mod, n) && Element(py, mod, n)
    && Cong(Num(px, n), m.x(1), m.p) && Cong(Num(py, n), m.y(1), m.p)
  }

  /** A random Z, or none. */
  ghost predicate Blinding(initialZ: array?<Word>, mod: array<Word>, n: nat)
    reads if initialZ == null then {} else {initialZ}, mod
  {
    initialZ != null ==> n <= initialZ.Length && n <= mod.Length && 0 < Num(initialZ, n) < Num(mod, n)
  }

  /** Lines 772-779. */
  method FirstZ(initialZ: array?<Word>, mod: array<Word>, n: nat) returns (z: array<Word>)
    requires Modulus(mod, n) && Blinding(initialZ, mod, n)
    ensures fresh(z) && Element(z, mod, n)
    ensures Num(z, n) == (if initialZ != null then Num(initialZ, n) else 1) && 0 < Num(z, n)
  {
    z := new Word[n];
    if initialZ != null {
      Copy(z, initialZ, n);
    } else {
      SetOne(z, n);
    }
  }

  /** Lines 879-883: R0 = P, R1 = 2 P, and their difference. */
  method FirstRegisters(ghost m: Multiples, mod: array<Word>, n: nat, r: Pair, px: array<Word>, py: array<Word>,
                        initialZ: array?<Word>, dbl: (nat, nat, nat) -> (nat, nat, nat))
    requires Point(m, px, py, mod, n) && Doubles(m, dbl) && Blinding(initialZ, mod, n)
    requires r.X0.Length == r.Y0.Length == r.X1.Length == r.Y1.Length == r.sub.Length == n
    requires Apart(r.X0, r.Y0, r.X1, r.Y1, r.sub) && r.Without(mod)
    requires r.Without(px) && r.Without(py)
    modifies r.X0, r.Y0, r.X1, r.Y1, r.sub
    ensures Opened(m, r, mod, n, true, 1)
  {
    hide Modulus, Num, Rep, SharedZ;
    ghost var x, y, p := Num(px, n), Num(py, n), m.p;
    var z := FirstZ(initialZ, mod, n);
    Copy(r.X1, px, n);
    Copy(r.Y1, py, n);
    Copy(r.X0, r.X1, n);
    Copy(r.Y0, r.Y1, n);
    ApplyZ(r.X1, r.Y1, z, mod, n);
    RepCong(Num(r.X1, n), Num(r.Y1, n), x, y, m.x(1), m.y(1), Num(z, n), p);
    SmallNonzero(Num(z, n), p);
    DoubleJacobian(m, r.X1, r.Y1, z, mod, n, dbl);
    ApplyZ(r.X0, r.Y0, z, mod, n);
    RepCong(Num(r.X0, n), Num(r.Y0, n), x, y, m.x(1), m.y(1), Num(z, n), p);
    FieldSub(r.sub, r.X0, r.X1, mod, n);
    FirstIsOpened(m, Num(r.X0, n), Num(r.Y0, n), Num(r.X1, n), Num(r.Y1, n), Num(r.sub, n), Num(z, n));
  }

  lemma SmallNonzero(v: nat, p: nat)
    requires 0 < v < p
    ensures !Cong(v, 0, p)
  {
    DivModUnique(v, p, 0, v);
    DivModUnique(0, p, 0, 0);
  }

  lemma FirstIsOpened(m: Multiples, X0: int, Y0: int, X1: int, Y1: int, sub: int, Z: int)
    requires m.Valid() && On(m, X0, Y0, 1, Z) && On(m, X1, Y1, 2, Z) && !Cong(Z, 0, m.p) && sub == FSub(X0, X1, m.p)
    ensures Before(m, true, X0, Y0, X1, Y1, sub, 1, 2)
  {
    CongMod(X0 - X1, m.p);
    SubSquared(sub, X0, X1, m.p);
    OneFinite(m);
    assert SharedZ(m, X0, Y0, X1, Y1, 1, 2, Z);
  }

  /** Lines 897-903: the factor that undoes the Z of the last addition; zero if a round went
      wrong or P has a zero coordinate. */
  method ClosingZ(ghost m: Multiples, mod: array<Word>, n: nat, r: Pair, nb: nat, px: array<Word>, py: array<Word>,
                  ghost ok: bool, ghost k: int)
      returns (z: array<Word>)
    requires Halfway(m, r, mod, n, nb, ok, k) && Point(m, px, py, mod, n) && (ok ==> m.Finite(k) && m.Finite(k + 1))
    ensures fresh(z) && Element(z, mod, n)
    ensures Closes(m, Num(z, n), Holding(r.X(1 - nb), r.Y(1 - nb), r.X(nb), r.Y(nb), n), Num(px, n), Num(py, n), nb, ok, k)
  {
    hide Modulus, Num, FSub, FMul, Between, Undoes;
    ghost var h := Holding(r.X(1 - nb), r.Y(1 - nb), r.X(nb), r.Y(nb), n);
    ghost var x, y, p := Num(px, n), Num(py, n), m.p;
    z := new Word[n];
    FieldSub(z, r.X1, r.X0, mod, n);
    FieldMult(z, z, r.Y(1 - nb), mod, n);
    FieldMult(z, z, px, mod, n);
    ghost var w := Num(z, n);
    FieldInv(z, mod, n);
    ghost var i := Num(z, n);
    FieldMult(z, z, py, mod, n);
    FieldMult(z, z, r.X(1 - nb), mod, n);
    ClosingProgram(m, h, x, y, nb, ok, k, w, i, Num(z, n));
  }

  /** `z` is right for the registers `h`, or zero. */
  ghost predicate Closes(m: Multiples, z: int, h: Registers, px: int, py: int, nb: nat, ok: bool, k: int)
    requires 0 < m.p
  {
    if ok && !Cong(px, 0, m.p) && !Cong(py, 0, m.p)
    then Undoes(m, z, h.X1, h.Y1, h.X2, h.Y2, DifferenceSign(nb), 2 * k + 1)
    else z == 0
  }

  lemma ClosingProgram(m: Multiples, h: Registers, px: int, py: int, nb: nat, ok: bool, k: int, w: int, i: int, z: int)
    requires m.Valid() && nb <= 1 && Between(m, ok, h.X1, h.Y1, h.X2, h.Y2, DifferenceSign(nb), 2 * k + 1)
    requires Cong(px, m.x(1), m.p) && Cong(py, m.y(1), m.p) && (ok ==> m.Finite(k) && m.Finite(k + 1))
    requires var d := if nb == 0 then FSub(h.X1, h.X2, m.p) else FSub(h.X2, h.X1, m.p);
      w == FMul(FMul(d, h.Y1, m.p), px, m.p)
    requires if Cong(w, 0, m.p) then i == 0 else Cong(i * w, 1, m.p)
    requires z == FMul(FMul(i, py, m.p), h.X1, m.p)
    ensures Closes(m, z, h, px, py, nb, ok, k)
  {
    hide FSub, FMul, Between, Undoes;
    var p, sign, q := m.p, DifferenceSign(nb), 2 * k + 1;
    if ok {
      RoundIsFinite(m, k, sign);
    }
    var d := if nb == 0 then FSub(h.X1, h.X2, p) else FSub(h.X2, h.X1, p);
    SubC(h.X1, h.X1, h.X2, h.X2, p);
    SubC(h.X2, h.X2, h.X1, h.X1, p);
    assert Cong(d, sign * (h.X1 - h.X2), p);
    MulC(d, sign * (h.X1 - h.X2), h.Y1, h.Y1, p);
    MulC(FMul(d, h.Y1, p), (sign * (h.X1 - h.X2)) * h.Y1, px, px, p);
    ClosingVanishes(m, ok, h.X1, h.Y1, h.X2, h.Y2, sign, q, px, py, w);
    MulC(i, i, py, py, p);
    MulC(FMul(i, py, p), i * py, h.X1, h.X1, p);
    if ok && !Cong(px, 0, p) && !Cong(py, 0, p) {
      ClosingUndoes(m, h.X1, h.Y1, h.X2, h.Y2, sign, q, px, py, w, i, z);
    } else {
      ZeroTimes(py, h.X1, p);
    }
  }

  /** Lines 906-907: the last addition, and back to affine coordinates in R0. */
  method Finish(ghost m: Multiples, mod: array<Word>, n: nat, r: Pair, nb: nat, z: array<Word>,
                ghost px: int, ghost py: int, ghost ok: bool, ghost k: int)
    requires Halfway(m, r, mod, n, nb, ok, k) && (ok ==> m.Finite(k) && m.Finite(k + 1) && m.Finite(2 * k + 1))
    requires Element(z, mod, n) && r.Without(z)
    requires Closes(m, Num(z, n), Holding(r.X(1 - nb), r.Y(1 - nb), r.X(nb), r.Y(nb), n), px, py, nb, ok, k)
    modifies r.X0, r.Y0, r.X1, r.Y1, r.sub
    ensures Element(r.X0, mod, n) && Element(r.Y0, mod, n)
    ensures if ok && !Cong(px, 0, m.p) && !Cong(py, 0, m.p)
      then Cong(Num(r.X0, n), m.x(2 * k + 1 - nb), m.p) && Cong(Num(r.Y0, n), m.y(2 * k + 1 - nb), m.p)
      else Num(r.X0, n) == 0 && Num(r.Y0, n) == 0
  {
    hide Modulus, Num, Between, Undoes, SumProgram, Rep;
    ghost var was := Holding(r.X(nb), r.Y(nb), r.X(1 - nb), r.Y(1 - nb), n);
    XYcZAdd(r.X(nb), r.Y(nb), r.X(1 - nb), r.Y(1 - nb), r.sub, mod, n);
    ghost var now := SumProgram(was, m.p);
    SumProgramMeans(was, m.p);
    ApplyZ(r.X0, r.Y0, z, mod, n);
    if ok && !Cong(px, 0, m.p) && !Cong(py, 0, m.p) {
      OneFinite(m);
      RoundIsFinite(m, k, DifferenceSign(nb));
      FinalSum(m, Num(z, n), was.X2, was.Y2, was.X1, was.Y1, DifferenceSign(nb), 2 * k + 1, now.X1, now.Y1, now.X2, now.Y2,
               nb == 0, Num(r.X0, n), Num(r.Y0, n));
    } else {
      ZeroScaled(Num(r.X0, n), Num(r.Y0, n), if nb == 0 then now.X1 else now.X2, if nb == 0 then now.Y1 else now.Y2, m.p);
    }
  }

  /** Lines 894-907: the last bit, and the coordinates of the result in R0. */
  method LastBit(ghost m: Multiples, mod: array<Word>, n: nat, r: Pair, px: array<Word>, py: array<Word>, last: bool,
                 ghost ok: bool, ghost k: int)
    requires Opened(m, r, mod, n, ok, k) && Point(m, px, py, mod, n)
    requires r.Without(px) && r.Without(py)
    requires ok ==> m.Finite(k) && m.Finite(k + 1)
    modifies r.X0, r.Y0, r.X1, r.Y1, r.sub
    ensures Element(r.X0, mod, n) && Element(r.Y0, mod, n)
    ensures if ok && m.Finite(2 * k + 1) && !Cong(Num(px, n), 0, m.p) && !Cong(Num(py, n), 0, m.p)
      then var K := 2 * k + if last then 1 else 0; Cong(Num(r.X0, n), m.x(K), m.p) && Cong(Num(r.Y0, n), m.y(K), m.p)
      else Num(r.X0, n) == 0 && Num(r.Y0, n) == 0
  {
    hide Modulus, Num, Before, Between, Closes;
    var nb := if last then 0 else 1;
    DifferenceAndSum(m, mod, n, r, nb, ok, k);
    ghost var good := ok && m.Finite(2 * k + 1);
    var z := ClosingZ(m, mod, n, r, nb, px, py, good, k);
    Finish(m, mod, n, r, nb, z, Num(px, n), Num(py, n), good, k);
  }

  lemma OpenedIsFinite(m: Multiples, r: Pair, mod: array<Word>, n: nat, ok: bool, k: int)
    requires Opened(m, r, mod, n, ok, k) && ok
    ensures m.Finite(k) && m.Finite(k + 1)
  {
  }

  lemma LastRound(m: Multiples, v: nat, t: nat)
    requires 0 < m.order && 1 <= t
    ensures var K := Effective(v, t);
      && K == 2 * Prefix(K, 1) + (if Bit(v, 0) == 1 then 1 else 0)
      && NoException(m.order, K, 1, t + 1) == (NoException(m.order, K, 2, t + 1) && m.Finite(2 * Prefix(K, 1) + 1))
  {
    hide Effective, Prefix, NoException;
    OneMoreRound(m, Effective(v, t), 0, t);
    NextPrefix(v, t, 0);
    WholePrefix(Effective(v, t));
  }

  /** Lines 887-907: all the rounds. */
  method AllRounds(ghost m: Multiples, mod: array<Word>, n: nat, r: Pair, px: array<Word>, py: array<Word>,
                   scalar: array<Word>, words: nat, t: nat)
    requires Opened(m, r, mod, n, true, 1) && Point(m, px, py, mod, n)
    requires 1 <= t <= 32 * words && words <= scalar.Length
    requires r.Without(px) && r.Without(py)
    requires r.Without(scalar)
    modifies r.X0, r.Y0, r.X1, r.Y1, r.sub
    ensures Element(r.X0, mod, n) && Element(r.Y0, mod, n)
    ensures LadderResult(m, Effective(Num(scalar, words), t), t, Num(px, n), Num(py, n), Num(r.X0, n), Num(r.Y0, n))
  {
    hide Modulus, Num, Before, Effective, Prefix, NoException, Bit;
    ghost var v := Num(scalar, words);
    ghost var K := Effective(v, t);
    Rounds(m, mod, n, r, scalar, words, t);
    var last := TestBit(scalar, words, 0);
    ghost var ok, k := NoException(m.order, K, 2, t + 1), Prefix(K, 1);
    LastRound(m, v, t);
    if ok {
      OpenedIsFinite(m, r, mod, n, true, k);
    }
    LastBit(m, mod, n, r, px, py, last, ok, k);
  }

  method NewPair(n: nat) returns (r: Pair)
    ensures fresh(r.X0) && fresh(r.Y0) && fresh(r.X1) && fresh(r.Y1) && fresh(r.sub)
    ensures r.X0.Length == r.Y0.Length == r.X1.Length == r.Y1.Length == r.sub.Length == n
    ensures Apart(r.X0, r.Y0, r.X1, r.Y1, r.sub)
  {
    var X0, Y0, X1, Y1, sub := new Word[n], new Word[n], new Word[n], new Word[n], new Word[n];
    r := Pair(X0, Y0, X1, Y1, sub);
  }

  /** Multiplies P by the number of `numBits` bits whose top bit is 1 and whose other bits
      are those of `scalar`.  The result is exact unless a round is exceptional or P has a
      zero coordinate; then it is (0, 0).  It does not depend on `initialZ`, and it may
      overwrite the point. */
  method EccPointMult(ghost m: Multiples, mod: array<Word>, n: nat, rx: array<Word>, ry: array<Word>,
                      px: array<Word>, py: array<Word>, scalar: array<Word>, words: nat,
                      initialZ: array?<Word>, numBits: nat, dbl: (nat, nat, nat) -> (nat, nat, nat))
    requires Point(m, px, py, mod, n) && Doubles(m, dbl) && Blinding(initialZ, mod, n)
    requires 2 <= numBits <= 32 * words + 1 && words <= scalar.Length
    requires rx.Length == ry.Length == n && rx != ry && rx != mod && ry != mod
    modifies rx, ry
    ensures Element(rx, mod, n) && Element(ry, mod, n)
    ensures LadderResult(m, Effective(old(Num(scalar, words)), numBits - 1), numBits - 1,
                         old(Num(px, n)), old(Num(py, n)), Num(rx, n), Num(ry, n))
  {
    hide Modulus, Num, Before, Effective, LadderResult, Doubles, Cong;
    var r := NewPair(n);
    FirstRegisters(m, mod, n, r, px, py, initialZ, dbl);
    AllRounds(m, mod, n, r, px, py, scalar, words, numBits - 1);
    Copy(rx, r.X0, n);
    Copy(ry, r.Y0, n);
  }
}
