/** The rounds of micro-ecc's scalar multiplication on the contents of its registers, with
    the exceptional case: a round that meets two opposite points. */
module EccRounds {
  import opened Arith
  import opened Words
  import opened PrimeField
  import opened VliInv
  import opened CoZ
  import opened Cusp
  import opened Ladder
  import opened ScalarBits

  /** The two registers of the ladder before a round.  As long as all went well (`ok`) they
      are i P and j P for neighbouring i and j; otherwise they have collapsed. */
  ghost predicate Before(m: Multiples, ok: bool, X1: int, Y1: int, X2: int, Y2: int, sub: int, i: int, j: int)
    requires 0 < m.p && 0 < m.order
  {
    if ok then
      && m.Finite(i) && m.Finite(j) && (i - j == 1 || j - i == 1)
      && Cong(sub * sub, (X2 - X1) * (X2 - X1), m.p)
      && exists Z :: SharedZ(m, X1, Y1, X2, Y2, i, j, Z)
    else exists s, t :: Collapsed(X1, Y1, X2, Y2, sub, s, t, m.p)
  }

  ghost predicate SharedZ(m: Multiples, X1: int, Y1: int, X2: int, Y2: int, i: int, j: int, Z: int)
    requires 0 < m.p
  {
    !Cong(Z, 0, m.p) && On(m, X1, Y1, i, Z) && On(m, X2, Y2, j, Z)
  }

  /** Between the two operations of a round: the difference (X1, Y1), which is P or -P, and
      the sum (X2, Y2). */
  ghost predicate Between(m: Multiples, ok: bool, X1: int, Y1: int, X2: int, Y2: int, i: int, j: int)
    requires 0 < m.p && 0 < m.order
  {
    if ok then m.Finite(i) && m.Finite(j) && exists Z :: SharedZ(m, X1, Y1, X2, Y2, i, j, Z)
    else Cong(X1, 0, m.p) && Cong(Y1, 0, m.p) && exists t :: OnCusp(X2, Y2, t, m.p)
  }

  lemma BeforeSwaps(m: Multiples, ok: bool, X1: int, Y1: int, X2: int, Y2: int, sub: int, i: int, j: int)
    requires 0 < m.p && 0 < m.order && Before(m, ok, X1, Y1, X2, Y2, sub, i, j)
    ensures Before(m, ok, X2, Y2, X1, Y1, sub, j, i)
  {
    assert (X2 - X1) * (X2 - X1) == (X1 - X2) * (X1 - X2);
    if ok {
      var Z :| SharedZ(m, X1, Y1, X2, Y2, i, j, Z);
      assert SharedZ(m, X2, Y2, X1, Y1, j, i, Z);
    } else {
      var s, t :| Collapsed(X1, Y1, X2, Y2, sub, s, t, m.p);
      assert Collapsed(X2, Y2, X1, Y1, sub, t, s, m.p);
    }
  }

  /** Opposite multiples: the difference of their X and the sum of their Y are zero. */
  lemma OppositeRegisters(m: Multiples, X1: int, Y1: int, X2: int, Y2: int, i: int, j: int, Z: int)
    requires m.Valid() && m.Finite(i) && m.Finite(j) && !m.Finite(i + j)
    requires On(m, X1, Y1, i, Z) && On(m, X2, Y2, j, Z)
    ensures Cong(X2 - X1, 0, m.p) && Cong(Y1 + Y2, 0, m.p)
  {
    NegationIsFinite(m, i);
    assert m.Opposes(i);
    assert j - (-i) == i + j;
    assert m.SamePoint(j, -i);
    CongMul(m.x(j), m.x(i), Z * Z, Z * Z, m.p);
    CongSub(X2, m.x(i) * (Z * Z), X1, m.x(i) * (Z * Z), m.p);
    CongMul(m.y(j), -m.y(i), Z * Z * Z, Z * Z * Z, m.p);
    CongAdd(Y1, m.y(i) * (Z * Z * Z), Y2, (-m.y(i)) * (Z * Z * Z), m.p);
    assert m.y(i) * (Z * Z * Z) + (-m.y(i)) * (Z * Z * Z) == 0;
  }

  lemma NeighboursDiffer(m: Multiples, i: int, j: int)
    requires m.Valid() && (i - j == 1 || j - i == 1)
    ensures m.Finite(i - j)
  {
    OneFinite(m);
  }

  /** XYcZ_addC takes the registers from before a round to between its two operations; the
      round goes wrong exactly when the sum is infinity. */
  lemma AddCStep(m: Multiples, ok: bool, X1: int, Y1: int, X2: int, Y2: int, sub: int, i: int, j: int,
                 X3: int, Y3: int, X4: int, Y4: int)
    requires m.Valid() && Before(m, ok, X1, Y1, X2, Y2, sub, i, j)
    requires var A := sub * sub; var B, C := X1 * A, X2 * A; var E := Y1 * (C - B);
      && SumRegisters(X3, Y3, B, C, E, -(Y1 + Y2), m.p)
      && SumRegisters(X4, Y4, B, C, E, Y2 - Y1, m.p)
    ensures Between(m, ok && m.Finite(i + j), X3, Y3, X4, Y4, i - j, i + j)
  {
    var A := sub * sub;
    if ok {
      var Z :| SharedZ(m, X1, Y1, X2, Y2, i, j, Z);
      NeighboursDiffer(m, i, j);
      if m.Finite(i + j) {
        assert !m.SameX(i, j);
        AddCOnMultiples(m, i, j, X1, Y1, X2, Y2, A, Z, X3, Y3, X4, Y4);
        NextZNonzero(m, i, j, Z);
        assert SharedZ(m, X3, Y3, X4, Y4, i - j, i + j, NextZ(m.x(i), m.x(j), Z));
      } else {
        OppositeRegisters(m, X1, Y1, X2, Y2, i, j, Z);
        CongMul(X2 - X1, 0, X2 - X1, 0, m.p);
        OppositeCollapses(X1, Y1, X2, Y2, A, X3, Y3, X4, Y4, m.p);
      }
    } else {
      var s, t :| Collapsed(X1, Y1, X2, Y2, sub, s, t, m.p);
      CollapsedSumIsZero(X1, Y1, X2, Y2, sub, s, t, A, -(Y1 + Y2), X3, Y3, m.p);
      CollapsedSumIsZero(X1, Y1, X2, Y2, sub, s, t, A, Y2 - Y1, X4, Y4, m.p);
      assert OnCusp(X4, Y4, 0, m.p);
    }
  }

  /** XYcZ_add on the sum and the difference completes the round. */
  lemma AddStep(m: Multiples, ok: bool, X1: int, Y1: int, X2: int, Y2: int, i: int, j: int,
                X3: int, Y3: int, X4: int, Y4: int, sub: int)
    requires m.Valid() && Between(m, ok, X2, Y2, X1, Y1, j, i) && (j == 1 || j == -1)
    requires ok ==> m.Finite(i + j) && m.Finite(i - j)
    requires var A := (X2 - X1) * (X2 - X1); var B, C := X1 * A, X2 * A; var E := Y1 * (C - B);
      && Cong(X3, B, m.p) && Cong(Y3, E, m.p) && SumRegisters(X4, Y4, B, C, E, Y2 - Y1, m.p)
    requires Cong(sub, X3 - X4, m.p)
    ensures Before(m, ok, X3, Y3, X4, Y4, sub, i, i + j)
  {
    if ok {
      var Z :| SharedZ(m, X2, Y2, X1, Y1, j, i, Z);
      AddStepOnMultiples(m, X1, Y1, X2, Y2, i, j, Z, X3, Y3, X4, Y4);
      SubSquared(sub, X3, X4, m.p);
    } else {
      var t :| OnCusp(X1, Y1, t, m.p);
      CollapsedAdd(X1, Y1, X2, Y2, t, m.p, X3, Y3, X4, Y4, sub);
    }
  }

  lemma SubSquared(sub: int, X3: int, X4: int, p: nat)
    requires 0 < p && Cong(sub, X3 - X4, p)
    ensures Cong(sub * sub, (X4 - X3) * (X4 - X3), p)
  {
    CongMul(sub, X3 - X4, sub, X3 - X4, p);
    assert (X3 - X4) * (X3 - X4) == (X4 - X3) * (X4 - X3);
  }

  lemma AddStepOnMultiples(m: Multiples, X1: int, Y1: int, X2: int, Y2: int, i: int, j: int, Z: int,
                           X3: int, Y3: int, X4: int, Y4: int)
    requires m.Valid() && SharedZ(m, X2, Y2, X1, Y1, j, i, Z)
    requires m.Finite(i) && m.Finite(j) && m.Finite(i + j) && m.Finite(i - j)
    requires var A := (X2 - X1) * (X2 - X1); var B, C := X1 * A, X2 * A; var E := Y1 * (C - B);
      && Cong(X3, B, m.p) && Cong(Y3, E, m.p) && SumRegisters(X4, Y4, B, C, E, Y2 - Y1, m.p)
    ensures SharedZ(m, X3, Y3, X4, Y4, i, i + j, NextZ(m.x(i), m.x(j), Z))
  {
    assert !m.SameX(i, j);
    AddOnMultiples(m, i, j, X1, Y1, X2, Y2, Z, X3, Y3, X4, Y4);
    NextZNonzero(m, i, j, Z);
  }

  /** The round that follows prefix `k` meets opposite points: k P and (k + 1) P add up to
      infinity. */
  predicate Exceptional(order: nat, K: nat, i: nat)
    requires 0 < order
  {
    (2 * Prefix(K, i) + 1) % order == 0
  }

  ghost predicate NoException(order: nat, K: nat, lo: nat, hi: nat)
    requires 0 < order
  {
    forall i: nat :: lo <= i < hi ==> !Exceptional(order, K, i)
  }

  /** The coordinates of the difference register, which holds sign * P. */
  lemma DifferenceRegister(m: Multiples, X: int, Y: int, sign: int, px: int, py: int, Z: int)
    requires m.Valid() && (sign == 1 || sign == -1) && On(m, X, Y, sign, Z)
    requires Cong(px, m.x(1), m.p) && Cong(py, m.y(1), m.p)
    ensures Cong(X, px * (Z * Z), m.p) && Cong(Y, (sign * py) * (Z * Z * Z), m.p)
  {
    OneFinite(m);
    assert m.Opposes(1);
    CongMul(-1, -1, py, m.y(1), m.p);
    assert Cong(m.x(sign), px, m.p) && Cong(m.y(sign), sign * py, m.p);
    RepCong(X, Y, m.x(sign), m.y(sign), px, sign * py, Z, m.p);
  }

  /** The product that is inverted at the end: up to the factor P it is the next Z. */
  lemma ClosingProduct(XB: int, YB: int, XA: int, sign: int, px: int, py: int, Z: int, w: int, p: nat)
    requires 0 < p && (sign == 1 || sign == -1)
    requires Cong(YB, (sign * py) * (Z * Z * Z), p)
    requires Cong(w, (sign * (XB - XA)) * YB * px, p)
    ensures Cong(w, (XB - XA) * py * (Z * Z * Z) * px, p)
  {
    var d, c := XB - XA, Z * Z * Z;
    CongMul(sign * d, sign * d, YB, (sign * py) * c, p);
    CongMul((sign * d) * YB, (sign * d) * ((sign * py) * c), px, px, p);
    SignSquared(sign, d, py, c);
  }

  lemma SignSquared(sign: int, d: int, y: int, c: int)
    requires sign == 1 || sign == -1
    ensures (sign * d) * ((sign * y) * c) == d * y * c
  {
    if sign == -1 {
      assert (-d) * ((-y) * c) == d * y * c;
    }
  }

  /** The factor the source calls 1/Z undoes the Z of the last addition. */
  lemma ClosingFactor(XB: int, XA: int, xb: int, xa: int, px: int, py: int, Z: int, w: int, r: int, z: int, p: nat)
    requires 0 < p && Cong(XB, xb * (Z * Z), p) && Cong(XA, xa * (Z * Z), p) && Cong(XB, px * (Z * Z), p)
    requires Cong(w, (XB - XA) * py * (Z * Z * Z) * px, p)
    requires Cong(r * w, 1, p) && Cong(z, r * py * XB, p)
    ensures Cong(z * NextZ(xa, xb, Z), 1, p)
  {
    var d, W := XB - XA, NextZ(xa, xb, Z);
    CongSub(XB, xb * (Z * Z), XA, xa * (Z * Z), p);
    CongMul(Z, Z, d, xb * (Z * Z) - xa * (Z * Z), p);
    PolyNextZ(xa, xb, Z);
    CongMul(r * py, r * py, XB, px * (Z * Z), p);
    CongMul(z, r * py * (px * (Z * Z)), W, Z * d, p);
    PolyClosing(r, py, px, Z, d);
    CongMul(r, r, w, d * py * (Z * Z * Z) * px, p);
  }

  lemma PolyNextZ(xa: int, xb: int, Z: int)
    ensures Z * (xb * (Z * Z) - xa * (Z * Z)) == NextZ(xa, xb, Z)
  {
  }

  lemma PolyClosing(r: int, py: int, px: int, Z: int, d: int)
    ensures (r * py * (px * (Z * Z))) * (Z * d) == r * (d * py * (Z * Z * Z) * px)
  {
  }

  /** Scaling by the inverse of W turns co-Z coordinates into affine ones. */
  lemma Unscale(X: int, Y: int, X0: int, Y0: int, x: int, y: int, W: int, z: int, p: nat)
    requires 0 < p && Rep(X, Y, X0, Y0, z, p) && Rep(X0, Y0, x, y, W, p) && Cong(z * W, 1, p)
    ensures Cong(X, x, p) && Cong(Y, y, p)
  {
    var u := z * W;
    CongMul(u, 1, u, 1, p);
    CongMul(u * u, 1, u, 1, p);
    CongMul(X0, x * (W * W), z * z, z * z, p);
    CongMul(Y0, y * (W * W * W), z * z * z, z * z * z, p);
    PolyUnscale(x, y, W, z);
    CongMul(x, x, u * u, 1, p);
    CongMul(y, y, u * u * u, 1, p);
  }

  lemma PolyUnscale(x: int, y: int, W: int, z: int)
    ensures (x * (W * W)) * (z * z) == x * ((z * W) * (z * W))
    ensures (y * (W * W * W)) * (z * z * z) == y * ((z * W) * (z * W) * (z * W))
  {
  }

  lemma ZeroFactor(a: int, b: int, p: nat)
    requires 0 < p && (Cong(a, 0, p) || Cong(b, 0, p))
    ensures Cong(a * b, 0, p)
  {
    if Cong(a, 0, p) {
      CongMul(a, 0, b, b, p);
    } else {
      CongMul(a, a, b, 0, p);
    }
  }

  /** The closing product vanishes exactly when a round went wrong or P has a zero
      coordinate. */
  lemma ClosingVanishes(m: Multiples, ok: bool, XB: int, YB: int, XA: int, YA: int, sign: int, q: int,
                        px: int, py: int, w: int)
    requires m.Valid() && (sign == 1 || sign == -1) && Between(m, ok, XB, YB, XA, YA, sign, q)
    requires ok ==> m.Finite(q + sign) && m.Finite(q - sign)
    requires Cong(px, m.x(1), m.p) && Cong(py, m.y(1), m.p)
    requires Cong(w, (sign * (XB - XA)) * YB * px, m.p)
    ensures Cong(w, 0, m.p) <==> !(ok && !Cong(px, 0, m.p) && !Cong(py, 0, m.p))
  {
    var p := m.p;
    if !ok {
      ZeroFactor(sign * (XB - XA), YB, p);
      ZeroFactor((sign * (XB - XA)) * YB, px, p);
    } else {
      var Z :| SharedZ(m, XB, YB, XA, YA, sign, q, Z);
      DifferenceRegister(m, XB, YB, sign, px, py, Z);
      ClosingProduct(XB, YB, XA, sign, px, py, Z, w, p);
      var d, c := XB - XA, Z * Z * Z;
      if Cong(px, 0, p) {
        ZeroFactor(d * py * c, px, p);
      } else if Cong(py, 0, p) {
        ZeroFactor(d, py, p);
        ZeroFactor(d * py, c, p);
        ZeroFactor(d * py * c, px, p);
      } else {
        DifferenceNonzero(m, XB, XA, sign, q, Z);
        NonzeroProduct(Z, Z, p);
        NonzeroProduct(Z * Z, Z, p);
        NonzeroProduct(d, py, p);
        NonzeroProduct(d * py, c, p);
        NonzeroProduct(d * py * c, px, p);
      }
    }
  }

  lemma DifferenceNonzero(m: Multiples, XB: int, XA: int, i: int, j: int, Z: int)
    requires m.Valid() && m.Finite(i) && m.Finite(j) && m.Finite(j + i) && m.Finite(j - i) && !Cong(Z, 0, m.p)
    requires Cong(XB, m.x(i) * (Z * Z), m.p) && Cong(XA, m.x(j) * (Z * Z), m.p)
    ensures !Cong(XB - XA, 0, m.p)
  {
    assert !m.SameX(j, i);
    NonzeroProduct(Z, Z, m.p);
    if Cong(XB - XA, 0, m.p) {
      CongAdd(XB - XA, 0, XA, XA, m.p);
      Cancel(m.x(j), m.x(i), Z * Z, m.p);
    }
  }

  /** The difference register of a round holds P if the bit is set and -P otherwise. */
  function DifferenceSign(nb: nat): int {
    if nb == 0 then 1 else -1
  }

  /** The multiples next to the sum of a good round are finite. */
  lemma RoundIsFinite(m: Multiples, k: int, sign: int)
    requires m.Valid() && m.Finite(k) && m.Finite(k + 1) && (sign == 1 || sign == -1)
    ensures m.Finite(2 * k + 1 + sign) && m.Finite(2 * k + 1 - sign)
  {
    TwiceFinite(m, k);
    TwiceFinite(m, k + 1);
  }

  lemma OneMoreRound(m: Multiples, K: nat, i: nat, t: nat)
    requires 0 < m.order && i < t
    ensures NoException(m.order, K, i + 1, t + 1) ==
      (NoException(m.order, K, i + 2, t + 1) && m.Finite(2 * Prefix(K, i + 1) + 1))
  {
    if NoException(m.order, K, i + 1, t + 1) {
      assert !Exceptional(m.order, K, i + 1);
    }
    if NoException(m.order, K, i + 2, t + 1) && m.Finite(2 * Prefix(K, i + 1) + 1) {
      forall j: nat | i + 1 <= j < t + 1 ensures !Exceptional(m.order, K, j) {
      }
    }
  }

  lemma ZeroTimes(a: int, b: int, p: nat)
    requires 0 < p
    ensures FMul(FMul(0, a, p), b, p) == 0
  {
    DivModUnique(0, p, 0, 0);
  }

  /** `z` is an inverse of the Z that XYcZ_add is about to produce. */
  ghost predicate Undoes(m: Multiples, z: int, XB: int, YB: int, XA: int, YA: int, i: int, j: int)
    requires 0 < m.p
  {
    exists Z :: SharedZ(m, XB, YB, XA, YA, i, j, Z) && Cong(z * NextZ(m.x(j), m.x(i), Z), 1, m.p)
  }

  lemma ClosingUndoes(m: Multiples, XB: int, YB: int, XA: int, YA: int, sign: int, q: int,
                      px: int, py: int, w: int, r: int, z: int)
    requires m.Valid() && (sign == 1 || sign == -1) && Between(m, true, XB, YB, XA, YA, sign, q)
    requires Cong(px, m.x(1), m.p) && Cong(py, m.y(1), m.p)
    requires Cong(w, (sign * (XB - XA)) * YB * px, m.p) && Cong(r * w, 1, m.p) && Cong(z, r * py * XB, m.p)
    ensures Undoes(m, z, XB, YB, XA, YA, sign, q)
  {
    var Z :| SharedZ(m, XB, YB, XA, YA, sign, q, Z);
    DifferenceRegister(m, XB, YB, sign, px, py, Z);
    ClosingProduct(XB, YB, XA, sign, px, py, Z, w, m.p);
    ClosingFactor(XB, XA, m.x(sign), m.x(q), px, py, Z, w, r, z, m.p);
  }

  lemma FinalSum(m: Multiples, z: int, XB: int, YB: int, XA: int, YA: int, i: int, j: int,
                 X3: int, Y3: int, X4: int, Y4: int, first: bool, X: int, Y: int)
    requires m.Valid() && Undoes(m, z, XB, YB, XA, YA, i, j)
    requires m.Finite(i) && m.Finite(j) && m.Finite(j + i) && m.Finite(j - i)
    requires var A := (XB - XA) * (XB - XA); var B, C := XA * A, XB * A; var E := YA * (C - B);
      && Cong(X3, B, m.p) && Cong(Y3, E, m.p) && SumRegisters(X4, Y4, B, C, E, YB - YA, m.p)
    requires if first then Rep(X, Y, X3, Y3, z, m.p) else Rep(X, Y, X4, Y4, z, m.p)
    ensures var r := if first then j else j + i; Cong(X, m.x(r), m.p) && Cong(Y, m.y(r), m.p)
  {
    var Z :| SharedZ(m, XB, YB, XA, YA, i, j, Z) && Cong(z * NextZ(m.x(j), m.x(i), Z), 1, m.p);
    var W := NextZ(m.x(j), m.x(i), Z);
    AddOnMultiples(m, j, i, XA, YA, XB, YB, Z, X3, Y3, X4, Y4);
    if first {
      Unscale(X, Y, X3, Y3, m.x(j), m.y(j), W, z, m.p);
    } else {
      Unscale(X, Y, X4, Y4, m.x(j + i), m.y(j + i), W, z, m.p);
    }
  }

  lemma ZeroScaled(X: int, Y: int, X0: int, Y0: int, p: nat)
    requires 0 < p && Rep(X, Y, X0, Y0, 0, p) && 0 <= X < p && 0 <= Y < p
    ensures X == 0 && Y == 0
  {
    CongInRange(X, 0, p);
    CongInRange(Y, 0, p);
  }

  ghost predicate LadderResult(m: Multiples, K: nat, t: nat, px: int, py: int, rx: int, ry: int)
    requires 0 < m.p && 0 < m.order
  {
    if NoException(m.order, K, 1, t + 1) && !Cong(px, 0, m.p) && !Cong(py, 0, m.p)
    then Cong(rx, m.x(K), m.p) && Cong(ry, m.y(K), m.p)
    else rx == 0 && ry == 0
  }
}
