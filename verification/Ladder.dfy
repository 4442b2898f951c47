/** The regularised Montgomery ladder of micro-ecc on the multiples of one point.  The
    curve enters only through the chord law for those multiples. */
module Ladder {
  import opened Arith
  import opened Words
  import opened PrimeField
  import opened VliInv
  import opened CoZ

  /** The multiples of one point P of odd order over the field of `p` elements: `x(i)`,
      `y(i)` are the affine coordinates of i * P, meaningful unless i * P is infinity. */
  datatype Multiples = Multiples(p: nat, order: nat, x: int -> int, y: int -> int)
  {
    /** i * P is not the point at infinity. */
    predicate Finite(i: int)
      requires 0 < order
    {
      i % order != 0
    }

    /** `l` is the slope of the chord through i * P and j * P. */
    ghost predicate Slope(i: int, j: int, l: int)
      requires 0 < p
    {
      !Cong(x(i), x(j), p) && Cong(l * (x(j) - x(i)), y(j) - y(i), p)
    }

    /** The chord construction adds multiples of P. */
    ghost predicate ChordLaw()
      requires 0 < p && 0 < order
    {
      forall i, j, l {:trigger Slope(i, j, l)} :: Finite(i) && Finite(j) && Slope(i, j, l) ==>
        Cong(x(i + j), ChordX(x(i), x(j), l), p) && Cong(y(i + j), ChordY(x(i), y(i), x(j), l), p)
    }

    ghost predicate Opposes(i: int)
      requires 0 < p
    {
      Cong(x(-i), x(i), p) && Cong(y(-i), -y(i), p)
    }

    ghost predicate NegationLaw()
      requires 0 < p && 0 < order
    {
      forall i {:trigger Opposes(i)} :: Finite(i) ==> Opposes(i)
    }

    ghost predicate SameX(i: int, j: int)
      requires 0 < p
    {
      Cong(x(i), x(j), p)
    }

    ghost predicate SamePoint(i: int, j: int)
      requires 0 < p
    {
      Cong(x(i), x(j), p) && Cong(y(i), y(j), p)
    }

    /** Multiples above the same x are equal or opposite, and P has order `order`. */
    ghost predicate OrderLaw()
      requires 0 < p && 0 < order
    {
      && (forall i, j {:trigger SameX(i, j)} :: Finite(i) && Finite(j) && SameX(i, j) ==> !Finite(i - j) || !Finite(i + j))
      && (forall i, j {:trigger SamePoint(i, j)} :: Finite(i) && !Finite(i - j) ==> SamePoint(i, j))
    }

    ghost predicate Valid() {
      && IsPrime(p) && order % 2 == 1 && 3 <= order
      && ChordLaw() && NegationLaw() && OrderLaw()
    }
  }

  /** (X, Y) are co-Z coordinates of i * P. */
  ghost predicate On(m: Multiples, X: int, Y: int, i: int, Z: int)
    requires 0 < m.p
  {
    Rep(X, Y, m.x(i), m.y(i), Z, m.p)
  }

  lemma NegationIsFinite(m: Multiples, i: int)
    requires 0 < m.order
    ensures m.Finite(i) <==> m.Finite(-i)
  {
    if i % m.order == 0 {
      CongSub(0, 0, i, 0, m.order);
    }
    if (-i) % m.order == 0 {
      CongSub(0, 0, -i, 0, m.order);
    }
  }

  /** Two finite multiples that are neither equal nor opposite have a chord. */
  lemma ChordExists(m: Multiples, i: int, j: int) returns (l: int)
    requires m.Valid() && m.Finite(i) && m.Finite(j) && m.Finite(i - j) && m.Finite(i + j)
    ensures m.Slope(i, j, l)
  {
    assert !m.SameX(i, j);
    var d := m.x(j) - m.x(i);
    if Cong(d, 0, m.p) {
      CongAdd(d, 0, m.x(i), m.x(i), m.p);
    }
    InverseExists(d, m.p);
    var r :| IsInverse(r, d, m.p);
    var e := m.y(j) - m.y(i);
    l := r * e;
    CongMul(r * d, 1, e, e, m.p);
    MulAssoc(r, e, d);
    MulAssoc(r, d, e);
  }

  lemma NextZNonzero(m: Multiples, i: int, j: int, Z: int)
    requires m.Valid() && !Cong(m.x(i), m.x(j), m.p) && !Cong(Z, 0, m.p)
    ensures !Cong(NextZ(m.x(i), m.x(j), Z), 0, m.p)
  {
    var d := m.x(j) - m.x(i);
    if Cong(d, 0, m.p) {
      CongAdd(d, 0, m.x(i), m.x(i), m.p);
    }
    NonzeroProduct(Z, Z, m.p);
    NonzeroProduct(Z * Z, Z, m.p);
    NonzeroProduct(d, Z * Z * Z, m.p);
  }

  lemma RepCong(X: int, Y: int, x: int, y: int, x': int, y': int, Z: int, p: nat)
    requires 0 < p && Rep(X, Y, x, y, Z, p) && Cong(x, x', p) && Cong(y, y', p)
    ensures Rep(X, Y, x', y', Z, p)
  {
    CongMul(x, x', Z * Z, Z * Z, p);
    CongMul(y, y', Z * Z * Z, Z * Z * Z, p);
  }

  /** Equal arguments up to congruence give congruent chord points. */
  lemma ChordCong(x1: int, y1: int, x2: int, x2': int, l: int, p: nat)
    requires 0 < p && Cong(x2, x2', p)
    ensures Cong(ChordX(x1, x2, l), ChordX(x1, x2', l), p)
    ensures Cong(ChordY(x1, y1, x2, l), ChordY(x1, y1, x2', l), p)
  {
    CongSub(l * l - x1, l * l - x1, x2, x2', p);
    CongSub(x1, x1, ChordX(x1, x2, l), ChordX(x1, x2', l), p);
    CongMul(l, l, x1 - ChordX(x1, x2, l), x1 - ChordX(x1, x2', l), p);
    CongSub(l * (x1 - ChordX(x1, x2, l)), l * (x1 - ChordX(x1, x2', l)), y1, y1, p);
  }

  /** The chord through i P and -j P, written with the coordinates of j P. */
  lemma DifferenceLaw(m: Multiples, i: int, j: int) returns (l: int)
    requires m.Valid() && m.Finite(i) && m.Finite(j) && m.Finite(i - j) && m.Finite(i + j)
    ensures Cong(l * (m.x(j) - m.x(i)), -m.y(j) - m.y(i), m.p)
    ensures Cong(m.x(i - j), ChordX(m.x(i), m.x(j), l), m.p)
    ensures Cong(m.y(i - j), ChordY(m.x(i), m.y(i), m.x(j), l), m.p)
  {
    NegationIsFinite(m, j);
    assert m.Opposes(j);
    l := ChordExists(m, i, -j);
    assert i - (-j) == i + j && i + (-j) == i - j;
    CongSub(m.x(-j), m.x(j), m.x(i), m.x(i), m.p);
    CongMul(l, l, m.x(-j) - m.x(i), m.x(j) - m.x(i), m.p);
    CongSub(m.y(-j), -m.y(j), m.y(i), m.y(i), m.p);
    ChordCong(m.x(i), m.y(i), m.x(-j), m.x(j), l, m.p);
  }

  /** XYcZ_addC on i P and j P: the difference and the sum, for the next Z. */
  lemma AddCOnMultiples(m: Multiples, i: int, j: int, X1: int, Y1: int, X2: int, Y2: int, A: int, Z: int,
                        X3: int, Y3: int, X4: int, Y4: int)
    requires m.Valid() && m.Finite(i) && m.Finite(j) && m.Finite(i - j) && m.Finite(i + j)
    requires On(m, X1, Y1, i, Z) && On(m, X2, Y2, j, Z) && Cong(A, (X2 - X1) * (X2 - X1), m.p)
    requires SumRegisters(X3, Y3, X1 * A, X2 * A, Y1 * (X2 * A - X1 * A), -(Y1 + Y2), m.p)
    requires SumRegisters(X4, Y4, X1 * A, X2 * A, Y1 * (X2 * A - X1 * A), Y2 - Y1, m.p)
    ensures var W := NextZ(m.x(i), m.x(j), Z); On(m, X3, Y3, i - j, W) && On(m, X4, Y4, i + j, W)
  {
    var W := NextZ(m.x(i), m.x(j), Z);
    SumOnMultiples(m, i, j, X1, Y1, X2, Y2, A, Z, X4, Y4);
    var l := DifferenceLaw(m, i, j);
    CongSub(0, 0, Y2, m.y(j) * (Z * Z * Z), m.p);
    assert 0 - m.y(j) * (Z * Z * Z) == (-m.y(j)) * (Z * Z * Z);
    SumIsChord(X1, Y1, X2, -Y2, m.x(i), m.y(i), m.x(j), -m.y(j), l, A, Z, X3, Y3, m.p);
    RepCong(X3, Y3, ChordX(m.x(i), m.x(j), l), ChordY(m.x(i), m.y(i), m.x(j), l), m.x(i - j), m.y(i - j), W, m.p);
  }

  lemma SumOnMultiples(m: Multiples, i: int, j: int, X1: int, Y1: int, X2: int, Y2: int, A: int, Z: int, X3: int, Y3: int)
    requires m.Valid() && m.Finite(i) && m.Finite(j) && m.Finite(i - j) && m.Finite(i + j)
    requires On(m, X1, Y1, i, Z) && On(m, X2, Y2, j, Z) && Cong(A, (X2 - X1) * (X2 - X1), m.p)
    requires SumRegisters(X3, Y3, X1 * A, X2 * A, Y1 * (X2 * A - X1 * A), Y2 - Y1, m.p)
    ensures On(m, X3, Y3, i + j, NextZ(m.x(i), m.x(j), Z))
  {
    var W := NextZ(m.x(i), m.x(j), Z);
    var l := ChordExists(m, i, j);
    SumIsChord(X1, Y1, X2, Y2, m.x(i), m.y(i), m.x(j), m.y(j), l, A, Z, X3, Y3, m.p);
    RepCong(X3, Y3, ChordX(m.x(i), m.x(j), l), ChordY(m.x(i), m.y(i), m.x(j), l), m.x(i + j), m.y(i + j), W, m.p);
  }

  /** XYcZ_add on i P and j P: i P again and the sum, for the next Z. */
  lemma AddOnMultiples(m: Multiples, i: int, j: int, X1: int, Y1: int, X2: int, Y2: int, Z: int,
                       X3: int, Y3: int, X4: int, Y4: int)
    requires m.Valid() && m.Finite(i) && m.Finite(j) && m.Finite(i - j) && m.Finite(i + j)
    requires On(m, X1, Y1, i, Z) && On(m, X2, Y2, j, Z)
    requires var A := (X2 - X1) * (X2 - X1); var B, C := X1 * A, X2 * A; var E := Y1 * (C - B);
      && Cong(X3, B, m.p) && Cong(Y3, E, m.p) && SumRegisters(X4, Y4, B, C, E, Y2 - Y1, m.p)
    ensures var W := NextZ(m.x(i), m.x(j), Z); On(m, X3, Y3, i, W) && On(m, X4, Y4, i + j, W)
  {
    var A := (X2 - X1) * (X2 - X1);
    ScaledRegisters(X1, Y1, X2, m.x(i), m.y(i), m.x(j), A, Z, m.p);
    SumOnMultiples(m, i, j, X1, Y1, X2, Y2, A, Z, X4, Y4);
  }

  lemma TwiceFinite(m: Multiples, k: int)
    requires 0 < m.order && m.order % 2 == 1 && m.Finite(k)
    ensures m.Finite(2 * k)
  {
    if (2 * k) % m.order == 0 {
      CancelTwo(k, 0, m.order);
    }
  }

  lemma OneFinite(m: Multiples)
    requires 3 <= m.order
    ensures m.Finite(1) && m.Finite(-1) && m.Finite(2)
  {
    DivModUnique(1, m.order, 0, 1);
    DivModUnique(2, m.order, 0, 2);
    NegationIsFinite(m, 1);
  }
}
