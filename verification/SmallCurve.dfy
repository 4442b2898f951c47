/** The laws that the ladder assumes of the multiples of a point, met by a curve that is
    small enough to write down: y^2 = x^3 + 3 x + 2 over the field of 5 elements, whose five
    points are the multiples of P = (1, 1). */
module SmallCurve {
  import opened Arith
  import opened PrimeField
  import opened VliInv
  import opened CoZ
  import opened Ladder
  import opened EccPoint

  function XOf(i: int): int {
    if i % 5 == 1 || i % 5 == 4 then 1 else 2
  }

  function YOf(i: int): int {
    if i % 5 == 1 || i % 5 == 2 then 1 else 4
  }

  function Curve(): Multiples {
    Multiples(5, 5, i => XOf(i), i => YOf(i))
  }

  lemma FiveIsPrime()
    ensures IsPrime(5)
  {
    forall d: nat | Divides(d, 5) ensures d == 1 || d == 5 {
      if d > 5 {
        DivModUnique(5, d, 0, 5);
      }
    }
  }

  lemma OnlyResidue(l: int, c: int, x1: int, y1: int, x2: int)
    requires Cong(l, c, 5)
    ensures Cong(ChordX(x1, x2, l), ChordX(x1, x2, c), 5) && Cong(ChordY(x1, y1, x2, l), ChordY(x1, y1, x2, c), 5)
  {
    CongMul(l, c, l, c, 5);
    CongSub(l * l, c * c, x1, x1, 5);
    CongSub(l * l - x1, c * c - x1, x2, x2, 5);
    CongSub(x1, x1, ChordX(x1, x2, l), ChordX(x1, x2, c), 5);
    CongMul(l, c, x1 - ChordX(x1, x2, l), x1 - ChordX(x1, x2, c), 5);
    CongSub(l * (x1 - ChordX(x1, x2, l)), c * (x1 - ChordX(x1, x2, c)), y1, y1, 5);
  }

  lemma Chord(i: int, j: int, l: int)
    requires i % 5 != 0 && j % 5 != 0 && !Cong(XOf(i), XOf(j), 5)
    requires Cong(l * (XOf(j) - XOf(i)), YOf(j) - YOf(i), 5)
    ensures Cong(XOf(i + j), ChordX(XOf(i), XOf(j), l), 5)
    ensures Cong(YOf(i + j), ChordY(XOf(i), YOf(i), XOf(j), l), 5)
  {
    var d := XOf(j) - XOf(i);
    var c := (YOf(j) - YOf(i)) * d;
    assert d == 1 || d == -1;
    assert Cong(l, c, 5) by {
      CongMul(l * d, YOf(j) - YOf(i), d, d, 5);
      assert (l * d) * d == l;
    }
    OnlyResidue(l, c, XOf(i), YOf(i), XOf(j));
    SumResidue(i, j);
    ChordOfResidues(i % 5, j % 5);
  }

  lemma SumResidue(i: int, j: int)
    ensures (i + j) % 5 == (i % 5 + j % 5) % 5
  {
  }

  lemma ChordOfResidues(i: int, j: int)
    requires 0 < i < 5 && 0 < j < 5 && XOf(i) != XOf(j)
    ensures var c := (YOf(j) - YOf(i)) * (XOf(j) - XOf(i));
      Cong(XOf(i + j), ChordX(XOf(i), XOf(j), c), 5) && Cong(YOf(i + j), ChordY(XOf(i), YOf(i), XOf(j), c), 5)
  {
  }

  lemma ChordLawHolds()
    ensures Curve().ChordLaw()
  {
    var m := Curve();
    forall i, j, l | m.Finite(i) && m.Finite(j) && m.Slope(i, j, l)
      ensures Cong(m.x(i + j), ChordX(m.x(i), m.x(j), l), 5) && Cong(m.y(i + j), ChordY(m.x(i), m.y(i), m.x(j), l), 5)
    {
      Chord(i, j, l);
    }
  }

  lemma Opposite(i: int)
    requires i % 5 != 0
    ensures XOf(-i) == XOf(i) && Cong(YOf(-i), -YOf(i), 5)
  {
  }

  lemma NegationLawHolds()
    ensures Curve().NegationLaw()
  {
    var m := Curve();
    forall i | m.Finite(i) ensures m.Opposes(i) {
      Opposite(i);
    }
  }

  lemma SameXAgain(i: int, j: int)
    requires i % 5 != 0 && j % 5 != 0 && Cong(XOf(i), XOf(j), 5)
    ensures (i - j) % 5 == 0 || (i + j) % 5 == 0
  {
  }

  lemma OrderLawHolds()
    ensures Curve().OrderLaw()
  {
    var m := Curve();
    forall i, j | m.Finite(i) && m.Finite(j) && m.SameX(i, j) ensures !m.Finite(i - j) || !m.Finite(i + j) {
      SameXAgain(i, j);
    }
    forall i, j | m.Finite(i) && !m.Finite(i - j) ensures m.SamePoint(i, j) {
      assert i % 5 == j % 5;
    }
  }

  lemma LawsHold()
    ensures Curve().Valid() && Curve().order == 5
  {
    FiveIsPrime();
    ChordLawHolds();
    NegationLawHolds();
    OrderLawHolds();
  }

  /** A doubling of P in co-Z coordinates: 2 P = (2, 1). */
  function DoubleP(X: nat, Y: nat, Z: nat): (nat, nat, nat) {
    ((2 * Z * Z) % 5, (Z * Z * Z) % 5, Z % 5)
  }

  /** So there is a doubling routine as the ladder assumes it. */
  lemma DoublingExists()
    ensures Doubles(Curve(), DoubleP)
  {
    var m := Curve();
    forall X: nat, Y: nat, Z: nat | On(m, X, Y, 1, Z) && !Cong(Z, 0, m.p) ensures IsDouble(m, DoubleP(X, Y, Z)) {
      DoubleOf(Z);
    }
  }

  lemma DoubleOf(Z: nat)
    requires !Cong(Z, 0, 5)
    ensures var r := DoubleP(0, 0, Z); Rep(r.0, r.1, 2, 1, r.2, 5) && !Cong(r.2, 0, 5)
  {
    var z := Z % 5;
    CongMod(Z, 5);
    CongMod(2 * Z * Z, 5);
    CongMod(Z * Z * Z, 5);
    CongMul(z, Z, z, Z, 5);
    CongMul(2, 2, z * z, Z * Z, 5);
    CongMul(z * z, Z * Z, z, Z, 5);
    assert 2 * (Z * Z) == 2 * Z * Z && 2 * (z * z) == (z * z) * 2 && (Z * Z) * Z == Z * Z * Z;
  }
}
