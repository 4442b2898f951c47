/** The two co-Z point operations of the Montgomery ladder: what their register programs
    compute as polynomials, and that these polynomials are the chord construction on the
    affine points, with a common new Z. */
module CoZ {
  import opened Arith
  import opened Words
  import opened Vli
  import opened PrimeField
  import opened FieldWords

  /** (X, Y) are co-Z coordinates, for Z, of the affine point (x, y). */
  ghost predicate Rep(X: int, Y: int, x: int, y: int, Z: int, p: nat)
    requires 0 < p
  {
    Cong(X, x * (Z * Z), p) && Cong(Y, y * (Z * Z * Z), p)
  }

  /** The third intersection of a line of slope `l` through (x1, y1) and a point above x2,
      reflected. */
  function ChordX(x1: int, x2: int, l: int): int {
    l * l - x1 - x2
  }

  function ChordY(x1: int, y1: int, x2: int, l: int): int {
    l * (x1 - ChordX(x1, x2, l)) - y1
  }

  /** The common Z after an operation on points above x1 and x2. */
  function NextZ(x1: int, x2: int, Z: int): int {
    (x2 - x1) * (Z * Z * Z)
  }

  /** (x1, y1) => (x1 z^2, y1 z^3), in place. */
  method ApplyZ(X1: array<Word>, Y1: array<Word>, z: array<Word>, mod: array<Word>, n: nat)
    requires Modulus(mod, n) && Element(X1, mod, n) && Element(Y1, mod, n) && Element(z, mod, n)
    requires X1 != Y1 && z != X1 && z != Y1
    modifies X1, Y1
    ensures Element(X1, mod, n) && Element(Y1, mod, n)
    ensures Rep(Num(X1, n), Num(Y1, n), old(Num(X1, n)), old(Num(Y1, n)), Num(z, n), Num(mod, n))
  {
    hide FMul, Modulus, Num, Rep;
    ApplyProgramMeans(Num(X1, n), Num(Y1, n), Num(z, n), Num(mod, n));
    var t1 := new Word[n];
    FieldSquare(t1, z, mod, n);
    FieldMult(X1, X1, t1, mod, n);
    FieldMult(t1, t1, z, mod, n);
    FieldMult(Y1, Y1, t1, mod, n);
  }

  lemma ApplyProgramMeans(x: int, y: int, z: int, p: nat)
    requires 0 < p
    ensures var t := FMul(z, z, p); Rep(FMul(x, t, p), FMul(y, FMul(t, z, p), p), x, y, z, p)
  {
    hide FMul;
    var t := FMul(z, z, p);
    MulC(z, z, z, z, p);
    MulC(x, x, t, z * z, p);
    MulC(t, z * z, z, z, p);
    MulC(y, y, FMul(t, z, p), z * z * z, p);
  }

  /** The values the registers of XYcZ_add hold at the end: A = (x2 - x1)^2, B = x1 A,
      C = x2 A, and the slope register e = y2 - y1. */
  ghost predicate SumRegisters(X: int, Y: int, B: int, C: int, E: int, e: int, p: nat)
    requires 0 < p
  {
    Cong(X, e * e - B - C, p) && Cong(Y, e * (B - (e * e - B - C)) - E, p)
  }

  /** The contents of the registers of a point operation. */
  datatype Registers = Registers(X1: int, Y1: int, X2: int, Y2: int)

  ghost function Holding(X1: array<Word>, Y1: array<Word>, X2: array<Word>, Y2: array<Word>, n: nat): Registers
    requires n <= X1.Length && n <= Y1.Length && n <= X2.Length && n <= Y2.Length
    reads X1, Y1, X2, Y2
  {
    Registers(Num(X1, n), Num(Y1, n), Num(X2, n), Num(Y2, n))
  }

  /** Registers for one operation: different arrays, all apart from the modulus. */
  ghost predicate Apart(X1: array<Word>, Y1: array<Word>, X2: array<Word>, Y2: array<Word>, sub: array<Word>) {
    X1 != Y1 && X1 != X2 && X1 != Y2 && Y1 != X2 && Y1 != Y2 && X2 != Y2 && sub != X1 && sub != Y1 && sub != X2 && sub != Y2
  }

  ghost predicate Elements(X1: array<Word>, Y1: array<Word>, X2: array<Word>, Y2: array<Word>, mod: array<Word>, n: nat)
    reads X1, Y1, X2, Y2, mod
  {
    Element(X1, mod, n) && Element(Y1, mod, n) && Element(X2, mod, n) && Element(Y2, mod, n)
  }

  /** What XYcZ_add makes of its registers: A = (x2 - x1)^2, B = x1 A, C = x2 A, and so on. */
  function SumProgram(r: Registers, p: nat): Registers
    requires 0 < p
  {
    var d := FSub(r.X2, r.X1, p);
    var A := FMul(d, d, p);
    var B, C := FMul(r.X1, A, p), FMul(r.X2, A, p);
    var e := FSub(r.Y2, r.Y1, p);
    var x3 := FSub(FSub(FMul(e, e, p), B, p), C, p);
    var E := FMul(r.Y1, FSub(C, B, p), p);
    Registers(B, E, x3, FSub(FMul(e, FSub(B, x3, p), p), E, p))
  }

  /** Lines 804-812: B, y1, C and the slope e in the registers, x3 in t5. */
  method SumUpToX(X1: array<Word>, Y1: array<Word>, X2: array<Word>, Y2: array<Word>, t5: array<Word>,
                  mod: array<Word>, n: nat)
    requires Modulus(mod, n) && Elements(X1, Y1, X2, Y2, mod, n) && Apart(X1, Y1, X2, Y2, t5)
    requires t5.Length == n && t5 != mod
    modifies X1, X2, Y2, t5
    ensures Elements(X1, Y1, X2, Y2, mod, n) && Element(t5, mod, n)
    ensures var r, p := old(Holding(X1, Y1, X2, Y2, n)), Num(mod, n); var d := FSub(r.X2, r.X1, p); var A := FMul(d, d, p);
      Holding(X1, Y1, X2, Y2, n) == Registers(FMul(r.X1, A, p), r.Y1, FMul(r.X2, A, p), FSub(r.Y2, r.Y1, p))
    ensures var r, p := Holding(X1, Y1, X2, Y2, n), Num(mod, n);
      Num(t5, n) == FSub(FSub(FMul(r.Y2, r.Y2, p), r.X1, p), r.X2, p)
  {
    hide FSub, FMul, FAdd, Modulus, Num;
    FieldSub(t5, X2, X1, mod, n);
    FieldSquare(t5, t5, mod, n);
    FieldMult(X1, X1, t5, mod, n);
    FieldMult(X2, X2, t5, mod, n);
    FieldSub(Y2, Y2, Y1, mod, n);
    FieldSquare(t5, Y2, mod, n);
    FieldSub(t5, t5, X1, mod, n);
    FieldSub(t5, t5, X2, mod, n);
  }

  /** Lines 804-819, in place. */
  method XYcZAdd(X1: array<Word>, Y1: array<Word>, X2: array<Word>, Y2: array<Word>, sub: array<Word>,
                 mod: array<Word>, n: nat)
    requires Modulus(mod, n) && Elements(X1, Y1, X2, Y2, mod, n) && Apart(X1, Y1, X2, Y2, sub)
    requires sub.Length == n && sub != mod
    modifies X1, Y1, X2, Y2, sub
    ensures Elements(X1, Y1, X2, Y2, mod, n) && Element(sub, mod, n)
    ensures Holding(X1, Y1, X2, Y2, n) == SumProgram(old(Holding(X1, Y1, X2, Y2, n)), Num(mod, n))
    ensures Num(sub, n) == FSub(Num(X1, n), Num(X2, n), Num(mod, n))
  {
    hide FSub, FMul, FAdd, Modulus, Num;
    var t5 := new Word[n];
    SumUpToX(X1, Y1, X2, Y2, t5, mod, n);
    FieldSub(X2, X2, X1, mod, n);
    FieldMult(Y1, Y1, X2, mod, n);
    FieldSub(sub, X1, t5, mod, n);
    FieldMult(Y2, Y2, sub, mod, n);
    FieldSub(Y2, Y2, Y1, mod, n);
    Copy(X2, t5, n);
  }

  /** The sum in the second pair; the first keeps its point, under the new Z. */
  lemma SumProgramMeans(r: Registers, p: nat)
    requires 0 < p
    ensures var A := (r.X2 - r.X1) * (r.X2 - r.X1); var B, C := r.X1 * A, r.X2 * A; var E := r.Y1 * (C - B);
      var s := SumProgram(r, p);
      && Cong(s.X1, B, p) && Cong(s.Y1, E, p) && SumRegisters(s.X2, s.Y2, B, C, E, r.Y2 - r.Y1, p)
  {
    hide FSub, FMul, Cong;
    var d, e := r.X2 - r.X1, r.Y2 - r.Y1;
    var A, D := d * d, e * e;
    var B, C := r.X1 * A, r.X2 * A;
    var E := r.Y1 * (C - B);
    Itself(r, p);
    var d' := FSub(r.X2, r.X1, p);
    SubC(r.X2, r.X2, r.X1, r.X1, p);
    MulC(d', d, d', d, p);
    var A' := FMul(d', d', p);
    MulC(r.X1, r.X1, A', A, p);
    MulC(r.X2, r.X2, A', A, p);
    var B', C' := FMul(r.X1, A', p), FMul(r.X2, A', p);
    var e' := FSub(r.Y2, r.Y1, p);
    SubC(r.Y2, r.Y2, r.Y1, r.Y1, p);
    MulC(e', e, e', e, p);
    SubC(FMul(e', e', p), D, B', B, p);
    SubC(FSub(FMul(e', e', p), B', p), D - B, C', C, p);
    var x3 := FSub(FSub(FMul(e', e', p), B', p), C', p);
    SubC(C', C, B', B, p);
    MulC(r.Y1, r.Y1, FSub(C', B', p), C - B, p);
    SubC(B', B, x3, D - B - C, p);
    MulC(e', e, FSub(B', x3, p), B - (D - B - C), p);
    SubC(FMul(e', FSub(B', x3, p), p), e * (B - (D - B - C)), FMul(r.Y1, FSub(C', B', p), p), E, p);
  }

  lemma Itself(r: Registers, p: nat)
    requires 0 < p
    ensures Cong(r.X1, r.X1, p) && Cong(r.Y1, r.Y1, p) && Cong(r.X2, r.X2, p) && Cong(r.Y2, r.Y2, p)
  {
  }

  /** What XYcZ_addC makes of its registers, given the difference `sub` of their X. */
  function DifferenceProgram(r: Registers, sub: int, p: nat): Registers
    requires 0 < p
  {
    var h, t := SumFirst(r, sub, p), SumOfX(r, sub, p);
    var f := FAdd(r.Y2, r.Y1, p);
    var x3 := FSub(FMul(f, f, p), t, p);
    Registers(x3, FSub(FMul(FSub(x3, h.X1, p), f, p), h.Y1, p), h.X2, h.Y2)
  }

  /** Halfway: B, E and the sum. */
  function SumFirst(r: Registers, sub: int, p: nat): Registers
    requires 0 < p
  {
    var A := FMul(sub, sub, p);
    var B, C := FMul(r.X1, A, p), FMul(r.X2, A, p);
    var e := FSub(r.Y2, r.Y1, p);
    var E := FMul(r.Y1, FSub(C, B, p), p);
    var x3 := FSub(FMul(e, e, p), FAdd(B, C, p), p);
    Registers(B, E, x3, FSub(FMul(e, FSub(B, x3, p), p), E, p))
  }

  /** B + C. */
  function SumOfX(r: Registers, sub: int, p: nat): int
    requires 0 < p
  {
    var A := FMul(sub, sub, p);
    FAdd(FMul(r.X1, A, p), FMul(r.X2, A, p), p)
  }

  /** Lines 838-852, with f = y2 + y1 left in t5 and B + C in t6. */
  method AddSumFirst(X1: array<Word>, Y1: array<Word>, X2: array<Word>, Y2: array<Word>, sub: array<Word>,
                     t5: array<Word>, t6: array<Word>, mod: array<Word>, n: nat)
    requires Modulus(mod, n) && Elements(X1, Y1, X2, Y2, mod, n) && Apart(X1, Y1, X2, Y2, sub)
    requires Element(sub, mod, n) && t5.Length == t6.Length == n && t5 != mod && t6 != mod
    requires t5 != t6 && Apart(X1, Y1, X2, Y2, t5) && Apart(X1, Y1, X2, Y2, t6) && sub != t5 && sub != t6
    modifies X1, Y1, X2, Y2, t5, t6
    ensures Elements(X1, Y1, X2, Y2, mod, n) && Element(t5, mod, n) && Element(t6, mod, n)
    ensures Holding(X1, Y1, X2, Y2, n) == SumFirst(old(Holding(X1, Y1, X2, Y2, n)), Num(sub, n), Num(mod, n))
    ensures Num(t5, n) == FAdd(old(Num(Y2, n)), old(Num(Y1, n)), Num(mod, n))
    ensures Num(t6, n) == SumOfX(old(Holding(X1, Y1, X2, Y2, n)), Num(sub, n), Num(mod, n))
  {
    hide FSub, FMul, FAdd, Modulus, Num;
    FieldSquare(t5, sub, mod, n);
    FieldMult(X1, X1, t5, mod, n);
    FieldMult(X2, X2, t5, mod, n);
    FieldAdd(t5, Y2, Y1, mod, n);
    FieldSub(Y2, Y2, Y1, mod, n);
    FieldSub(t6, X2, X1, mod, n);
    FieldMult(Y1, Y1, t6, mod, n);
    FieldAdd(t6, X1, X2, mod, n);
    FieldSquare(X2, Y2, mod, n);
    FieldSub(X2, X2, t6, mod, n);
    var t7 := new Word[n];
    FieldSub(t7, X1, X2, mod, n);
    FieldMult(Y2, Y2, t7, mod, n);
    FieldSub(Y2, Y2, Y1, mod, n);
  }

  /** Lines 854-860: the difference, from f in t5 and B + C in t6. */
  method SubtractLast(X1: array<Word>, Y1: array<Word>, t5: array<Word>, t6: array<Word>, mod: array<Word>, n: nat)
    requires Modulus(mod, n) && Element(X1, mod, n) && Element(Y1, mod, n) && Element(t5, mod, n) && Element(t6, mod, n)
    requires X1 != Y1 && t5 != X1 && t5 != Y1 && t6 != X1 && t6 != Y1 && t5 != t6
    modifies X1, Y1, t6
    ensures Element(X1, mod, n) && Element(Y1, mod, n)
    ensures var p, f := Num(mod, n), Num(t5, n); var x3 := FSub(FMul(f, f, p), old(Num(t6, n)), p);
      Num(X1, n) == x3 && Num(Y1, n) == FSub(FMul(FSub(x3, old(Num(X1, n)), p), f, p), old(Num(Y1, n)), p)
  {
    hide FSub, FMul, FAdd, Modulus, Num;
    var t7 := new Word[n];
    FieldSquare(t7, t5, mod, n);
    FieldSub(t7, t7, t6, mod, n);
    FieldSub(t6, t7, X1, mod, n);
    FieldMult(t6, t6, t5, mod, n);
    FieldSub(Y1, t6, Y1, mod, n);
    Copy(X1, t7, n);
  }

  /** Lines 838-860, in place. */
  method XYcZAddC(X1: array<Word>, Y1: array<Word>, X2: array<Word>, Y2: array<Word>, sub: array<Word>,
                  mod: array<Word>, n: nat)
    requires Modulus(mod, n) && Elements(X1, Y1, X2, Y2, mod, n) && Apart(X1, Y1, X2, Y2, sub)
    requires Element(sub, mod, n)
    modifies X1, Y1, X2, Y2
    ensures Elements(X1, Y1, X2, Y2, mod, n)
    ensures Holding(X1, Y1, X2, Y2, n) == DifferenceProgram(old(Holding(X1, Y1, X2, Y2, n)), Num(sub, n), Num(mod, n))
  {
    hide FSub, FMul, FAdd, Modulus, Num, SumFirst, SumOfX;
    var t5, t6 := new Word[n], new Word[n];
    AddSumFirst(X1, Y1, X2, Y2, sub, t5, t6, mod, n);
    SubtractLast(X1, Y1, t5, t6, mod, n);
  }

  /** The difference in the first pair, the sum in the second. */
  lemma DifferenceProgramMeans(r: Registers, sub: int, p: nat)
    requires 0 < p
    ensures var A := sub * sub; var B, C := r.X1 * A, r.X2 * A; var E := r.Y1 * (C - B);
      var s := DifferenceProgram(r, sub, p);
      && SumRegisters(s.X1, s.Y1, B, C, E, -(r.Y1 + r.Y2), p)
      && SumRegisters(s.X2, s.Y2, B, C, E, r.Y2 - r.Y1, p)
  {
    hide FSub, FMul, FAdd, Cong;
    var A, e, f := sub * sub, r.Y2 - r.Y1, r.Y2 + r.Y1;
    var B, C := r.X1 * A, r.X2 * A;
    var E, D, F := r.Y1 * (C - B), e * e, f * f;
    Itself(r, p);
    Itself(Registers(sub, sub, sub, sub), p);
    MulC(sub, sub, sub, sub, p);
    var A' := FMul(sub, sub, p);
    MulC(r.X1, r.X1, A', A, p);
    MulC(r.X2, r.X2, A', A, p);
    var B', C' := FMul(r.X1, A', p), FMul(r.X2, A', p);
    AddC(r.Y2, r.Y2, r.Y1, r.Y1, p);
    SubC(r.Y2, r.Y2, r.Y1, r.Y1, p);
    var f', e' := FAdd(r.Y2, r.Y1, p), FSub(r.Y2, r.Y1, p);
    SubC(C', C, B', B, p);
    MulC(r.Y1, r.Y1, FSub(C', B', p), C - B, p);
    var E' := FMul(r.Y1, FSub(C', B', p), p);
    AddC(B', B, C', C, p);
    MulC(e', e, e', e, p);
    SubC(FMul(e', e', p), D, FAdd(B', C', p), B + C, p);
    var x3 := FSub(FMul(e', e', p), FAdd(B', C', p), p);
    SubC(B', B, x3, D - (B + C), p);
    MulC(e', e, FSub(B', x3, p), B - (D - (B + C)), p);
    SubC(FMul(e', FSub(B', x3, p), p), e * (B - (D - (B + C))), E', E, p);
    MulC(f', f, f', f, p);
    SubC(FMul(f', f', p), F, FAdd(B', C', p), B + C, p);
    var x3' := FSub(FMul(f', f', p), FAdd(B', C', p), p);
    SubC(x3', F - (B + C), B', B, p);
    MulC(FSub(x3', B', p), F - (B + C) - B, f', f, p);
    SubC(FMul(FSub(x3', B', p), f', p), (F - (B + C) - B) * f, E', E, p);
    NegatedSlope(f, B, C, E);
  }

  lemma NegatedSlope(f: int, B: int, C: int, E: int)
    ensures (-f) * (-f) == f * f
    ensures (f * f - (B + C) - B) * f - E == (-f) * (B - ((-f) * (-f) - B - C)) - E
  {
  }

  /** Multiplying by (x2 - x1)^2 in co-Z coordinates moves from Z to the next Z. */
  lemma ScaleX(X: int, x: int, D: int, d: int, Z: int, p: nat)
    requires 0 < p && Cong(X, x * (Z * Z), p) && Cong(D, d * (Z * Z), p)
    ensures var W := d * (Z * Z * Z); Cong(X * (D * D), x * (W * W), p)
  {
    CongMul(D, d * (Z * Z), D, d * (Z * Z), p);
    CongMul(X, x * (Z * Z), D * D, (d * (Z * Z)) * (d * (Z * Z)), p);
    PolyX(x, d, Z);
  }

  lemma PolyX(x: int, d: int, Z: int)
    ensures (x * (Z * Z)) * ((d * (Z * Z)) * (d * (Z * Z))) == x * ((d * (Z * Z * Z)) * (d * (Z * Z * Z)))
  {
  }

  lemma ScaleY(Y: int, y: int, D: int, d: int, Z: int, p: nat)
    requires 0 < p && Cong(Y, y * (Z * Z * Z), p) && Cong(D, d * (d * (Z * Z * Z)) * (d * (Z * Z * Z)), p)
    ensures var W := d * (Z * Z * Z); Cong(Y * D, y * (W * W * W), p)
  {
    var W := d * (Z * Z * Z);
    CongMul(Y, y * (Z * Z * Z), D, d * W * W, p);
    PolyY(y, d, Z * Z * Z);
  }

  lemma PolyY(y: int, d: int, c: int)
    ensures (y * c) * (d * (d * c) * (d * c)) == y * ((d * c) * (d * c) * (d * c))
  {
  }

  /** The registers B, C, E and the slope register, as multiples of powers of the next Z,
      give the chord construction. */
  lemma ChordCore(x1: int, y1: int, x2: int, l: int, W: int, B: int, C: int, E: int, e: int, p: nat)
    requires 0 < p && Cong(B, x1 * (W * W), p) && Cong(C, x2 * (W * W), p)
    requires Cong(E, y1 * (W * W * W), p) && Cong(e, l * W, p)
    ensures Rep(e * e - B - C, e * (B - (e * e - B - C)) - E, ChordX(x1, x2, l), ChordY(x1, y1, x2, l), W, p)
  {
    var x3 := ChordX(x1, x2, l);
    CongMul(e, l * W, e, l * W, p);
    CongSub(e * e, (l * W) * (l * W), B, x1 * (W * W), p);
    CongSub(e * e - B, (l * W) * (l * W) - x1 * (W * W), C, x2 * (W * W), p);
    PolyChordX(x1, x2, l, W);
    CongSub(B, x1 * (W * W), e * e - B - C, x3 * (W * W), p);
    CongMul(e, l * W, B - (e * e - B - C), x1 * (W * W) - x3 * (W * W), p);
    CongSub(e * (B - (e * e - B - C)), (l * W) * (x1 * (W * W) - x3 * (W * W)), E, y1 * (W * W * W), p);
    PolyChordY(x1, y1, x3, l, W);
  }

  lemma PolyChordX(x1: int, x2: int, l: int, W: int)
    ensures (l * W) * (l * W) - x1 * (W * W) - x2 * (W * W) == (l * l - x1 - x2) * (W * W)
  {
  }

  lemma PolyChordY(x1: int, y1: int, x3: int, l: int, W: int)
    ensures (l * W) * (x1 * (W * W) - x3 * (W * W)) - y1 * (W * W * W) == (l * (x1 - x3) - y1) * (W * W * W)
  {
  }

  /** The registers B, C and E of either operation, in terms of the affine points. */
  lemma ScaledRegisters(X1: int, Y1: int, X2: int, x1: int, y1: int, x2: int, A: int, Z: int, p: nat)
    requires 0 < p && Rep(X1, Y1, x1, y1, Z, p) && Cong(X2, x2 * (Z * Z), p)
    requires Cong(A, (X2 - X1) * (X2 - X1), p)
    ensures var W := NextZ(x1, x2, Z); var B, C := X1 * A, X2 * A;
      && Cong(B, x1 * (W * W), p) && Cong(C, x2 * (W * W), p) && Cong(Y1 * (C - B), y1 * (W * W * W), p)
  {
    var W, d, D := NextZ(x1, x2, Z), x2 - x1, X2 - X1;
    CongSub(X2, x2 * (Z * Z), X1, x1 * (Z * Z), p);
    MulDistrib(x2, x1, Z * Z);
    ScaleX(X1, x1, D, d, Z, p);
    ScaleX(X2, x2, D, d, Z, p);
    CongMul(X1, X1, A, D * D, p);
    CongMul(X2, X2, A, D * D, p);
    CongSub(X2 * A, x2 * (W * W), X1 * A, x1 * (W * W), p);
    MulDistrib(x2, x1, W * W);
    MulAssoc(d, W, W);
    ScaleY(Y1, y1, X2 * A - X1 * A, d, Z, p);
  }

  lemma ScaledSlope(Y1: int, Y2: int, x1: int, y1: int, x2: int, y2: int, l: int, Z: int, p: nat)
    requires 0 < p && Cong(Y1, y1 * (Z * Z * Z), p) && Cong(Y2, y2 * (Z * Z * Z), p)
    requires Cong(l * (x2 - x1), y2 - y1, p)
    ensures Cong(Y2 - Y1, l * NextZ(x1, x2, Z), p)
  {
    var c := Z * Z * Z;
    CongSub(Y2, y2 * c, Y1, y1 * c, p);
    MulDistrib(y2, y1, c);
    CongMul(l * (x2 - x1), y2 - y1, c, c, p);
    MulAssoc(l, x2 - x1, c);
  }

  /** Whatever satisfies the register equations represents the chord sum of the affine
      points (x1, y1) and (x2, y2), for the next Z. */
  lemma SumIsChord(X1: int, Y1: int, X2: int, Y2: int, x1: int, y1: int, x2: int, y2: int,
                   l: int, A: int, Z: int, X3: int, Y3: int, p: nat)
    requires 0 < p && Rep(X1, Y1, x1, y1, Z, p) && Rep(X2, Y2, x2, y2, Z, p)
    requires Cong(A, (X2 - X1) * (X2 - X1), p) && Cong(l * (x2 - x1), y2 - y1, p)
    requires SumRegisters(X3, Y3, X1 * A, X2 * A, Y1 * (X2 * A - X1 * A), Y2 - Y1, p)
    ensures Rep(X3, Y3, ChordX(x1, x2, l), ChordY(x1, y1, x2, l), NextZ(x1, x2, Z), p)
  {
    ScaledRegisters(X1, Y1, X2, x1, y1, x2, A, Z, p);
    ScaledSlope(Y1, Y2, x1, y1, x2, y2, l, Z, p);
    ChordCore(x1, y1, x2, l, NextZ(x1, x2, Z), X1 * A, X2 * A, Y1 * (X2 * A - X1 * A), Y2 - Y1, p);
  }
}
