/** Where the constants of SHA-256 come from: sections 4.2.2 and 5.3.3 of FIPS 180-4. */
module Sha256Constants {
  import opened Arith
  import opened VliInv
  import opened PrimeField
  import opened Sha256

  /** The primes in order, eight in a row. */
  function Prime(t: nat): (p: nat)
    requires t < 64
  {
    var row :=
      if t < 8 then [2, 3, 5, 7, 11, 13, 17, 19]
      else if t < 16 then [23, 29, 31, 37, 41, 43, 47, 53]
      else if t < 24 then [59, 61, 67, 71, 73, 79, 83, 89]
      else if t < 32 then [97, 101, 103, 107, 109, 113, 127, 131]
      else if t < 40 then [137, 139, 149, 151, 157, 163, 167, 173]
      else if t < 48 then [179, 181, 191, 193, 197, 199, 211, 223]
      else if t < 56 then [227, 229, 233, 239, 241, 251, 257, 263]
      else [269, 271, 277, 281, 283, 293, 307, 311];
    row[t % 8]
  }

  /** Below 19^2, a number is prime if none of the primes up to 17 divides it. */
  predicate Sieved(n: nat) {
    n == 2 || n == 3 || n == 5 || n == 7 || n == 11 || n == 13 || n == 17
    || (n % 2 != 0 && n % 3 != 0 && n % 5 != 0 && n % 7 != 0 && n % 11 != 0 && n % 13 != 0 && n % 17 != 0)
  }

  lemma SmallFactor(x: nat)
    requires 2 <= x < 19
    ensures exists q :: q in [2, 3, 5, 7, 11, 13, 17] && x % q == 0
  {
    var q := if x % 2 == 0 then 2 else if x % 3 == 0 then 3 else x;
    assert q in [2, 3, 5, 7, 11, 13, 17] && x % q == 0;
  }

  lemma Struck(n: nat, q: nat)
    requires q in [2, 3, 5, 7, 11, 13, 17] && q < n && n % q == 0
    ensures !Sieved(n)
  {
  }

  lemma FactorsAbove1(n: nat, d: nat, e: int)
    requires 2 <= n == d * e && d != 1 && d != n
    ensures 2 <= d && 2 <= e
  {
    if e <= 0 {
      MulMono(e, 0, d);
    }
  }

  lemma SmallFactorStrikes(n: nat, x: nat, y: nat)
    requires n == x * y && 2 <= x < 19 && 2 <= y
    ensures !Sieved(n)
  {
    hide Sieved;
    SmallFactor(x);
    var q :| q in [2, 3, 5, 7, 11, 13, 17] && x % q == 0;
    DividesProduct(q, x, y);
    MulMono(2, y, x);
    Struck(n, q);
  }

  /** `n` has a divisor other than itself and 1. */
  lemma NotSieved(n: nat, d: nat)
    requires 2 <= n < 361 && Divides(d, n) && d != 1 && d != n
    ensures !Sieved(n)
  {
    hide Sieved;
    var e := n / d;
    assert n == d * e;
    FactorsAbove1(n, d, e);
    if d < 19 {
      SmallFactorStrikes(n, d, e);
    } else {
      MulMono(19, d, e);
      SmallFactorStrikes(n, e, d);
    }
  }

  lemma SievedIsPrime(n: nat)
    requires 2 <= n < 361
    ensures Sieved(n) <==> IsPrime(n)
  {
    if Sieved(n) {
      forall d: nat | Divides(d, n) ensures d == 1 || d == n {
        if d != 1 && d != n {
          NotSieved(n, d);
        }
      }
    } else {
      var q :| q in [2, 3, 5, 7, 11, 13, 17] && n % q == 0;
      assert Divides(q, n);
    }
  }

  predicate NoneSieved(a: nat, b: nat)
    decreases b - a
  {
    a < b ==> !Sieved(a) && NoneSieved(a + 1, b)
  }

  lemma {:induction false} NotBetween(n: nat, a: nat, b: nat)
    requires a <= n < b && NoneSieved(a, b)
    ensures !Sieved(n)
    decreases b - a
  {
    hide Sieved;
    if a < n {
      NotBetween(n, a + 1, b);
    }
  }

  /** The first number of the list after prime `t`, or the end of the list. */
  function Next(t: nat): nat
    requires t < 64
  {
    if t == 63 then 312 else Prime(t + 1)
  }

  /** Number `t` of the list is sieved, and no other number up to the next one is. */
  predicate NextToIt(t: nat)
    requires t < 64
  {
    Prime(t) < Next(t) && Sieved(Prime(t)) && NoneSieved(Prime(t) + 1, Next(t))
  }

  lemma Gap(t: nat, p: nat, a: nat, q: nat)
    requires t < 64 && Prime(t) == p && a == p + 1 && q == Next(t) && p < q
    requires Sieved(p) && NoneSieved(a, q)
    ensures NextToIt(t)
  {
  }

  lemma Gaps0()
    ensures forall t :: 0 <= t < 8 ==> NextToIt(t)
  {
    hide NextToIt;
    Gap(0, 2, 3, 3);
    Gap(1, 3, 4, 5);
    Gap(2, 5, 6, 7);
    Gap(3, 7, 8, 11);
    Gap(4, 11, 12, 13);
    Gap(5, 13, 14, 17);
    Gap(6, 17, 18, 19);
    Gap(7, 19, 20, 23);
  }

  lemma Gaps1()
    ensures forall t :: 8 <= t < 16 ==> NextToIt(t)
  {
    hide NextToIt;
    Gap(8, 23, 24, 29);
    Gap(9, 29, 30, 31);
    Gap(10, 31, 32, 37);
    Gap(11, 37, 38, 41);
    Gap(12, 41, 42, 43);
    Gap(13, 43, 44, 47);
    Gap(14, 47, 48, 53);
    Gap(15, 53, 54, 59);
  }

  lemma Gaps2()
    ensures forall t :: 16 <= t < 24 ==> NextToIt(t)
  {
    hide NextToIt;
    Gap(16, 59, 60, 61);
    Gap(17, 61, 62, 67);
    Gap(18, 67, 68, 71);
    Gap(19, 71, 72, 73);
    Gap(20, 73, 74, 79);
    Gap(21, 79, 80, 83);
    Gap(22, 83, 84, 89);
    Gap(23, 89, 90, 97);
  }

  lemma Gaps3()
    ensures forall t :: 24 <= t < 32 ==> NextToIt(t)
  {
    hide NextToIt;
    Gap(24, 97, 98, 101);
    Gap(25, 101, 102, 103);
    Gap(26, 103, 104, 107);
    Gap(27, 107, 108, 109);
    Gap(28, 109, 110, 113);
    Gap(29, 113, 114, 127);
    Gap(30, 127, 128, 131);
    Gap(31, 131, 132, 137);
  }

  lemma Gaps4()
    ensures forall t :: 32 <= t < 40 ==> NextToIt(t)
  {
    hide NextToIt;
    Gap(32, 137, 138, 139);
    Gap(33, 139, 140, 149);
    Gap(34, 149, 150, 151);
    Gap(35, 151, 152, 157);
    Gap(36, 157, 158, 163);
    Gap(37, 163, 164, 167);
    Gap(38, 167, 168, 173);
    Gap(39, 173, 174, 179);
  }

  lemma Gaps5()
    ensures forall t :: 40 <= t < 48 ==> NextToIt(t)
  {
    hide NextToIt;
    Gap(40, 179, 180, 181);
    Gap(41, 181, 182, 191);
    Gap(42, 191, 192, 193);
    Gap(43, 193, 194, 197);
    Gap(44, 197, 198, 199);
    Gap(45, 199, 200, 211);
    Gap(46, 211, 212, 223);
    Gap(47, 223, 224, 227);
  }

  lemma Gaps6()
    ensures forall t :: 48 <= t < 56 ==> NextToIt(t)
  {
    hide NextToIt;
    Gap(48, 227, 228, 229);
    Gap(49, 229, 230, 233);
    Gap(50, 233, 234, 239);
    Gap(51, 239, 240, 241);
    Gap(52, 241, 242, 251);
    Gap(53, 251, 252, 257);
    Gap(54, 257, 258, 263);
    Gap(55, 263, 264, 269);
  }

  lemma Gaps7()
    ensures forall t :: 56 <= t < 64 ==> NextToIt(t)
  {
    hide NextToIt;
    Gap(56, 269, 270, 271);
    Gap(57, 271, 272, 277);
    Gap(58, 277, 278, 281);
    Gap(59, 281, 282, 283);
    Gap(60, 283, 284, 293);
    Gap(61, 293, 294, 307);
    Gap(62, 307, 308, 311);
    Gap(63, 311, 312, 312);
  }

  /** Every sieved number below the number after `t` is in the list, up to place `t`. */
  lemma {:induction false} InList(n: nat, t: nat)
    requires t < 64 && 2 <= n < Next(t) && Sieved(n) && forall u :: 0 <= u < 64 ==> NextToIt(u)
    ensures exists u :: 0 <= u <= t && Prime(u) == n
  {
    hide Sieved, NoneSieved;
    if n < Prime(t) {
      assert Prime(0) == 2;
      InList(n, t - 1);
    } else if Prime(t) < n {
      assert NextToIt(t);
      NotBetween(n, Prime(t) + 1, Next(t));
    }
  }

  lemma {:induction false} Ascending(t: nat, u: nat)
    requires t < u < 64 && forall v :: 0 <= v < 64 ==> NextToIt(v)
    ensures Prime(t) < Prime(u)
  {
    hide Prime, Sieved, NoneSieved;
    assert NextToIt(u - 1);
    if t < u - 1 {
      Ascending(t, u - 1);
    }
  }

  /** Exactly the primes below 312, in order: the first 64 primes. */
  lemma FirstPrimes()
    ensures forall t :: 0 <= t < 64 ==> 2 <= Prime(t) < 312 && IsPrime(Prime(t))
    ensures forall t, u :: 0 <= t < u < 64 ==> Prime(t) < Prime(u)
    ensures forall n :: 0 <= n < 312 && IsPrime(n) ==> exists t :: 0 <= t < 64 && Prime(t) == n
  {
    Gaps0();
    Gaps1();
    Gaps2();
    Gaps3();
    Gaps4();
    Gaps5();
    Gaps6();
    Gaps7();
    assert Prime(0) == 2;
    hide Prime, Sieved, NoneSieved;
    forall t, u | 0 <= t < u < 64
      ensures Prime(t) < Prime(u)
    {
      Ascending(t, u);
    }
    forall t | 0 <= t < 64
      ensures 2 <= Prime(t) < 312 && IsPrime(Prime(t))
    {
      assert NextToIt(t) && NextToIt(63);
      SievedIsPrime(Prime(t));
    }
    forall n: nat | n < 312 && IsPrime(n)
      ensures exists t :: 0 <= t < 64 && Prime(t) == n
    {
      SievedIsPrime(n);
      InList(n, 63);
    }
  }

  function Cube(x: int): int {
    x * x * x
  }

  function Square(x: int): int {
    x * x
  }

  /** `r` is the cube root of `p` in units of 2^-32, rounded down. */
  predicate IsCubeRoot(r: nat, p: nat) {
    Cube(r) <= p * 0x1_0000_0000_0000_0000_0000_0000 < Cube(r + 1)
  }

  /** `r` is the square root of `p` in units of 2^-32, rounded down. */
  predicate IsSquareRoot(r: nat, p: nat) {
    Square(r) <= p * 0x1_0000_0000_0000_0000 < Square(r + 1)
  }

  /** `x` is the first 32 bits of the fraction of `r`. */
  predicate IsFraction(x: bv32, r: nat) {
    x as nat == r % 0x1_0000_0000
  }

  /** Round constant `t` comes from prime `t`. */
  ghost predicate IsKey(t: nat)
    requires t < 64
  {
    exists r: nat :: IsCubeRoot(r, Prime(t)) && IsFraction(K[t], r)
  }

  lemma Key(t: nat, k: bv32, p: nat, r: nat)
    requires t < 64 && K[t] == k && Prime(t) == p && IsCubeRoot(r, p) && IsFraction(k, r)
    ensures IsKey(t)
  {
  }

  lemma Keys0()
    ensures forall t :: 0 <= t < 4 ==> IsKey(t)
  {
    hide IsKey;
    Key(0, 0x428a2f98, 2, 0x1428a2f98);
    Key(1, 0x71374491, 3, 0x171374491);
    Key(2, 0xb5c0fbcf, 5, 0x1b5c0fbcf);
    Key(3, 0xe9b5dba5, 7, 0x1e9b5dba5);
  }

  lemma Keys4()
    ensures forall t :: 4 <= t < 8 ==> IsKey(t)
  {
    hide IsKey;
    Key(4, 0x3956c25b, 11, 0x23956c25b);
    Key(5, 0x59f111f1, 13, 0x259f111f1);
    Key(6, 0x923f82a4, 17, 0x2923f82a4);
    Key(7, 0xab1c5ed5, 19, 0x2ab1c5ed5);
  }

  lemma Keys8()
    ensures forall t :: 8 <= t < 12 ==> IsKey(t)
  {
    hide IsKey;
    Key(8, 0xd807aa98, 23, 0x2d807aa98);
    Key(9, 0x12835b01, 29, 0x312835b01);
    Key(10, 0x243185be, 31, 0x3243185be);
    Key(11, 0x550c7dc3, 37, 0x3550c7dc3);
  }

  lemma Keys12()
    ensures forall t :: 12 <= t < 16 ==> IsKey(t)
  {
    hide IsKey;
    Key(12, 0x72be5d74, 41, 0x372be5d74);
    Key(13, 0x80deb1fe, 43, 0x380deb1fe);
    Key(14, 0x9bdc06a7, 47, 0x39bdc06a7);
    Key(15, 0xc19bf174, 53, 0x3c19bf174);
  }

  lemma Keys16()
    ensures forall t :: 16 <= t < 20 ==> IsKey(t)
  {
    hide IsKey;
    Key(16, 0xe49b69c1, 59, 0x3e49b69c1);
    Key(17, 0xefbe4786, 61, 0x3efbe4786);
    Key(18, 0x0fc19dc6, 67, 0x40fc19dc6);
    Key(19, 0x240ca1cc, 71, 0x4240ca1cc);
  }

  lemma Keys20()
    ensures forall t :: 20 <= t < 24 ==> IsKey(t)
  {
    hide IsKey;
    Key(20, 0x2de92c6f, 73, 0x42de92c6f);
    Key(21, 0x4a7484aa, 79, 0x44a7484aa);
    Key(22, 0x5cb0a9dc, 83, 0x45cb0a9dc);
    Key(23, 0x76f988da, 89, 0x476f988da);
  }

  lemma Keys24()
    ensures forall t :: 24 <= t < 28 ==> IsKey(t)
  {
    hide IsKey;
    Key(24, 0x983e5152, 97, 0x4983e5152);
    Key(25, 0xa831c66d, 101, 0x4a831c66d);
    Key(26, 0xb00327c8, 103, 0x4b00327c8);
    Key(27, 0xbf597fc7, 107, 0x4bf597fc7);
  }

  lemma Keys28()
    ensures forall t :: 28 <= t < 32 ==> IsKey(t)
  {
    hide IsKey;
    Key(28, 0xc6e00bf3, 109, 0x4c6e00bf3);
    Key(29, 0xd5a79147, 113, 0x4d5a79147);
    Key(30, 0x06ca6351, 127, 0x506ca6351);
    Key(31, 0x14292967, 131, 0x514292967);
  }

  lemma Keys32()
    ensures forall t :: 32 <= t < 36 ==> IsKey(t)
  {
    hide IsKey;
    Key(32, 0x27b70a85, 137, 0x527b70a85);
    Key(33, 0x2e1b2138, 139, 0x52e1b2138);
    Key(34, 0x4d2c6dfc, 149, 0x54d2c6dfc);
    Key(35, 0x53380d13, 151, 0x553380d13);
  }

  lemma Keys36()
    ensures forall t :: 36 <= t < 40 ==> IsKey(t)
  {
    hide IsKey;
    Key(36, 0x650a7354, 157, 0x5650a7354);
    Key(37, 0x766a0abb, 163, 0x5766a0abb);
    Key(38, 0x81c2c92e, 167, 0x581c2c92e);
    Key(39, 0x92722c85, 173, 0x592722c85);
  }

  lemma Keys40()
    ensures forall t :: 40 <= t < 44 ==> IsKey(t)
  {
    hide IsKey;
    Key(40, 0xa2bfe8a1, 179, 0x5a2bfe8a1);
    Key(41, 0xa81a664b, 181, 0x5a81a664b);
    Key(42, 0xc24b8b70, 191, 0x5c24b8b70);
    Key(43, 0xc76c51a3, 193, 0x5c76c51a3);
  }

  lemma Keys44()
    ensures forall t :: 44 <= t < 48 ==> IsKey(t)
  {
    hide IsKey;
    Key(44, 0xd192e819, 197, 0x5d192e819);
    Key(45, 0xd6990624, 199, 0x5d6990624);
    Key(46, 0xf40e3585, 211, 0x5f40e3585);
    Key(47, 0x106aa070, 223, 0x6106aa070);
  }

  lemma Keys48()
    ensures forall t :: 48 <= t < 52 ==> IsKey(t)
  {
    hide IsKey;
    Key(48, 0x19a4c116, 227, 0x619a4c116);
    Key(49, 0x1e376c08, 229, 0x61e376c08);
    Key(50, 0x2748774c, 233, 0x62748774c);
    Key(51, 0x34b0bcb5, 239, 0x634b0bcb5);
  }

  lemma Keys52()
    ensures forall t :: 52 <= t < 56 ==> IsKey(t)
  {
    hide IsKey;
    Key(52, 0x391c0cb3, 241, 0x6391c0cb3);
    Key(53, 0x4ed8aa4a, 251, 0x64ed8aa4a);
    Key(54, 0x5b9cca4f, 257, 0x65b9cca4f);
    Key(55, 0x682e6ff3, 263, 0x6682e6ff3);
  }

  lemma Keys56()
    ensures forall t :: 56 <= t < 60 ==> IsKey(t)
  {
    hide IsKey;
    Key(56, 0x748f82ee, 269, 0x6748f82ee);
    Key(57, 0x78a5636f, 271, 0x678a5636f);
    Key(58, 0x84c87814, 277, 0x684c87814);
    Key(59, 0x8cc70208, 281, 0x68cc70208);
  }

  lemma Keys60()
    ensures forall t :: 60 <= t < 64 ==> IsKey(t)
  {
    hide IsKey;
    Key(60, 0x90befffa, 283, 0x690befffa);
    Key(61, 0xa4506ceb, 293, 0x6a4506ceb);
    Key(62, 0xbef9a3f7, 307, 0x6bef9a3f7);
    Key(63, 0xc67178f2, 311, 0x6c67178f2);
  }

  /** Every round constant is the first 32 bits of the fraction of the cube root of its prime. */
  lemma KeysAreCubeRoots()
    ensures forall t :: 0 <= t < 64 ==> IsKey(t)
  {
    hide IsKey;
    Keys0(); Keys4(); Keys8(); Keys12();
    Keys16(); Keys20(); Keys24(); Keys28();
    Keys32(); Keys36(); Keys40(); Keys44();
    Keys48(); Keys52(); Keys56(); Keys60();
  }

  /** Every word of the first hash value is that of a square root. */
  lemma StartIsSquareRoots()
    ensures forall t :: 0 <= t < 8 ==> exists r: nat :: IsSquareRoot(r, Prime(t)) && IsFraction(IV[t], r)
  {
    assert IsSquareRoot(0x16a09e667, Prime(0)) && IsFraction(IV[0], 0x16a09e667);
    assert IsSquareRoot(0x1bb67ae85, Prime(1)) && IsFraction(IV[1], 0x1bb67ae85);
    assert IsSquareRoot(0x23c6ef372, Prime(2)) && IsFraction(IV[2], 0x23c6ef372);
    assert IsSquareRoot(0x2a54ff53a, Prime(3)) && IsFraction(IV[3], 0x2a54ff53a);
    assert IsSquareRoot(0x3510e527f, Prime(4)) && IsFraction(IV[4], 0x3510e527f);
    assert IsSquareRoot(0x39b05688c, Prime(5)) && IsFraction(IV[5], 0x39b05688c);
    assert IsSquareRoot(0x41f83d9ab, Prime(6)) && IsFraction(IV[6], 0x41f83d9ab);
    assert IsSquareRoot(0x45be0cd19, Prime(7)) && IsFraction(IV[7], 0x45be0cd19);
  }
}
