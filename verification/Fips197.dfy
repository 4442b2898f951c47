/** AES-256 as FIPS 197 defines it, byte by byte: equations for every round key and every
    state, over the field of 256 elements. */
module Fips197 {
  import opened AesBytes
  import opened AesField
  import opened Aes
  import opened AesCbc

  /** {02} to the power `n`. */
  function Power(n: nat): bv8 {
    if n == 0 then 1 else GfMul(Power(n - 1), 2)
  }

  /** What is added to byte `j` of the word eight places before word `i`. */
  function Addend(w: Schedule, i: nat, j: nat): bv8
    requires 8 <= i < 60 && j < 4
  {
    if i % 8 == 0 then
      var s := SBox(w[4 * (i - 1) + (j + 1) % 4]);
      if j == 0 then Xor(s, Power(i / 8 - 1)) else s
    else if i % 8 == 4 then SBox(w[4 * (i - 1) + j])
    else w[4 * (i - 1) + j]
  }

  lemma {:induction false} ExpandedPrefix(key: seq<bv8>, m: nat, n: nat)
    requires |key| == 32 && m <= n <= 60
    ensures Expanded(key, n)[..4 * m] == Expanded(key, m)
    decreases n
  {
    hide XorWords, Temp;
    if m < n {
      ExpandedPrefix(key, m, n - 1);
      assert Expanded(key, n)[..4 * m] == Expanded(key, n - 1)[..4 * m];
    } else {
      assert Expanded(key, n)[..4 * n] == Expanded(key, n);
    }
  }

  /** `x` is {02} to the power `n`. */
  predicate IsPower(n: nat, x: bv8) {
    Power(n) == x
  }

  lemma FirstPower()
    ensures IsPower(0, 1)
  {
  }

  lemma NextPower(n: nat, x: bv8, y: bv8)
    requires IsPower(n, x) && Double(x) == y
    ensures IsPower(n + 1, y)
  {
    hide GfMul, Double;
    TwoAndThree(x);
    DoubleIsXtime(x);
  }

  lemma RconDoubles(k: nat)
    requires 1 <= k < 7
    ensures Double(RCON[k]) == RCON[k + 1]
  {
  }

  /** The table holds the powers of {02}. */
  lemma {:induction false} RoundConstant(k: nat)
    requires 1 <= k < 8
    ensures IsPower(k - 1, RCON[k])
  {
    hide IsPower, Double;
    if k == 1 {
      FirstPower();
    } else {
      RoundConstant(k - 1);
      RconDoubles(k - 1);
      NextPower(k - 2, RCON[k - 1], RCON[k]);
    }
  }

  /** Byte `j` of the word that word `i` takes from the word before it. */
  lemma TempByte(t: Word, i: nat, j: nat)
    requires 8 <= i < 60 && j < 4
    ensures Temp(t, i)[j] ==
            if i % 8 == 0 then (if j == 0 then Xor(SBox(t[1]), Power(i / 8 - 1)) else SBox(t[(j + 1) % 4]))
            else if i % 8 == 4 then SBox(t[j])
            else t[j]
  {
    hide SBox, Xor, Power;
    if i % 8 == 0 {
      RoundConstant(i / 8);
    }
  }

  lemma ScheduleStarts(key: seq<bv8>, i: nat)
    requires |key| == 32 && i <= 60
    ensures ScheduleOf(key)[..4 * i] == Expanded(key, i)
  {
    hide Expanded;
    ExpandedPrefix(key, i, 60);
  }

  lemma NextWordByte(e: seq<bv8>, i: nat, j: nat)
    requires 8 <= i < 60 && j < 4 && |e| == 4 * i
    ensures NextWord(e, i)[j] == Xor(e[4 * (i - 8) + j], Temp(e[4 * i - 4..], i)[j])
  {
    hide Xor, Temp;
  }

  lemma NextWordPlace(key: seq<bv8>, i: nat, j: nat)
    requires |key| == 32 && 8 <= i < 60 && j < 4
    ensures ScheduleOf(key)[4 * i + j] == NextWord(Expanded(key, i), i)[j]
  {
    hide Expanded, NextWord, ScheduleOf;
    var e := Expanded(key, i);
    ScheduleStarts(key, i + 1);
    ExpandedStep(key, i);
    assert ScheduleOf(key)[..4 * (i + 1)][4 * i + j] == (e + NextWord(e, i))[4 * i + j];
  }

  /** The round keys are the key, followed by words that section 5.2 of FIPS 197 defines. */
  lemma ScheduleByte(key: seq<bv8>, i: nat, j: nat)
    requires |key| == 32 && 8 <= i < 60 && j < 4
    ensures var w := ScheduleOf(key);
      w[..32] == key && w[4 * i + j] == Xor(w[4 * (i - 8) + j], Addend(w, i, j))
  {
    hide SBox, Xor, Power, Temp, Expanded, NextWord, ScheduleOf;
    var w, e := ScheduleOf(key), Expanded(key, i);
    KeyComesFirst(key);
    ScheduleStarts(key, 8);
    ScheduleStarts(key, i);
    NextWordPlace(key, i, j);
    NextWordByte(e, i, j);
    var t := e[4 * i - 4..];
    TempByte(t, i, j);
    assert e == w[..4 * i] && e[4 * (i - 8) + j] == w[4 * (i - 8) + j];
    assert t[j] == w[4 * (i - 1) + j] && t[(j + 1) % 4] == w[4 * (i - 1) + (j + 1) % 4];
  }

  /** Where ShiftRows takes byte `n` of the state from: r columns further, in row r. */
  function Source(n: nat): (m: nat)
    requires n < 16
    ensures m < 16
  {
    4 * ((n / 4 + n % 4) % 4) + n % 4
  }

  /** The byte `k` rows further in the column of byte `n`. */
  function InColumn(n: nat, k: nat): (m: nat)
    requires n < 16
    ensures m < 16
  {
    4 * (n / 4) + (n % 4 + k) % 4
  }

  /** Byte `n` of the state after SubBytes and ShiftRows. */
  function Moved(s: Block, n: nat): bv8
    requires n < 16
  {
    SBox(s[Source(n)])
  }

  /** Byte `n` after MixColumns as well: its column times 02 03 01 01, from its own row on. */
  function Mixed(s: Block, n: nat): bv8
    requires n < 16
  {
    Xor(Xor(GfMul(Moved(s, n), 2), GfMul(Moved(s, InColumn(n, 1)), 3)),
        Xor(Moved(s, InColumn(n, 2)), Moved(s, InColumn(n, 3))))
  }

  /** `x` is the state after the first AddRoundKey, and then after each of thirteen rounds. */
  ghost predicate States(x: seq<Block>, s: Block, w: Schedule) {
    && |x| == 14
    && (forall n :: 0 <= n < 16 ==> x[0][n] == Xor(s[n], w[n]))
    && (forall r: nat, n: nat :: 0 < r < 14 && n < 16 ==> x[r][n] == Xor(Mixed(x[r - 1], n), w[16 * r + n]))
  }

  /** The last round leaves out MixColumns. */
  ghost predicate IsCipherBy(s: Block, w: Schedule, c: Block, x: seq<Block>) {
    States(x, s, w) && forall n :: 0 <= n < 16 ==> c[n] == Xor(Moved(x[13], n), w[224 + n])
  }

  lemma ShiftRowsAt(t: Block, n: nat)
    requires n < 16
    ensures ShiftRowsOf(t)[n] == t[Source(n)]
  {
    if n < 4 {
    } else if n < 8 {
      assert n / 4 == 1 && n % 4 == n - 4;
    } else if n < 12 {
      assert n / 4 == 2 && n % 4 == n - 8;
    } else {
      assert n / 4 == 3 && n % 4 == n - 12;
    }
  }

  lemma ShiftedAt(s: Block, n: nat)
    requires n < 16
    ensures Shifted(s)[n] == Moved(s, n)
  {
    hide SBox, ShiftRowsOf, Source;
    ShiftRowsAt(SubBytesOf(s), n);
  }

  lemma DownIsInColumn(n: nat, k: nat)
    requires n < 16 && k < 4
    ensures Down(n, k) == InColumn(n, k)
  {
  }

  lemma MixedAt(s: Block, n: nat)
    requires n < 16
    ensures MixColumnsOf(Shifted(s))[n] == Mixed(s, n)
  {
    hide SBox, Xor, GfMul, Mix, Moved, Shifted, Down, InColumn;
    DownIsInColumn(n, 1);
    DownIsInColumn(n, 2);
    DownIsInColumn(n, 3);
    ShiftedAt(s, n);
    ShiftedAt(s, InColumn(n, 1));
    ShiftedAt(s, InColumn(n, 2));
    ShiftedAt(s, InColumn(n, 3));
    MixIsProduct(Moved(s, n), Moved(s, InColumn(n, 1)), Moved(s, InColumn(n, 2)), Moved(s, InColumn(n, 3)));
  }

  /** Encryption is the cipher of the standard. */
  lemma EncryptMeets(s: Block, w: Schedule)
    ensures exists x :: IsCipherBy(s, w, Encrypt(s, w), x)
  {
    hide Xor, Mixed, Moved, MixColumnsOf, Shifted;
    var x := seq(14, r requires 0 <= r < 14 => AfterRound(s, w, r));
    forall r: nat, n: nat | 0 < r < 14 && n < 16
      ensures x[r][n] == Xor(Mixed(x[r - 1], n), w[16 * r + n])
    {
      MixedAt(x[r - 1], n);
    }
    forall n | 0 <= n < 16
      ensures Encrypt(s, w)[n] == Xor(Moved(x[13], n), w[224 + n])
    {
      ShiftedAt(x[13], n);
    }
    assert IsCipherBy(s, w, Encrypt(s, w), x);
  }
}
