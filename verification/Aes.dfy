/** The AES block cipher on a 16-byte state, column by column, and its inverse. */
module Aes {
  import opened AesBytes

  type Block = s: seq<bv8> | |s| == 16 witness seq(16, i => 0)

  const NR := 14

  function SubBytesOf(s: Block): Block {
    seq(16, n requires 0 <= n < 16 => SBox(s[n]))
  }

  function InvSubBytesOf(s: Block): Block {
    seq(16, n requires 0 <= n < 16 => InvSBox(s[n]))
  }

  /** Row r of the state moves r columns to the left. */
  function ShiftRowsOf(s: Block): Block {
    [s[0], s[5], s[10], s[15], s[4], s[9], s[14], s[3], s[8], s[13], s[2], s[7], s[12], s[1], s[6], s[11]]
  }

  function InvShiftRowsOf(s: Block): Block {
    [s[0], s[13], s[10], s[7], s[4], s[1], s[14], s[11], s[8], s[5], s[2], s[15], s[12], s[9], s[6], s[3]]
  }

  /** The position `k` places further down the same column. */
  function Down(n: nat, k: nat): (r: nat)
    requires n < 16 && k < 4
    ensures r < 16
  {
    if n % 4 + k < 4 then n + k else n + k - 4
  }

  function MixAt(s: Block, n: nat): bv8
    requires n < 16
  {
    Mix(s[n], s[Down(n, 1)], s[Down(n, 2)], s[Down(n, 3)])
  }

  function InvMixAt(s: Block, n: nat): bv8
    requires n < 16
  {
    InvMix(s[n], s[Down(n, 1)], s[Down(n, 2)], s[Down(n, 3)])
  }

  function MixColumnsOf(s: Block): Block {
    seq(16, n requires 0 <= n < 16 => MixAt(s, n))
  }

  function InvMixColumnsOf(s: Block): Block {
    seq(16, n requires 0 <= n < 16 => InvMixAt(s, n))
  }

  function XorBlocks(s: Block, k: Block): Block {
    seq(16, n requires 0 <= n < 16 => Xor(s[n], k[n]))
  }

  /** The round keys, one after the other. */
  type Schedule = w: seq<bv8> | |w| == 240 witness seq(240, i => 0)

  function RoundKey(w: Schedule, round: nat): Block
    requires round <= NR
  {
    w[16 * round..16 * round + 16]
  }

  /** Nr: one round key for each round, and one before them. */
  function Rounds(w: Schedule): (n: nat)
    ensures n == NR
  {
    |w| / 16 - 1
  }

  lemma SubBytesInverse(s: Block)
    ensures InvSubBytesOf(SubBytesOf(s)) == s
  {
    hide SBox, InvSBox;
    forall n | 0 <= n < 16 ensures InvSBox(SBox(s[n])) == s[n] {
      SBoxInverse(s[n]);
    }
  }

  lemma ShiftRowsInverse(s: Block)
    ensures InvShiftRowsOf(ShiftRowsOf(s)) == s
  {
  }

  lemma MixColumnsInverse(s: Block)
    ensures InvMixColumnsOf(MixColumnsOf(s)) == s
  {
    hide Mix, InvMix;
    var t := MixColumnsOf(s);
    forall n | 0 <= n < 16 ensures InvMixAt(t, n) == s[n] {
      ColumnMixedBack(s, t, n);
    }
  }

  lemma DownDown(n: nat, k: nat, l: nat)
    requires n < 16 && k < 4 && l < 4
    ensures Down(Down(n, k), l) == Down(n, if k + l < 4 then k + l else k + l - 4) && Down(n, 0) == n
  {
    var m := Down(n, k);
    assert m % 4 == if n % 4 + k < 4 then n % 4 + k else n % 4 + k - 4;
  }

  lemma ColumnMixedBack(s: Block, t: Block, n: nat)
    requires n < 16 && t == MixColumnsOf(s)
    ensures InvMixAt(t, n) == s[n]
  {
    hide Mix, InvMix, Down;
    var x, y, z := Down(n, 1), Down(n, 2), Down(n, 3);
    DownDown(n, 1, 1);
    DownDown(n, 1, 2);
    DownDown(n, 1, 3);
    DownDown(n, 2, 1);
    DownDown(n, 2, 2);
    DownDown(n, 2, 3);
    DownDown(n, 3, 1);
    DownDown(n, 3, 2);
    DownDown(n, 3, 3);
    assert t[n] == Mix(s[n], s[x], s[y], s[z]) && t[x] == Mix(s[x], s[y], s[z], s[n]);
    assert t[y] == Mix(s[y], s[z], s[n], s[x]) && t[z] == Mix(s[z], s[n], s[x], s[y]);
    MixInverse(s[n], s[x], s[y], s[z]);
  }

  lemma XorBlocksTwice(s: Block, k: Block)
    ensures XorBlocks(XorBlocks(s, k), k) == s
  {
    hide Xor;
    forall n | 0 <= n < 16 ensures Xor(Xor(s[n], k[n]), k[n]) == s[n] {
      XorTwice(s[n], k[n]);
    }
  }

  /** The state after round `r`, the last round excepted. */
  function AfterRound(s: Block, w: Schedule, r: nat): Block
    requires r < NR
  {
    if r == 0 then XorBlocks(s, RoundKey(w, 0))
    else XorBlocks(MixColumnsOf(Shifted(AfterRound(s, w, r - 1))), RoundKey(w, r))
  }

  function Shifted(s: Block): Block {
    ShiftRowsOf(SubBytesOf(s))
  }

  /** AES-256, section 5.1 of FIPS 197, for any round keys. */
  function Encrypt(s: Block, w: Schedule): Block {
    XorBlocks(Shifted(AfterRound(s, w, Rounds(w) - 1)), RoundKey(w, Rounds(w)))
  }

  /** Rounds `r` down to 0 of the inverse cipher, section 5.3 of FIPS 197. */
  function InvRounds(s: Block, w: Schedule, r: nat): Block
    requires r < NR
    decreases r
  {
    var u := XorBlocks(InvSubBytesOf(InvShiftRowsOf(s)), RoundKey(w, r));
    if r == 0 then u else InvRounds(InvMixColumnsOf(u), w, r - 1)
  }

  function Decrypt(s: Block, w: Schedule): Block {
    InvRounds(XorBlocks(s, RoundKey(w, Rounds(w))), w, Rounds(w) - 1)
  }

  lemma ShiftedInverse(s: Block)
    ensures InvSubBytesOf(InvShiftRowsOf(Shifted(s))) == s
  {
    hide ShiftRowsOf, InvShiftRowsOf, SubBytesOf, InvSubBytesOf;
    ShiftRowsInverse(SubBytesOf(s));
    SubBytesInverse(s);
  }

  lemma {:induction false} RoundsInverse(s: Block, w: Schedule, r: nat)
    requires r < NR
    ensures InvRounds(Shifted(AfterRound(s, w, r)), w, r) == s
  {
    hide Shifted, InvShiftRowsOf, InvSubBytesOf, MixColumnsOf, InvMixColumnsOf, XorBlocks, RoundKey;
    ShiftedInverse(AfterRound(s, w, r));
    if r == 0 {
      XorBlocksTwice(s, RoundKey(w, 0));
    } else {
      var t := Shifted(AfterRound(s, w, r - 1));
      XorBlocksTwice(MixColumnsOf(t), RoundKey(w, r));
      MixColumnsInverse(t);
      RoundsInverse(s, w, r - 1);
    }
  }

  /** The inverse cipher undoes the cipher, whatever the round keys. */
  lemma DecryptInverts(s: Block, w: Schedule)
    ensures Decrypt(Encrypt(s, w), w) == s
  {
    hide Shifted, AfterRound, XorBlocks, InvRounds, RoundKey;
    var n := Rounds(w);
    XorBlocksTwice(Shifted(AfterRound(s, w, n - 1)), RoundKey(w, n));
    RoundsInverse(s, w, n - 1);
  }
}
