/** The rounds of AES, in place on a 16-byte state. */
module AesState {
  import opened AesBytes
  import opened Aes

  method AddRoundKey(round: nat, state: array<bv8>, keys: array<bv8>)
    requires round <= NR && state.Length == 16 && keys.Length == 240 && keys != state
    modifies state
    ensures state[..] == XorBlocks(old(state[..]), RoundKey(keys[..], round))
  {
    hide Xor;
    ghost var k := RoundKey(keys[..], round);
    for n := 0 to 16
      invariant forall m :: 0 <= m < n ==> state[m] == Xor(old(state[m]), k[m])
      invariant forall m :: n <= m < 16 ==> state[m] == old(state[m])
    {
      state[n] := Xor(state[n], keys[16 * round + n]);
    }
  }

  method SubBytes(state: array<bv8>)
    requires state.Length == 16
    modifies state
    ensures state[..] == SubBytesOf(old(state[..]))
  {
    hide SBox;
    for n := 0 to 16
      invariant forall m :: 0 <= m < n ==> state[m] == SBox(old(state[m]))
      invariant forall m :: n <= m < 16 ==> state[m] == old(state[m])
    {
      state[n] := SBox(state[n]);
    }
  }

  method InvSubBytes(state: array<bv8>)
    requires state.Length == 16
    modifies state
    ensures state[..] == InvSubBytesOf(old(state[..]))
  {
    hide InvSBox;
    for n := 0 to 16
      invariant forall m :: 0 <= m < n ==> state[m] == InvSBox(old(state[m]))
      invariant forall m :: n <= m < 16 ==> state[m] == old(state[m])
    {
      state[n] := InvSBox(state[n]);
    }
  }

  /** The bytes at p, q, r and t take the values of those at q, r, t and p. */
  function Rotated(s: Block, p: nat, q: nat, r: nat, t: nat): Block
    requires p < 16 && q < 16 && r < 16 && t < 16
  {
    s[p := s[q]][q := s[r]][r := s[t]][t := s[p]]
  }

  method Rotate(state: array<bv8>, p: nat, q: nat, r: nat, t: nat)
    requires state.Length == 16 && p < 16 && q < 16 && r < 16 && t < 16 && p != q && p != r && p != t && q != r && q != t && r != t
    modifies state
    ensures state[..] == Rotated(old(state[..]), p, q, r, t)
  {
    var temp := state[p];
    state[p] := state[q];
    state[q] := state[r];
    state[r] := state[t];
    state[t] := temp;
  }

  function Swapped(s: Block, p: nat, q: nat): Block
    requires p < 16 && q < 16
  {
    s[p := s[q]][q := s[p]]
  }

  method Swap(state: array<bv8>, p: nat, q: nat)
    requires state.Length == 16 && p < 16 && q < 16
    modifies state
    ensures state[..] == Swapped(old(state[..]), p, q)
  {
    var temp := state[p];
    state[p] := state[q];
    state[q] := temp;
  }

  lemma RowsShifted(s: Block)
    ensures Rotated(Swapped(Swapped(Rotated(s, 1, 5, 9, 13), 2, 10), 6, 14), 3, 15, 11, 7) == ShiftRowsOf(s)
  {
    var t := Rotated(s, 1, 5, 9, 13);
    assert t == [s[0], s[5], s[2], s[3], s[4], s[9], s[6], s[7], s[8], s[13], s[10], s[11], s[12], s[1], s[14], s[15]];
    var u := Swapped(Swapped(t, 2, 10), 6, 14);
    assert u == [t[0], t[1], t[10], t[3], t[4], t[5], t[14], t[7], t[8], t[9], t[2], t[11], t[12], t[13], t[6], t[15]];
  }

  lemma RowsShiftedBack(s: Block)
    ensures Rotated(Swapped(Swapped(Rotated(s, 13, 9, 5, 1), 2, 10), 6, 14), 3, 7, 11, 15) == InvShiftRowsOf(s)
  {
    var t := Rotated(s, 13, 9, 5, 1);
    assert t == [s[0], s[13], s[2], s[3], s[4], s[1], s[6], s[7], s[8], s[5], s[10], s[11], s[12], s[9], s[14], s[15]];
    var u := Swapped(Swapped(t, 2, 10), 6, 14);
    assert u == [t[0], t[1], t[10], t[3], t[4], t[5], t[14], t[7], t[8], t[9], t[2], t[11], t[12], t[13], t[6], t[15]];
  }

  method ShiftRows(state: array<bv8>)
    requires state.Length == 16
    modifies state
    ensures state[..] == ShiftRowsOf(old(state[..]))
  {
    hide Rotated, Swapped, ShiftRowsOf;
    RowsShifted(state[..]);
    Rotate(state, 1, 5, 9, 13);
    Swap(state, 2, 10);
    Swap(state, 6, 14);
    Rotate(state, 3, 15, 11, 7);
  }

  method InvShiftRows(state: array<bv8>)
    requires state.Length == 16
    modifies state
    ensures state[..] == InvShiftRowsOf(old(state[..]))
  {
    hide Rotated, Swapped, InvShiftRowsOf;
    RowsShiftedBack(state[..]);
    Rotate(state, 13, 9, 5, 1);
    Swap(state, 2, 10);
    Swap(state, 6, 14);
    Rotate(state, 3, 7, 11, 15);
  }

  /** The four bytes of column `c` are `x`, `y`, `z` and `t`, and the others as in `s`. */
  ghost predicate ColumnSet(u: seq<bv8>, s: Block, c: nat, x: bv8, y: bv8, z: bv8, t: bv8) {
    && |u| == 16 && c < 4 && u[4 * c] == x && u[4 * c + 1] == y && u[4 * c + 2] == z && u[4 * c + 3] == t
    && forall m :: 0 <= m < 4 * c || 4 * c + 4 <= m < 16 ==> u[m] == s[m]
  }

  /** Lines 306-311: one column, each byte from itself and its neighbour below. */
  method MixColumn(state: array<bv8>, c: nat)
    requires state.Length == 16 && c < 4
    modifies state
    ensures var s := old(state[..]); var a, b, d, e := s[4 * c], s[4 * c + 1], s[4 * c + 2], s[4 * c + 3];
      ColumnSet(state[..], s, c, Mix(a, b, d, e), Mix(b, d, e, a), Mix(d, e, a, b), Mix(e, a, b, d))
  {
    hide Xor, Xtime;
    var p := 4 * c;
    ghost var s := state[..];
    var t := state[p];
    var all := Xor(Xor(state[p], state[p + 1]), Xor(state[p + 2], state[p + 3]));
    ColumnSum(s[p], s[p + 1], s[p + 2], s[p + 3]);
    state[p] := Xor(state[p], Xor(Xtime(Xor(state[p], state[p + 1])), all));
    state[p + 1] := Xor(state[p + 1], Xor(Xtime(Xor(state[p + 1], state[p + 2])), all));
    state[p + 2] := Xor(state[p + 2], Xor(Xtime(Xor(state[p + 2], state[p + 3])), all));
    state[p + 3] := Xor(state[p + 3], Xor(Xtime(Xor(state[p + 3], t)), all));
  }

  lemma ColumnMixed(s: Block, c: nat)
    requires c < 4
    ensures var p := 4 * c; var a, b, d, e := s[p], s[p + 1], s[p + 2], s[p + 3];
      && MixAt(s, p) == Mix(a, b, d, e) && MixAt(s, p + 1) == Mix(b, d, e, a)
      && MixAt(s, p + 2) == Mix(d, e, a, b) && MixAt(s, p + 3) == Mix(e, a, b, d)
      && InvMixAt(s, p) == InvMix(a, b, d, e) && InvMixAt(s, p + 1) == InvMix(b, d, e, a)
      && InvMixAt(s, p + 2) == InvMix(d, e, a, b) && InvMixAt(s, p + 3) == InvMix(e, a, b, d)
  {
    hide Mix, InvMix;
  }

  /** The sum of a column does not depend on where it starts. */
  lemma ColumnSum(a: bv8, b: bv8, c: bv8, d: bv8)
    ensures Xor(Xor(a, b), Xor(c, d)) == Xor(Xor(b, c), Xor(d, a))
         == Xor(Xor(c, d), Xor(a, b)) == Xor(Xor(d, a), Xor(b, c))
  {
    XorComm(Xor(a, b), Xor(c, d));
    XorComm(Xor(b, c), Xor(d, a));
    XorComm(a, b);
    XorComm(d, a);
    XorComm(a, d);
    hide Xor;
    XorSwap(b, a, c, d);
  }

  lemma XorComm(x: bv8, y: bv8)
    ensures Xor(x, y) == Xor(y, x)
  {
  }

  /** The first `c` columns are mixed. */
  ghost predicate MixedUpTo(u: seq<bv8>, s: Block, c: nat) {
    && |u| == 16 && c <= 4
    && (forall m :: 0 <= m < 4 * c ==> u[m] == MixAt(s, m)) && (forall m :: 4 * c <= m < 16 ==> u[m] == s[m])
  }

  lemma NextMixed(u: Block, v: Block, s: Block, c: nat)
    requires c < 4 && MixedUpTo(u, s, c)
    requires var a, b, d, e := u[4 * c], u[4 * c + 1], u[4 * c + 2], u[4 * c + 3];
      ColumnSet(v, u, c, Mix(a, b, d, e), Mix(b, d, e, a), Mix(d, e, a, b), Mix(e, a, b, d))
    ensures MixedUpTo(v, s, c + 1)
  {
    hide Mix, InvMix, MixAt, InvMixAt;
    ColumnMixed(s, c);
  }

  method MixColumns(state: array<bv8>)
    requires state.Length == 16
    modifies state
    ensures state[..] == MixColumnsOf(old(state[..]))
  {
    hide Mix, ColumnSet;
    ghost var s := state[..];
    for c := 0 to 4
      invariant MixedUpTo(state[..], s, c)
    {
      ghost var u := state[..];
      MixColumn(state, c);
      NextMixed(u, state[..], s, c);
    }
  }

  /** Lines 356-364. */
  method InvMixColumn(state: array<bv8>, i: nat)
    requires state.Length == 16 && i < 4
    modifies state
    ensures var s := old(state[..]); var a, b, c, d := s[4 * i], s[4 * i + 1], s[4 * i + 2], s[4 * i + 3];
      ColumnSet(state[..], s, i, InvMix(a, b, c, d), InvMix(b, c, d, a), InvMix(c, d, a, b), InvMix(d, a, b, c))
  {
    hide InvMix;
    var p := 4 * i;
    var a, b, c, d := state[p], state[p + 1], state[p + 2], state[p + 3];
    state[p] := InvMix(a, b, c, d);
    state[p + 1] := InvMix(b, c, d, a);
    state[p + 2] := InvMix(c, d, a, b);
    state[p + 3] := InvMix(d, a, b, c);
  }

  ghost predicate UnmixedUpTo(u: seq<bv8>, s: Block, c: nat) {
    && |u| == 16 && c <= 4
    && (forall m :: 0 <= m < 4 * c ==> u[m] == InvMixAt(s, m)) && (forall m :: 4 * c <= m < 16 ==> u[m] == s[m])
  }

  lemma NextUnmixed(u: Block, v: Block, s: Block, c: nat)
    requires c < 4 && UnmixedUpTo(u, s, c)
    requires var a, b, d, e := u[4 * c], u[4 * c + 1], u[4 * c + 2], u[4 * c + 3];
      ColumnSet(v, u, c, InvMix(a, b, d, e), InvMix(b, d, e, a), InvMix(d, e, a, b), InvMix(e, a, b, d))
    ensures UnmixedUpTo(v, s, c + 1)
  {
    hide Mix, InvMix, MixAt, InvMixAt;
    ColumnMixed(s, c);
  }

  method InvMixColumns(state: array<bv8>)
    requires state.Length == 16
    modifies state
    ensures state[..] == InvMixColumnsOf(old(state[..]))
  {
    hide InvMix, ColumnSet;
    ghost var s := state[..];
    for c := 0 to 4
      invariant UnmixedUpTo(state[..], s, c)
    {
      ghost var u := state[..];
      InvMixColumn(state, c);
      NextUnmixed(u, state[..], s, c);
    }
  }

  method Cipher(state: array<bv8>, keys: array<bv8>)
    requires state.Length == 16 && keys.Length == 240 && keys != state
    modifies state
    ensures state[..] == Encrypt(old(state[..]), keys[..])
  {
    hide XorBlocks, RoundKey, MixColumnsOf, ShiftRowsOf, SubBytesOf;
    ghost var s, w := state[..], keys[..];
    AddRoundKey(0, state, keys);
    var round := 1;
    while true
      invariant 1 <= round <= NR && keys[..] == w && state[..] == AfterRound(s, w, round - 1)
      decreases NR - round
    {
      SubBytes(state);
      ShiftRows(state);
      if round == NR {
        break;
      }
      MixColumns(state);
      AddRoundKey(round, state, keys);
      round := round + 1;
    }
    AddRoundKey(NR, state, keys);
  }

  method InvCipher(state: array<bv8>, keys: array<bv8>)
    requires state.Length == 16 && keys.Length == 240 && keys != state
    modifies state
    ensures state[..] == Decrypt(old(state[..]), keys[..])
  {
    hide XorBlocks, RoundKey, InvMixColumnsOf, InvShiftRowsOf, InvSubBytesOf;
    ghost var s, w := state[..], keys[..];
    AddRoundKey(NR, state, keys);
    var round := NR - 1;
    while true
      invariant 0 <= round < NR && keys[..] == w && Decrypt(s, w) == InvRounds(state[..], w, round)
      decreases round
    {
      InvShiftRows(state);
      InvSubBytes(state);
      AddRoundKey(round, state, keys);
      if round == 0 {
        break;
      }
      InvMixColumns(state);
      round := round - 1;
    }
  }
}
