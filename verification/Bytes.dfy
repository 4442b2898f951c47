/** Bytes, shared by every module, and their bits. */
module Bytes {
  type byte = b: int | 0 <= b < 256

  function Zeros(n: nat): (r: seq<byte>)
    ensures |r| == n
  {
    seq(n, i => 0)
  }

  /** Bytes read as a number, first byte most significant. */
  function BigEndian(s: seq<byte>): (r: nat) {
    if |s| == 0 then 0 else BigEndian(s[..|s| - 1]) * 256 + s[|s| - 1]
  }

  /** Characters as bytes. */
  function Ascii(s: string): (r: seq<byte>)
    ensures |r| == |s|
  {
    seq(|s|, i requires 0 <= i < |s| => if s[i] < 128 as char then s[i] as int else 0)
  }

  /** Four bits, written out. */
  function Nibble(n: nat): (v: bv8)
    ensures v < 16
  {
    if n == 0 then 0 else if n == 1 then 1 else if n == 2 then 2 else if n == 3 then 3 else if n == 4 then 4
    else if n == 5 then 5 else if n == 6 then 6 else if n == 7 then 7 else if n == 8 then 8
    else if n == 9 then 9 else if n == 10 then 10 else if n == 11 then 11 else if n == 12 then 12
    else if n == 13 then 13 else if n == 14 then 14 else 15
  }

  function NibbleValue(v: bv8): (n: nat)
    ensures n < 16
  {
    if v == 0 then 0 else if v == 1 then 1 else if v == 2 then 2 else if v == 3 then 3 else if v == 4 then 4
    else if v == 5 then 5 else if v == 6 then 6 else if v == 7 then 7 else if v == 8 then 8
    else if v == 9 then 9 else if v == 10 then 10 else if v == 11 then 11 else if v == 12 then 12
    else if v == 13 then 13 else if v == 14 then 14 else 15
  }

  /** A byte as eight bits, and back. */
  function ToBits(b: byte): bv8 {
    (Nibble(b / 16) << 4) | Nibble(b % 16)
  }

  function FromBits(v: bv8): byte {
    16 * NibbleValue(v >> 4) + NibbleValue(v & 15)
  }

  lemma NibblesApart(h: bv8, l: bv8)
    requires h < 16 && l < 16
    ensures ((h << 4) | l) >> 4 == h && ((h << 4) | l) & 15 == l
  {
  }

  lemma NibbleBack(n: nat)
    requires n < 16
    ensures NibbleValue(Nibble(n)) == n
  {
  }

  lemma NibbleForth(v: bv8)
    requires v < 16
    ensures Nibble(NibbleValue(v)) == v
  {
  }

  lemma FromToBits(b: byte)
    ensures FromBits(ToBits(b)) == b
  {
    hide Nibble, NibbleValue;
    NibbleBack(b / 16);
    NibbleBack(b % 16);
    NibblesApart(Nibble(b / 16), Nibble(b % 16));
  }

  lemma NibblesTogether(v: bv8)
    ensures v >> 4 < 16 && v & 15 < 16 && ((v >> 4) << 4) | (v & 15) == v
  {
  }

  lemma ToFromBits(v: bv8)
    ensures ToBits(FromBits(v)) == v
  {
    hide Nibble, NibbleValue;
    NibbleForth(v >> 4);
    NibbleForth(v & 15);
    NibblesTogether(v);
  }
}
