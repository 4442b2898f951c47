/** A reader of CBOR as RFC 8949 defines it, against which the writer is proved. */
module Rfc8949 {
  import opened Bytes
  import opened Options
  import opened Cbor

  datatype Started = Started(major: Major, info: nat, argument: nat, rest: seq<byte>)
  datatype Decoded = Decoded(it: Item, rest: seq<byte>)
  datatype DecodedAll = DecodedAll(items: seq<Item>, rest: seq<byte>)

  /** The argument of a head is in 1, 2, 4 or 8 bytes, highest first: section 3. */
  function ArgumentBytes(info: nat): nat {
    if info == 24 then 1 else if info == 25 then 2 else if info == 26 then 4 else if info == 27 then 8 else 0
  }

  function Start(s: seq<byte>): (r: Option<Started>)
    ensures r.Some? ==> |r.value.rest| < |s|
  {
    if |s| == 0 then None
    else
      var info := s[0] % 32;
      var n := ArgumentBytes(info);
      if |s| < 1 + n || 27 < info then None
      else Some(Started(s[0] / 32, info, if n == 0 then info else BigEndian(s[1..1 + n]), s[1 + n..]))
  }

  /** One item, and what follows it. */
  function Decode(s: seq<byte>): (r: Option<Decoded>)
    ensures r.Some? ==> |r.value.rest| < |s|
    decreases |s|, 0
  {
    var h := Start(s);
    if h.None? then None
    else
      var major, v, rest := h.value.major, h.value.argument, h.value.rest;
      if major == 0 then Some(Decoded(UInt(v), rest))
      else if major == 1 then Some(Decoded(NInt(v), rest))
      else if major == 2 && v <= |rest| then Some(Decoded(ByteString(rest[..v]), rest[v..]))
      else if major == 3 && v <= |rest| then Some(Decoded(Text(rest[..v]), rest[v..]))
      else if major == 4 then
        var x := DecodeAll(rest, v);
        if x.Some? then Some(Decoded(Array(x.value.items), x.value.rest)) else None
      else if major == 5 then
        var x := DecodeAll(rest, 2 * v);
        if x.Some? then Some(Decoded(Map(x.value.items), x.value.rest)) else None
      else if major == 7 && h.value.info == 20 then Some(Decoded(Bool(false), rest))
      else if major == 7 && h.value.info == 21 then Some(Decoded(Bool(true), rest))
      else None
  }

  /** `count` items, one after the other. */
  function DecodeAll(s: seq<byte>, count: nat): (r: Option<DecodedAll>)
    ensures r.Some? ==> |r.value.rest| <= |s|
    decreases |s|, 1
  {
    if count == 0 then Some(DecodedAll([], s))
    else
      var x := Decode(s);
      if x.None? then None
      else
        var y := DecodeAll(x.value.rest, count - 1);
        if y.Some? then Some(DecodedAll([x.value.it] + y.value.items, y.value.rest)) else None
  }

  /** Maps hold whole pairs. */
  ghost predicate WholePairs(it: Item)
    decreases it
  {
    match it
    case Array(items) => forall x :: x in items ==> WholePairs(x)
    case Map(items) => |items| % 2 == 0 && forall x :: x in items ==> WholePairs(x)
    case _ => true
  }

  lemma BigEndianOf1(a: byte)
    ensures BigEndian([a]) == a
  {
    assert [a][..0] == [] && BigEndian([a]) == BigEndian([a][..0]) * 256 + a;
  }

  lemma BigEndianOf2(a: byte, b: byte)
    ensures BigEndian([a, b]) == 256 * a + b
  {
    BigEndianOf1(a);
    assert [a, b][..1] == [a];
  }

  lemma BigEndianOf4(v: nat, s: seq<byte>)
    requires v < 0x1_0000_0000 && s == [v / 0x100_0000 % 256, v / 0x1_0000 % 256, v / 256 % 256, v % 256]
    ensures BigEndian(s) == v
  {
    hide BigEndian;
    BigEndianOf2(s[0], s[1]);
    assert s[..3][..2] == [s[0], s[1]] && s[..3][2] == s[2];
    Last(s);
    Last(s[..3]);
    Digits(v);
  }

  lemma Last(s: seq<byte>)
    requires 0 < |s|
    ensures BigEndian(s) == BigEndian(s[..|s| - 1]) * 256 + s[|s| - 1]
  {
  }

  lemma Digits(v: nat)
    requires v < 0x1_0000_0000
    ensures ((v / 0x100_0000 % 256 * 256 + v / 0x1_0000 % 256) * 256 + v / 256 % 256) * 256 + v % 256 == v
  {
    assert v / 0x1_0000 == v / 256 / 256 && v / 0x100_0000 == v / 0x1_0000 / 256;
  }

  /** A head is read back. */
  lemma HeadDecodes(major: Major, v: nat, t: seq<byte>)
    requires v < 0x1_0000_0000
    ensures var r := Start(Head(major, v) + t);
      r.Some? && r.value.major == major && r.value.argument == v && r.value.rest == t
      && (v < 24 ==> r.value.info == v)
  {
    hide BigEndian;
    var h := Head(major, v);
    var s := h + t;
    assert s[0] == h[0] && s[|h|..] == t && s[1..|h|] == h[1..];
    if 24 <= v <= 0xFF {
      assert h[1..] == [v];
      BigEndianOf1(v);
    } else if 0xFF < v <= 0xFFFF {
      assert h[1..] == [v / 256, v % 256];
      BigEndianOf2(v / 256, v % 256);
    } else if 0xFFFF < v {
      BigEndianOf4(v, h[1..]);
    }
  }

  lemma BoolDecodes(b: bool, t: seq<byte>)
    ensures Decode(Encode(Bool(b)) + t) == Some(Decoded(Bool(b), t))
  {
    var s := Encode(Bool(b)) + t;
    assert s[0] == Encode(Bool(b))[0] && s[1..] == t;
  }

  lemma Regroup(a: seq<byte>, b: seq<byte>, c: seq<byte>)
    ensures (a + b) + c == a + (b + c)
  {
  }

  /** What the writer writes, the standard reads as the same item, whatever follows. */
  lemma {:induction false} DecodesEncoded(it: Item, t: seq<byte>)
    requires Writable(it) && WholePairs(it)
    ensures Decode(Encode(it) + t) == Some(Decoded(it, t))
    decreases it, 0
  {
    hide Start, Head, DecodeAll;
    match it {
      case UInt(v) => HeadDecodes(0, v, t);
      case NInt(v) => HeadDecodes(1, v, t);
      case ByteString(s) =>
        Regroup(Head(2, |s|), s, t);
        HeadDecodes(2, |s|, s + t);
        assert (s + t)[..|s|] == s && (s + t)[|s|..] == t;
      case Text(s) =>
        Regroup(Head(3, |s|), s, t);
        HeadDecodes(3, |s|, s + t);
        assert (s + t)[..|s|] == s && (s + t)[|s|..] == t;
      case Array(items) =>
        Regroup(Head(4, |items|), EncodeAll(items), t);
        HeadDecodes(4, |items|, EncodeAll(items) + t);
        DecodesAll(items, t);
      case Map(items) =>
        Regroup(Head(5, |items| / 2), EncodeAll(items), t);
        HeadDecodes(5, |items| / 2, EncodeAll(items) + t);
        DecodesAll(items, t);
      case Bool(b) => BoolDecodes(b, t);
    }
  }

  lemma {:induction false} DecodesAll(items: seq<Item>, t: seq<byte>)
    requires forall x :: x in items ==> Writable(x) && WholePairs(x)
    ensures DecodeAll(EncodeAll(items) + t, |items|) == Some(DecodedAll(items, t))
    decreases items, 1
  {
    hide Decode, Encode;
    if |items| == 0 {
      assert EncodeAll(items) + t == t;
    } else {
      var rest := EncodeAll(items[1..]);
      Regroup(Encode(items[0]), rest, t);
      DecodesEncoded(items[0], rest + t);
      DecodesAll(items[1..], t);
      assert items == [items[0]] + items[1..];
    }
  }
}
