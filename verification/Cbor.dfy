/** The CBOR writer: items, their bytes, and the encoder that appends them to a buffer. */
module Cbor {
  import opened Bytes

  type Major = x: int | 0 <= x < 8

  /** An item; `NInt(v)` stands for -1 - v, and a map holds its keys and values in turn. */
  datatype Item =
    | UInt(v: nat)
    | NInt(v: nat)
    | ByteString(s: seq<byte>)
    | Text(s: seq<byte>)
    | Array(items: seq<Item>)
    | Map(items: seq<Item>)
    | Bool(b: bool)

  /** The major type and argument that start an item, section 3 of RFC 8949, with the
      argument in one, two or four bytes when it does not fit the first. */
  function Head(major: Major, v: nat): (r: seq<byte>)
    ensures 1 <= |r| <= 5
  {
    if v < 24 then [major * 32 + v]
    else if v <= 0xFF then [major * 32 + 24, v]
    else if v <= 0xFFFF then [major * 32 + 25, v / 256, v % 256]
    else [major * 32 + 26, v / 0x100_0000 % 256, v / 0x1_0000 % 256, v / 256 % 256, v % 256]
  }

  function Encode(it: Item): (r: seq<byte>)
    ensures 1 <= |r|
    decreases it
  {
    match it
    case UInt(v) => Head(0, v)
    case NInt(v) => Head(1, v)
    case ByteString(s) => Head(2, |s|) + s
    case Text(s) => Head(3, |s|) + s
    case Array(items) => Head(4, |items|) + EncodeAll(items)
    case Map(items) => Head(5, |items| / 2) + EncodeAll(items)
    case Bool(b) => [if b then 0xF5 else 0xF4]
  }

  function EncodeAll(items: seq<Item>): (r: seq<byte>)
    ensures |items| <= |r|
    decreases items
  {
    if |items| == 0 then [] else Encode(items[0]) + EncodeAll(items[1..])
  }

  /** `s` after `done`, if it fits. */
  function Appended(done: seq<byte>, capacity: nat, s: seq<byte>): (r: seq<byte>)
    ensures done <= r && (|done| <= capacity ==> |r| <= capacity)
  {
    if |done| + |s| <= capacity then done + s else done
  }

  /** CborEncoder: bytes are only ever appended, up to the capacity. */
  class Encoder {
    const buffer: array<byte>
    var length: nat

    ghost predicate Valid()
      reads this
    {
      length <= buffer.Length
    }

    ghost function Contents(): seq<byte>
      requires Valid()
      reads this, buffer
    {
      buffer[..length]
    }

    constructor (buffer: array<byte>)
      ensures Valid() && this.buffer == buffer && Contents() == []
    {
      this.buffer := buffer;
      length := 0;
    }

    /** A head is written whole or not at all. */
    method EncodeHead(major: Major, v: nat)
      requires Valid() && v < 0x1_0000_0000
      modifies this`length, buffer
      ensures Valid()
      ensures Contents() == Appended(old(Contents()), buffer.Length, Head(major, v))
    {
      if length >= buffer.Length {
        return;
      }
      if v < 24 {
        Put(major * 32 + v);
      } else if v <= 0xFF {
        if length + 2 > buffer.Length {
          return;
        }
        Put(major * 32 + 24);
        Put(v);
      } else if v <= 0xFFFF {
        if length + 3 > buffer.Length {
          return;
        }
        Put(major * 32 + 25);
        PutTwo(v / 256, v % 256);
      } else {
        if length + 5 > buffer.Length {
          return;
        }
        Put(major * 32 + 26);
        PutTwo(v / 0x100_0000 % 256, v / 0x1_0000 % 256);
        PutTwo(v / 256 % 256, v % 256);
      }
    }

    method Put(b: byte)
      requires Valid() && length < buffer.Length
      modifies this`length, buffer
      ensures Valid() && length == old(length) + 1 && Contents() == old(Contents()) + [b]
    {
      buffer[length] := b;
      length := length + 1;
    }

    method PutTwo(high: byte, low: byte)
      requires Valid() && length + 2 <= buffer.Length
      modifies this`length, buffer
      ensures Valid() && length == old(length) + 2 && Contents() == old(Contents()) + [high, low]
    {
      Put(high);
      Put(low);
    }

    method EncodeBool(b: bool)
      requires Valid()
      modifies this`length, buffer
      ensures Valid()
      ensures Contents() == Appended(old(Contents()), buffer.Length, Encode(Bool(b)))
    {
      if length >= buffer.Length {
        return;
      }
      Put(if b then 0xF5 else 0xF4);
    }

    /** The bytes after a head, all of them or none. */
    method Append(s: seq<byte>)
      requires Valid()
      modifies this`length, buffer
      ensures Valid()
      ensures Contents() == Appended(old(Contents()), buffer.Length, s)
    {
      if length + |s| > buffer.Length {
        return;
      }
      for i := 0 to |s|
        invariant length == old(length) && buffer[..length] == old(buffer[..length])
        invariant buffer[length..length + i] == s[..i]
      {
        buffer[length + i] := s[i];
      }
      length := length + |s|;
    }

    /** cbor_encode_byte_string and cbor_encode_text_string_len, which differ in the major
        type only: the head and the bytes are each written whole or not at all. */
    method EncodeString(major: Major, s: seq<byte>)
      requires Valid() && |s| < 0x1_0000_0000
      modifies this`length, buffer
      ensures Valid()
      ensures Contents() == Appended(Appended(old(Contents()), buffer.Length, Head(major, |s|)), buffer.Length, s)
    {
      EncodeHead(major, |s|);
      Append(s);
    }

    /** An item written the way the responses are: a head, then the items it announces. */
    method Write(it: Item)
      requires Valid() && Writable(it)
      modifies this`length, buffer
      ensures Valid() && old(Contents()) <= Contents()
      ensures old(length) + |Encode(it)| <= buffer.Length ==> Contents() == old(Contents()) + Encode(it)
      decreases it
    {
      hide Head, EncodeAll;
      match it {
        case UInt(v) => EncodeHead(0, v);
        case NInt(v) => EncodeHead(1, v);
        case ByteString(s) => EncodeString(2, s);
        case Text(s) => EncodeString(3, s);
        case Bool(b) => EncodeBool(b);
        case Array(items) => WriteAfterHead(4, |items|, items);
        case Map(items) => WriteAfterHead(5, |items| / 2, items);
      }
    }

    method WriteAfterHead(major: Major, v: nat, items: seq<Item>)
      requires Valid() && v < 0x1_0000_0000 && forall x :: x in items ==> Writable(x)
      modifies this`length, buffer
      ensures Valid() && old(Contents()) <= Contents()
      ensures old(length) + |Head(major, v) + EncodeAll(items)| <= buffer.Length ==>
        Contents() == old(Contents()) + (Head(major, v) + EncodeAll(items))
      decreases items, 1
    {
      hide Head, EncodeAll;
      EncodeHead(major, v);
      WriteAll(items);
    }

    method WriteAll(items: seq<Item>)
      requires Valid() && forall x :: x in items ==> Writable(x)
      modifies this`length, buffer
      ensures Valid() && old(Contents()) <= Contents()
      ensures old(length) + |EncodeAll(items)| <= buffer.Length ==>
        Contents() == old(Contents()) + EncodeAll(items)
      decreases items, 0
    {
      if |items| > 0 {
        Write(items[0]);
        WriteAll(items[1..]);
      }
    }
  }

  /** Every argument of a head fits 32 bits. */
  ghost predicate Writable(it: Item)
    decreases it
  {
    match it
    case UInt(v) => v < 0x1_0000_0000
    case NInt(v) => v < 0x1_0000_0000
    case ByteString(s) => |s| < 0x1_0000_0000
    case Text(s) => |s| < 0x1_0000_0000
    case Array(items) => |items| < 0x1_0000_0000 && forall x :: x in items ==> Writable(x)
    case Map(items) => |items| < 0x1_0000_0000 && forall x :: x in items ==> Writable(x)
    case Bool(b) => true
  }
}
