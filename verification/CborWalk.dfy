/** The CBOR walkers: how far an item extends, and the entries of a map.  Offsets and
    lengths are 16-bit, and a pointer is a position in memory. */
module CborWalk {
  import opened Bytes
  import opened Cbor

  /** Memory from `a` on starts with `s`. */
  ghost predicate Holds(m: seq<byte>, a: nat, s: seq<byte>) {
    a + |s| <= |m| && m[a..a + |s|] == s
  }

  lemma HoldsParts(m: seq<byte>, a: nat, s: seq<byte>, t: seq<byte>)
    requires Holds(m, a, s + t)
    ensures Holds(m, a, s) && Holds(m, a + |s|, t)
  {
    assert (s + t)[..|s|] == s && (s + t)[|s|..] == t;
    assert m[a..a + |s + t|][..|s|] == m[a..a + |s|];
    assert m[a..a + |s + t|][|s|..] == m[a + |s|..a + |s + t|];
  }

  function U16(x: nat): (r: nat)
    ensures x < 0x1_0000 ==> r == x
  {
    x % 0x1_0000
  }

  function MajorOf(b: byte): Major {
    b / 32
  }

  /** The head at `a`: how long it is, and its argument.  Four-byte arguments are not
      read. */
  function HeadLen(b: byte): (r: nat)
    ensures 1 <= r <= 3
  {
    if b % 32 == 24 then 2 else if b % 32 == 25 then 3 else 1
  }

  function Argument(m: seq<byte>, a: nat): nat
    requires a + 2 < |m|
  {
    if m[a] % 32 == 24 then m[a + 1] as int
    else if m[a] % 32 == 25 then m[a + 1] as int * 256 + m[a + 2]
    else m[a] % 32
  }

  lemma HeadReads(m: seq<byte>, a: nat, major: Major, v: nat)
    requires a + 2 < |m| && v <= 0xFFFF && Holds(m, a, Head(major, v))
    ensures MajorOf(m[a]) == major && HeadLen(m[a]) == |Head(major, v)| && Argument(m, a) == v
  {
    var h := Head(major, v);
    assert m[a] == m[a..a + |h|][0];
    assert |h| >= 2 ==> m[a + 1] == m[a..a + |h|][1];
    assert |h| >= 3 ==> m[a + 2] == m[a..a + |h|][2];
  }

  /** The end of an item, unless nesting runs out of stack. */
  datatype Walk = End(offset: nat) | TooDeep

  /** skip_cbor_item, with `depth` stack frames left. */
  function Skip(m: seq<byte>, a: nat, len: nat, depth: nat): (r: Walk)
    requires a + len + 2 < |m|
    ensures r.End? ==> r.offset < 0x1_0000
    decreases depth, 0
  {
    if depth == 0 then TooDeep
    else if len == 0 then End(0)
    else
      var major, h, count := MajorOf(m[a]), HeadLen(m[a]), Argument(m, a);
      if major == 2 || major == 3 then End(U16(h + count))
      else if major == 4 then SkipMany(m, a, len, h, count, depth - 1)
      else if major == 5 then SkipMany(m, a, len, h, 2 * count, depth - 1)
      else End(h)
  }

  /** `count` more items from `offset` on, or up to the end of the data. */
  function SkipMany(m: seq<byte>, a: nat, len: nat, offset: nat, count: nat, depth: nat): (r: Walk)
    requires a + len + 2 < |m| && offset < 0x1_0000
    ensures r.End? ==> r.offset < 0x1_0000
    decreases depth, count + 1
  {
    if count == 0 || len <= offset then End(offset)
    else match Skip(m, a + offset, len - offset, depth)
      case TooDeep => TooDeep
      case End(n) => SkipMany(m, a, len, U16(offset + n), count - 1, depth)
  }

  /** Every argument of a head fits 16 bits, every key of a map has its value, and nesting
      is at most `d` deep. */
  ghost predicate Small(it: Item, d: nat)
    decreases d, 0
  {
    && d >= 1
    && match it
       case UInt(v) => v <= 0xFFFF
       case NInt(v) => v <= 0xFFFF
       case ByteString(s) => |s| <= 0xFFFF
       case Text(s) => |s| <= 0xFFFF
       case Array(items) => |items| <= 0xFFFF && AllSmall(items, d - 1)
       case Map(items) => |items| % 2 == 0 && |items| / 2 <= 0xFFFF && AllSmall(items, d - 1)
       case Bool(b) => true
  }

  ghost predicate AllSmall(items: seq<Item>, d: nat)
    decreases d, 1
  {
    forall i :: 0 <= i < |items| ==> Small(items[i], d)
  }

  lemma ScalarExact(m: seq<byte>, a: nat, len: nat, depth: nat, major: Major, v: nat)
    requires a + len + 2 < |m| && 1 <= depth && 1 <= len && v <= 0xFFFF && major <= 1
    requires Holds(m, a, Head(major, v))
    ensures Skip(m, a, len, depth) == End(|Head(major, v)|)
  {
    HeadReads(m, a, major, v);
  }

  lemma StringExact(m: seq<byte>, a: nat, len: nat, depth: nat, major: Major, s: seq<byte>)
    requires a + len + 2 < |m| && 1 <= depth && 2 <= major <= 3
    requires Holds(m, a, Head(major, |s|) + s) && |Head(major, |s|) + s| <= len < 0x1_0000
    ensures Skip(m, a, len, depth) == End(|Head(major, |s|) + s|)
  {
    HoldsParts(m, a, Head(major, |s|), s);
    HeadReads(m, a, major, |s|);
  }

  lemma ContainerStarts(m: seq<byte>, a: nat, len: nat, depth: nat, major: Major, v: nat, s: seq<byte>)
    requires a + len + 2 < |m| && 1 <= depth && 4 <= major <= 5 && v <= 0xFFFF
    requires Holds(m, a, Head(major, v) + s) && |Head(major, v) + s| <= len < 0x1_0000
    ensures Holds(m, a + |Head(major, v)|, s)
    ensures Skip(m, a, len, depth)
         == SkipMany(m, a, len, |Head(major, v)|, if major == 4 then v else 2 * v, depth - 1)
  {
    HoldsParts(m, a, Head(major, v), s);
    HeadReads(m, a, major, v);
  }

  lemma LeafExact(m: seq<byte>, a: nat, len: nat, depth: nat, it: Item)
    requires a + len + 2 < |m| && Holds(m, a, Encode(it)) && |Encode(it)| <= len < 0x1_0000
    requires Small(it, depth) && !it.Array? && !it.Map?
    ensures Skip(m, a, len, depth) == End(|Encode(it)|)
  {
    match it {
      case UInt(v) => ScalarExact(m, a, len, depth, 0, v);
      case NInt(v) => ScalarExact(m, a, len, depth, 1, v);
      case ByteString(s) => StringExact(m, a, len, depth, 2, s);
      case Text(s) => StringExact(m, a, len, depth, 3, s);
      case Bool(b) => assert m[a] == m[a..a + 1][0];
    }
  }

  /** The walker finds exactly the end of what the writer wrote, whatever follows. */
  lemma {:induction false} SkipExact(m: seq<byte>, a: nat, len: nat, depth: nat, it: Item)
    requires a + len + 2 < |m| && Holds(m, a, Encode(it)) && |Encode(it)| <= len < 0x1_0000
    requires Small(it, depth)
    ensures Skip(m, a, len, depth) == End(|Encode(it)|)
    decreases depth, 0, 0
  {
    match it {
      case Array(items) =>
        ContainerExact(m, a, len, depth, 4, |items|, items);
      case Map(items) =>
        ContainerExact(m, a, len, depth, 5, |items| / 2, items);
      case _ =>
        LeafExact(m, a, len, depth, it);
    }
  }

  lemma ContainerExact(m: seq<byte>, a: nat, len: nat, depth: nat, major: Major, v: nat, items: seq<Item>)
    requires a + len + 2 < |m| && 1 <= depth && 4 <= major <= 5 && v <= 0xFFFF
    requires |items| == (if major == 4 then v else 2 * v) && AllSmall(items, depth - 1)
    requires Holds(m, a, Head(major, v) + EncodeAll(items))
    requires |Head(major, v) + EncodeAll(items)| <= len < 0x1_0000
    ensures Skip(m, a, len, depth) == End(|Head(major, v) + EncodeAll(items)|)
    decreases depth - 1, 2, 0
  {
    ContainerStarts(m, a, len, depth, major, v, EncodeAll(items));
    SkipManyExact(m, a, len, |Head(major, v)|, depth - 1, items);
  }

  lemma SkipOneOfMany(m: seq<byte>, a: nat, len: nat, offset: nat, count: nat, depth: nat, n: nat)
    requires a + len + 2 < |m| && 1 <= count && offset + n <= len < 0x1_0000 && offset < len
    requires Skip(m, a + offset, len - offset, depth) == End(n)
    ensures SkipMany(m, a, len, offset, count, depth) == SkipMany(m, a, len, offset + n, count - 1, depth)
  {
  }

  lemma {:induction false} SkipManyExact(m: seq<byte>, a: nat, len: nat, offset: nat, depth: nat, items: seq<Item>)
    requires a + len + 2 < |m| && Holds(m, a + offset, EncodeAll(items))
    requires offset + |EncodeAll(items)| <= len < 0x1_0000
    requires AllSmall(items, depth)
    ensures SkipMany(m, a, len, offset, |items|, depth) == End(offset + |EncodeAll(items)|)
    decreases depth, 1, |items|
  {
    if |items| > 0 {
      var n := |Encode(items[0])|;
      HoldsParts(m, a + offset, Encode(items[0]), EncodeAll(items[1..]));
      SkipExact(m, a + offset, len - offset, depth, items[0]);
      SkipOneOfMany(m, a, len, offset, |items|, depth, n);
      SkipManyExact(m, a, len, offset + n, depth, items[1..]);
    }
  }

  /** Line 219: the walker itself; the loops over the items of arrays and maps are one. */
  method SkipCborItem(m: seq<byte>, a: nat, len: nat, depth: nat) returns (r: Walk)
    requires a + len + 2 < |m|
    ensures r == Skip(m, a, len, depth)
    decreases depth
  {
    if depth == 0 {
      return TooDeep;
    }
    if len == 0 {
      return End(0);
    }
    var major, h, count := MajorOf(m[a]), HeadLen(m[a]), Argument(m, a);
    if major == 2 || major == 3 {
      return End(U16(h + count));
    }
    if major != 4 && major != 5 {
      return End(h);
    }
    var offset, n := h, if major == 4 then count else count * 2;
    for i := 0 to n
      invariant 0 <= offset < 0x1_0000
      invariant Skip(m, a, len, depth) == SkipMany(m, a, len, offset, n - i, depth - 1)
    {
      if offset >= len {
        return End(offset);
      }
      var w := SkipCborItem(m, a + offset, len - offset, depth - 1);
      if w.TooDeep? {
        return TooDeep;
      }
      offset := U16(offset + w.offset);
    }
    r := End(offset);
  }
}
