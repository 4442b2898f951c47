/** Looking up a text key in an encoded map. */
module CborName {
  import opened Bytes
  import opened Cbor
  import opened CborWalk
  import opened CborMap

  /** A length as the lookup keeps it: in one byte. */
  function ByteLen(n: nat): byte {
    n % 256
  }

  /** The key at `p` is a text string that equals `name`, as far as its length shows. */
  predicate NameAt(m: seq<byte>, p: nat, name: seq<byte>)
    requires p + 3 + |name| < |m|
  {
    && MajorOf(m[p]) == 3 && ByteLen(Argument(m, p)) == |name|
    && m[p + HeadLen(m[p])..p + HeadLen(m[p]) + |name|] == name
  }

  function FindName(m: seq<byte>, a: nat, len: nat, offset: nat, count: nat, name: seq<byte>, depth: nat): (r: Search)
    requires a + len + 2 + |name| < |m| && offset < 0x1_0000
    ensures r.Found? ==> r.offset < len
    decreases count
  {
    hide Skip;
    if count == 0 || len <= offset + 1 then Absent
    else match Skip(m, a + offset, len - offset, depth)
      case TooDeep => Deep
      case End(n) => FindAfterName(m, a, len, offset, n, count, name, depth)
  }

  function FindAfterName(m: seq<byte>, a: nat, len: nat, offset: nat, n: nat, count: nat, name: seq<byte>,
                         depth: nat): (r: Search)
    requires a + len + 2 + |name| < |m| && offset + 1 < len && n < 0x1_0000 && 1 <= count
    ensures r.Found? ==> r.offset < len
    decreases count, 0
  {
    hide Skip, NameAt;
    if n == 0 then Absent
    else if NameAt(m, a + offset, name) then (if len <= offset + n then Absent else Found(offset + n))
    else
      var at := U16(offset + n);
      if len <= at then Absent
      else match Skip(m, a + at, len - at, depth)
        case TooDeep => Deep
        case End(k) => FindName(m, a, len, U16(at + k), count - 1, name, depth)
  }

  function FindNameInMap(m: seq<byte>, a: nat, len: nat, name: seq<byte>, depth: nat): (r: Search)
    requires a + len + 2 + |name| < |m|
    ensures r.Found? ==> r.offset < len
  {
    hide FindName;
    if len == 0 || MajorOf(m[a]) != 5 then Absent
    else FindName(m, a, len, HeadLen(m[a]), Argument(m, a), name, depth)
  }

  /** The keys that a search for `name` stops at. */
  predicate Names(it: Item, name: seq<byte>) {
    it.Text? && ByteLen(|it.s|) == |name| && name <= it.s
  }

  /** The keys for which the answer is wrong: longer ones that start with the name and whose
      length has the same low byte, and a name too long to be found at all. */
  predicate Impostor(it: Item, name: seq<byte>) {
    if |name| <= 255 then it.Text? && 255 < |it.s| && |it.s| % 256 == |name| && name <= it.s
    else it == Text(name)
  }

  /** The test of a key is right if and only if it is none of those; keys of up to 255 bytes
      never are. */
  lemma NamesExactly(it: Item, name: seq<byte>)
    ensures (Names(it, name) <==> it == Text(name)) <==> !Impostor(it, name)
    ensures (it.Text? ==> |it.s| <= 255) ==> (Names(it, name) <==> it == Text(name))
  {
  }

  /** Such a key exists for every name that can be found. */
  lemma LongKeyIsTaken(name: seq<byte>)
    requires |name| <= 255
    ensures Names(Text(name + Zeros(256)), name) && Text(name + Zeros(256)) != Text(name)
  {
    assert |name + Zeros(256)| == |name| + 256;
  }

  function LookupName(items: seq<Item>, name: seq<byte>): Entry {
    if |items| < 2 then NoEntry
    else if Names(items[0], name) then Entry(|Encode(items[0])|, items[1])
    else match LookupName(items[2..], name)
      case NoEntry => NoEntry
      case Entry(n, v) => Entry(|Encode(items[0])| + |Encode(items[1])| + n, v)
  }

  predicate GoesWrong(items: seq<Item>, name: seq<byte>) {
    2 <= |items| && (Impostor(items[0], name) || (items[0] != Text(name) && GoesWrong(items[2..], name)))
  }

  /** A lookup in a whole map is right if and only if no such key comes before the name. */
  lemma {:induction false} LookupNameExactly(items: seq<Item>, name: seq<byte>)
    ensures LookupName(items, name) == EntryOf(items, Text(name)) <==> !GoesWrong(items, name)
  {
    hide Encode, Names, Impostor;
    if 2 <= |items| {
      NamesExactly(items[0], name);
      LookupNameExactly(items[2..], name);
      if 255 < |name| {
        NeverFound(items, name);
      } else {
        NotItself(name);
      }
    }
  }

  lemma NotItself(name: seq<byte>)
    requires |name| <= 255
    ensures !Impostor(Text(name), name)
  {
  }

  lemma {:induction false} NeverFound(items: seq<Item>, name: seq<byte>)
    requires 255 < |name|
    ensures LookupName(items, name) == NoEntry
  {
    hide Encode;
    if 2 <= |items| {
      NeverFound(items[2..], name);
    }
  }

  lemma NameReads(m: seq<byte>, p: nat, it: Item, name: seq<byte>, d: nat)
    requires p + 3 + |name| < |m| && Holds(m, p, Encode(it)) && Small(it, d)
    ensures NameAt(m, p, name) == Names(it, name)
  {
    hide Head, Argument;
    FirstByte(m, p, Encode(it));
    if it.Text? {
      var h := Head(3, |it.s|);
      HoldsParts(m, p, h, it.s);
      HeadReads(m, p, 3, |it.s|);
      if ByteLen(|it.s|) == |name| {
        assert m[p + |h|..p + |h| + |it.s|][..|name|] == m[p + |h|..p + |h| + |name|];
      }
    } else {
      NotText(it, m[p]);
    }
  }

  lemma NotText(it: Item, b: byte)
    requires !it.Text? && b == Encode(it)[0]
    ensures MajorOf(b) != 3
  {
  }

  lemma NameStep(m: seq<byte>, a: nat, len: nat, offset: nat, count: nat, name: seq<byte>, depth: nat, n: nat, k: nat)
    requires a + len + 2 + |name| < |m| && 1 <= count && offset + n + k <= len < 0x1_0000 && 1 <= n && 1 <= k
    requires Skip(m, a + offset, len - offset, depth) == End(n)
    requires Skip(m, a + offset + n, len - offset - n, depth) == End(k)
    ensures FindName(m, a, len, offset, count, name, depth)
         == if NameAt(m, a + offset, name) then Found(offset + n)
            else FindName(m, a, len, offset + n + k, count - 1, name, depth)
  {
    hide Skip, NameAt;
  }

  lemma NameMatches(items: seq<Item>, name: seq<byte>, m: seq<byte>, a: nat, offset: nat, len: nat)
    requires 2 <= |items|
    requires var n := |Encode(items[0])|;
      Holds(m, a + offset + n, Encode(items[1])) && offset + n + |Encode(items[1])| <= len
    ensures Names(items[0], name) ==>
      IsEntry(Found(offset + |Encode(items[0])|), LookupName(items, name), m, a, offset, len)
  {
    hide Encode, Names;
  }

  lemma LaterName(r: Search, items: seq<Item>, name: seq<byte>, m: seq<byte>, a: nat, offset: nat, len: nat)
    requires 2 <= |items| && !Names(items[0], name)
    requires IsEntry(r, LookupName(items[2..], name), m, a, offset + |Encode(items[0])| + |Encode(items[1])|, len)
    ensures IsEntry(r, LookupName(items, name), m, a, offset, len)
  {
    hide Encode, Names;
  }

  lemma NoNames(m: seq<byte>, a: nat, len: nat, offset: nat, name: seq<byte>, depth: nat)
    requires a + len + 2 + |name| < |m| && offset < 0x1_0000
    ensures IsEntry(FindName(m, a, len, offset, 0, name, depth), LookupName([], name), m, a, offset, len)
  {
  }

  /** A search for a text key finds the first match, exactly. */
  lemma {:induction false} FindNameExact(m: seq<byte>, a: nat, len: nat, offset: nat, items: seq<Item>, name: seq<byte>, depth: nat)
    requires a + len + 2 + |name| < |m| && Holds(m, a + offset, EncodeAll(items))
    requires offset + |EncodeAll(items)| <= len < 0x1_0000
    requires |items| % 2 == 0 && AllSmall(items, depth)
    ensures IsEntry(FindName(m, a, len, offset, |items| / 2, name, depth), LookupName(items, name), m, a, offset, len)
    decreases |items|
  {
    hide Encode, Skip, Head, NameAt, Names, IsEntry, LookupName, FindName;
    if |items| == 0 {
      NoNames(m, a, len, offset, name, depth);
    } else {
      var n, k := |Encode(items[0])|, |Encode(items[1])|;
      FirstEntry(m, a, len, offset, items, depth);
      NameStep(m, a, len, offset, |items| / 2, name, depth, n, k);
      NameReads(m, a + offset, items[0], name, depth);
      if Names(items[0], name) {
        NameMatches(items, name, m, a, offset, len);
      } else {
        FindNameExact(m, a, len, offset + n + k, items[2..], name, depth);
        LaterName(FindName(m, a, len, offset, |items| / 2, name, depth), items, name, m, a, offset, len);
      }
    }
  }

  lemma {:induction false} LookupNameSmall(items: seq<Item>, name: seq<byte>, d: nat)
    requires AllSmall(items, d)
    ensures LookupName(items, name).Entry? ==> Small(LookupName(items, name).value, d)
  {
    hide Encode, Names;
    if 2 <= |items| && !Names(items[0], name) {
      LookupNameSmall(items[2..], name, d);
    }
  }

  lemma FoundName(m: seq<byte>, a: nat, len: nat, items: seq<Item>, name: seq<byte>, depth: nat)
    requires HasMap(m, a, len, items, depth) && a + len + 2 + |name| < |m|
    ensures var e := LookupName(items, name);
      if e.NoEntry? then FindNameInMap(m, a, len, name, depth) == Absent
      else
        var p := |Head(5, |items| / 2)| + e.offset;
        && FindNameInMap(m, a, len, name, depth) == Found(p) && p + |Encode(e.value)| <= len
        && Holds(m, a + p, Encode(e.value)) && Small(e.value, depth)
  {
    hide FindName, LookupName, EncodeAll, Head;
    var h := Head(5, |items| / 2);
    HoldsParts(m, a, h, EncodeAll(items));
    HeadReads(m, a, 5, |items| / 2);
    FindNameExact(m, a, len, |h|, items, name, depth);
    LookupNameSmall(items, name, depth);
  }

  /** Lines 261-292: the loop over the entries. */
  method FindNamedEntry(m: seq<byte>, a: nat, len: nat, name: seq<byte>, depth: nat) returns (r: Search)
    requires a + len + 2 + |name| < |m|
    ensures r == FindNameInMap(m, a, len, name, depth)
  {
    hide Skip, NameAt, HeadLen, Argument;
    if len == 0 || MajorOf(m[a]) != 5 {
      return Absent;
    }
    var offset, count := HeadLen(m[a]), Argument(m, a);
    for i := 0 to count
      invariant 0 <= offset < 0x1_0000
      invariant FindNameInMap(m, a, len, name, depth) == FindName(m, a, len, offset, count - i, name, depth)
    {
      if offset + 1 >= len {
        return Absent;
      }
      var w := SkipCborItem(m, a + offset, len - offset, depth);
      if w.TooDeep? {
        return Deep;
      }
      if w.offset == 0 {
        return Absent;
      }
      if NameAt(m, a + offset, name) {
        return if offset + w.offset >= len then Absent else Found(offset + w.offset);
      }
      offset := U16(offset + w.offset);
      if offset >= len {
        return Absent;
      }
      w := SkipCborItem(m, a + offset, len - offset, depth);
      if w.TooDeep? {
        return Deep;
      }
      offset := U16(offset + w.offset);
    }
    r := Absent;
  }

  /** The string read after a search, with its length in one byte. */
  function StringFound(m: seq<byte>, a: nat, s: Search): Slice
    requires s.Found? ==> a + s.offset + 2 < |m|
  {
    var r := OnlyString(SliceFound(m, a, s));
    if r.Slice? then r.(len := ByteLen(r.len)) else r
  }

  /** cbor_map_get_string: the bytes of the string under the first matching key, with its
      length in one byte; nothing if that value is no string. */
  method GetNamedString(m: seq<byte>, a: nat, len: nat, name: seq<byte>, depth: nat, ghost items: seq<Item>)
      returns (r: Slice)
    requires a + len + 2 + |name| < |m|
    ensures r == StringFound(m, a, FindNameInMap(m, a, len, name, depth))
    ensures HasMap(m, a, len, items, depth) ==>
      var e := LookupName(items, name);
      if e.Entry? && (e.value.ByteString? || e.value.Text?)
      then r.Slice? && r.len == ByteLen(|e.value.s|) && Holds(m, r.at, e.value.s)
      else r == Null
  {
    hide LookupName, FindName, Head, ValueSlice;
    var s := FindNamedEntry(m, a, len, name, depth);
    if HasMap(m, a, len, items, depth) {
      FoundName(m, a, len, items, name, depth);
      if s.Found? {
        SliceExact(m, a + s.offset, LookupName(items, name).value, depth);
        StringMajor(m, a + s.offset);
      }
    }
    match s {
      case Deep => r := NoStack;
      case Absent => r := Null;
      case Found(p) =>
        StringMajor(m, a + p);
        var header := MajorOf(m[a + p]);
        var v := ValueSlice(m, a + p);
        r := if header == 2 || header == 3 then Slice(header, v.at, ByteLen(v.len)) else Null;
    }
  }

  lemma StringMajor(m: seq<byte>, p: nat)
    requires p + 2 < |m|
    ensures ValueSlice(m, p).Slice? && ValueSlice(m, p).major == MajorOf(m[p])
  {
  }
}
