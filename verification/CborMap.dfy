/** Looking up an integer or text key in an encoded map. */
module CborMap {
  import opened Bytes
  import opened Cbor
  import opened CborWalk

  /** A key asked for: k, or -k. */
  datatype Key = Pos(k: byte) | Neg(k: byte)

  /** The key at `p` is the one asked for.  A key in two bytes reads as 0, and a negative
      key is recognised by its first byte, into which the code folds those up to -64. */
  predicate KeyAt(m: seq<byte>, p: nat, key: Key)
    requires p + 2 < |m|
  {
    match key
    case Pos(k) =>
      MajorOf(m[p]) == 0 && k == (if HeadLen(m[p]) == 1 then m[p] % 32 else if HeadLen(m[p]) == 2 then m[p + 1] else 0)
    case Neg(k) =>
      MajorOf(m[p]) == 1 && 1 <= k <= 64 && m[p] % 32 == (k - 1) % 32
  }

  datatype Search = Found(offset: nat) | Absent | Deep

  /** Where the value of the first matching key starts, among `count` entries from
      `offset` on. */
  function Find(m: seq<byte>, a: nat, len: nat, offset: nat, count: nat, key: Key, depth: nat): (r: Search)
    requires a + len + 2 < |m| && offset < 0x1_0000
    ensures r.Found? ==> r.offset < len
    decreases count
  {
    if count == 0 || len <= offset then Absent
    else match Skip(m, a + offset, len - offset, depth)
      case TooDeep => Deep
      case End(n) => FindAfterKey(m, a, len, offset, U16(offset + n), count, key, depth)
  }

  function FindAfterKey(m: seq<byte>, a: nat, len: nat, offset: nat, at: nat, count: nat, key: Key, depth: nat): (r: Search)
    requires a + len + 2 < |m| && offset < len && at < 0x1_0000 && 1 <= count
    ensures r.Found? ==> r.offset < len
    decreases count, 0
  {
    if len <= at then Absent
    else if KeyAt(m, a + offset, key) then Found(at)
    else match Skip(m, a + at, len - at, depth)
      case TooDeep => Deep
      case End(n) => Find(m, a, len, U16(at + n), count - 1, key, depth)
  }

  /** The first entry of a map. */
  function FindInMap(m: seq<byte>, a: nat, len: nat, key: Key, depth: nat): (r: Search)
    requires a + len + 2 < |m|
    ensures r.Found? ==> r.offset < len
  {
    if len == 0 || MajorOf(m[a]) != 5 then Absent
    else Find(m, a, len, HeadLen(m[a]), Argument(m, a), key, depth)
  }

  /** The keys that a search for `key` stops at. */
  predicate Matches(it: Item, key: Key) {
    match key
    case Pos(k) => it.UInt? && k == (if it.v <= 0xFF then it.v else 0)
    case Neg(k) => it.NInt? && 1 <= k <= 64 && Head(1, it.v)[0] % 32 == (k - 1) % 32
  }

  /** For the keys that are in use there is no surprise. */
  lemma MatchesExactly(it: Item, key: Key)
    ensures key.Pos? && 0 < key.k ==> (Matches(it, key) <==> it == UInt(key.k))
    ensures key.Neg? && 1 <= key.k <= 24 ==> (Matches(it, key) <==> it == NInt(key.k - 1))
    ensures key == Pos(0) ==> (Matches(it, key) <==> it == UInt(0) || (it.UInt? && 0xFF < it.v))
  {
  }

  /** The item that a key stands for. */
  function KeyItem(key: Key): Item
    requires key != Neg(0)
  {
    match key
    case Pos(k) => UInt(k)
    case Neg(k) => NInt(k - 1)
  }

  predicate InUse(key: Key) {
    match key
    case Pos(k) => 0 < k
    case Neg(k) => 1 <= k <= 24
  }

  /** Exactly the keys from 1 to 255 and from -1 to -24 are told from all others. */
  lemma OnlyItself(key: Key)
    requires key != Neg(0)
    ensures (forall it :: Matches(it, key) <==> it == KeyItem(key)) <==> InUse(key)
  {
    if !InUse(key) {
      assert Pos(0) == key ==> Matches(UInt(256), key);
      assert Neg(25) == key ==> Matches(NInt(25), key);
      assert Neg(57) == key ==> Matches(NInt(24), key);
      assert key.Neg? && key.k != 25 && key.k != 57 ==> !Matches(KeyItem(key), key);
    }
  }

  datatype Entry = Entry(offset: nat, value: Item) | NoEntry

  /** The value of the first matching key in the list, and how many bytes come before it. */
  function Lookup(items: seq<Item>, key: Key): Entry {
    if |items| < 2 then NoEntry
    else if Matches(items[0], key) then Entry(|Encode(items[0])|, items[1])
    else match Lookup(items[2..], key)
      case NoEntry => NoEntry
      case Entry(n, v) => Entry(|Encode(items[0])| + |Encode(items[1])| + n, v)
  }

  /** What a lookup should find: the first entry whose key is the item `k`. */
  function EntryOf(items: seq<Item>, k: Item): (r: Entry)
    ensures r.Entry? ==> 0 < r.offset
  {
    if |items| < 2 then NoEntry
    else if items[0] == k then Entry(|Encode(items[0])|, items[1])
    else match EntryOf(items[2..], k)
      case NoEntry => NoEntry
      case Entry(n, v) => Entry(|Encode(items[0])| + |Encode(items[1])| + n, v)
  }

  /** A key that is taken for `key` comes before `key` itself. */
  predicate StopsEarly(items: seq<Item>, key: Key)
    requires key != Neg(0)
  {
    2 <= |items| && items[0] != KeyItem(key) && (Matches(items[0], key) || StopsEarly(items[2..], key))
  }

  /** A lookup of a positive key in a whole map is right if and only if no other key is taken
      for it before it. */
  lemma {:induction false} LookupExactly(items: seq<Item>, key: Key)
    requires key.Pos?
    ensures Lookup(items, key) == EntryOf(items, KeyItem(key)) <==> !StopsEarly(items, key)
  {
    hide Encode;
    if 2 <= |items| {
      LookupExactly(items[2..], key);
    }
  }

  /** For the keys in use that never happens. */
  lemma {:induction false} LookupInUse(items: seq<Item>, key: Key)
    requires InUse(key)
    ensures Lookup(items, key) == EntryOf(items, KeyItem(key))
  {
    hide Encode, Matches;
    if 2 <= |items| {
      MatchesExactly(items[0], key);
      LookupInUse(items[2..], key);
    }
  }

  lemma FirstByte(m: seq<byte>, p: nat, s: seq<byte>)
    requires Holds(m, p, s) && 1 <= |s|
    ensures p < |m| && m[p] == s[0] && (|s| >= 2 ==> m[p + 1] == s[1])
  {
    assert m[p] == m[p..p + |s|][0];
    assert |s| >= 2 ==> m[p + 1] == m[p..p + |s|][1];
  }

  lemma KeyReads(m: seq<byte>, p: nat, it: Item, key: Key, d: nat)
    requires p + 2 < |m| && Holds(m, p, Encode(it)) && Small(it, d)
    ensures KeyAt(m, p, key) == Matches(it, key)
  {
    FirstByte(m, p, Encode(it));
    match it {
      case UInt(v) => HeadReads(m, p, 0, v);
      case NInt(v) => HeadReads(m, p, 1, v);
      case _ => NotANumberHead(it, m[p]);
    }
  }

  lemma NotANumberHead(it: Item, b: byte)
    requires !it.UInt? && !it.NInt? && b == Encode(it)[0]
    ensures MajorOf(b) >= 2
  {
  }

  /** One entry of the map, read. */
  lemma FindStep(m: seq<byte>, a: nat, len: nat, offset: nat, count: nat, key: Key, depth: nat, n: nat, n': nat)
    requires a + len + 2 < |m| && 1 <= count && offset + n + n' <= len < 0x1_0000 && 1 <= n && 1 <= n'
    requires Skip(m, a + offset, len - offset, depth) == End(n)
    requires Skip(m, a + offset + n, len - offset - n, depth) == End(n')
    ensures Find(m, a, len, offset, count, key, depth)
         == if KeyAt(m, a + offset, key) then Found(offset + n)
            else Find(m, a, len, offset + n + n', count - 1, key, depth)
  {
  }

  /** The search result `r` is the entry `e` of the list of entries encoded at `offset`. */
  ghost predicate IsEntry(r: Search, e: Entry, m: seq<byte>, a: nat, offset: nat, len: nat) {
    match e
    case NoEntry => r == Absent
    case Entry(n, value) =>
      r == Found(offset + n) && Holds(m, a + offset + n, Encode(value)) && offset + n + |Encode(value)| <= len
  }

  /** Both items of the first entry, read. */
  lemma FirstEntry(m: seq<byte>, a: nat, len: nat, offset: nat, items: seq<Item>, depth: nat)
    requires 2 <= |items| && a + len + 2 < |m| && Holds(m, a + offset, EncodeAll(items))
    requires offset + |EncodeAll(items)| <= len < 0x1_0000 && AllSmall(items, depth)
    ensures var n, n' := |Encode(items[0])|, |Encode(items[1])|;
      && Holds(m, a + offset, Encode(items[0])) && Holds(m, a + offset + n, Encode(items[1]))
      && Holds(m, a + offset + n + n', EncodeAll(items[2..])) && offset + n + n' + |EncodeAll(items[2..])| <= len
      && Skip(m, a + offset, len - offset, depth) == End(n)
      && Skip(m, a + offset + n, len - offset - n, depth) == End(n')
  {
    hide Encode, EncodeAll, Skip, Head;
    TwoItems(m, a + offset, items);
    SkipExact(m, a + offset, len - offset, depth, items[0]);
    SkipExact(m, a + offset + |Encode(items[0])|, len - offset - |Encode(items[0])|, depth, items[1]);
  }

  lemma LaterEntry(r: Search, items: seq<Item>, key: Key, m: seq<byte>, a: nat, offset: nat, len: nat)
    requires 2 <= |items| && !Matches(items[0], key)
    requires IsEntry(r, Lookup(items[2..], key), m, a, offset + |Encode(items[0])| + |Encode(items[1])|, len)
    ensures IsEntry(r, Lookup(items, key), m, a, offset, len)
  {
  }

  lemma MatchingEntry(items: seq<Item>, key: Key, m: seq<byte>, a: nat, offset: nat, len: nat)
    requires 2 <= |items| && Matches(items[0], key)
    requires var n := |Encode(items[0])|;
      Holds(m, a + offset + n, Encode(items[1])) && offset + n + |Encode(items[1])| <= len
    ensures IsEntry(Found(offset + |Encode(items[0])|), Lookup(items, key), m, a, offset, len)
  {
  }

  lemma NothingToFind(m: seq<byte>, a: nat, len: nat, offset: nat, key: Key, depth: nat)
    requires a + len + 2 < |m| && offset < 0x1_0000
    ensures IsEntry(Find(m, a, len, offset, 0, key, depth), Lookup([], key), m, a, offset, len)
  {
  }

  /** A search in an encoded list of entries finds the first match, exactly. */
  lemma {:induction false} FindExact(m: seq<byte>, a: nat, len: nat, offset: nat, items: seq<Item>, key: Key, depth: nat)
    requires a + len + 2 < |m| && Holds(m, a + offset, EncodeAll(items))
    requires offset + |EncodeAll(items)| <= len < 0x1_0000
    requires |items| % 2 == 0 && AllSmall(items, depth)
    ensures IsEntry(Find(m, a, len, offset, |items| / 2, key, depth), Lookup(items, key), m, a, offset, len)
    decreases |items|
  {
    hide Encode, Skip, Head, KeyAt, Matches, IsEntry, Lookup, Find;
    if |items| == 0 {
      NothingToFind(m, a, len, offset, key, depth);
    } else {
      var n, n' := |Encode(items[0])|, |Encode(items[1])|;
      FirstEntry(m, a, len, offset, items, depth);
      FindStep(m, a, len, offset, |items| / 2, key, depth, n, n');
      KeyReads(m, a + offset, items[0], key, depth);
      if Matches(items[0], key) {
        MatchingEntry(items, key, m, a, offset, len);
      } else {
        FindExact(m, a, len, offset + n + n', items[2..], key, depth);
        LaterEntry(Find(m, a, len, offset, |items| / 2, key, depth), items, key, m, a, offset, len);
      }
    }
  }

  lemma EncodeTwo(items: seq<Item>)
    requires 2 <= |items|
    ensures EncodeAll(items) == Encode(items[0]) + (Encode(items[1]) + EncodeAll(items[2..]))
  {
    hide Encode;
    assert items[1..][1..] == items[2..];
  }

  lemma TwoItems(m: seq<byte>, p: nat, items: seq<Item>)
    requires 2 <= |items| && Holds(m, p, EncodeAll(items))
    ensures var n, n' := |Encode(items[0])|, |Encode(items[1])|;
      && Holds(m, p, Encode(items[0])) && Holds(m, p + n, Encode(items[1]))
      && Holds(m, p + n + n', EncodeAll(items[2..])) && |EncodeAll(items)| == n + n' + |EncodeAll(items[2..])|
  {
    hide Encode, EncodeAll;
    var x, y, z := Encode(items[0]), Encode(items[1]), EncodeAll(items[2..]);
    EncodeTwo(items);
    HoldsParts(m, p, x, y + z);
    HoldsParts(m, p + |x|, y, z);
  }

  /** The same for a whole encoded map, the header included. */
  lemma FindInMapExact(m: seq<byte>, a: nat, len: nat, items: seq<Item>, key: Key, depth: nat)
    requires a + len + 2 < |m| && Holds(m, a, Encode(Map(items))) && |Encode(Map(items))| <= len < 0x1_0000
    requires Small(Map(items), depth + 1)
    ensures IsEntry(FindInMap(m, a, len, key, depth), Lookup(items, key), m, a, |Head(5, |items| / 2)|, len)
  {
    hide Find, Lookup, IsEntry, EncodeAll, Head;
    var h := Head(5, |items| / 2);
    HoldsParts(m, a, h, EncodeAll(items));
    HeadReads(m, a, 5, |items| / 2);
    FindExact(m, a, len, |h|, items, key, depth);
  }

  /** The loop shared by get_cbor_map_value, get_cbor_map_int, get_cbor_map_item and
      get_cbor_map_neg_value. */
  method FindEntry(m: seq<byte>, a: nat, len: nat, key: Key, depth: nat) returns (r: Search)
    requires a + len + 2 < |m|
    ensures r == FindInMap(m, a, len, key, depth)
  {
    hide Skip, KeyAt, HeadLen, Argument;
    if len == 0 || MajorOf(m[a]) != 5 {
      return Absent;
    }
    var offset, count := HeadLen(m[a]), Argument(m, a);
    for i := 0 to count
      invariant 0 <= offset < 0x1_0000
      invariant FindInMap(m, a, len, key, depth) == Find(m, a, len, offset, count - i, key, depth)
    {
      if offset >= len {
        return Absent;
      }
      var isKey := KeyAt(m, a + offset, key);
      var w := SkipCborItem(m, a + offset, len - offset, depth);
      if w.TooDeep? {
        return Deep;
      }
      offset := U16(offset + w.offset);
      if offset >= len {
        return Absent;
      }
      if isKey {
        return Found(offset);
      }
      w := SkipCborItem(m, a + offset, len - offset, depth);
      if w.TooDeep? {
        return Deep;
      }
      offset := U16(offset + w.offset);
    }
    r := Absent;
  }

  /** A piece of memory, with the major type of the item it belongs to. */
  datatype Slice = Slice(major: Major, at: nat, len: nat) | Null | NoStack

  /** What get_cbor_map_value makes of the value found: what follows its head, and the
      argument of the head as the length. */
  function ValueSlice(m: seq<byte>, p: nat): Slice
    requires p + 2 < |m|
  {
    Slice(MajorOf(m[p]), p + HeadLen(m[p]), Argument(m, p))
  }

  lemma SliceAfterHead(m: seq<byte>, p: nat, major: Major, v: nat, s: seq<byte>)
    requires p + 2 < |m| && v <= 0xFFFF && Holds(m, p, Head(major, v) + s)
    ensures ValueSlice(m, p) == Slice(major, p + |Head(major, v)|, v)
    ensures Holds(m, ValueSlice(m, p).at, s)
  {
    HoldsParts(m, p, Head(major, v), s);
    HeadReads(m, p, major, v);
  }

  /** `r` describes the value: the bytes of a string, the number, or the items of an array
      or a map with their count. */
  ghost predicate Describes(m: seq<byte>, r: Slice, value: Item) {
    && r.Slice?
    && match value
       case ByteString(s) => r.major == 2 && r.len == |s| && Holds(m, r.at, s)
       case Text(s) => r.major == 3 && r.len == |s| && Holds(m, r.at, s)
       case UInt(v) => r.major == 0 && r.len == v
       case NInt(v) => r.major == 1 && r.len == v
       case Array(items) => r.major == 4 && r.len == |items| && Holds(m, r.at, EncodeAll(items))
       case Map(items) => r.major == 5 && r.len == |items| / 2 && Holds(m, r.at, EncodeAll(items))
       case Bool(b) => r.major == 7 && r.len == if b then 21 else 20
  }

  lemma SliceExact(m: seq<byte>, p: nat, value: Item, d: nat)
    requires p + 2 < |m| && Holds(m, p, Encode(value)) && Small(value, d)
    ensures Describes(m, ValueSlice(m, p), value)
  {
    hide Head, EncodeAll, ValueSlice, Holds, HeadLen, Argument, MajorOf;
    match value
    case UInt(v) => assert Head(0, v) + [] == Head(0, v); SliceAfterHead(m, p, 0, v, []);
    case NInt(v) => assert Head(1, v) + [] == Head(1, v); SliceAfterHead(m, p, 1, v, []);
    case ByteString(s) => SliceAfterHead(m, p, 2, |s|, s);
    case Text(s) => SliceAfterHead(m, p, 3, |s|, s);
    case Array(items) => SliceAfterHead(m, p, 4, |items|, EncodeAll(items));
    case Map(items) => SliceAfterHead(m, p, 5, |items| / 2, EncodeAll(items));
    case Bool(b) => BoolSlice(m, p, b);
  }

  lemma BoolSlice(m: seq<byte>, p: nat, b: bool)
    requires p + 2 < |m| && Holds(m, p, Encode(Bool(b)))
    ensures ValueSlice(m, p) == Slice(7, p + 1, if b then 21 else 20)
  {
    FirstByte(m, p, Encode(Bool(b)));
  }

  /** The data at `a` starts with an encoded map, small enough for the walkers. */
  ghost predicate HasMap(m: seq<byte>, a: nat, len: nat, items: seq<Item>, depth: nat) {
    && a + len + 2 < |m| && Holds(m, a, Encode(Map(items))) && |Encode(Map(items))| <= len < 0x1_0000
    && Small(Map(items), depth + 1)
  }

  /** The value of the first matching key is small, and lies where the search says. */
  lemma FoundValue(m: seq<byte>, a: nat, len: nat, items: seq<Item>, key: Key, depth: nat)
    requires HasMap(m, a, len, items, depth)
    ensures var e := Lookup(items, key);
      if e.NoEntry? then FindInMap(m, a, len, key, depth) == Absent
      else
        var p := |Head(5, |items| / 2)| + e.offset;
        && FindInMap(m, a, len, key, depth) == Found(p) && p + |Encode(e.value)| <= len
        && Holds(m, a + p, Encode(e.value)) && Small(e.value, depth)
  {
    hide Find, Encode, Head;
    FindInMapExact(m, a, len, items, key, depth);
    LookupSmall(items, key, depth);
  }

  lemma {:induction false} LookupSmall(items: seq<Item>, key: Key, d: nat)
    requires AllSmall(items, d)
    ensures Lookup(items, key).Entry? ==> Small(Lookup(items, key).value, d)
  {
    hide Encode, Matches;
    if 2 <= |items| && !Matches(items[0], key) {
      LookupSmall(items[2..], key, d);
    }
  }

  /** What is read from memory after a search, whatever the data. */
  function SliceFound(m: seq<byte>, a: nat, s: Search): Slice
    requires s.Found? ==> a + s.offset + 2 < |m|
  {
    match s
    case Deep => NoStack
    case Absent => Null
    case Found(p) => ValueSlice(m, a + p)
  }

  /** get_cbor_map_value, and get_cbor_map_neg_value for a negative key. */
  method GetMapValue(m: seq<byte>, a: nat, len: nat, key: Key, depth: nat, ghost items: seq<Item>) returns (r: Slice)
    requires a + len + 2 < |m|
    ensures r == SliceFound(m, a, FindInMap(m, a, len, key, depth))
    ensures HasMap(m, a, len, items, depth) ==>
      var e := Lookup(items, key);
      if e.Entry? then Describes(m, r, e.value) else r == Null
  {
    hide Lookup, Describes, ValueSlice, Find, Head;
    var s := FindEntry(m, a, len, key, depth);
    if HasMap(m, a, len, items, depth) {
      FoundValue(m, a, len, items, key, depth);
      if s.Found? {
        SliceExact(m, a + s.offset, Lookup(items, key).value, depth);
      }
    }
    r := SliceFound(m, a, s);
  }

  /** Byte and text strings only. */
  function OnlyString(r: Slice): Slice {
    if r.Slice? && r.major != 2 && r.major != 3 then Null else r
  }

  /** get_cbor_map_string. */
  method GetMapString(m: seq<byte>, a: nat, len: nat, key: Key, depth: nat, ghost items: seq<Item>) returns (r: Slice)
    requires a + len + 2 < |m|
    ensures r == OnlyString(SliceFound(m, a, FindInMap(m, a, len, key, depth)))
    ensures HasMap(m, a, len, items, depth) ==>
      var e := Lookup(items, key);
      if e.Entry? && (e.value.ByteString? || e.value.Text?)
      then r.Slice? && r.len == |e.value.s| && Holds(m, r.at, e.value.s)
      else r == Null
  {
    hide Lookup, Holds, HasMap, FindInMap;
    r := GetMapValue(m, a, len, key, depth, items);
    if r.Slice? && r.major != 2 && r.major != 3 {
      r := Null;
    }
  }

  datatype Number = Number(v: nat) | NotANumber | NoStackLeft

  /** The number read after a search, of up to two bytes. */
  function NumberFound(m: seq<byte>, a: nat, s: Search): Number
    requires s.Found? ==> a + s.offset + 2 < |m|
  {
    match s
    case Deep => NoStackLeft
    case Absent => NotANumber
    case Found(p) =>
      if MajorOf(m[a + p]) != 0 || 25 < m[a + p] % 32 then NotANumber else Number(Argument(m, a + p))
  }

  /** get_cbor_map_int. */
  method GetMapInt(m: seq<byte>, a: nat, len: nat, key: Key, depth: nat, ghost items: seq<Item>) returns (r: Number)
    requires a + len + 2 < |m|
    ensures r == NumberFound(m, a, FindInMap(m, a, len, key, depth))
    ensures HasMap(m, a, len, items, depth) ==>
      var e := Lookup(items, key);
      r == if e.Entry? && e.value.UInt? then Number(e.value.v) else NotANumber
  {
    hide Lookup, Find, HasMap, Holds;
    var s := FindEntry(m, a, len, key, depth);
    if HasMap(m, a, len, items, depth) {
      FoundValue(m, a, len, items, key, depth);
      if s.Found? {
        IntReads(m, a + s.offset, Lookup(items, key).value, depth);
      }
    }
    match s {
      case Deep => r := NoStackLeft;
      case Absent => r := NotANumber;
      case Found(p) =>
        var header := m[a + p];
        if MajorOf(header) != 0 || 25 < header % 32 {
          r := NotANumber;
        } else {
          r := Number(Argument(m, a + p));
        }
    }
  }

  lemma IntReads(m: seq<byte>, p: nat, value: Item, d: nat)
    requires p + 2 < |m| && Holds(m, p, Encode(value)) && Small(value, d)
    ensures if value.UInt? then MajorOf(m[p]) == 0 && m[p] % 32 <= 25 && Argument(m, p) == value.v
      else MajorOf(m[p]) != 0
  {
    FirstByte(m, p, Encode(value));
    match value {
      case UInt(v) => HeadReads(m, p, 0, v);
      case NInt(v) => HeadReads(m, p, 1, v);
      case _ => NotANumberHead(value, m[p]);
    }
  }

  /** get_cbor_map_item, for a key that is there: the whole encoded value, head included.
      The original has no result for an absent key. */
  method GetMapItem(m: seq<byte>, a: nat, len: nat, key: Key, depth: nat, ghost items: seq<Item>)
      returns (at: nat, itemLen: nat)
    requires HasMap(m, a, len, items, depth) && Lookup(items, key).Entry?
    ensures at == a + |Head(5, |items| / 2)| + Lookup(items, key).offset
    ensures itemLen == |Encode(Lookup(items, key).value)| && Holds(m, at, Encode(Lookup(items, key).value))
  {
    hide Lookup, Find, Holds, Encode, Head;
    var s := FindEntry(m, a, len, key, depth);
    FoundValue(m, a, len, items, key, depth);
    at := a + s.offset;
    SkipExact(m, at, len - s.offset, depth, Lookup(items, key).value);
    var w := SkipCborItem(m, at, len - s.offset, depth);
    itemLen := w.offset;
  }
}
