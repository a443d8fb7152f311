/** The language the lenient decoder accepts, written as a generator: heads of any width that holds
    the argument, null or undefined, entries in any order. The parser is proved exact for it. */
module CborGrammar {
  import opened Prelude
  import opened Cbor

  // ----- heads -----

  /** A head may hold its argument in itself or in 1, 2, 4 or 8 further bytes. */
  predicate Holds(width: nat, n: nat) {
    || (width == 0 && n < 24)
    || (width == 1 && n < 0x100)
    || (width == 2 && n < 0x1_0000)
    || (width == 4 && n < 0x1_0000_0000)
    || (width == 8 && n <= MAX_UINT64)
  }

  function Info(width: nat, n: nat): (info: nat)
    requires Holds(width, n)
    ensures info < 32
  {
    match width
    case 0 => n
    case 1 => 24
    case 2 => 25
    case 4 => 26
    case _ => 27
  }

  function WriteHead(major: nat, n: Uint64, width: nat): Bytes
    requires major < 8 && Holds(width, n)
  {
    [32 * major + Info(width, n)] + BigEndian(n, width)
  }

  lemma ReadsHead(major: nat, n: Uint64, width: nat, rest: Bytes)
    requires major < 8 && Holds(width, n)
    ensures ParseHead(WriteHead(major, n, width) + rest) == Some(Head(major, n, rest))
  {
    var b := WriteHead(major, n, width) + rest;
    assert b[0] / 32 == major && b[0] % 32 == Info(width, n);
    assert b[1..1 + width] == BigEndian(n, width) && b[1 + width..] == rest;
    if width > 0 {
      assert n < Pow256(width) by { Pow256Values(); }
      BigEndianRoundTrip(n, width);
    }
  }

  lemma HeadRead(b: Bytes, head: Head) returns (width: nat)
    requires ParseHead(b) == Some(head)
    ensures Holds(width, head.n) && b == WriteHead(head.major, head.n, width) + head.rest
  {
    var info := b[0] % 32;
    width := if info < 24 then 0 else if info == 24 then 1 else if info == 25 then 2 else if info == 26 then 4 else 8;
    HeadHolds(b, head, width);
    BigEndianOfValue(b[1..1 + width]);
    assert b == [b[0]] + b[1..1 + width] + b[1 + width..];
  }

  lemma HeadHolds(b: Bytes, head: Head, width: nat)
    requires ParseHead(b) == Some(head)
    requires var info := b[0] % 32;
             width == if info < 24 then 0 else if info == 24 then 1 else if info == 25 then 2 else if info == 26 then 4 else 8
    ensures Holds(width, head.n) && Info(width, head.n) == b[0] % 32
    ensures 1 + width <= |b| && head.rest == b[1 + width..] && (width > 0 ==> head.n == BigEndianValue(b[1..1 + width]))
    ensures head.major == b[0] / 32
  {
    Pow256Values();
  }

  // ----- items -----

  /** An item and how it is written. */
  datatype RawItem = RawItem(item: Item, width: nat, undefined: bool)

  predicate Writable(r: RawItem) {
    match r.item
    case UInt(n) => Holds(r.width, n)
    case BStr(s) => Holds(r.width, |s|)
    case TStr(t) => Holds(r.width, |t|) && ValidUtf8(t)
    case Null => true
  }

  function WriteItem(r: RawItem): Bytes
    requires Writable(r)
  {
    match r.item
    case UInt(n) => WriteHead(0, n, r.width)
    case BStr(s) => WriteHead(2, |s|, r.width) + s
    case TStr(t) => WriteHead(3, |t|, r.width) + t
    case Null => [if r.undefined then 0xF7 else 0xF6]
  }

  lemma ReadsString(major: nat, s: Bytes, width: nat, rest: Bytes)
    requires major < 7 && Holds(width, |s|)
    ensures var b := WriteHead(major, |s|, width) + s + rest;
            ParseHead(b) == Some(Head(major, |s|, s + rest)) && b[0] < 0xE0
  {
    ReadsHead(major, |s|, width, s + rest);
    assert WriteHead(major, |s|, width) + s + rest == WriteHead(major, |s|, width) + (s + rest);
  }

  /** A head of a string type and enough bytes after it are a string. */
  lemma StringParses(b: Bytes, major: nat, s: Bytes, rest: Bytes)
    requires |s| <= MAX_UINT64 && b != [] && b[0] < 0xE0 && ParseHead(b) == Some(Head(major, |s|, s + rest))
    ensures major == 2 ==> ParseItem(b) == Some((BStr(s), rest))
    ensures major == 3 && ValidUtf8(s) ==> ParseItem(b) == Some((TStr(s), rest))
  {
    assert (s + rest)[..|s|] == s && (s + rest)[|s|..] == rest;
  }

  lemma ReadsUInt(n: Uint64, width: nat, rest: Bytes)
    requires Holds(width, n)
    ensures ParseItem(WriteHead(0, n, width) + rest) == Some((UInt(n), rest))
  {
    ReadsHead(0, n, width, rest);
    assert (WriteHead(0, n, width) + rest)[0] < 0x20;
  }

  lemma ReadsContent(major: nat, s: Bytes, width: nat, rest: Bytes)
    requires Holds(width, |s|) && (major == 2 || (major == 3 && ValidUtf8(s)))
    ensures ParseItem(WriteHead(major, |s|, width) + s + rest) == Some((if major == 2 then BStr(s) else TStr(s), rest))
  {
    ReadsString(major, s, width, rest);
    StringParses(WriteHead(major, |s|, width) + s + rest, major, s, rest);
  }

  lemma ReadsItem(r: RawItem, rest: Bytes)
    requires Writable(r)
    ensures ParseItem(WriteItem(r) + rest) == Some((r.item, rest))
  {
    match r.item
    case Null => assert (WriteItem(r) + rest)[1..] == rest;
    case UInt(n) => ReadsUInt(n, r.width, rest);
    case BStr(s) => ReadsContent(2, s, r.width, rest);
    case TStr(t) => ReadsContent(3, t, r.width, rest);
  }

  /** What an item that is not null is made of. */
  lemma ItemParts(b: Bytes, item: Item, rest: Bytes, head: Head, body: Bytes)
    requires ParseItem(b) == Some((item, rest)) && b[0] != 0xF6 && b[0] != 0xF7 && ParseHead(b) == Some(head)
    requires body == if head.major != 0 && head.n <= |head.rest| then head.rest[..head.n] else []
    ensures head.rest == body + rest
    ensures || (head.major == 0 && item == UInt(head.n) && body == [])
            || (head.major == 2 && item == BStr(body) && |body| == head.n)
            || (head.major == 3 && item == TStr(body) && |body| == head.n && ValidUtf8(body))
  {
  }

  lemma ItemRead(b: Bytes, item: Item, rest: Bytes) returns (r: RawItem)
    requires ParseItem(b) == Some((item, rest))
    ensures Writable(r) && r.item == item && b == WriteItem(r) + rest
  {
    if b[0] == 0xF6 || b[0] == 0xF7 {
      r := RawItem(Null, 0, b[0] == 0xF7);
      assert b == [b[0]] + b[1..];
    } else {
      var head := ParseHead(b).value;
      var body := if head.major != 0 && head.n <= |head.rest| then head.rest[..head.n] else [];
      ItemParts(b, item, rest, head, body);
      var width := HeadRead(b, head);
      r := RawItem(item, width, false);
      Regroup(WriteHead(head.major, head.n, width), body, rest);
    }
  }

  lemma Regroup(a: Bytes, b: Bytes, c: Bytes)
    ensures a + (b + c) == (a + b) + c
  {
  }

  // ----- entries -----

  datatype RawEntry = RawEntry(key: Uint64, keyWidth: nat, raw: RawItem)

  predicate EntryWritable(e: RawEntry) {
    Holds(e.keyWidth, e.key) && Writable(e.raw)
  }

  ghost predicate AllWritable(rs: seq<RawEntry>) {
    forall i :: 0 <= i < |rs| ==> EntryWritable(rs[i])
  }

  ghost predicate KeysDiffer(rs: seq<RawEntry>) {
    forall i, j :: 0 <= i < j < |rs| ==> rs[i].key != rs[j].key
  }

  function WriteEntries(rs: seq<RawEntry>): Bytes
    requires AllWritable(rs)
  {
    if rs == [] then []
    else WriteHead(0, rs[0].key, rs[0].keyWidth) + (WriteItem(rs[0].raw) + WriteEntries(rs[1..]))
  }

  /** `es` are the entries of `rs`, ordered by key. */
  ghost predicate Orders(es: seq<Entry>, rs: seq<RawEntry>) {
    && KeysAscend(es) && |es| == |rs|
    && (forall i :: 0 <= i < |rs| ==> Entry(rs[i].key, rs[i].raw.item) in es)
    && (forall e :: e in es ==> exists i :: 0 <= i < |rs| && rs[i].key == e.key && rs[i].raw.item == e.item)
  }

  lemma {:induction false} AddsIfAbsent(e: Entry, es: seq<Entry>)
    requires KeysAscend(es)
    ensures AddEntry(e, es).Some? <==> forall i :: 0 <= i < |es| ==> es[i].key != e.key
    ensures AddEntry(e, es).Some? ==> forall x :: x in AddEntry(e, es).value <==> x == e || x in es
  {
    if es != [] && e.key > es[0].key {
      AddsIfAbsent(e, es[1..]);
      assert es == [es[0]] + es[1..];
    }
  }

  lemma OrdersFront(r: RawEntry, rs: seq<RawEntry>, es: seq<Entry>)
    requires Orders(es, rs)
    ensures AddEntry(Entry(r.key, r.raw.item), es).Some? <==> forall i :: 0 <= i < |rs| ==> rs[i].key != r.key
    ensures AddEntry(Entry(r.key, r.raw.item), es).Some? ==> Orders(AddEntry(Entry(r.key, r.raw.item), es).value, [r] + rs)
  {
    var e := Entry(r.key, r.raw.item);
    AddsIfAbsent(e, es);
    KeysOfOrders(rs, es, r.key);
    if AddEntry(e, es).Some? {
      AddEntryExact(e, es);
      OrdersExtended(r, rs, es, AddEntry(e, es).value);
    }
  }

  lemma KeysOfOrders(rs: seq<RawEntry>, es: seq<Entry>, key: Uint64)
    requires Orders(es, rs)
    ensures (forall i :: 0 <= i < |es| ==> es[i].key != key) <==> (forall i :: 0 <= i < |rs| ==> rs[i].key != key)
  {
    forall i | 0 <= i < |es| && es[i].key == key ensures exists j :: 0 <= j < |rs| && rs[j].key == key {
      assert es[i] in es;
    }
  }

  lemma OrdersExtended(r: RawEntry, rs: seq<RawEntry>, es: seq<Entry>, all: seq<Entry>)
    requires Orders(es, rs) && KeysAscend(all) && |all| == |es| + 1
    requires forall x :: x in all <==> x == Entry(r.key, r.raw.item) || x in es
    ensures Orders(all, [r] + rs)
  {
    var next := [r] + rs;
    assert forall i :: 0 <= i < |rs| ==> next[i + 1] == rs[i];
    forall e | e in all ensures exists i :: 0 <= i < |next| && next[i].key == e.key && next[i].raw.item == e.item {
      if e in es {
        var i :| 0 <= i < |rs| && rs[i].key == e.key && rs[i].raw.item == e.item;
        assert next[i + 1] == rs[i];
      } else {
        assert next[0] == r;
      }
    }
    forall i | 0 <= i < |next| ensures Entry(next[i].key, next[i].raw.item) in all {
      if i > 0 { assert next[i] == rs[i - 1]; }
    }
  }

  lemma KeysDifferFront(rs: seq<RawEntry>)
    requires rs != []
    ensures KeysDiffer(rs) <==> KeysDiffer(rs[1..]) && forall i :: 0 <= i < |rs[1..]| ==> rs[1..][i].key != rs[0].key
  {
    assert forall i :: 0 <= i < |rs| - 1 ==> rs[1..][i] == rs[i + 1];
    if KeysDiffer(rs[1..]) && forall i :: 0 <= i < |rs[1..]| ==> rs[1..][i].key != rs[0].key {
      forall i, j | 0 <= i < j < |rs| ensures rs[i].key != rs[j].key {
        assert rs[j] == rs[1..][j - 1];
        if i > 0 { assert rs[i] == rs[1..][i - 1]; }
      }
    }
  }

  /** How a writing of entries is read: ordered, or refused for a repeated key. */
  ghost predicate ReadAs(r: Option<(seq<Entry>, Bytes)>, rs: seq<RawEntry>, rest: Bytes) {
    if KeysDiffer(rs) then r.Some? && r.value.1 == rest && Orders(r.value.0, rs) else r.None?
  }

  lemma ReadAsFront(first: RawEntry, later: seq<RawEntry>, rs: seq<RawEntry>, r: Option<(seq<Entry>, Bytes)>, rest: Bytes)
    requires rs != [] && rs[0] == first && rs[1..] == later && ReadAs(r, later, rest)
    ensures ReadAs(AddTo(Entry(first.key, first.raw.item), r), rs, rest)
  {
    KeysDifferFront(rs);
    if KeysDiffer(later) {
      OrdersFront(first, later, r.value.0);
      assert [first] + later == rs;
    }
  }

  lemma {:induction false} ReadsEntries(rs: seq<RawEntry>, n: nat, rest: Bytes)
    requires AllWritable(rs) && n == |rs|
    ensures ReadAs(ParseEntries(n, WriteEntries(rs) + rest), rs, rest)
    decreases n
  {
    if n == 0 {
      assert WriteEntries(rs) + rest == rest;
    } else {
      var m, first, later := n - 1, rs[0], rs[1..];
      ReadsEntries(later, m, rest);
      ReadsFirst(rs, n, m, rest);
      ReadAsFront(first, later, rs, ParseEntries(m, WriteEntries(later) + rest), rest);
    }
  }

  lemma ReadsFirst(rs: seq<RawEntry>, n: nat, m: nat, rest: Bytes)
    requires AllWritable(rs) && n == |rs| == m + 1
    ensures ParseEntries(n, WriteEntries(rs) + rest) ==
            AddTo(Entry(rs[0].key, rs[0].raw.item), ParseEntries(m, WriteEntries(rs[1..]) + rest))
  {
    var first, afterItem := rs[0], WriteEntries(rs[1..]) + rest;
    var afterKey := WriteItem(first.raw) + afterItem;
    assert WriteEntries(rs) + rest == WriteHead(0, first.key, first.keyWidth) + afterKey;
    ReadsHead(0, first.key, first.keyWidth, afterKey);
    ReadsItem(first.raw, afterItem);
    ParseEntriesUnfold(n, m, WriteEntries(rs) + rest, Head(0, first.key, afterKey), first.raw.item, afterItem);
  }

  lemma ParseEntriesUnfold(n: nat, m: nat, b: Bytes, head: Head, item: Item, rest: Bytes)
    requires n == m + 1 && ParseHead(b) == Some(head) && head.major == 0 && ParseItem(head.rest) == Some((item, rest))
    ensures ParseEntries(n, b) == AddTo(Entry(head.n, item), ParseEntries(m, rest))
  {
    assert n - 1 == m;
  }

  /** And whatever is read was such a writing. */
  lemma {:induction false} EntriesRead(n: nat, b: Bytes) returns (rs: seq<RawEntry>)
    requires ParseEntries(n, b).Some?
    ensures |rs| == n && AllWritable(rs) && KeysDiffer(rs)
    ensures b == WriteEntries(rs) + ParseEntries(n, b).value.1 && Orders(ParseEntries(n, b).value.0, rs)
  {
    if n == 0 {
      rs := [];
      assert WriteEntries(rs) + b == b;
    } else {
      var head := ParseHead(b).value;
      var (item, rest) := ParseItem(head.rest).value;
      var m := n - 1;
      ParseEntriesUnfold(n, m, b, head, item, rest);
      var later := EntriesRead(m, rest);
      var keyWidth := HeadRead(b, head);
      var raw := ItemRead(head.rest, item, rest);
      var first := RawEntry(head.n, keyWidth, raw);
      rs := [first] + later;
      OrdersFront(first, later, ParseEntries(m, rest).value.0);
      WritesFront(first, later, rs, b, head.rest, rest, ParseEntries(m, rest).value.1);
      KeysDifferFront(rs);
    }
  }

  lemma WritesFront(first: RawEntry, later: seq<RawEntry>, rs: seq<RawEntry>, b: Bytes, afterKey: Bytes, afterItem: Bytes, tail: Bytes)
    requires EntryWritable(first) && AllWritable(later) && rs == [first] + later
    requires b == WriteHead(0, first.key, first.keyWidth) + afterKey && afterKey == WriteItem(first.raw) + afterItem
    requires afterItem == WriteEntries(later) + tail
    ensures AllWritable(rs) && rs[0] == first && rs[1..] == later && b == WriteEntries(rs) + tail
  {
    assert WriteEntries(rs) == WriteHead(0, first.key, first.keyWidth) + (WriteItem(first.raw) + WriteEntries(later));
  }

  // ----- maps -----

  /** A map of up to sixteen entries with different keys, and nothing after it. */
  ghost predicate WritesMap(b: Bytes, rs: seq<RawEntry>, width: nat) {
    && |rs| <= MAX_MAP_PAIRS && AllWritable(rs) && KeysDiffer(rs) && Holds(width, |rs|)
    && b == WriteHead(5, |rs|, width) + WriteEntries(rs)
  }

  lemma ReadsMap(b: Bytes, rs: seq<RawEntry>, width: nat)
    requires WritesMap(b, rs, width)
    ensures ParseMap(b).Some? && Orders(ParseMap(b).value, rs)
  {
    ReadsHead(5, |rs|, width, WriteEntries(rs));
    ReadsEntries(rs, |rs|, []);
    assert WriteEntries(rs) + [] == WriteEntries(rs);
  }

  lemma MapRead(b: Bytes) returns (rs: seq<RawEntry>, width: nat)
    requires ParseMap(b).Some?
    ensures WritesMap(b, rs, width) && Orders(ParseMap(b).value, rs)
  {
    var head := ParseHead(b).value;
    width := HeadRead(b, head);
    rs := EntriesRead(head.n, head.rest);
    assert WriteEntries(rs) + [] == WriteEntries(rs);
  }

  lemma {:induction false} AscendingUnique(a: seq<Entry>, b: seq<Entry>)
    requires KeysAscend(a) && KeysAscend(b) && |a| == |b| && forall e :: e in a ==> e in b
    requires forall e :: e in b ==> e in a
    ensures a == b
  {
    if a != [] {
      assert a[0] in b && b[0] in a;
      assert a[0] == b[0];
      assert a == [a[0]] + a[1..] && b == [b[0]] + b[1..];
      forall e | e in a[1..] ensures e in b[1..] { assert e in a && e != a[0]; }
      forall e | e in b[1..] ensures e in a[1..] { assert e in b && e != b[0]; }
      AscendingUnique(a[1..], b[1..]);
    }
  }

  lemma OrdersUnique(a: seq<Entry>, b: seq<Entry>, rs: seq<RawEntry>)
    requires Orders(a, rs) && Orders(b, rs)
    ensures a == b
  {
    forall e | e in a ensures e in b {
      var i :| 0 <= i < |rs| && rs[i].key == e.key && rs[i].raw.item == e.item;
      assert Entry(rs[i].key, rs[i].raw.item) == e;
    }
    forall e | e in b ensures e in a {
      var i :| 0 <= i < |rs| && rs[i].key == e.key && rs[i].raw.item == e.item;
      assert Entry(rs[i].key, rs[i].raw.item) == e;
    }
    AscendingUnique(a, b);
  }

  /** The parser returns exactly the entries, ordered by key, of whatever writing of a map it is
      given; bytes that are no such writing it refuses. */
  lemma ParseMapExact(b: Bytes, es: seq<Entry>)
    ensures ParseMap(b) == Some(es) <==> exists rs, width :: WritesMap(b, rs, width) && Orders(es, rs)
  {
    if ParseMap(b) == Some(es) { var rs, width := MapRead(b); }
    if rs, width :| WritesMap(b, rs, width) && Orders(es, rs) {
      ReadsMap(b, rs, width);
      OrdersUnique(es, ParseMap(b).value, rs);
    }
  }

  // ----- structs -----

  /** What a field holds after decoding: the value under its number, or the zero value if there is
      none or it is null. */
  ghost predicate FieldIs(es: seq<Entry>, i: nat, kind: Kind, value: Item) {
    && ((forall e :: e in es ==> e.key != i) ==> Zero(kind, value))
    && (forall e :: e in es && e.key == i ==> if e.item.Null? then Zero(kind, value) else value == e.item && OfKind(value, kind))
  }

  ghost predicate Zero(kind: Kind, value: Item) {
    match kind
    case UIntField => value == UInt(0)
    case BytesField => value == Null
    case TextField => value == TStr([])
  }

  lemma FieldExact(es: seq<Entry>, i: nat, kind: Kind, value: Item)
    requires KeysAscend(es)
    ensures FieldIs(es, i, kind, value) <==> FieldFor(es, kind, i) == Some(value)
  {
    if Lookup(es, i).Some? {
      var j :| 0 <= j < |es| && es[j].key == i && es[j].item == Lookup(es, i).value;
      forall e | e in es && e.key == i ensures e == es[j] {
        var k :| 0 <= k < |es| && es[k] == e;
      }
      assert es[j] in es;
    } else {
      forall e | e in es ensures e.key != i {
        var k :| 0 <= k < |es| && es[k] == e;
      }
    }
  }

  lemma {:induction false} FieldsExact(es: seq<Entry>, schema: seq<Kind>, from: nat, w: seq<Item>)
    requires KeysAscend(es) && from <= |schema| == |w|
    ensures DecodeFields(es, schema, from) == Some(w[from..]) <==> FieldsAre(es, schema, from, w)
    decreases |schema| - from
  {
    if from < |schema| {
      var next := from + 1;
      FieldExact(es, from, schema[from], w[from]);
      FieldsExact(es, schema, next, w);
      FieldsFront(es, schema, from, next, w);
      assert w[from..] == [w[from]] + w[next..];
      DecodeStep(es, schema, from, next, w[from], w[next..]);
    } else {
      assert w[from..] == [];
    }
  }

  lemma DecodeStep(es: seq<Entry>, schema: seq<Kind>, from: nat, next: nat, x: Item, rest: seq<Item>)
    requires from < |schema| && next == from + 1
    ensures DecodeFields(es, schema, from) == Some([x] + rest) <==>
            FieldFor(es, schema[from], from) == Some(x) && DecodeFields(es, schema, next) == Some(rest)
  {
    var field, later := FieldFor(es, schema[from], from), DecodeFields(es, schema, next);
    if DecodeFields(es, schema, from) == Some([x] + rest) { SameCons(x, rest, field.value, later.value); }
  }

  lemma SameCons(x: Item, xs: seq<Item>, y: Item, ys: seq<Item>)
    requires [x] + xs == [y] + ys
    ensures x == y && xs == ys
  {
    assert ([x] + xs)[0] == x && ([x] + xs)[1..] == xs && ([y] + ys)[0] == y && ([y] + ys)[1..] == ys;
  }

  ghost predicate FieldsAre(es: seq<Entry>, schema: seq<Kind>, from: nat, w: seq<Item>)
    requires |schema| == |w|
  {
    forall i :: from <= i < |w| ==> FieldIs(es, i, schema[i], w[i])
  }

  lemma FieldsFront(es: seq<Entry>, schema: seq<Kind>, from: nat, next: nat, w: seq<Item>)
    requires from < |schema| == |w| && next == from + 1
    ensures FieldsAre(es, schema, from, w) <==> FieldIs(es, from, schema[from], w[from]) && FieldsAre(es, schema, next, w)
  {
  }

  ghost predicate Decodes(schema: seq<Kind>, w: seq<Item>, es: seq<Entry>, rs: seq<RawEntry>) {
    && Orders(es, rs) && (forall i :: 0 <= i < |rs| ==> rs[i].key < |schema|)
    && |w| == |schema| && FieldsAre(es, schema, 0, w)
  }

  lemma DecodesExact(schema: seq<Kind>, w: seq<Item>, es: seq<Entry>, rs: seq<RawEntry>)
    requires Orders(es, rs)
    ensures Decodes(schema, w, es, rs) <==>
            !(exists i :: 0 <= i < |es| && es[i].key >= |schema|) && DecodeFields(es, schema, 0) == Some(w)
  {
    KnownKeys(es, rs, |schema|);
    if |w| == |schema| {
      FieldsExact(es, schema, 0, w);
      assert w[0..] == w;
    }
  }

  /** The lenient decoder, said of the bytes: some writing of a map all of whose keys the schema
      knows, with each field as that map says. */
  lemma UnmarshalExact(b: Bytes, schema: seq<Kind>, w: seq<Item>)
    ensures Unmarshal(b, schema) == Some(w) <==>
            exists rs, width, es :: WritesMap(b, rs, width) && Decodes(schema, w, es, rs)
  {
    if Unmarshal(b, schema) == Some(w) {
      var rs, width := MapRead(b);
      DecodesExact(schema, w, ParseMap(b).value, rs);
    }
    if rs, width, es :| WritesMap(b, rs, width) && Decodes(schema, w, es, rs) {
      ReadsMap(b, rs, width);
      OrdersUnique(es, ParseMap(b).value, rs);
      DecodesExact(schema, w, es, rs);
    }
  }

  lemma KnownKeys(es: seq<Entry>, rs: seq<RawEntry>, n: nat)
    requires Orders(es, rs)
    ensures (forall i :: 0 <= i < |rs| ==> rs[i].key < n) <==> !exists i :: 0 <= i < |es| && es[i].key >= n
  {
    forall i | 0 <= i < |es| && es[i].key >= n ensures exists j :: 0 <= j < |rs| && rs[j].key >= n {
      assert es[i] in es;
    }
    forall j | 0 <= j < |rs| && rs[j].key >= n ensures exists i :: 0 <= i < |es| && es[i].key >= n {
      assert Entry(rs[j].key, rs[j].raw.item) in es;
    }
  }
}
