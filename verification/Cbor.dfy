/** The CBOR subset of the protocol: unsigned integers, byte and text strings, null, and
    maps keyed by unsigned integers (sections 3 and 4.2.1 of RFC 8949). The parser accepts
    any head width and any key order, as the decoder does; canonical form is enforced, as in
    the source, by encoding again and comparing. */
module Cbor {
  import opened Prelude

  const MAX_MAP_PAIRS: nat := 16

  datatype Item = UInt(n: Uint64) | BStr(bytes: Bytes) | TStr(text: Bytes) | Null

  datatype Entry = Entry(key: Uint64, item: Item)

  /** The Go type of a struct field: `uint64`, `[]byte` (null when nil) or `string`. */
  datatype Kind = UIntField | BytesField | TextField

  // ----- UTF-8 -----

  predicate Continuation(b: Byte) { 0x80 <= b <= 0xBF }

  /** How many bytes the well-formed UTF-8 character at index `i` takes; 0 if there is none. */
  function CharWidth(b: Bytes, i: nat): (w: nat)
    requires i < |b|
    ensures i + w <= |b|
  {
    var b0, left := b[i], |b| - i;
    if b0 < 0x80 then 1
    else if left < 2 then 0
    else if 0xC2 <= b0 <= 0xDF then (if Continuation(b[i + 1]) then 2 else 0)
    else if left < 3 || !Continuation(b[i + 1]) || !Continuation(b[i + 2]) then 0
    else if 0xE0 <= b0 <= 0xEF then
      (if (b0 == 0xE0 && b[i + 1] < 0xA0) || (b0 == 0xED && b[i + 1] > 0x9F) then 0 else 3)
    else if left < 4 || !Continuation(b[i + 3]) then 0
    else if 0xF0 <= b0 <= 0xF4 then
      (if (b0 == 0xF0 && b[i + 1] < 0x90) || (b0 == 0xF4 && b[i + 1] > 0x8F) then 0 else 4)
    else 0
  }

  predicate Utf8From(b: Bytes, i: nat)
    requires i <= |b|
    decreases |b| - i
  {
    i == |b| || (CharWidth(b, i) > 0 && Utf8From(b, i + CharWidth(b, i)))
  }

  predicate ValidUtf8(b: Bytes) {
    Utf8From(b, 0)
  }

  lemma {:induction false} AsciiFrom(b: Bytes, i: nat)
    requires i <= |b|
    requires forall j :: 0 <= j < |b| ==> b[j] < 0x80
    ensures Utf8From(b, i)
    decreases |b| - i
  {
    if i < |b| { AsciiFrom(b, i + 1); }
  }

  lemma AsciiIsUtf8(b: Bytes)
    requires forall i :: 0 <= i < |b| ==> b[i] < 0x80
    ensures ValidUtf8(b)
  {
    AsciiFrom(b, 0);
  }

  /** A Unicode scalar value: any code point but a surrogate. */
  predicate Scalar(n: nat) {
    n < 0xD800 || 0xE000 <= n < 0x11_0000
  }

  /** The UTF-8 form of a character (section 3 of RFC 3629): lead bits, then six bits a byte. */
  function EncodeChar(n: nat): Bytes
    requires Scalar(n)
  {
    if n < 0x80 then [n]
    else if n < 0x800 then [0xC0 + n / 0x40, Six(n)]
    else if n < 0x1_0000 then [0xE0 + n / 0x1000, Six(n / 0x40), Six(n)]
    else [0xF0 + n / 0x4_0000, Six(n / 0x1000), Six(n / 0x40), Six(n)]
  }

  function Six(n: nat): Byte { 0x80 + n % 0x40 }

  ghost predicate AllScalar(text: seq<nat>) {
    forall i :: 0 <= i < |text| ==> Scalar(text[i])
  }

  function EncodeText(text: seq<nat>): Bytes
    requires AllScalar(text)
  {
    if text == [] then [] else EncodeChar(text[0]) + EncodeText(text[1..])
  }

  /** Which bytes the form of a character has. */
  lemma CharForm(n: nat)
    requires Scalar(n)
    ensures var c := EncodeChar(n);
            && 1 <= |c| <= 4 && (|c| == 1 ==> c[0] < 0x80) && (|c| == 2 ==> 0xC2 <= c[0] <= 0xDF)
            && (|c| == 3 ==> 0xE0 <= c[0] <= 0xEF && (c[0] == 0xE0 ==> c[1] >= 0xA0) && (c[0] == 0xED ==> c[1] <= 0x9F))
            && (|c| == 4 ==> 0xF0 <= c[0] <= 0xF4 && (c[0] == 0xF0 ==> c[1] >= 0x90) && (c[0] == 0xF4 ==> c[1] <= 0x8F))
            && forall i :: 1 <= i < |c| ==> Continuation(c[i])
  {
  }

  lemma EncodedWidth(n: nat, b: Bytes, i: nat)
    requires Scalar(n) && i + |EncodeChar(n)| <= |b| && b[i..i + |EncodeChar(n)|] == EncodeChar(n)
    ensures CharWidth(b, i) == |EncodeChar(n)|
  {
    CharForm(n);
    FormWidth(EncodeChar(n), b, i);
  }

  lemma FormWidth(c: Bytes, b: Bytes, i: nat)
    requires 1 <= |c| <= 4 && i + |c| <= |b| && b[i..i + |c|] == c
    requires (|c| == 1 ==> c[0] < 0x80) && (|c| == 2 ==> 0xC2 <= c[0] <= 0xDF)
    requires |c| == 3 ==> 0xE0 <= c[0] <= 0xEF && (c[0] == 0xE0 ==> c[1] >= 0xA0) && (c[0] == 0xED ==> c[1] <= 0x9F)
    requires |c| == 4 ==> 0xF0 <= c[0] <= 0xF4 && (c[0] == 0xF0 ==> c[1] >= 0x90) && (c[0] == 0xF4 ==> c[1] <= 0x8F)
    requires forall j :: 1 <= j < |c| ==> Continuation(c[j])
    ensures CharWidth(b, i) == |c|
  {
    assert b[i] == c[0];
    assert |c| > 1 ==> b[i + 1] == c[1];
    assert |c| > 2 ==> b[i + 2] == c[2];
    assert |c| > 3 ==> b[i + 3] == c[3];
  }

  lemma TwoBytes(x: Byte, y: Byte) returns (n: nat)
    requires 0xC2 <= x <= 0xDF && Continuation(y)
    ensures Scalar(n) && EncodeChar(n) == [x, y]
  {
    n := (x - 0xC0) * 0x40 + (y - 0x80);
  }

  lemma ThreeBytes(x: Byte, y: Byte, z: Byte) returns (n: nat)
    requires 0xE0 <= x <= 0xEF && Continuation(y) && Continuation(z)
    requires (x == 0xE0 ==> y >= 0xA0) && (x == 0xED ==> y <= 0x9F)
    ensures Scalar(n) && EncodeChar(n) == [x, y, z]
  {
    n := (x - 0xE0) * 0x1000 + (y - 0x80) * 0x40 + (z - 0x80);
    assert n / 0x40 == (x - 0xE0) * 0x40 + (y - 0x80);
  }

  lemma FourBytes(w: Byte, x: Byte, y: Byte, z: Byte) returns (n: nat)
    requires 0xF0 <= w <= 0xF4 && Continuation(x) && Continuation(y) && Continuation(z)
    requires (w == 0xF0 ==> x >= 0x90) && (w == 0xF4 ==> x <= 0x8F)
    ensures Scalar(n) && EncodeChar(n) == [w, x, y, z]
  {
    n := (w - 0xF0) * 0x4_0000 + (x - 0x80) * 0x1000 + (y - 0x80) * 0x40 + (z - 0x80);
    assert n / 0x40 == (w - 0xF0) * 0x1000 + (x - 0x80) * 0x40 + (y - 0x80);
    assert n / 0x1000 == (w - 0xF0) * 0x40 + (x - 0x80);
  }

  lemma WidthEncodes(b: Bytes, i: nat) returns (n: nat)
    requires i < |b| && CharWidth(b, i) > 0
    ensures Scalar(n) && EncodeChar(n) == b[i..i + CharWidth(b, i)]
  {
    var w := CharWidth(b, i);
    if w == 1 {
      n := b[i];
    } else if w == 2 {
      n := TwoBytes(b[i], b[i + 1]);
    } else if w == 3 {
      n := ThreeBytes(b[i], b[i + 1], b[i + 2]);
    } else {
      n := FourBytes(b[i], b[i + 1], b[i + 2], b[i + 3]);
    }
  }

  lemma SplitAt(b: Bytes, i: nat, next: nat, c: Bytes, rest: Bytes)
    requires i <= |b| && b[i..] == c + rest && next == i + |c|
    ensures next <= |b| && b[i..next] == c && b[next..] == rest
  {
    assert b[i..next] == b[i..][..|c|] && b[next..] == b[i..][|c|..];
  }

  lemma {:induction false} TextIsUtf8(b: Bytes, i: nat, text: seq<nat>)
    requires i <= |b| && AllScalar(text) && b[i..] == EncodeText(text)
    ensures Utf8From(b, i)
    decreases |text|
  {
    if text != [] {
      var next := i + |EncodeChar(text[0])|;
      SplitAt(b, i, next, EncodeChar(text[0]), EncodeText(text[1..]));
      EncodedWidth(text[0], b, i);
      TextIsUtf8(b, next, text[1..]);
    }
  }

  lemma {:induction false} Utf8IsText(b: Bytes, i: nat) returns (text: seq<nat>)
    requires i <= |b| && Utf8From(b, i)
    ensures AllScalar(text) && EncodeText(text) == b[i..]
    decreases |b| - i
  {
    if i == |b| {
      text := [];
    } else {
      var w := CharWidth(b, i);
      var n := WidthEncodes(b, i);
      var rest := Utf8IsText(b, i + w);
      text := [n] + rest;
      assert text[1..] == rest && b[i..] == b[i..i + w] + b[i + w..];
    }
  }

  /** What the validity check accepts is exactly the encodings of sequences of scalar values. */
  lemma Utf8Exact(b: Bytes)
    ensures ValidUtf8(b) <==> exists text :: AllScalar(text) && EncodeText(text) == b
  {
    assert b[0..] == b;
    if ValidUtf8(b) { var text := Utf8IsText(b, 0); }
    if text :| AllScalar(text) && EncodeText(text) == b { TextIsUtf8(b, 0, text); }
  }

  // ----- heads -----

  /** The shortest head: major type and argument. */
  function EncodeHead(major: nat, n: nat): (b: Bytes)
    requires major < 8
    ensures |b| == HeadSize(n)
  {
    [32 * major + HeadInfo(n)] + BigEndian(n, HeadSize(n) - 1)
  }

  function HeadSize(n: nat): (size: nat)
    ensures 1 <= size <= 9
  {
    if n < 24 then 1 else if n < 0x100 then 2 else if n < 0x1_0000 then 3
    else if n < 0x1_0000_0000 then 5 else 9
  }

  function HeadInfo(n: nat): (info: nat)
    ensures info <= 27
  {
    if n < 24 then n else if n < 0x100 then 24 else if n < 0x1_0000 then 25
    else if n < 0x1_0000_0000 then 26 else 27
  }

  datatype Head = Head(major: nat, n: Uint64, rest: Bytes)

  function ParseHead(b: Bytes): (r: Option<Head>)
    ensures r.Some? ==> r.value.major < 8 && |r.value.rest| < |b|
  {
    if b == [] then None
    else
      var major, info := b[0] / 32, b[0] % 32;
      if info < 24 then Some(Head(major, info, b[1..]))
      else if info > 27 then None
      else
        var width := if info == 24 then 1 else if info == 25 then 2 else if info == 26 then 4 else 8;
        if |b| < 1 + width then None
        else
          Pow256Values();
          Some(Head(major, BigEndianValue(b[1..1 + width]), b[1 + width..]))
  }

  /** The five head forms of section 3 of RFC 8949, each with the smallest arguments it is for. */
  lemma HeadForms(major: nat, n: Uint64)
    requires major < 8
    ensures var b := EncodeHead(major, n);
            && (n < 24 ==> b == [32 * major + n])
            && (24 <= n < 0x100 ==> b == [32 * major + 24, n])
            && (0x100 <= n < 0x1_0000 ==> b == [32 * major + 25, n / 0x100, n % 0x100])
            && (0x1_0000 <= n < 0x1_0000_0000 ==> |b| == 5 && b[0] == 32 * major + 26 && BigEndianValue(b[1..]) == n)
            && (0x1_0000_0000 <= n ==> |b| == 9 && b[0] == 32 * major + 27 && BigEndianValue(b[1..]) == n)
  {
    if n >= 24 {
      assert n < Pow256(HeadSize(n) - 1) by { Pow256Values(); }
      BigEndianRoundTrip(n, HeadSize(n) - 1);
    }
    assert BigEndian(n, 0) == [];
  }

  lemma Pow256Values()
    ensures Pow256(1) == 0x100 && Pow256(2) == 0x1_0000 && Pow256(4) == 0x1_0000_0000
    ensures Pow256(8) == MAX_UINT64 + 1
  {
    assert Pow256(3) == 0x100_0000;
    assert Pow256(5) == 0x100_0000_0000 && Pow256(6) == 0x1_0000_0000_0000 && Pow256(7) == 0x100_0000_0000_0000;
  }

  lemma ParseEncodeHead(major: nat, n: Uint64, rest: Bytes)
    requires major < 8
    ensures ParseHead(EncodeHead(major, n) + rest) == Some(Head(major, n, rest))
  {
    var b, width := EncodeHead(major, n) + rest, HeadSize(n) - 1;
    assert b[0] / 32 == major && b[0] % 32 == HeadInfo(n);
    assert b[1..1 + width] == BigEndian(n, width);
    assert b[1 + width..] == rest;
    if n >= 24 {
      assert n < Pow256(width) by { Pow256Values(); }
      BigEndianRoundTrip(n, width);
    }
  }

  /** Ordering keys as numbers is ordering their encodings bytewise, which is what section
      4.2.1 of RFC 8949 asks of map keys. */
  lemma KeyOrderIsBytewise(a: Uint64, b: Uint64)
    ensures a < b <==> BytesLess(EncodeHead(0, a), EncodeHead(0, b))
  {
    var x, y := EncodeHead(0, a), EncodeHead(0, b);
    assert x[1..] == BigEndian(a, HeadSize(a) - 1) && y[1..] == BigEndian(b, HeadSize(b) - 1);
    if HeadInfo(a) == HeadInfo(b) && a >= 24 {
      var width := HeadSize(a) - 1;
      assert a < Pow256(width) && b < Pow256(width) by { Pow256Values(); }
      BigEndianRoundTrip(a, width);
      BigEndianRoundTrip(b, width);
      BytesLessIsNumeric(x[1..], y[1..]);
    }
  }

  // ----- items -----

  function EncodeItem(item: Item): (b: Bytes)
    ensures |b| == ItemSize(item)
  {
    match item
    case UInt(n) => EncodeHead(0, n)
    case BStr(s) => EncodeString(2, s)
    case TStr(t) => EncodeString(3, t)
    case Null => [0xF6]
  }

  function ItemSize(item: Item): nat {
    match item
    case UInt(n) => HeadSize(n)
    case BStr(s) => HeadSize(|s|) + |s|
    case TStr(t) => HeadSize(|t|) + |t|
    case Null => 1
  }

  /** Lengths fit a head, as every Go length does. */
  predicate Sized(item: Item) {
    match item
    case BStr(s) => |s| <= MAX_UINT64
    case TStr(t) => |t| <= MAX_UINT64
    case _ => true
  }

  /** Items the decoder gives back: text is UTF-8. The encoder does not check. */
  predicate Decodable(item: Item) {
    Sized(item) && (item.TStr? ==> ValidUtf8(item.text))
  }

  /** One item. The decoder reads `undefined`, 0xF7, as it reads null; the encoder never writes it. */
  function ParseItem(b: Bytes): (r: Option<(Item, Bytes)>)
    ensures r.Some? ==> Decodable(r.value.0) && |r.value.1| < |b|
  {
    if b != [] && (b[0] == 0xF6 || b[0] == 0xF7) then Some((Null, b[1..]))
    else
      match ParseHead(b)
      case None => None
      case Some(head) =>
        if head.major == 0 then Some((UInt(head.n), head.rest))
        else if head.n > |head.rest| then None
        else
          var body, rest := head.rest[..head.n], head.rest[head.n..];
          if head.major == 2 then Some((BStr(body), rest))
          else if head.major == 3 && ValidUtf8(body) then Some((TStr(body), rest))
          else None
  }

  /** A string: its length as the head of major type 2 or 3, then its bytes. */
  function EncodeString(major: nat, s: Bytes): Bytes
    requires major < 8
  {
    EncodeHead(major, |s|) + s
  }

  lemma ParseEncodeString(major: nat, s: Bytes, rest: Bytes)
    requires major < 7 && |s| <= MAX_UINT64
    ensures var b := EncodeString(major, s) + rest;
            ParseHead(b) == Some(Head(major, |s|, s + rest)) && b != [] && b[0] < 0xE0
  {
    ParseEncodeHead(major, |s|, s + rest);
    assert EncodeString(major, s) + rest == EncodeHead(major, |s|) + (s + rest);
    assert (EncodeString(major, s) + rest)[0] == EncodeHead(major, |s|)[0];
  }

  lemma ParseEncodeItem(item: Item, rest: Bytes)
    requires Decodable(item)
    ensures ParseItem(EncodeItem(item) + rest) == Some((item, rest))
  {
    match item
    case Null =>
      assert (EncodeItem(item) + rest)[1..] == rest;
    case UInt(n) =>
      ParseEncodeHead(0, n, rest);
    case BStr(s) =>
      ParseEncodeString(2, s, rest);
      assert (s + rest)[..|s|] == s && (s + rest)[|s|..] == rest;
    case TStr(t) =>
      ParseEncodeString(3, t, rest);
      assert (t + rest)[..|t|] == t && (t + rest)[|t|..] == rest;
  }

  // ----- maps -----

  ghost predicate KeysAscend(es: seq<Entry>) {
    forall i, j :: 0 <= i < j < |es| ==> es[i].key < es[j].key
  }

  function EncodeEntries(es: seq<Entry>): (b: Bytes)
    ensures |b| == EntriesSize(es)
  {
    if es == [] then []
    else EncodeHead(0, es[0].key) + EncodeItem(es[0].item) + EncodeEntries(es[1..])
  }

  function EntriesSize(es: seq<Entry>): nat {
    if es == [] then 0
    else HeadSize(es[0].key) + ItemSize(es[0].item) + EntriesSize(es[1..])
  }

  /** `Marshal` of a map whose entries are listed by ascending key. */
  function EncodeMap(es: seq<Entry>): (b: Bytes) {
    EncodeHead(5, |es|) + EncodeEntries(es)
  }

  /** Put an entry into a key-ordered list; None when its key is already there. */
  function AddEntry(e: Entry, es: seq<Entry>): (r: Option<seq<Entry>>) {
    if es == [] || e.key < es[0].key then Some([e] + es)
    else if e.key == es[0].key then None
    else
      match AddEntry(e, es[1..])
      case None => None
      case Some(rest) => Some([es[0]] + rest)
  }

  lemma {:induction false} AddEntryExact(e: Entry, es: seq<Entry>)
    requires KeysAscend(es)
    ensures var r := AddEntry(e, es);
            r.Some? ==>
              && KeysAscend(r.value) && |r.value| == |es| + 1
              && forall i :: 0 <= i < |r.value| ==> r.value[i] == e || r.value[i] in es
  {
    if es != [] && e.key > es[0].key && AddEntry(e, es).Some? {
      AddEntryExact(e, es[1..]);
      var rest := AddEntry(e, es[1..]).value;
      forall i | 0 <= i < |rest| ensures rest[i].key > es[0].key && (rest[i] == e || rest[i] in es) {
        if rest[i] != e {
          var j :| 0 <= j < |es[1..]| && es[1..][j] == rest[i];
          assert es[j + 1] == rest[i];
        }
      }
    }
  }

  function AddTo(e: Entry, later: Option<(seq<Entry>, Bytes)>): (r: Option<(seq<Entry>, Bytes)>) {
    if later.None? then None
    else
      match AddEntry(e, later.value.0)
      case None => None
      case Some(all) => Some((all, later.value.1))
  }

  /** `count` key-value pairs, in any order but without a repeated key, ordered by key. */
  function ParseEntries(count: nat, b: Bytes): (r: Option<(seq<Entry>, Bytes)>) {
    if count == 0 then Some(([], b))
    else
      match ParseHead(b)
      case None => None
      case Some(head) =>
        if head.major != 0 then None
        else
          match ParseItem(head.rest)
          case None => None
          case Some((item, rest)) => AddTo(Entry(head.n, item), ParseEntries(count - 1, rest))
  }

  lemma {:induction false} ParseEntriesExact(count: nat, b: Bytes)
    ensures var r := ParseEntries(count, b);
            r.Some? ==> KeysAscend(r.value.0) && |r.value.0| == count && forall e :: e in r.value.0 ==> Decodable(e.item)
  {
    if count > 0 && ParseEntries(count, b).Some? {
      var head := ParseHead(b).value;
      var (item, rest) := ParseItem(head.rest).value;
      ParseEntriesExact(count - 1, rest);
      AddEntryExact(Entry(head.n, item), ParseEntries(count - 1, rest).value.0);
    }
  }

  /** `Unmarshal` into a generic map: one map, nothing after it. */
  function ParseMap(b: Bytes): (r: Option<seq<Entry>>) {
    match ParseHead(b)
    case None => None
    case Some(head) =>
      if head.major != 5 || head.n > MAX_MAP_PAIRS then None
      else
        match ParseEntries(head.n, head.rest)
        case None => None
        case Some((es, tail)) => if tail == [] then Some(es) else None
  }

  lemma ParseMapDecodable(b: Bytes)
    requires ParseMap(b).Some?
    ensures forall e :: e in ParseMap(b).value ==> Decodable(e.item)
  {
    var head := ParseHead(b).value;
    ParseEntriesExact(head.n, head.rest);
  }

  lemma ParseEntriesStep(count: nat, b: Bytes, e: Entry, afterKey: Bytes, afterItem: Bytes, es: seq<Entry>, tail: Bytes)
    requires ParseHead(b) == Some(Head(0, e.key, afterKey))
    requires ParseItem(afterKey) == Some((e.item, afterItem))
    requires ParseEntries(count, afterItem) == Some((es, tail))
    requires es == [] || e.key < es[0].key
    ensures ParseEntries(count + 1, b) == Some(([e] + es, tail))
  {
  }

  lemma EncodeEntriesFront(es: seq<Entry>, rest: Bytes)
    requires es != []
    ensures EncodeEntries(es) + rest ==
            EncodeHead(0, es[0].key) + (EncodeItem(es[0].item) + (EncodeEntries(es[1..]) + rest))
  {
    ConcatAssoc(EncodeHead(0, es[0].key), EncodeItem(es[0].item), EncodeEntries(es[1..]), rest);
  }

  lemma ConcatAssoc(a: Bytes, b: Bytes, c: Bytes, d: Bytes)
    ensures a + b + c + d == a + (b + (c + d))
  {
  }

  lemma ParseFront(e: Entry, tail: Bytes)
    requires Decodable(e.item)
    ensures var afterKey := EncodeItem(e.item) + tail;
            ParseHead(EncodeHead(0, e.key) + afterKey) == Some(Head(0, e.key, afterKey)) &&
            ParseItem(afterKey) == Some((e.item, tail))
  {
    ParseEncodeHead(0, e.key, EncodeItem(e.item) + tail);
    ParseEncodeItem(e.item, tail);
  }

  lemma {:induction false} ParseEncodeCounted(es: seq<Entry>, n: nat, rest: Bytes)
    requires KeysAscend(es) && n == |es|
    requires forall i :: 0 <= i < |es| ==> Decodable(es[i].item)
    ensures ParseEntries(n, EncodeEntries(es) + rest) == Some((es, rest))
    decreases n
  {
    if n == 0 {
      assert EncodeEntries(es) + rest == rest;
    } else {
      var e, m, tail := es[0], n - 1, EncodeEntries(es[1..]) + rest;
      EncodeEntriesFront(es, rest);
      ParseFront(e, tail);
      ParseEncodeCounted(es[1..], m, rest);
      ParseEntriesStep(m, EncodeEntries(es) + rest, e, EncodeItem(e.item) + tail, tail, es[1..], rest);
      assert [e] + es[1..] == es;
    }
  }

  lemma ParseEncodeEntries(es: seq<Entry>, rest: Bytes)
    requires KeysAscend(es)
    requires forall i :: 0 <= i < |es| ==> Decodable(es[i].item)
    ensures ParseEntries(|es|, EncodeEntries(es) + rest) == Some((es, rest))
  {
    ParseEncodeCounted(es, |es|, rest);
  }

  /** Every map the encoder writes parses back to its entries. */
  lemma ParseEncodeMap(es: seq<Entry>)
    requires KeysAscend(es) && |es| <= MAX_MAP_PAIRS
    requires forall i :: 0 <= i < |es| ==> Decodable(es[i].item)
    ensures ParseMap(EncodeMap(es)) == Some(es)
  {
    ParseEncodeHead(5, |es|, EncodeEntries(es));
    ParseEncodeEntries(es, []);
    assert EncodeEntries(es) + [] == EncodeEntries(es);
  }

  // ----- structs: fields at keys 0, 1, 2, ... -----

  function Keyed(fields: seq<Item>): (es: seq<Entry>)
    requires |fields| <= MAX_MAP_PAIRS
    ensures |es| == |fields| && KeysAscend(es)
    ensures forall i :: 0 <= i < |fields| ==> es[i] == Entry(i, fields[i])
  {
    seq(|fields|, i requires 0 <= i < |fields| => Entry(i, fields[i]))
  }

  predicate OfKind(item: Item, kind: Kind) {
    match kind
    case UIntField => item.UInt?
    case BytesField => item.BStr? || item.Null?
    case TextField => item.TStr?
  }

  predicate Fits(fields: seq<Item>, schema: seq<Kind>) {
    |fields| == |schema| && forall i :: 0 <= i < |schema| ==> OfKind(fields[i], schema[i])
  }

  /** The value a field that nothing was decoded into has: `0`, nil or `""`. */
  function ZeroValue(kind: Kind): (item: Item)
    ensures OfKind(item, kind) && Decodable(item)
  {
    match kind
    case UIntField => UInt(0)
    case BytesField => Null
    case TextField => TStr([])
  }

  /** `Unmarshal` of one value into one field. Null leaves the field as it is. */
  function DecodeField(kind: Kind, item: Item): (r: Option<Item>)
    ensures r.Some? ==> OfKind(r.value, kind)
    ensures OfKind(item, kind) ==> r == Some(item)
    ensures Decodable(item) && r.Some? ==> Decodable(r.value)
  {
    if item.Null? then Some(ZeroValue(kind))
    else if OfKind(item, kind) then Some(item)
    else None
  }

  function Lookup(es: seq<Entry>, key: nat): (r: Option<Item>)
    ensures r.Some? ==> exists i :: 0 <= i < |es| && es[i].key == key && es[i].item == r.value
    ensures r.None? ==> forall i :: 0 <= i < |es| ==> es[i].key != key
  {
    if es == [] then None
    else if es[0].key == key then Some(es[0].item)
    else Lookup(es[1..], key)
  }

  /** The value a field gets: an absent one keeps its zero value. */
  function FieldFor(es: seq<Entry>, kind: Kind, key: nat): (r: Option<Item>)
    ensures r.Some? ==> OfKind(r.value, kind)
  {
    match Lookup(es, key)
    case None => Some(ZeroValue(kind))
    case Some(item) => DecodeField(kind, item)
  }

  /** `Unmarshal` into a struct. */
  function DecodeFields(es: seq<Entry>, schema: seq<Kind>, from: nat): (r: Option<seq<Item>>)
    requires from <= |schema|
    ensures r.Some? ==> |r.value| == |schema| - from
    decreases |schema| - from
  {
    if from == |schema| then Some([])
    else
      match (FieldFor(es, schema[from], from), DecodeFields(es, schema, from + 1))
      case (Some(v), Some(vs)) => Some([v] + vs)
      case _ => None
  }

  lemma {:induction false} LookupKeyed(fields: seq<Item>, es: seq<Entry>, offset: nat, key: nat)
    requires offset <= key < |fields|
    requires |es| == |fields| - offset
    requires forall i :: 0 <= i < |es| ==> es[i].key == offset + i && es[i].item == fields[offset + i]
    ensures Lookup(es, key) == Some(fields[key])
    decreases key - offset
  {
    if offset < key { LookupKeyed(fields, es[1..], offset + 1, key); }
  }

  lemma {:induction false} DecodeFieldsFit(es: seq<Entry>, schema: seq<Kind>, from: nat)
    requires from <= |schema|
    ensures var r := DecodeFields(es, schema, from);
            r.Some? ==> forall i :: 0 <= i < |r.value| ==> OfKind(r.value[i], schema[from + i])
    decreases |schema| - from
  {
    if from < |schema| { DecodeFieldsFit(es, schema, from + 1); }
  }

  function DecodeStruct(es: seq<Entry>, schema: seq<Kind>): (r: Option<seq<Item>>)
    ensures r.Some? ==> Fits(r.value, schema)
  {
    DecodeFieldsFit(es, schema, 0);
    DecodeFields(es, schema, 0)
  }

  lemma {:induction false} DecodeFieldsDecodable(es: seq<Entry>, schema: seq<Kind>, from: nat)
    requires from <= |schema|
    requires forall e :: e in es ==> Decodable(e.item)
    ensures var r := DecodeFields(es, schema, from);
            r.Some? ==> forall i :: 0 <= i < |r.value| ==> Decodable(r.value[i])
    decreases |schema| - from
  {
    if from < |schema| { DecodeFieldsDecodable(es, schema, from + 1); }
  }

  lemma {:induction false} DecodePresent(es: seq<Entry>, fields: seq<Item>, schema: seq<Kind>, from: nat)
    requires Fits(fields, schema)
    requires forall i :: 0 <= i < |fields| ==> Lookup(es, i) == Some(fields[i])
    requires from <= |schema|
    ensures DecodeFields(es, schema, from) == Some(fields[from..])
    decreases |schema| - from
  {
    if from < |schema| {
      DecodePresent(es, fields, schema, from + 1);
      assert Lookup(es, from) == Some(fields[from]);
      assert fields[from..] == [fields[from]] + fields[from + 1..];
    }
  }

  lemma DecodeKeyed(fields: seq<Item>, schema: seq<Kind>)
    requires Fits(fields, schema) && |fields| <= MAX_MAP_PAIRS
    ensures DecodeStruct(Keyed(fields), schema) == Some(fields)
  {
    var es := Keyed(fields);
    forall i | 0 <= i < |fields| ensures Lookup(es, i) == Some(fields[i]) {
      LookupKeyed(fields, es, 0, i);
    }
    DecodePresent(es, fields, schema, 0);
    assert fields[0..] == fields;
  }

  /** The keys present are exactly the schema's. */
  predicate ExactKeys(es: seq<Entry>, count: nat) {
    |es| == count && forall i :: 0 <= i < |es| ==> es[i].key < count
  }

  ghost function KeySet(es: seq<Entry>): set<Uint64> {
    set e | e in es :: e.key
  }

  ghost function ValueSet(s: seq<Uint64>): set<Uint64> {
    set x | x in s
  }

  /** `hasExactKeys`: the loop over the expected keys, then the loop over the decoded ones. */
  method HasExactKeys(es: seq<Entry>, expected: seq<Uint64>) returns (ok: bool)
    requires KeysAscend(es)
    ensures ok <==> |es| == |expected| && NoDuplicates(expected) && KeySet(es) == ValueSet(expected)
  {
    if |es| != |expected| { return false; }
    var seen: set<Uint64> := {};
    for i := 0 to |expected|
      invariant seen == ValueSet(expected[..i])
      invariant NoDuplicates(expected[..i])
    {
      if expected[i] in seen {
        ghost var j :| 0 <= j < i && expected[..i][j] == expected[i];
        return false;
      }
      seen := seen + {expected[i]};
    }
    assert expected[..|expected|] == expected;
    for i := 0 to |es|
      invariant forall j :: 0 <= j < i ==> es[j].key in seen
    {
      if es[i].key !in seen {
        assert es[i].key in KeySet(es);
        return false;
      }
    }
    SameSizeSubset(es, expected);
    return true;
  }

  /** The expected keys every caller passes. */
  function FirstKeys(count: nat): (keys: seq<Uint64>)
    requires count <= MAX_MAP_PAIRS
    ensures |keys| == count && forall i :: 0 <= i < count ==> keys[i] == i
  {
    seq(count, i requires 0 <= i < count => i)
  }

  /** For those keys, what the two loops decide is `ExactKeys`. */
  lemma ExactKeysMeaning(es: seq<Entry>, count: nat)
    requires KeysAscend(es) && count <= MAX_MAP_PAIRS
    ensures ExactKeys(es, count) <==> |es| == count && KeySet(es) == ValueSet(FirstKeys(count))
  {
    var expected := FirstKeys(count);
    if ExactKeys(es, count) {
      forall j | 0 <= j < |es| ensures es[j].key in ValueSet(expected) {
        assert es[j].key == expected[es[j].key];
      }
      SameSizeSubset(es, expected);
    } else if |es| == count {
      var i :| 0 <= i < |es| && es[i].key >= count;
      assert es[i].key in KeySet(es);
    }
  }

  lemma {:induction false} KeySetSize(es: seq<Entry>)
    requires KeysAscend(es)
    ensures |KeySet(es)| == |es|
  {
    if es != [] {
      var init, last := es[..|es| - 1], es[|es| - 1];
      KeySetSize(init);
      assert es == init + [last];
      assert KeySet(es) == KeySet(init) + {last.key};
    }
  }

  lemma {:induction false} ValueSetSize(s: seq<Uint64>)
    ensures |ValueSet(s)| <= |s|
  {
    if s != [] {
      var init, last := s[..|s| - 1], s[|s| - 1];
      ValueSetSize(init);
      assert s == init + [last];
      assert ValueSet(s) == ValueSet(init) + {last};
    }
  }

  lemma SameSizeSubset(es: seq<Entry>, expected: seq<Uint64>)
    requires KeysAscend(es) && |es| == |expected|
    requires forall j :: 0 <= j < |es| ==> es[j].key in ValueSet(expected)
    ensures KeySet(es) == ValueSet(expected)
  {
    KeySetSize(es);
    ValueSetSize(expected);
    assert KeySet(es) <= ValueSet(expected);
    SubsetOfSameSize(KeySet(es), ValueSet(expected));
  }

  lemma SubsetOfSameSize(a: set<Uint64>, b: set<Uint64>)
    requires a <= b && |a| >= |b|
    ensures a == b
  {
    assert |b - a| == |b| - |a|;
  }

  // ----- encodings are prefix-free, UTF-8 or not -----

  lemma HeadPrefixFree(major: nat, a: Uint64, r: Bytes, major': nat, b: Uint64, s: Bytes)
    requires major < 8 && major' < 8 && EncodeHead(major, a) + r == EncodeHead(major', b) + s
    ensures major == major' && a == b && r == s
  {
    ParseEncodeHead(major, a, r);
    ParseEncodeHead(major', b, s);
  }

  function Major(item: Item): (major: nat)
    ensures major < 8
  {
    match item
    case UInt(_) => 0
    case BStr(_) => 2
    case TStr(_) => 3
    case Null => 7
  }

  function Argument(item: Item): nat {
    match item
    case UInt(n) => n
    case BStr(s) => |s|
    case TStr(t) => |t|
    case Null => 22
  }

  function Content(item: Item): Bytes {
    match item
    case BStr(s) => s
    case TStr(t) => t
    case _ => []
  }

  /** Null too is a head without content. */
  lemma ItemForm(item: Item)
    ensures EncodeItem(item) == EncodeHead(Major(item), Argument(item)) + Content(item)
  {
    assert BigEndian(22, 0) == [];
  }

  lemma ItemPrefixFree(x: Item, r: Bytes, y: Item, s: Bytes)
    requires Sized(x) && Sized(y) && EncodeItem(x) + r == EncodeItem(y) + s
    ensures x == y && r == s
  {
    ItemForm(x);
    ItemForm(y);
    assert EncodeItem(x) + r == EncodeHead(Major(x), Argument(x)) + (Content(x) + r);
    assert EncodeItem(y) + s == EncodeHead(Major(y), Argument(y)) + (Content(y) + s);
    HeadPrefixFree(Major(x), Argument(x), Content(x) + r, Major(y), Argument(y), Content(y) + s);
    SamePrefix(Content(x), r, Content(y), s);
  }

  lemma SamePrefix(a: Bytes, r: Bytes, b: Bytes, s: Bytes)
    requires |a| == |b| && a + r == b + s
    ensures a == b && r == s
  {
    assert a == (a + r)[..|a|] && b == (b + s)[..|b|];
    assert r == (a + r)[|a|..] && s == (b + s)[|b|..];
  }

  lemma EntryPrefixFree(e: Entry, r: Bytes, f: Entry, s: Bytes)
    requires Sized(e.item) && Sized(f.item)
    requires EncodeHead(0, e.key) + EncodeItem(e.item) + r == EncodeHead(0, f.key) + EncodeItem(f.item) + s
    ensures e == f && r == s
  {
    var x, y := EncodeItem(e.item) + r, EncodeItem(f.item) + s;
    assert EncodeHead(0, e.key) + EncodeItem(e.item) + r == EncodeHead(0, e.key) + x;
    assert EncodeHead(0, f.key) + EncodeItem(f.item) + s == EncodeHead(0, f.key) + y;
    HeadPrefixFree(0, e.key, x, 0, f.key, y);
    ItemPrefixFree(e.item, r, f.item, s);
  }

  lemma {:induction false} EntriesInjective(es: seq<Entry>, fs: seq<Entry>)
    requires |es| == |fs| && forall i :: 0 <= i < |es| ==> Sized(es[i].item) && Sized(fs[i].item)
    requires EncodeEntries(es) == EncodeEntries(fs)
    ensures es == fs
  {
    if es != [] {
      EntryPrefixFree(es[0], EncodeEntries(es[1..]), fs[0], EncodeEntries(fs[1..]));
      EntriesInjective(es[1..], fs[1..]);
      assert es == [es[0]] + es[1..] && fs == [fs[0]] + fs[1..];
    }
  }

  /** Distinct field values have distinct encodings. */
  lemma EncodingInjective(f: seq<Item>, g: seq<Item>)
    requires |f| <= MAX_MAP_PAIRS && |g| <= MAX_MAP_PAIRS
    requires forall i :: 0 <= i < |f| ==> Sized(f[i])
    requires forall i :: 0 <= i < |g| ==> Sized(g[i])
    requires EncodeMap(Keyed(f)) == EncodeMap(Keyed(g))
    ensures f == g
  {
    HeadPrefixFree(5, |f|, EncodeEntries(Keyed(f)), 5, |g|, EncodeEntries(Keyed(g)));
    EntriesInjective(Keyed(f), Keyed(g));
    assert forall i :: 0 <= i < |f| ==> Keyed(f)[i].item == f[i];
    assert forall i :: 0 <= i < |g| ==> Keyed(g)[i].item == g[i];
  }

  // ----- structs decoded without a canonical check -----

  /** `Unmarshal` straight into a struct: any head width, any key order, absent and null fields
      left zero, unknown keys refused. */
  function Unmarshal(b: Bytes, schema: seq<Kind>): (r: Option<seq<Item>>)
    ensures r.Some? ==> Fits(r.value, schema)
  {
    match ParseMap(b)
    case None => None
    case Some(es) =>
      if exists i :: 0 <= i < |es| && es[i].key >= |schema| then None else DecodeStruct(es, schema)
  }

  lemma UnmarshalDecodable(b: Bytes, schema: seq<Kind>)
    requires Unmarshal(b, schema).Some?
    ensures AllDecodable(Unmarshal(b, schema).value)
  {
    ParseMapDecodable(b);
    var es := ParseMap(b).value;
    DecodeFieldsDecodable(es, schema, 0);
    assert Unmarshal(b, schema) == DecodeFields(es, schema, 0);
  }

  lemma ParseBadText(item: Item, rest: Bytes)
    requires Sized(item) && !Decodable(item)
    ensures ParseItem(EncodeItem(item) + rest).None?
  {
    ParseEncodeString(3, item.text, rest);
    assert (item.text + rest)[..|item.text|] == item.text;
  }

  lemma ParseFailsAtHead(count: nat, b: Bytes, head: Head)
    requires count > 0 && ParseHead(b) == Some(head) && ParseItem(head.rest).None?
    ensures ParseEntries(count, b).None?
  {
  }

  lemma ParseFailsLater(count: nat, fewer: nat, b: Bytes, head: Head, item: Item, rest: Bytes)
    requires count == fewer + 1 && ParseHead(b) == Some(head) && ParseItem(head.rest) == Some((item, rest))
    requires ParseEntries(fewer, rest).None?
    ensures ParseEntries(count, b).None?
  {
  }

  lemma {:induction false} ParseBadEntries(es: seq<Entry>, n: nat, rest: Bytes)
    requires n == |es| && forall i :: 0 <= i < |es| ==> Sized(es[i].item)
    requires exists i :: 0 <= i < |es| && !Decodable(es[i].item)
    ensures ParseEntries(n, EncodeEntries(es) + rest).None?
    decreases n
  {
    var e, m, tail := es[0], n - 1, EncodeEntries(es[1..]) + rest;
    var afterKey := EncodeItem(e.item) + tail;
    var head := Head(0, e.key, afterKey);
    EncodeEntriesFront(es, rest);
    ParseEncodeHead(0, e.key, afterKey);
    if Decodable(e.item) {
      ParseFront(e, tail);
      BadEntryRemains(es);
      ParseBadEntries(es[1..], m, rest);
      ParseFailsLater(n, m, EncodeEntries(es) + rest, head, e.item, tail);
    } else {
      ParseBadText(e.item, tail);
      ParseFailsAtHead(n, EncodeEntries(es) + rest, head);
    }
  }

  lemma BadEntryRemains(es: seq<Entry>)
    requires es != [] && Decodable(es[0].item) && exists i :: 0 <= i < |es| && !Decodable(es[i].item)
    ensures exists i :: 0 <= i < |es[1..]| && !Decodable(es[1..][i].item)
  {
    var i :| 0 <= i < |es| && !Decodable(es[i].item);
    assert es[1..][i - 1] == es[i];
  }

  lemma ParseBadMap(es: seq<Entry>)
    requires |es| <= MAX_MAP_PAIRS
    requires forall i :: 0 <= i < |es| ==> Sized(es[i].item)
    requires exists i :: 0 <= i < |es| && !Decodable(es[i].item)
    ensures ParseMap(EncodeMap(es)).None?
  {
    ParseEncodeHead(5, |es|, EncodeEntries(es));
    ParseBadEntries(es, |es|, []);
    assert EncodeEntries(es) + [] == EncodeEntries(es);
  }

  ghost predicate AllDecodable(fields: seq<Item>) {
    forall i :: 0 <= i < |fields| ==> Decodable(fields[i])
  }

  /** What was encoded decodes to itself if its text is UTF-8 and not at all otherwise. */
  lemma UnmarshalEncoded(fields: seq<Item>, schema: seq<Kind>)
    requires Fits(fields, schema) && |fields| <= MAX_MAP_PAIRS
    requires forall i :: 0 <= i < |fields| ==> Sized(fields[i])
    ensures Unmarshal(EncodeMap(Keyed(fields)), schema) == if AllDecodable(fields) then Some(fields) else None
  {
    if AllDecodable(fields) {
      ParseEncodeMap(Keyed(fields));
      DecodeKeyed(fields, schema);
    } else {
      var i :| 0 <= i < |fields| && !Decodable(fields[i]);
      assert !Decodable(Keyed(fields)[i].item);
      ParseBadMap(Keyed(fields));
    }
  }

  // ----- canonical structs -----

  function Concat(parts: seq<Bytes>): Bytes {
    if parts == [] then [] else parts[0] + Concat(parts[1..])
  }

  lemma {:induction false} EntriesAreParts(es: seq<Entry>, parts: seq<Bytes>)
    requires |es| == |parts|
    requires forall i :: 0 <= i < |es| ==> EntryIsPart(es[i], parts[i])
    ensures EncodeEntries(es) == Concat(parts)
  {
    if es != [] {
      EntriesAreParts(es[1..], parts[1..]);
      assert EntryIsPart(es[0], parts[0]);
    }
  }

  ghost predicate EntryIsPart(e: Entry, part: Bytes) {
    EncodeHead(0, e.key) + EncodeItem(e.item) == part
  }

  /** The parts of a struct: each field after the one byte of its own number, in order. */
  ghost predicate PartsOf(parts: seq<Bytes>, fields: seq<Item>) {
    |parts| == |fields| && forall i :: 0 <= i < |fields| ==> PartAt(parts[i], i, fields[i])
  }

  ghost predicate PartAt(part: Bytes, i: nat, field: Item) {
    part == [if i < 24 then i else 0] + EncodeItem(field)
  }

  /** Part by part, for the structs of the protocol. */
  lemma PartByPart(p: seq<Bytes>, f: seq<Item>)
    requires |p| == |f| && 3 <= |f| <= 9
    requires PartAt(p[0], 0, f[0]) && PartAt(p[1], 1, f[1]) && PartAt(p[2], 2, f[2]) && (|f| > 3 ==> PartAt(p[3], 3, f[3]))
    requires (|f| > 4 ==> PartAt(p[4], 4, f[4])) && (|f| > 5 ==> PartAt(p[5], 5, f[5])) && (|f| > 6 ==> PartAt(p[6], 6, f[6]))
    requires (|f| > 7 ==> PartAt(p[7], 7, f[7])) && (|f| > 8 ==> PartAt(p[8], 8, f[8]))
    ensures PartsOf(p, f)
  {
    var holds := i => 0 <= i < |f| ==> PartAt(p[i], i, f[i]);
    AllNine(holds);
    forall i | 0 <= i < |f| ensures PartAt(p[i], i, f[i]) { assert holds(i); }
  }

  lemma AllNine(holds: int -> bool)
    requires holds(0) && holds(1) && holds(2) && holds(3) && holds(4) && holds(5) && holds(6) && holds(7) && holds(8)
    ensures forall i :: 0 <= i < 9 ==> holds(i)
  {
  }

  lemma StructLayout(fields: seq<Item>, parts: seq<Bytes>)
    requires |fields| <= MAX_MAP_PAIRS && PartsOf(parts, fields)
    ensures EncodeMap(Keyed(fields)) == [0xA0 + |fields|] + Concat(parts)
  {
    forall i | 0 <= i < |fields| ensures EntryIsPart(Keyed(fields)[i], parts[i]) {
      assert PartAt(parts[i], i, fields[i]);
      HeadForms(0, i);
    }
    EntriesAreParts(Keyed(fields), parts);
    HeadForms(5, |fields|);
  }

  /** Bytes the fields from index `from` on take, one byte for each key. */
  function FieldsSize(fields: seq<Item>, from: nat): nat
    requires from <= |fields|
    decreases |fields| - from
  {
    if from == |fields| then 0 else 1 + ItemSize(fields[from]) + FieldsSize(fields, from + 1)
  }

  lemma {:induction false} EntriesSizeKeyed(fields: seq<Item>, from: nat)
    requires from <= |fields| <= MAX_MAP_PAIRS
    ensures EntriesSize(Keyed(fields)[from..]) == FieldsSize(fields, from)
    decreases |fields| - from
  {
    if from < |fields| {
      EntriesSizeKeyed(fields, from + 1);
      assert Keyed(fields)[from..][1..] == Keyed(fields)[from + 1..];
    }
  }

  lemma EncodedSize(fields: seq<Item>)
    requires |fields| <= MAX_MAP_PAIRS
    ensures |EncodeMap(Keyed(fields))| == 1 + FieldsSize(fields, 0)
  {
    EntriesSizeKeyed(fields, 0);
    assert Keyed(fields)[0..] == Keyed(fields);
  }

  function EncodeCanonical(fields: seq<Item>, maxBytes: nat): (r: Result<Bytes>)
    requires |fields| <= MAX_MAP_PAIRS
  {
    var encoded := EncodeMap(Keyed(fields));
    if |encoded| > maxBytes then Err(OversizedInput) else Ok(encoded)
  }

  /** `decodeCanonicalMap`: generic decode and re-encode, key check, typed decode and re-encode. */
  function DecodeCanonical(encoded: Bytes, maxBytes: nat, schema: seq<Kind>): (r: Result<seq<Item>>)
    requires |schema| <= MAX_MAP_PAIRS
    ensures r.Ok? ==> Fits(r.value, schema)
  {
    if |encoded| > maxBytes then Err(OversizedInput)
    else
      match ParseMap(encoded)
      case None => Err(MalformedCbor)
      case Some(generic) =>
        if EncodeMap(generic) != encoded then Err(NonConformingCbor)
        else if !ExactKeys(generic, |schema|) then Err(SchemaViolation)
        else
          match DecodeStruct(generic, schema)
          case None => Err(SchemaViolation)
          case Some(fields) =>
            if EncodeMap(Keyed(fields)) != encoded then Err(NonConformingCbor) else Ok(fields)
  }

  ghost predicate CanonicalFor(encoded: Bytes, maxBytes: nat, schema: seq<Kind>, fields: seq<Item>)
    requires |schema| <= MAX_MAP_PAIRS
  {
    && Fits(fields, schema)
    && (forall i :: 0 <= i < |fields| ==> Decodable(fields[i]))
    && encoded == EncodeMap(Keyed(fields))
    && |encoded| <= maxBytes
  }

  /** The decoder accepts exactly the canonical encodings, each as exactly its own fields:
      one byte string per tuple of field values, and every encoder output of bounded size. */
  lemma DecodeCanonicalExact(encoded: Bytes, maxBytes: nat, schema: seq<Kind>, fields: seq<Item>)
    requires |schema| <= MAX_MAP_PAIRS
    ensures DecodeCanonical(encoded, maxBytes, schema) == Ok(fields)
            <==> CanonicalFor(encoded, maxBytes, schema, fields)
  {
    if CanonicalFor(encoded, maxBytes, schema, fields) {
      ParseEncodeMap(Keyed(fields));
      DecodeKeyed(fields, schema);
    }
    if DecodeCanonical(encoded, maxBytes, schema) == Ok(fields) {
      ParseMapDecodable(encoded);
      DecodeFieldsDecodable(ParseMap(encoded).value, schema, 0);
    }
  }

  /** A lenient decoding encodes back to its own bytes exactly when the strict decoder accepts them. */
  lemma UnmarshalReencodes(encoded: Bytes, schema: seq<Kind>, w: seq<Item>)
    requires |schema| <= MAX_MAP_PAIRS && Unmarshal(encoded, schema) == Some(w)
    ensures EncodeMap(Keyed(w)) == encoded <==> DecodeCanonical(encoded, |encoded|, schema).Ok?
  {
    UnmarshalDecodable(encoded, schema);
    DecodeCanonicalExact(encoded, |encoded|, schema, w);
    var strict := DecodeCanonical(encoded, |encoded|, schema);
    if strict.Ok? {
      DecodeCanonicalExact(encoded, |encoded|, schema, strict.value);
      UnmarshalEncoded(strict.value, schema);
    }
  }
}
