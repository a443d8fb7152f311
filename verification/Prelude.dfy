/** Bytes, fixed-width values, results, and the one sort the other modules share. */
module Prelude {

  type Byte = n: nat | n < 256
  type Bytes = seq<Byte>

  const MAX_UINT64: nat := 0xFFFF_FFFF_FFFF_FFFF
  type Uint64 = n: nat | n <= MAX_UINT64

  type Digest = b: Bytes | |b| == 32 witness seq(32, _ => 0)
  type LedgerId = b: Bytes | |b| == 32 witness seq(32, _ => 0)
  /** An uncompressed P-256 point, `0x04 || X || Y`. */
  type IdentityKey = b: Bytes | |b| == 65 witness seq(65, _ => 0)

  /** SHA-256, left uninterpreted: every statement holds for any function of this type. */
  type Hash = Bytes -> Digest

  datatype Option<+T> = None | Some(value: T)

  datatype Error =
    | OversizedInput | MalformedCbor | NonConformingCbor | UnsupportedVersion | SchemaViolation
    | DigestMismatch | InvalidSequence | LedgerMismatch | ChainLinkMismatch | UnsupportedEvent
    | ChainHeadMoved | DuplicateRecord | UnknownPredecessor | RecordNotFound | StoredRowDrifted
    | AlreadyInitialized | LedgerUninitialized | EmptyPayload | SigningFailed | RecordNotBuilt | RetriesExhausted
    | NilPayload | InvalidPublicKey | FieldOutOfBounds | InvalidRole | SignatureRejected
    | NilEdge | NilStore | DuplicateEdge | EdgeNotFound | EdgeAlreadyRevoked | UnauthorizedRevoker | SequenceBreak
    | EmptyTrustRoots | InvalidTrustWeight | InvalidMaxHops | InvalidDecayFactor

  datatype Result<+T> = Ok(value: T) | Err(error: Error) {
    predicate IsFailure() { Err? }
    function PropagateFailure<U>(): Result<U> requires Err? { Err(error) }
    function Extract(): T requires Ok? { value }
  }

  /** Addition as the source's uint64 does it. */
  function Successor(n: Uint64): Uint64 {
    if n == MAX_UINT64 then 0 else n + 1
  }

  /** The bytes of a constant of the protocol. */
  function Ascii(s: string): (b: Bytes)
    requires forall i :: 0 <= i < |s| ==> ' ' <= s[i] <= '~'
    ensures |b| == |s|
    ensures forall i :: 0 <= i < |b| ==> b[i] == s[i] as int && 0x20 <= b[i] <= 0x7E
  {
    seq(|s|, i requires 0 <= i < |s| => s[i] as int)
  }

  ghost predicate NoDuplicates<T>(s: seq<T>) {
    forall i, j :: 0 <= i < j < |s| ==> s[i] != s[j]
  }

  // ----- big-endian numbers -----

  function Pow256(k: nat): (p: nat)
    ensures p > 0
  {
    if k == 0 then 1 else 256 * Pow256(k - 1)
  }

  function BigEndian(n: nat, k: nat): (b: Bytes)
    ensures |b| == k
  {
    if k == 0 then [] else BigEndian(n / 256, k - 1) + [n % 256]
  }

  function BigEndianValue(b: Bytes): (n: nat)
    ensures n < Pow256(|b|)
  {
    if b == [] then 0 else BigEndianValue(b[..|b| - 1]) * 256 + b[|b| - 1]
  }

  lemma {:induction false} BigEndianRoundTrip(n: nat, k: nat)
    requires n < Pow256(k)
    ensures BigEndianValue(BigEndian(n, k)) == n
  {
    if k > 0 {
      BigEndianRoundTrip(n / 256, k - 1);
      assert BigEndian(n, k)[..k - 1] == BigEndian(n / 256, k - 1);
    }
  }

  // ----- the order of byte strings -----

  lemma {:induction false} BigEndianOfValue(b: Bytes)
    ensures BigEndian(BigEndianValue(b), |b|) == b
  {
    if b != [] {
      BigEndianOfValue(b[..|b| - 1]);
      assert b == b[..|b| - 1] + [b[|b| - 1]];
    }
  }

  /** `bytes.Compare(a, b) < 0`. */
  predicate BytesLess(a: Bytes, b: Bytes) {
    b != [] && (a == [] || a[0] < b[0] || (a[0] == b[0] && BytesLess(a[1..], b[1..])))
  }

  lemma {:induction false} BigEndianValueFront(b: Bytes)
    requires b != []
    ensures BigEndianValue(b) == b[0] * Pow256(|b| - 1) + BigEndianValue(b[1..])
  {
    if |b| > 1 {
      var front, p := b[..|b| - 1], Pow256(|b| - 2);
      BigEndianValueFront(front);
      assert front[1..] == b[1..][..|b| - 2];
      ScaleBy256(b[0], p);
    }
  }

  /** Byte strings of one length are ordered as the numbers they write, so a sort by that
      number is a sort by `bytes.Compare`. */
  lemma {:induction false} BytesLessIsNumeric(a: Bytes, b: Bytes)
    requires |a| == |b|
    ensures BytesLess(a, b) <==> BigEndianValue(a) < BigEndianValue(b)
    ensures BigEndianValue(a) == BigEndianValue(b) ==> a == b
  {
    if a != [] {
      BigEndianValueFront(a);
      BigEndianValueFront(b);
      BytesLessIsNumeric(a[1..], b[1..]);
      var p := Pow256(|a| - 1);
      if a[0] < b[0] { DigitDominates(a[0], b[0], p); }
      if b[0] < a[0] { DigitDominates(b[0], a[0], p); }
      assert a == [a[0]] + a[1..] && b == [b[0]] + b[1..];
    }
  }

  lemma ScaleBy256(d: nat, p: nat)
    ensures d * (256 * p) == 256 * (d * p)
  {
  }

  lemma {:induction false} DigitDominates(x: nat, y: nat, p: nat)
    requires x < y
    ensures x * p + p <= y * p
    decreases y
  {
    assert y * p == (y - 1) * p + p;
    if x < y - 1 { DigitDominates(x, y - 1, p); }
  }

  // ----- sorting by a numeric key -----

  ghost predicate Ascending<T>(key: T -> nat, s: seq<T>) {
    forall i, j :: 0 <= i < j < |s| ==> key(s[i]) <= key(s[j])
  }

  ghost predicate StrictlyAscending<T>(key: T -> nat, s: seq<T>) {
    forall i, j :: 0 <= i < j < |s| ==> key(s[i]) < key(s[j])
  }

  function Insert<T>(key: T -> nat, x: T, s: seq<T>): (r: seq<T>)
    ensures multiset(r) == multiset(s) + multiset{x}
    ensures |r| == |s| + 1
  {
    if s == [] || key(x) <= key(s[0]) then [x] + s
    else
      assert s == [s[0]] + s[1..];
      [s[0]] + Insert(key, x, s[1..])
  }

  lemma InsertMember<T>(key: T -> nat, x: T, s: seq<T>, y: T)
    ensures y in Insert(key, x, s) <==> y == x || y in s
  {
    assert y in Insert(key, x, s) <==> y in multiset(Insert(key, x, s));
    assert y in s <==> y in multiset(s);
  }

  lemma {:induction false} InsertAscending<T>(key: T -> nat, x: T, s: seq<T>)
    requires Ascending(key, s)
    ensures Ascending(key, Insert(key, x, s))
  {
    if s != [] && key(x) > key(s[0]) {
      InsertAscending(key, x, s[1..]);
      var rest := Insert(key, x, s[1..]);
      forall y | y in rest ensures key(s[0]) <= key(y) {
        InsertMember(key, x, s[1..], y);
      }
      assert forall i :: 0 <= i < |rest| ==> rest[i] in rest;
    }
  }

  /** `sort.Slice` by a numeric key. Go leaves the order of equal keys open; this keeps theirs. */
  function SortBy<T>(key: T -> nat, s: seq<T>): (r: seq<T>)
    ensures Ascending(key, r)
    ensures multiset(r) == multiset(s)
    ensures |r| == |s|
  {
    if s == [] then [] else
      assert s == [s[0]] + s[1..];
      InsertAscending(key, s[0], SortBy(key, s[1..]));
      Insert(key, s[0], SortBy(key, s[1..]))
  }

  lemma SortByMember<T>(key: T -> nat, s: seq<T>, x: T)
    ensures x in SortBy(key, s) <==> x in s
  {
    assert x in SortBy(key, s) <==> x in multiset(SortBy(key, s));
    assert x in s <==> x in multiset(s);
  }

  lemma {:induction false} SortByDistinct<T>(key: T -> nat, s: seq<T>)
    requires forall i, j :: 0 <= i < j < |s| ==> key(s[i]) != key(s[j])
    ensures StrictlyAscending(key, SortBy(key, s))
  {
    if s != [] {
      SortByDistinct(key, s[1..]);
      forall y | y in SortBy(key, s[1..]) ensures key(y) != key(s[0]) {
        SortByMember(key, s[1..], y);
        var j :| 0 <= j < |s[1..]| && s[1..][j] == y;
        assert s[j + 1] == y;
      }
      InsertDistinct(key, s[0], SortBy(key, s[1..]));
    }
  }

  lemma {:induction false} InsertDistinct<T>(key: T -> nat, x: T, s: seq<T>)
    requires StrictlyAscending(key, s)
    requires forall y :: y in s ==> key(y) != key(x)
    ensures StrictlyAscending(key, Insert(key, x, s))
  {
    if s != [] && key(x) > key(s[0]) {
      InsertDistinct(key, x, s[1..]);
      var rest := Insert(key, x, s[1..]);
      forall y | y in rest ensures key(s[0]) < key(y) {
        InsertMember(key, x, s[1..], y);
      }
      assert forall i :: 0 <= i < |rest| ==> rest[i] in rest;
    }
  }

  lemma {:induction false} InsertNoDuplicates<T>(key: T -> nat, x: T, s: seq<T>)
    requires NoDuplicates(s) && x !in s
    ensures NoDuplicates(Insert(key, x, s))
  {
    if s != [] && key(x) > key(s[0]) {
      InsertNoDuplicates(key, x, s[1..]);
      InsertMember(key, x, s[1..], s[0]);
      assert forall i :: 0 <= i < |s[1..]| ==> s[1..][i] == s[i + 1];
    }
  }

  lemma {:induction false} SortByNoDuplicates<T>(key: T -> nat, s: seq<T>)
    requires NoDuplicates(s)
    ensures NoDuplicates(SortBy(key, s))
  {
    if s != [] {
      SortByNoDuplicates(key, s[1..]);
      SortByMember(key, s[1..], s[0]);
      assert forall i :: 0 <= i < |s[1..]| ==> s[1..][i] == s[i + 1];
      InsertNoDuplicates(key, s[0], SortBy(key, s[1..]));
    }
  }

  lemma {:induction false} SortBySorted<T>(key: T -> nat, s: seq<T>)
    requires Ascending(key, s)
    ensures SortBy(key, s) == s
  {
    if s != [] {
      SortBySorted(key, s[1..]);
    }
  }

  /** A strictly ascending listing of a set is unique: it cannot depend on iteration order. */
  lemma {:induction false} StrictlyAscendingUnique<T>(key: T -> nat, s: seq<T>, t: seq<T>)
    requires StrictlyAscending(key, s) && StrictlyAscending(key, t)
    requires forall x :: x in s <==> x in t
    ensures s == t
  {
    if s == [] {
      assert forall i :: 0 <= i < |t| ==> t[i] in s;
    } else {
      assert s[0] in t && t[0] in s;
      assert s[0] == t[0];
      forall x ensures x in s[1..] <==> x in t[1..] {
        assert x in s[1..] ==> x in s && x != s[0];
        assert x in t[1..] ==> x in t && x != t[0];
        assert x in s ==> x == s[0] || x in s[1..];
        assert x in t ==> x == t[0] || x in t[1..];
      }
      StrictlyAscendingUnique(key, s[1..], t[1..]);
      assert s == [s[0]] + s[1..] && t == [t[0]] + t[1..];
    }
  }
}
