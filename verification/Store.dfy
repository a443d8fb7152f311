/** The `ledger_record` table: rows with derived columns, the constraints on inserting one, and
    the reads that re-validate the stored bytes. */
module LedgerStore {
  import opened Prelude
  import opened Ledger
  import opened Chain

  datatype Row = Row(
    digest: Digest,
    ledger: LedgerId,
    sequence: Uint64,
    previous: Option<Digest>,
    kind: Uint64,
    payloadVersion: Uint64,
    bytes: Bytes)

  /** How stored bytes are turned back into a record: `ValidateRecord` of some hash. */
  type Reader = Bytes -> Result<Record>

  /** Every column is taken from the record itself. */
  function RowOf(r: Record): Row {
    Row(r.digest, r.event.ledger, r.event.sequence, r.event.previous, r.event.kind, r.event.payloadVersion, r.bytes)
  }

  predicate HasDigest(rows: seq<Row>, digest: Digest) {
    exists i :: 0 <= i < |rows| && rows[i].digest == digest
  }

  predicate HasPosition(rows: seq<Row>, ledger: LedgerId, sequence: Uint64) {
    exists i :: 0 <= i < |rows| && rows[i].ledger == ledger && rows[i].sequence == sequence
  }

  /** The table's CHECK constraints. */
  predicate InDomain(row: Row) {
    1 <= row.sequence && 1 <= row.kind && 1 <= row.payloadVersion && 1 <= |row.bytes| <= 131_200
  }

  /** The insert, as one atomic step: the digest conflict is suppressed and reported as a
      duplicate; the position and the predecessor are constraints that raise. */
  function InsertRow(rows: seq<Row>, row: Row): (r: Result<seq<Row>>) {
    if !InDomain(row) then Err(SchemaViolation)
    else if HasDigest(rows, row.digest) then Err(DuplicateRecord)
    else if HasPosition(rows, row.ledger, row.sequence) then Err(ChainHeadMoved)
    else if row.previous.Some? && !HasDigest(rows + [row], row.previous.value) then Err(UnknownPredecessor)
    else Ok(rows + [row])
  }

  /** What the constraints together ask of a new row; a row may name itself as predecessor. */
  ghost predicate Fits(rows: seq<Row>, row: Row) {
    && InDomain(row) && !HasDigest(rows, row.digest) && !HasPosition(rows, row.ledger, row.sequence)
    && (row.previous.None? || row.previous.value == row.digest || HasDigest(rows, row.previous.value))
  }

  lemma DigestAppend(rows: seq<Row>, row: Row, digest: Digest)
    ensures HasDigest(rows + [row], digest) <==> HasDigest(rows, digest) || row.digest == digest
  {
    var all := rows + [row];
    assert forall i :: 0 <= i < |rows| ==> all[i] == rows[i];
    assert all[|rows|] == row;
  }

  lemma FitsExact(rows: seq<Row>, row: Row)
    ensures InsertRow(rows, row).Ok? <==> Fits(rows, row)
  {
    if row.previous.Some? { DigestAppend(rows, row, row.previous.value); }
  }

  /** The rows of one ledger, in the order they were inserted. */
  function OfLedger(rows: seq<Row>, ledger: LedgerId): (r: seq<Row>) {
    if rows == [] then []
    else
      var last := rows[|rows| - 1];
      OfLedger(rows[..|rows| - 1], ledger) + (if last.ledger == ledger then [last] else [])
  }

  lemma {:induction false} OfLedgerMembers(rows: seq<Row>, ledger: LedgerId, row: Row)
    ensures row in OfLedger(rows, ledger) <==> row in rows && row.ledger == ledger
  {
    if rows != [] {
      OfLedgerMembers(rows[..|rows| - 1], ledger, row);
      assert rows == rows[..|rows| - 1] + [rows[|rows| - 1]];
    }
  }

  lemma OfLedgerAppend(rows: seq<Row>, row: Row, ledger: LedgerId)
    ensures OfLedger(rows + [row], ledger) == OfLedger(rows, ledger) + (if row.ledger == ledger then [row] else [])
  {
    assert (rows + [row])[..|rows|] == rows;
  }

  /** `ORDER BY sequence_number DESC LIMIT 1`. */
  function HighestRow(rows: seq<Row>, ledger: LedgerId): (r: Option<Row>) {
    if rows == [] then None
    else
      var best, last := HighestRow(rows[..|rows| - 1], ledger), rows[|rows| - 1];
      if last.ledger == ledger && (best.None? || last.sequence > best.value.sequence) then Some(last) else best
  }

  /** The row it finds is one of the ledger's, and none of them is higher. */
  lemma {:induction false} HighestExact(rows: seq<Row>, ledger: LedgerId)
    ensures var r := HighestRow(rows, ledger);
            && (r.None? <==> forall i :: 0 <= i < |rows| ==> rows[i].ledger != ledger)
            && (r.Some? ==> r.value in rows && r.value.ledger == ledger &&
                            forall i :: 0 <= i < |rows| && rows[i].ledger == ledger ==> rows[i].sequence <= r.value.sequence)
  {
    if rows != [] {
      var init, last := rows[..|rows| - 1], rows[|rows| - 1];
      HighestExact(init, ledger);
      assert forall i :: 0 <= i < |init| ==> init[i] == rows[i];
      assert last == rows[|rows| - 1];
    }
  }

  function HeadOf(read: Reader, rows: seq<Row>, ledger: LedgerId): (r: Result<ChainState>) {
    match HighestRow(rows, ledger)
    case None => Ok(Uninitialized)
    case Some(row) =>
      var record :- read(row.bytes);
      var state := StateFromRecord(record);
      if state.Uninitialized? || state.ledger != ledger then Err(StoredRowDrifted) else Ok(state)
  }

  function RowWithDigest(rows: seq<Row>, digest: Digest): (r: Option<Row>)
    ensures r.Some? ==> r.value in rows && r.value.digest == digest
    ensures r.None? <==> !HasDigest(rows, digest)
  {
    if rows == [] then None
    else if rows[0].digest == digest then Some(rows[0])
    else
      assert forall i :: 0 <= i < |rows[1..]| ==> rows[1..][i] == rows[i + 1];
      RowWithDigest(rows[1..], digest)
  }

  function RecordByDigest(read: Reader, rows: seq<Row>, digest: Digest): (r: Result<Record>) {
    match RowWithDigest(rows, digest)
    case None => Err(RecordNotFound)
    case Some(row) =>
      var record :- read(row.bytes);
      if record.digest != digest then Err(StoredRowDrifted) else Ok(record)
  }

  /** `WHERE sequence_number >= from`. */
  function FromSequence(rows: seq<Row>, from: Uint64): (r: seq<Row>) {
    if rows == [] then []
    else (if rows[0].sequence >= from then [rows[0]] else []) + FromSequence(rows[1..], from)
  }

  function Take(rows: seq<Row>, limit: nat): (r: seq<Row>)
    ensures |r| <= limit
  {
    if |rows| <= limit then rows else rows[..limit]
  }

  function RowSequence(row: Row): nat { row.sequence }

  /** `WHERE ledger_id = .. AND sequence_number >= .. ORDER BY sequence_number ASC LIMIT ..`. */
  function SelectFrom(rows: seq<Row>, ledger: LedgerId, from: Uint64, limit: nat): (r: seq<Row>)
    ensures |r| <= limit
  {
    Take(SortBy(RowSequence, FromSequence(OfLedger(rows, ledger), from)), limit)
  }

  /** A stored row that reads back as the record it was derived from. */
  predicate RowReads(read: Reader, row: Row) {
    && read(row.bytes).Ok?
    && RowOf(read(row.bytes).value) == row
    && row.bytes != []
  }

  predicate AllRead(read: Reader, rows: seq<Row>) {
    forall i :: 0 <= i < |rows| ==> RowReads(read, rows[i])
  }

  function RecordOf(read: Reader, row: Row): Record
    requires RowReads(read, row)
  {
    read(row.bytes).value
  }

  function RecordsOf(read: Reader, rows: seq<Row>): (r: seq<Record>)
    requires AllRead(read, rows)
    ensures |r| == |rows|
    ensures forall i :: 0 <= i < |rows| ==> r[i] == RecordOf(read, rows[i])
  {
    seq(|rows|, i requires 0 <= i < |rows| => RecordOf(read, rows[i]))
  }

  // ----- contiguous chains of rows -----

  /** Rows at sequences exactly `1..n`; only the first lacks a predecessor and each other row
      names the digest of the one before. */
  ghost predicate Chained(rows: seq<Row>) {
    forall i :: 0 <= i < |rows| ==> ChainedAt(rows, i)
  }

  ghost predicate ChainedAt(rows: seq<Row>, i: nat)
    requires i < |rows|
  {
    && rows[i].sequence == i + 1
    && rows[i].previous == (if i == 0 then None else Some(rows[i - 1].digest))
  }

  lemma ChainedSequences(rows: seq<Row>)
    requires Chained(rows)
    ensures forall i :: 0 <= i < |rows| ==> rows[i].sequence == i + 1
  {
    forall i | 0 <= i < |rows| ensures rows[i].sequence == i + 1 {
      assert ChainedAt(rows, i);
    }
  }

  lemma ChainedExtend(rows: seq<Row>, row: Row)
    ensures Chained(rows + [row]) <==> Chained(rows) && ChainedAt(rows + [row], |rows|)
  {
    var all := rows + [row];
    assert forall i :: 0 <= i < |rows| ==> all[i] == rows[i];
    forall i | 0 <= i < |rows| ensures ChainedAt(all, i) <==> ChainedAt(rows, i) {
      assert i > 0 ==> all[i - 1] == rows[i - 1];
    }
  }

  lemma {:induction false} HighestIsLast(rows: seq<Row>, ledger: LedgerId)
    requires Chained(OfLedger(rows, ledger))
    ensures var chain := OfLedger(rows, ledger);
            HighestRow(rows, ledger) == if chain == [] then None else Some(chain[|chain| - 1])
  {
    if rows != [] {
      var init, last := rows[..|rows| - 1], rows[|rows| - 1];
      var before, chain := OfLedger(init, ledger), OfLedger(rows, ledger);
      if last.ledger == ledger {
        ChainedExtend(before, last);
        assert before != [] ==> ChainedAt(before, |before| - 1);
      } else {
        assert chain == before;
      }
      HighestIsLast(init, ledger);
    }
  }

  /** `Head` looks at one row; on a chained ledger that row is the end of the chain. */
  lemma HeadOnChain(read: Reader, rows: seq<Row>, ledger: LedgerId)
    requires AllRead(read, rows) && Chained(OfLedger(rows, ledger))
    ensures var chain := OfLedger(rows, ledger);
            HeadOf(read, rows, ledger) ==
            Ok(if chain == [] then Uninitialized else At(ledger, chain[|chain| - 1].sequence, chain[|chain| - 1].digest))
  {
    HighestIsLast(rows, ledger);
    var chain := OfLedger(rows, ledger);
    if chain != [] {
      var row := chain[|chain| - 1];
      OfLedgerMembers(rows, ledger, row);
      assert RowReads(read, row);
    }
  }

  lemma {:induction false} FromSequenceOnChain(rows: seq<Row>, offset: nat, from: Uint64)
    requires forall i :: 0 <= i < |rows| ==> rows[i].sequence == offset + i + 1
    ensures FromSequence(rows, from) ==
            rows[if from <= offset + 1 then 0 else if from - offset - 1 <= |rows| then from - offset - 1 else |rows|..]
  {
    if rows != [] {
      FromSequenceOnChain(rows[1..], offset + 1, from);
      if from <= offset + 1 { assert rows == [rows[0]] + rows[1..]; }
    }
  }

  function Min(a: nat, b: nat): nat { if a <= b then a else b }

  /** Where in a chain a scan begins. Sequences start at 1, so 0 asks for everything. */
  function Start(from: Uint64, n: nat): (start: nat)
    ensures start <= n
  {
    if from == 0 then 0 else Min(from - 1, n)
  }

  /** At most `limit` elements from `start` on. */
  function Slice<T>(s: seq<T>, start: nat, limit: nat): seq<T>
    requires start <= |s|
  {
    s[start..Min(start + limit, |s|)]
  }

  lemma TakenOf(rows: seq<Row>, ledger: LedgerId, from: Uint64, limit: nat, suffix: seq<Row>)
    requires FromSequence(OfLedger(rows, ledger), from) == suffix && SortBy(RowSequence, suffix) == suffix
    ensures SelectFrom(rows, ledger, from, limit) == Take(suffix, limit)
  {
  }

  /** On a chained ledger a scan is a slice of the chain. */
  lemma SelectOnChain(rows: seq<Row>, ledger: LedgerId, from: Uint64, limit: nat)
    requires Chained(OfLedger(rows, ledger))
    ensures var chain := OfLedger(rows, ledger);
            var start := Start(from, |chain|);
            SelectFrom(rows, ledger, from, limit) == Slice(chain, start, limit)
  {
    var chain := OfLedger(rows, ledger);
    var start := Start(from, |chain|);
    SuffixSelected(chain, from);
    SuffixSorted(chain, start);
    TakenOf(rows, ledger, from, limit, chain[start..]);
    TakeSlice(chain, start, limit);
  }

  lemma SuffixSelected(chain: seq<Row>, from: Uint64)
    requires Chained(chain)
    ensures FromSequence(chain, from) == chain[Start(from, |chain|)..]
  {
    ChainedSequences(chain);
    FromSequenceOnChain(chain, 0, from);
  }

  lemma SuffixSorted(chain: seq<Row>, start: nat)
    requires Chained(chain) && start <= |chain|
    ensures SortBy(RowSequence, chain[start..]) == chain[start..]
  {
    SuffixAscends(chain, start);
    SortBySorted(RowSequence, chain[start..]);
  }

  lemma TakeSlice(chain: seq<Row>, start: nat, limit: nat)
    requires start <= |chain|
    ensures Take(chain[start..], limit) == Slice(chain, start, limit)
  {
  }

  lemma SuffixAscends(chain: seq<Row>, start: nat)
    requires Chained(chain) && start <= |chain|
    ensures Ascending(RowSequence, chain[start..])
  {
    ChainedSequences(chain);
  }

  /** A ledger whose rows read back and form a chain. */
  ghost predicate Contiguous(read: Reader, rows: seq<Row>, ledger: LedgerId) {
    AllRead(read, OfLedger(rows, ledger)) && Chained(OfLedger(rows, ledger))
  }

  /** The records of a ledger whose rows read back. */
  ghost function LedgerRecords(read: Reader, rows: seq<Row>, ledger: LedgerId): (records: seq<Record>) {
    if AllRead(read, OfLedger(rows, ledger)) then RecordsOf(read, OfLedger(rows, ledger)) else []
  }

  lemma OfLedgerReads(read: Reader, rows: seq<Row>, ledger: LedgerId)
    requires AllRead(read, rows)
    ensures AllRead(read, OfLedger(rows, ledger))
  {
    var chain := OfLedger(rows, ledger);
    forall i | 0 <= i < |chain| ensures RowReads(read, chain[i]) {
      OfLedgerMembers(rows, ledger, chain[i]);
    }
  }

  /** Validated records have positive sequences. */
  ghost predicate ReadsPositive(read: Reader) {
    forall b :: read(b).Ok? ==> read(b).value.event.sequence > 0
  }

  /** A row that validates and belongs to the ledger it is filed under. */
  predicate RowBelongs(read: Reader, row: Row, ledger: LedgerId) {
    read(row.bytes).Ok? && read(row.bytes).value.event.ledger == ledger
  }

  ghost predicate Readable(read: Reader, selected: seq<Row>, ledger: LedgerId) {
    forall i :: 0 <= i < |selected| ==> RowBelongs(read, selected[i], ledger)
  }

  ghost predicate ReadAs(read: Reader, selected: seq<Row>, records: seq<Record>) {
    |records| == |selected| &&
    forall i :: 0 <= i < |selected| ==> read(selected[i].bytes) == Ok(records[i])
  }

  lemma ReadOneMore(read: Reader, rows: seq<Row>, i: nat, records: seq<Record>, ledger: LedgerId, record: Record)
    requires i < |rows| && Readable(read, rows[..i], ledger) && ReadAs(read, rows[..i], records)
    requires RowBelongs(read, rows[i], ledger) && read(rows[i].bytes) == Ok(record)
    ensures Readable(read, rows[..i + 1], ledger) && ReadAs(read, rows[..i + 1], records + [record])
  {
    assert rows[..i + 1] == rows[..i] + [rows[i]];
  }

  lemma ReadBelong(read: Reader, rows: seq<Row>, ledger: LedgerId, records: seq<Record>)
    requires Readable(read, rows, ledger) && ReadAs(read, rows, records)
    ensures forall i :: 0 <= i < |records| ==> records[i].event.ledger == ledger
  {
    forall i | 0 <= i < |records| ensures records[i].event.ledger == ledger {
      assert RowBelongs(read, rows[i], ledger) && read(rows[i].bytes) == Ok(records[i]);
    }
  }

  lemma SliceReads(read: Reader, chain: seq<Row>, ledger: LedgerId, start: nat, limit: nat)
    requires AllRead(read, chain) && start <= |chain|
    requires forall i :: 0 <= i < |chain| ==> chain[i].ledger == ledger
    ensures Readable(read, Slice(chain, start, limit), ledger)
    ensures ReadAs(read, Slice(chain, start, limit), Slice(RecordsOf(read, chain), start, limit))
  {
    var rows, records := Slice(chain, start, limit), Slice(RecordsOf(read, chain), start, limit);
    forall i | 0 <= i < |rows|
      ensures read(rows[i].bytes) == Ok(records[i]) && records[i].event.ledger == ledger
    {
      assert rows[i] == chain[start + i] && RowReads(read, chain[start + i]);
    }
  }

  /** A scan of a contiguous ledger returns the next records of its chain. */
  lemma ScanOnChain(read: Reader, rows: seq<Row>, ledger: LedgerId, from: Uint64, limit: nat)
    requires Contiguous(read, rows, ledger)
    ensures var selected, records := SelectFrom(rows, ledger, from, limit), LedgerRecords(read, rows, ledger);
            Readable(read, selected, ledger) && ReadAs(read, selected, Slice(records, Start(from, |records|), limit))
  {
    SelectOnChain(rows, ledger, from, limit);
    var chain := OfLedger(rows, ledger);
    forall i | 0 <= i < |chain| ensures chain[i].ledger == ledger {
      OfLedgerMembers(rows, ledger, chain[i]);
    }
    SliceReads(read, chain, ledger, Start(from, |chain|), limit);
  }

  lemma ReadAsUnique(read: Reader, selected: seq<Row>, a: seq<Record>, b: seq<Record>)
    requires ReadAs(read, selected, a) && ReadAs(read, selected, b)
    ensures a == b
  {
    assert forall i :: 0 <= i < |a| ==> Ok(a[i]) == Ok(b[i]);
  }

  ghost predicate IsHighest(row: Row, rows: seq<Row>, ledger: LedgerId) {
    && row in rows && row.ledger == ledger
    && forall i :: 0 <= i < |rows| && rows[i].ledger == ledger ==> rows[i].sequence <= row.sequence
  }

  /** What the head is, or that there is none, given the highest row. */
  ghost predicate HeadFrom(read: Reader, row: Row, ledger: LedgerId, r: Result<ChainState>) {
    if read(row.bytes).Ok? && read(row.bytes).value.bytes != [] && read(row.bytes).value.event.ledger == ledger
    then r == Ok(At(ledger, read(row.bytes).value.event.sequence, read(row.bytes).value.digest))
    else r.Err?
  }

  class Store {
    const read: Reader
    var rows: seq<Row>

    constructor (read: Reader)
      ensures this.read == read && rows == []
    {
      this.read := read;
      rows := [];
    }

    /** `Append`: None is success. The row goes in exactly when its digest and its position are new
        and its predecessor is there; the first constraint it violates names the failure. */
    method Append(record: Record) returns (failure: Option<Error>)
      modifies this
      ensures failure.None? <==> Fits(old(rows), RowOf(record))
      ensures failure == Some(SchemaViolation) <==>
              !(1 <= record.event.sequence && 1 <= record.event.kind && 1 <= record.event.payloadVersion &&
                1 <= |record.bytes| <= 131_200)
      ensures failure == Some(DuplicateRecord) <==> InDomain(RowOf(record)) && HasDigest(old(rows), record.digest)
      ensures failure == Some(ChainHeadMoved) <==>
              InDomain(RowOf(record)) && !HasDigest(old(rows), record.digest) &&
              HasPosition(old(rows), record.event.ledger, record.event.sequence)
      ensures failure.None? ==> rows == old(rows) + [RowOf(record)]
      ensures failure.Some? ==> rows == old(rows)
      ensures InsertRow(old(rows), RowOf(record)) == if failure.None? then Ok(rows) else Err(failure.value)
    {
      var row := RowOf(record);
      if !InDomain(row) { return Some(SchemaViolation); }
      if HasDigest(rows, row.digest) { return Some(DuplicateRecord); }
      if HasPosition(rows, row.ledger, row.sequence) { return Some(ChainHeadMoved); }
      FitsExact(rows, row);
      if row.previous.Some? && !HasDigest(rows + [row], row.previous.value) { return Some(UnknownPredecessor); }
      rows := rows + [row];
      return None;
    }

    /** `Head`: a ledger without rows is uninitialized; else the highest row must validate and belong
        to the ledger, and gives the head. */
    method Head(ledger: LedgerId) returns (r: Result<ChainState>)
      ensures r == HeadOf(read, rows, ledger)
      ensures r == Ok(Uninitialized) <==> forall i :: 0 <= i < |rows| ==> rows[i].ledger != ledger
      ensures r != Ok(Uninitialized) ==> exists row :: IsHighest(row, rows, ledger) && HeadFrom(read, row, ledger, r)
    {
      r := HeadOf(read, rows, ledger);
      HighestExact(rows, ledger);
      if r != Ok(Uninitialized) { assert IsHighest(HighestRow(rows, ledger).value, rows, ledger); }
    }

    /** `Record`: the row with the digest, provided its bytes validate to that very digest. */
    method RecordWith(digest: Digest) returns (r: Result<Record>)
      ensures r == RecordByDigest(read, rows, digest)
      ensures !HasDigest(rows, digest) ==> r == Err(RecordNotFound)
      ensures r.Ok? ==> r.value.digest == digest && exists row :: row in rows && row.digest == digest && read(row.bytes) == r
      ensures HasDigest(rows, digest) && r.Err? ==>
                exists row :: row in rows && row.digest == digest && (read(row.bytes).Err? || read(row.bytes).value.digest != digest)
    {
      r := RecordByDigest(read, rows, digest);
    }

    /** `ScanRecords`: the loop that validates each selected row; the first bad row fails it. */
    method ScanRecords(ledger: LedgerId, from: Uint64, limit: int) returns (r: Result<seq<Record>>)
      ensures limit <= 0 ==> r == Ok([])
      ensures limit > 0 ==>
                var selected := SelectFrom(rows, ledger, from, limit);
                if Readable(read, selected, ledger) then r.Ok? && ReadAs(read, selected, r.value) else r.Err?
      ensures r.Ok? ==> forall i :: 0 <= i < |r.value| ==> r.value[i].event.ledger == ledger
    {
      if limit <= 0 { return Ok([]); }
      var selected := SelectFrom(rows, ledger, from, limit);
      var records: seq<Record> := [];
      for i := 0 to |selected|
        invariant Readable(read, selected[..i], ledger) && ReadAs(read, selected[..i], records)
      {
        var record := read(selected[i].bytes);
        if record.Err? { return Err(record.error); }
        if record.value.event.ledger != ledger { return Err(StoredRowDrifted); }
        ReadOneMore(read, selected, i, records, ledger, record.value);
        records := records + [record.value];
      }
      assert selected[..|selected|] == selected;
      ReadBelong(read, selected, ledger, records);
      return Ok(records);
    }
  }
}
