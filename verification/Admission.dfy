/** Optimistic admission: clients read a head, build a record on it, and insert it without
    holding anything in between. The shared table is the only arbiter. */
module Admission {
  import opened Prelude
  import opened Ledger
  import opened Chain
  import opened LedgerStore

  // ----- building records -----

  /** The arguments of `NewEvent`. */
  datatype Draft = Draft(
    ledger: LedgerId,
    sequence: Uint64,
    previous: Option<Digest>,
    admittedAt: Uint64,
    kind: Uint64,
    payloadVersion: Uint64,
    payload: Bytes)

  /** The record kernel as admission uses it. */
  datatype Kernel = Kernel(
    newEvent: Draft -> Result<Event>,
    newRecord: (Event, Bytes, Bytes) -> Result<Record>,
    read: Reader)

  function LedgerKernel(h: Hash): Kernel {
    Kernel(
      (d: Draft) => NewEvent(h, d.ledger, d.sequence, d.previous, d.admittedAt, d.kind, d.payloadVersion, d.payload),
      (e: Event, signer: Bytes, signature: Bytes) => NewRecord(h, e, signer, signature),
      (b: Bytes) => ValidateRecord(h, b))
  }

  function Build(k: Kernel, d: Draft, signer: Bytes, signature: Bytes): (r: Result<Record>) {
    var event :- k.newEvent(d);
    k.newRecord(event, signer, signature)
  }

  ghost predicate Carries(r: Record, d: Draft) {
    && r.event.ledger == d.ledger && r.event.sequence == d.sequence && r.event.previous == d.previous
    && r.event.admittedAt == d.admittedAt && r.event.kind == d.kind && r.event.payloadVersion == d.payloadVersion && r.event.payload == d.payload
  }

  /** What the protocol needs of the kernel. */
  ghost predicate Sound(k: Kernel) {
    forall d, signer, signature :: Build(k, d, signer, signature).Ok? ==>
      var r := Build(k, d, signer, signature).value;
      BuiltWell(k.read, r, d) && Sealed(k, r, d, signer, signature)
  }

  ghost predicate BuiltWell(read: Reader, r: Record, d: Draft) {
    Carries(r, d) && InDomain(RowOf(r)) && read(r.bytes) == Ok(r)
  }

  /** The record wraps the event of the draft with that signer and signature. */
  ghost predicate Sealed(k: Kernel, r: Record, d: Draft, signer: Bytes, signature: Bytes) {
    k.newEvent(d) == Ok(r.event) && r.signer == signer && r.signature == signature
  }

  lemma LedgerBuildsWell(h: Hash, d: Draft, signer: Bytes, signature: Bytes)
    requires Build(LedgerKernel(h), d, signer, signature).Ok?
    ensures var r := Build(LedgerKernel(h), d, signer, signature).value;
            BuiltWell(LedgerKernel(h).read, r, d) && Sealed(LedgerKernel(h), r, d, signer, signature)
  {
    NewEventExact(h, d.ledger, d.sequence, d.previous, d.admittedAt, d.kind, d.payloadVersion, d.payload);
    var event := LedgerKernel(h).newEvent(d).value;
    RecordBuildsWell(h, event, signer, signature);
  }

  lemma RecordBuildsWell(h: Hash, event: Event, signer: Bytes, signature: Bytes)
    requires IsEvent(h, event) && NewRecord(h, event, signer, signature).Ok?
    ensures var r := NewRecord(h, event, signer, signature).value;
            && r.event == event && r.signer == signer && r.signature == signature
            && InDomain(RowOf(r)) && ValidateRecord(h, r.bytes) == Ok(r)
  {
    NewRecordThenValidate(h, event, signer, signature);
    RecordSize(h, NewRecord(h, event, signer, signature).value);
  }

  lemma LedgerKernelSound(h: Hash)
    ensures Sound(LedgerKernel(h))
  {
    var k := LedgerKernel(h);
    forall d, signer, signature | Build(k, d, signer, signature).Ok?
      ensures var r := Build(k, d, signer, signature).value;
              BuiltWell(k.read, r, d) && Sealed(k, r, d, signer, signature)
    {
      LedgerBuildsWell(h, d, signer, signature);
    }
  }

  function GenesisDraft(ledger: LedgerId, admittedAt: Uint64): Draft {
    Draft(ledger, 1, None, admittedAt, LEDGER_INITIALIZED, GENESIS_PAYLOAD_VERSION, GENESIS_PAYLOAD)
  }

  /** `NewGenesisEvent` is `NewEvent` of the genesis draft. */
  lemma GenesisDraftBuilds(h: Hash, ledger: LedgerId, admittedAt: Uint64)
    ensures NewGenesisEvent(h, ledger, admittedAt) == LedgerKernel(h).newEvent(GenesisDraft(ledger, admittedAt))
    ensures NewGenesisEvent(h, ledger, admittedAt).Ok?
  {
    GenesisEventBuilt(h, ledger, admittedAt);
  }

  /** A continuation names the head it was built on; the sequence wraps as uint64 does. */
  function NextDraft(head: ChainState, admittedAt: Uint64, kind: Uint64, payloadVersion: Uint64, payload: Bytes): Draft
    requires head.At?
  {
    Draft(head.ledger, Successor(head.sequence), Some(head.digest), admittedAt, kind, payloadVersion, payload)
  }

  // ----- the system: one table, any number of clients with stale heads -----

  datatype Snapshot = Snapshot(ledger: LedgerId, head: ChainState)

  datatype World = World(rows: seq<Row>, heads: map<nat, Snapshot>)

  /** The atomic steps. A client inserts on whatever head it last read. */
  datatype Action =
    | ReadHead(client: nat, of: LedgerId)
    | AppendGenesis(client: nat, admittedAt: Uint64, signer: Bytes, signature: Bytes)
    | AppendNext(client: nat, admittedAt: Uint64, kind: Uint64, payloadVersion: Uint64, payload: Bytes,
                 signer: Bytes, signature: Bytes)

  const EMPTY: World := World([], map[])

  /** What `action` asks the table to insert, if anything. */
  function Proposal(k: Kernel, w: World, action: Action): (r: Option<(Draft, Record)>)
    ensures r.Some? ==> exists signer, signature :: Build(k, r.value.0, signer, signature) == Ok(r.value.1)
  {
    if action.ReadHead? || action.client !in w.heads then None
    else
      var snapshot := w.heads[action.client];
      var draft :=
        if action.AppendGenesis? then
          (if snapshot.head.Uninitialized? then Some(GenesisDraft(snapshot.ledger, action.admittedAt)) else None)
        else
          (if snapshot.head.At?
           then Some(NextDraft(snapshot.head, action.admittedAt, action.kind, action.payloadVersion, action.payload))
           else None);
      if draft.None? then None
      else
        match Build(k, draft.value, action.signer, action.signature)
        case Err(_) => None
        case Ok(record) => Some((draft.value, record))
  }

  function Next(k: Kernel, w: World, action: Action): World {
    match action
    case ReadHead(client, ledger) =>
      (match HeadOf(k.read, w.rows, ledger)
       case Err(_) => w
       case Ok(head) => w.(heads := w.heads[client := Snapshot(ledger, head)]))
    case _ =>
      match Proposal(k, w, action)
      case None => w
      case Some((_, record)) =>
        match InsertRow(w.rows, RowOf(record))
        case Err(_) => w
        case Ok(rows) => w.(rows := rows)
  }

  function Run(k: Kernel, w: World, actions: seq<Action>): World
    decreases |actions|
  {
    if actions == [] then w else Run(k, Next(k, w, actions[0]), actions[1..])
  }

  // ----- the invariant -----

  ghost predicate Listed(rows: seq<Row>, head: ChainState)
    requires head.At?
  {
    exists i :: 0 <= i < |rows| && rows[i].ledger == head.ledger && rows[i].sequence == head.sequence && rows[i].digest == head.digest
  }

  ghost predicate TableInv(read: Reader, rows: seq<Row>) {
    && AllRead(read, rows)
    && (forall i, j :: 0 <= i < j < |rows| ==> rows[i].digest != rows[j].digest)
    && (forall ledger :: Chained(OfLedger(rows, ledger)))
    && (forall i :: 0 <= i < |rows| && rows[i].previous.None? ==> IsGenesis(RecordOf(read, rows[i]).event))
  }

  ghost predicate HeadsInv(w: World) {
    forall c :: c in w.heads && w.heads[c].head.At? ==>
      w.heads[c].head.ledger == w.heads[c].ledger && Listed(w.rows, w.heads[c].head)
  }

  ghost predicate Inv(k: Kernel, w: World) {
    TableInv(k.read, w.rows) && HeadsInv(w)
  }

  /** A draft that some client may hold: genesis, or a continuation of a row of the table,
      however long ago that row was the head. */
  ghost predicate Grounded(rows: seq<Row>, d: Draft) {
    || d == GenesisDraft(d.ledger, d.admittedAt)
    || (exists head: ChainState :: head.At? && Listed(rows, head) &&
          d == NextDraft(head, d.admittedAt, d.kind, d.payloadVersion, d.payload))
  }

  /** A listed head stands in its chain, at the place its sequence says. */
  lemma ListedInChain(rows: seq<Row>, head: ChainState)
    requires head.At? && Listed(rows, head) && Chained(OfLedger(rows, head.ledger))
    ensures var chain := OfLedger(rows, head.ledger);
            1 <= head.sequence <= |chain| && chain[head.sequence - 1].digest == head.digest
  {
    var chain := OfLedger(rows, head.ledger);
    var i :| 0 <= i < |rows| && rows[i].ledger == head.ledger && rows[i].sequence == head.sequence && rows[i].digest == head.digest;
    OfLedgerMembers(rows, head.ledger, rows[i]);
    var j :| 0 <= j < |chain| && chain[j] == rows[i];
    assert ChainedAt(chain, j);
  }

  /** A row next to its predecessor, at a place not yet taken, extends the chain at its end. */
  lemma FreePlaceIsLast(chain: seq<Row>, row: Row)
    requires Chained(chain) && row.sequence > |chain|
    requires || (row.sequence == 1 && row.previous.None?)
             || (2 <= row.sequence <= |chain| + 1 && row.previous == Some(chain[row.sequence - 2].digest))
    ensures Chained(chain + [row])
  {
    ChainedExtend(chain, row);
  }

  /** Only the next position after the whole chain is free for a grounded row: a stale
      predecessor means its successor is already there. */
  lemma GroundedGoesLast(read: Reader, rows: seq<Row>, d: Draft, row: Row)
    requires TableInv(read, rows) && Grounded(rows, d)
    requires row.ledger == d.ledger && row.sequence == d.sequence > 0 && row.previous == d.previous
    requires !HasPosition(rows, row.ledger, row.sequence)
    ensures Chained(OfLedger(rows, row.ledger) + [row])
  {
    var chain := OfLedger(rows, row.ledger);
    assert Chained(chain);
    PlaceIsBeyond(rows, chain, row);
    if d != GenesisDraft(d.ledger, d.admittedAt) {
      var head: ChainState :| head.At? && Listed(rows, head) &&
                  d == NextDraft(head, d.admittedAt, d.kind, d.payloadVersion, d.payload);
      ListedInChain(rows, head);
    }
    FreePlaceIsLast(chain, row);
  }

  lemma PlaceIsBeyond(rows: seq<Row>, chain: seq<Row>, row: Row)
    requires chain == OfLedger(rows, row.ledger) && Chained(chain)
    requires row.sequence > 0 && !HasPosition(rows, row.ledger, row.sequence)
    ensures row.sequence > |chain|
  {
    if row.sequence <= |chain| { PlaceTaken(rows, chain, row.ledger, row.sequence); }
  }

  lemma InsertKeepsTable(read: Reader, rows: seq<Row>, d: Draft, r: Record)
    requires TableInv(read, rows) && Grounded(rows, d) && BuiltWell(read, r, d)
    requires InsertRow(rows, RowOf(r)).Ok?
    ensures TableInv(read, InsertRow(rows, RowOf(r)).value)
  {
    var row := RowOf(r);
    var rows' := rows + [row];
    forall ledger ensures Chained(OfLedger(rows', ledger)) {
      OfLedgerAppend(rows, row, ledger);
      assert Chained(OfLedger(rows, ledger));
      if ledger == row.ledger {
        GroundedGoesLast(read, rows, d, row);
      } else {
        assert OfLedger(rows', ledger) == OfLedger(rows, ledger);
      }
    }
    assert RowReads(read, row);
    forall i | 0 <= i < |rows'| && rows'[i].previous.None? ensures IsGenesis(RecordOf(read, rows'[i]).event) {
      if i == |rows| { assert d == GenesisDraft(d.ledger, d.admittedAt); }
    }
  }

  lemma ReadIsListed(read: Reader, rows: seq<Row>, ledger: LedgerId)
    requires TableInv(read, rows)
    ensures HeadOf(read, rows, ledger).Ok?
    ensures var head := HeadOf(read, rows, ledger).value;
            head.At? ==> head.ledger == ledger && Listed(rows, head)
    ensures var head, chain := HeadOf(read, rows, ledger).value, OfLedger(rows, ledger);
            (head.At? <==> chain != []) && (head.At? ==> head.sequence == |chain|)
  {
    var chain := OfLedger(rows, ledger);
    assert Chained(chain);
    HeadOnChain(read, rows, ledger);
    ChainedSequences(chain);
    if chain != [] {
      var row := chain[|chain| - 1];
      OfLedgerMembers(rows, ledger, row);
      var i :| 0 <= i < |rows| && rows[i] == row;
    }
  }

  lemma ListedStable(rows: seq<Row>, more: seq<Row>, head: ChainState)
    requires head.At? && Listed(rows, head)
    ensures Listed(rows + more, head)
  {
    var i :| 0 <= i < |rows| && rows[i].ledger == head.ledger && rows[i].sequence == head.sequence && rows[i].digest == head.digest;
    assert (rows + more)[i] == rows[i];
  }

  lemma ProposalGrounded(k: Kernel, w: World, action: Action)
    requires Sound(k) && Inv(k, w) && Proposal(k, w, action).Some?
    ensures var (d, r) := Proposal(k, w, action).value;
            Grounded(w.rows, d) && BuiltWell(k.read, r, d)
  {
    var (d, r) := Proposal(k, w, action).value;
    var snapshot := w.heads[action.client];
    if snapshot.head.At? {
      assert Listed(w.rows, snapshot.head);
      assert d == NextDraft(snapshot.head, d.admittedAt, d.kind, d.payloadVersion, d.payload);
    }
  }

  lemma AppendKeeps(k: Kernel, w: World, d: Draft, r: Record)
    requires Inv(k, w) && Grounded(w.rows, d) && BuiltWell(k.read, r, d) && InsertRow(w.rows, RowOf(r)).Ok?
    ensures Inv(k, World(w.rows + [RowOf(r)], w.heads))
  {
    InsertKeepsTable(k.read, w.rows, d, r);
    forall c | c in w.heads && w.heads[c].head.At? ensures Listed(w.rows + [RowOf(r)], w.heads[c].head) {
      ListedStable(w.rows, [RowOf(r)], w.heads[c].head);
    }
  }

  lemma ReadKeepsInv(k: Kernel, w: World, client: nat, ledger: LedgerId)
    requires Inv(k, w)
    ensures Inv(k, Next(k, w, ReadHead(client, ledger))) && Next(k, w, ReadHead(client, ledger)).rows == w.rows
  {
    ReadIsListed(k.read, w.rows, ledger);
  }

  /** Every step of every client keeps every chain. */
  lemma NextKeepsInv(k: Kernel, w: World, action: Action)
    requires Sound(k) && Inv(k, w)
    ensures Inv(k, Next(k, w, action))
    ensures w.rows <= Next(k, w, action).rows
  {
    if action.ReadHead? {
      ReadKeepsInv(k, w, action.client, action.of);
    } else if Proposal(k, w, action).Some? {
      var (d, r) := Proposal(k, w, action).value;
      ProposalGrounded(k, w, action);
      if InsertRow(w.rows, RowOf(r)).Ok? { AppendKeeps(k, w, d, r); }
    }
  }

  /** A taken position means the chain has reached it. */
  lemma PositionReached(read: Reader, rows: seq<Row>, ledger: LedgerId, sequence: Uint64)
    requires TableInv(read, rows) && HasPosition(rows, ledger, sequence)
    ensures sequence <= |OfLedger(rows, ledger)|
  {
    var chain := OfLedger(rows, ledger);
    assert Chained(chain);
    ChainedSequences(chain);
    var i :| 0 <= i < |rows| && rows[i].ledger == ledger && rows[i].sequence == sequence;
    OfLedgerMembers(rows, ledger, rows[i]);
  }

  /** A grounded, well-built record is inserted, is already there, or lost its position:
      the predecessor it names is never missing. */
  lemma InsertOutcomes(read: Reader, rows: seq<Row>, d: Draft, r: Record)
    requires TableInv(read, rows) && Grounded(rows, d) && BuiltWell(read, r, d)
    ensures var outcome := InsertRow(rows, RowOf(r));
            outcome.Ok? || outcome == Err(DuplicateRecord) || outcome == Err(ChainHeadMoved)
    ensures InsertRow(rows, RowOf(r)) == Err(ChainHeadMoved) ==> HasPosition(rows, d.ledger, d.sequence)
  {
    if d.previous.Some? {
      var head: ChainState :| head.At? && Listed(rows, head) &&
                  d == NextDraft(head, d.admittedAt, d.kind, d.payloadVersion, d.payload);
      var i :| 0 <= i < |rows| && rows[i].ledger == head.ledger && rows[i].sequence == head.sequence && rows[i].digest == head.digest;
      assert (rows + [RowOf(r)])[i].digest == d.previous.value;
    }
  }

  /** What a head read sees: the end of the chain as it is. */
  lemma ReadSeesEnd(k: Kernel, w: World, client: nat, ledger: LedgerId)
    requires Inv(k, w)
    ensures var chain := OfLedger(w.rows, ledger);
            var end := if chain == [] then Uninitialized else At(ledger, chain[|chain| - 1].sequence, chain[|chain| - 1].digest);
            Next(k, w, ReadHead(client, ledger)) == w.(heads := w.heads[client := Snapshot(ledger, end)])
  {
    var chain := OfLedger(w.rows, ledger);
    assert Chained(chain);
    HeadOnChain(k.read, w.rows, ledger);
    ChainedSequences(chain);
  }

  /** The race: a record goes in exactly if the head it was built on is still the head, its digest
      being new. Of any number of clients with the same head, one wins. */
  lemma AppendWinsIfCurrent(k: Kernel, w: World, client: nat, now: Uint64, kind: Uint64, version: Uint64, payload: Bytes,
                            signer: Bytes, signature: Bytes, r: Record)
    requires Sound(k) && Inv(k, w) && client in w.heads && w.heads[client].head.At?
    requires var head := w.heads[client].head;
             Build(k, NextDraft(head, now, kind, version, payload), signer, signature) == Ok(r) && !HasDigest(w.rows, r.digest)
    ensures var head := w.heads[client].head;
            Next(k, w, AppendNext(client, now, kind, version, payload, signer, signature)) ==
            if head.sequence == |OfLedger(w.rows, head.ledger)| then w.(rows := w.rows + [RowOf(r)]) else w
  {
    var head := w.heads[client].head;
    var d := NextDraft(head, now, kind, version, payload);
    assert Listed(w.rows, head);
    CurrentOrTaken(k.read, w.rows, head, d.sequence);
    InsertOutcomes(k.read, w.rows, d, r);
  }

  /** The place after a listed head is free exactly if that head is the end of its chain. */
  lemma CurrentOrTaken(read: Reader, rows: seq<Row>, head: ChainState, next: Uint64)
    requires TableInv(read, rows) && head.At? && Listed(rows, head) && next == Successor(head.sequence) && next > 0
    ensures HasPosition(rows, head.ledger, next) <==> head.sequence != |OfLedger(rows, head.ledger)|
  {
    var chain := OfLedger(rows, head.ledger);
    assert Chained(chain);
    ListedInChain(rows, head);
    if HasPosition(rows, head.ledger, next) { PositionReached(read, rows, head.ledger, next); }
    if head.sequence < |chain| { PlaceTaken(rows, chain, head.ledger, next); }
  }

  lemma PlaceTaken(rows: seq<Row>, chain: seq<Row>, ledger: LedgerId, sequence: Uint64)
    requires chain == OfLedger(rows, ledger) && Chained(chain) && 1 <= sequence <= |chain|
    ensures HasPosition(rows, ledger, sequence)
  {
    var taken := chain[sequence - 1];
    assert ChainedAt(chain, sequence - 1);
    OfLedgerMembers(rows, ledger, taken);
    var i :| 0 <= i < |rows| && rows[i] == taken;
  }

  /** A genesis goes in exactly if the ledger is still empty, its digest being new. */
  lemma GenesisWinsIfEmpty(k: Kernel, w: World, client: nat, now: Uint64, signer: Bytes, signature: Bytes, r: Record)
    requires Sound(k) && Inv(k, w) && client in w.heads && w.heads[client].head.Uninitialized?
    requires Build(k, GenesisDraft(w.heads[client].ledger, now), signer, signature) == Ok(r) && !HasDigest(w.rows, r.digest)
    ensures Next(k, w, AppendGenesis(client, now, signer, signature)) ==
            if OfLedger(w.rows, w.heads[client].ledger) == [] then w.(rows := w.rows + [RowOf(r)]) else w
  {
    var ledger := w.heads[client].ledger;
    var chain := OfLedger(w.rows, ledger);
    assert Chained(chain);
    InsertOutcomes(k.read, w.rows, GenesisDraft(ledger, now), r);
    if HasPosition(w.rows, ledger, 1) { PositionReached(k.read, w.rows, ledger, 1); }
    if chain != [] { PlaceTaken(w.rows, chain, ledger, 1); }
  }

  /** For every interleaving, and the table only ever grows at its end. */
  lemma {:induction false} RunKeepsInv(k: Kernel, w: World, actions: seq<Action>)
    requires Sound(k) && Inv(k, w)
    ensures Inv(k, Run(k, w, actions))
    ensures w.rows <= Run(k, w, actions).rows
    decreases |actions|
  {
    if actions != [] {
      NextKeepsInv(k, w, actions[0]);
      RunKeepsInv(k, Next(k, w, actions[0]), actions[1..]);
    }
  }

  lemma EmptyInv(k: Kernel)
    ensures Inv(k, EMPTY)
  {
  }

  /** The chain is unbroken under every interleaving of any number of clients with stale heads:
      each ledger's rows, as inserted, sit at sequences 1, 2, 3, ..., only the first lacks a
      predecessor, and each other row links to the digest of the one before it. */
  lemma ChainUnbroken(h: Hash, actions: seq<Action>, ledger: LedgerId)
    ensures var rows := Run(LedgerKernel(h), EMPTY, actions).rows;
            Chained(OfLedger(rows, ledger)) && AllRead(LedgerKernel(h).read, rows)
  {
    ReachableTable(h, actions);
  }

  // ----- the head and the fold -----

  /** No record after the first of a ledger has the genesis kind. `Admit` does not check this. */
  ghost predicate NoLateGenesis(records: seq<Record>) {
    forall i :: 0 < i < |records| ==> records[i].event.kind != LEDGER_INITIALIZED
  }

  lemma ChainedRowsAreLinked(read: Reader, rows: seq<Row>, ledger: LedgerId)
    requires TableInv(read, rows)
    ensures var records := LedgerRecords(read, rows, ledger);
            && Linked(records)
            && (GenesisOnlyFirst(records) <==> NoLateGenesis(records))
  {
    var chain, records := OfLedger(rows, ledger), LedgerRecords(read, rows, ledger);
    assert Chained(chain);
    OfLedgerReads(read, rows, ledger);
    forall i | 0 <= i < |records| ensures LinkedAt(records, i) {
      assert ChainedAt(chain, i);
      assert RowReads(read, chain[i]) && RowReads(read, chain[0]);
      OfLedgerMembers(rows, ledger, chain[i]);
      OfLedgerMembers(rows, ledger, chain[0]);
      if i > 0 { assert RowReads(read, chain[i - 1]); }
    }
    if records != [] {
      assert ChainedAt(chain, 0);
      OfLedgerMembers(rows, ledger, chain[0]);
      var i :| 0 <= i < |rows| && rows[i] == chain[0];
      assert IsGenesis(records[0].event);
    }
  }

  lemma ReadRecordsAreRecords(h: Hash, rows: seq<Row>)
    requires AllRead(LedgerKernel(h).read, rows)
    ensures AllRecords(h, RecordsOf(LedgerKernel(h).read, rows))
  {
    var read := LedgerKernel(h).read;
    var records := RecordsOf(read, rows);
    forall i | 0 <= i < |records| ensures IsRecord(h, records[i]) {
      assert RowReads(read, rows[i]);
      ValidatedIsRecord(h, rows[i].bytes);
    }
  }

  /** What the chain check says of a sequence of records. */
  ghost predicate Judges(fold: Result<ChainState>, records: seq<Record>) {
    if Linked(records) && GenesisOnlyFirst(records)
    then fold == Ok(if records == [] then Uninitialized else Position(records[|records| - 1]))
    else fold.Err?
  }

  lemma LedgerFold(h: Hash, rows: seq<Row>, ledger: LedgerId)
    requires AllRead(LedgerKernel(h).read, rows)
    ensures var records := LedgerRecords(LedgerKernel(h).read, rows, ledger);
            Judges(FoldChain(h, records), records)
  {
    OfLedgerReads(LedgerKernel(h).read, rows, ledger);
    ReadRecordsAreRecords(h, OfLedger(rows, ledger));
    FoldExact(h, LedgerRecords(LedgerKernel(h).read, rows, ledger));
  }

  lemma FoldMeetsHead(read: Reader, rows: seq<Row>, ledger: LedgerId, fold: Result<ChainState>)
    requires TableInv(read, rows) && Judges(fold, LedgerRecords(read, rows, ledger))
    ensures if NoLateGenesis(LedgerRecords(read, rows, ledger)) then fold == HeadOf(read, rows, ledger) else fold.Err?
  {
    ChainedRowsAreLinked(read, rows, ledger);
    HeadMatchesLast(read, rows, ledger);
  }

  lemma TableFold(h: Hash, rows: seq<Row>, ledger: LedgerId)
    requires TableInv(LedgerKernel(h).read, rows)
    ensures var read := LedgerKernel(h).read;
            var records := LedgerRecords(read, rows, ledger);
            if NoLateGenesis(records) then FoldChain(h, records) == HeadOf(read, rows, ledger)
            else FoldChain(h, records).Err?
  {
    var read := LedgerKernel(h).read;
    LedgerFold(h, rows, ledger);
    FoldMeetsHead(read, rows, ledger, FoldChain(h, LedgerRecords(read, rows, ledger)));
  }

  lemma ReachableTable(h: Hash, actions: seq<Action>)
    ensures TableInv(LedgerKernel(h).read, Run(LedgerKernel(h), EMPTY, actions).rows)
  {
    var k := LedgerKernel(h);
    LedgerKernelSound(h);
    EmptyInv(k);
    RunKeepsInv(k, EMPTY, actions);
  }

  /** `Head` reads one row. On every reachable ledger the full chain check, folded over all
      records from the empty state, arrives at that same state exactly when no continuation was
      admitted with the genesis kind; otherwise the check rejects the ledger. */
  lemma HeadIsFold(h: Hash, actions: seq<Action>, ledger: LedgerId)
    ensures var read := LedgerKernel(h).read;
            var rows := Run(LedgerKernel(h), EMPTY, actions).rows;
            && AllRead(read, rows)
            && var records := LedgerRecords(read, rows, ledger);
               if NoLateGenesis(records) then FoldChain(h, records) == HeadOf(read, rows, ledger)
               else FoldChain(h, records).Err?
  {
    ReachableTable(h, actions);
    TableFold(h, Run(LedgerKernel(h), EMPTY, actions).rows, ledger);
  }

  lemma HeadMatchesLast(read: Reader, rows: seq<Row>, ledger: LedgerId)
    requires TableInv(read, rows)
    ensures var records := LedgerRecords(read, rows, ledger);
            HeadOf(read, rows, ledger) ==
            Ok(if records == [] then Uninitialized else Position(records[|records| - 1]))
  {
    var chain := OfLedger(rows, ledger);
    assert Chained(chain);
    HeadOnChain(read, rows, ledger);
    OfLedgerReads(read, rows, ledger);
    if chain != [] {
      var row := chain[|chain| - 1];
      assert RowReads(read, row);
      OfLedgerMembers(rows, ledger, row);
    }
  }

  /** At most one genesis per ledger: after one was inserted, no later one is, in any run. */
  lemma OneGenesis(k: Kernel, rows: seq<Row>, actions: seq<Action>, heads: map<nat, Snapshot>, r: Record, again: Record)
    requires Sound(k) && Inv(k, World(rows, heads))
    requires RowOf(r) in rows && r.event.sequence == 1
    requires again.event.ledger == r.event.ledger && again.event.sequence == 1
    ensures InsertRow(Run(k, World(rows, heads), actions).rows, RowOf(again)).Err?
  {
    var w := World(rows, heads);
    RunKeepsInv(k, w, actions);
    var later := Run(k, w, actions).rows;
    var i :| 0 <= i < |rows| && rows[i] == RowOf(r);
    assert later[i] == rows[i];
    assert HasPosition(later, again.event.ledger, 1);
  }

  // ----- what all submissions meet, all records meet -----

  /** A condition on the kind and payload of a continuation. */
  type Condition = (Uint64, Bytes) -> bool

  /** Every continuation submitted meets the condition; genesis and head reads are unrestricted. */
  ghost predicate Submits(meets: Condition, actions: seq<Action>) {
    forall i :: 0 <= i < |actions| && actions[i].AppendNext? ==> meets(actions[i].kind, actions[i].payload)
  }

  ghost predicate RecordMeets(meets: Condition, record: Record) {
    IsGenesis(record.event) || meets(record.event.kind, record.event.payload)
  }

  ghost predicate TableMeets(meets: Condition, read: Reader, rows: seq<Row>)
    requires AllRead(read, rows)
  {
    forall i :: 0 <= i < |rows| ==> RecordMeets(meets, RecordOf(read, rows[i]))
  }

  lemma ProposalMeets(meets: Condition, k: Kernel, w: World, action: Action)
    requires Sound(k) && Inv(k, w) && Proposal(k, w, action).Some?
    requires action.AppendNext? ==> meets(action.kind, action.payload)
    ensures RecordMeets(meets, Proposal(k, w, action).value.1)
  {
    ProposalGrounded(k, w, action);
  }

  lemma MeetsAppend(meets: Condition, read: Reader, rows: seq<Row>, r: Record)
    requires AllRead(read, rows + [RowOf(r)]) && AllRead(read, rows) && TableMeets(meets, read, rows)
    requires read(r.bytes) == Ok(r) && RecordMeets(meets, r)
    ensures TableMeets(meets, read, rows + [RowOf(r)])
  {
    var rows' := rows + [RowOf(r)];
    forall i | 0 <= i < |rows'| ensures RecordMeets(meets, RecordOf(read, rows'[i])) {
      if i < |rows| { assert rows'[i] == rows[i]; }
    }
  }

  lemma NextMeets(meets: Condition, k: Kernel, w: World, action: Action)
    requires Sound(k) && Inv(k, w) && TableMeets(meets, k.read, w.rows)
    requires action.AppendNext? ==> meets(action.kind, action.payload)
    requires AllRead(k.read, Next(k, w, action).rows)
    ensures TableMeets(meets, k.read, Next(k, w, action).rows)
  {
    if Next(k, w, action).rows != w.rows {
      var r := Proposal(k, w, action).value.1;
      ProposalGrounded(k, w, action);
      ProposalMeets(meets, k, w, action);
      MeetsAppend(meets, k.read, w.rows, r);
    }
  }

  /** What every client's submissions meet, every record of the table meets, in every run. */
  lemma {:induction false} RunMeets(meets: Condition, k: Kernel, w: World, actions: seq<Action>)
    requires Sound(k) && Inv(k, w) && TableMeets(meets, k.read, w.rows) && Submits(meets, actions)
    ensures Inv(k, Run(k, w, actions)) && TableMeets(meets, k.read, Run(k, w, actions).rows)
    decreases |actions|
  {
    if actions != [] {
      NextKeepsInv(k, w, actions[0]);
      NextMeets(meets, k, w, actions[0]);
      RunMeets(meets, k, Next(k, w, actions[0]), actions[1..]);
    }
  }

  ghost function ContinuationKinds(): Condition {
    (kind: Uint64, payload: Bytes) => kind != LEDGER_INITIALIZED
  }

  lemma NoLateGenesisIn(read: Reader, rows: seq<Row>, ledger: LedgerId)
    requires TableInv(read, rows) && TableMeets(ContinuationKinds(), read, rows)
    ensures NoLateGenesis(LedgerRecords(read, rows, ledger))
  {
    var chain, records := OfLedger(rows, ledger), LedgerRecords(read, rows, ledger);
    assert Chained(chain);
    OfLedgerReads(read, rows, ledger);
    forall i | 0 < i < |records| ensures records[i].event.kind != LEDGER_INITIALIZED {
      OfLedgerMembers(rows, ledger, chain[i]);
      var j :| 0 <= j < |rows| && rows[j] == chain[i];
      assert RecordMeets(ContinuationKinds(), RecordOf(read, rows[j]));
      assert ChainedAt(chain, i) && RowReads(read, chain[i]);
    }
  }

  /** So as long as no client submits the genesis kind, which the endorsement calls never do, the
      head that `Head` reads off one row is the fold of the full check over all records. */
  lemma HeadIsFoldOfAll(h: Hash, actions: seq<Action>, ledger: LedgerId)
    requires Submits(ContinuationKinds(), actions)
    ensures var read := LedgerKernel(h).read;
            var rows := Run(LedgerKernel(h), EMPTY, actions).rows;
            AllRead(read, rows) && FoldChain(h, LedgerRecords(read, rows, ledger)) == HeadOf(read, rows, ledger)
  {
    var k := LedgerKernel(h);
    LedgerKernelSound(h);
    EmptyInv(k);
    RunMeets(ContinuationKinds(), k, EMPTY, actions);
    NoLateGenesisIn(k.read, Run(k, EMPTY, actions).rows, ledger);
    TableFold(h, Run(k, EMPTY, actions).rows, ledger);
  }
}
