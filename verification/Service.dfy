/** `InitLedger` and `Admit` as they run: the retry loop, with other clients taking any steps
    they like before each head read and between each head read and its insert. */
module AdmissionService {
  import opened Prelude
  import opened Ledger
  import opened Chain
  import opened LedgerStore
  import opened Admission
  import opened Endorsement

  datatype AdmitRequest = AdmitRequest(ledger: LedgerId, kind: Uint64, payloadVersion: Uint64, payload: Bytes)

  ghost predicate CarriesRequest(r: Record, req: AdmitRequest) {
    && r.event.ledger == req.ledger && r.event.kind == req.kind
    && r.event.payloadVersion == req.payloadVersion && r.event.payload == req.payload
  }

  /** `after` is reached from `before` by steps of other clients alone, all of whose submissions
      meet a condition. */
  ghost predicate ByOthers(k: Kernel, meets: Condition, before: World, after: World) {
    exists actions :: Submits(meets, actions) && Run(k, before, actions) == after
  }

  lemma {:induction false} RunConcat(k: Kernel, w: World, a: seq<Action>, b: seq<Action>)
    ensures Run(k, Run(k, w, a), b) == Run(k, w, a + b)
    decreases |a|
  {
    if a == [] {
      assert a + b == b;
    } else {
      RunConcat(k, Next(k, w, a[0]), a[1..], b);
      assert (a + b)[1..] == a[1..] + b;
    }
  }

  lemma ByOthersAtRest(k: Kernel, meets: Condition, w: World)
    ensures ByOthers(k, meets, w, w)
  {
    assert Submits(meets, []) && Run(k, w, []) == w;
  }

  lemma ByOthersRun(k: Kernel, meets: Condition, before: World, a: seq<Action>, b: seq<Action>)
    requires Submits(meets, a) && Submits(meets, b)
    ensures ByOthers(k, meets, before, Run(k, Run(k, before, a), b))
  {
    RunConcat(k, before, a, b);
    assert Submits(meets, a + b);
  }

  lemma ByOthersTransitive(k: Kernel, meets: Condition, a: World, b: World, c: World)
    requires ByOthers(k, meets, a, b) && ByOthers(k, meets, b, c)
    ensures ByOthers(k, meets, a, c)
  {
    var first :| Submits(meets, first) && Run(k, a, first) == b;
    var second :| Submits(meets, second) && Run(k, b, second) == c;
    ByOthersRun(k, meets, a, first, second);
  }

  lemma ByOthersMeets(k: Kernel, meets: Condition, before: World, after: World)
    requires Sound(k) && Inv(k, before) && TableMeets(meets, k.read, before.rows) && ByOthers(k, meets, before, after)
    ensures Inv(k, after) && TableMeets(meets, k.read, after.rows)
  {
    var actions :| Submits(meets, actions) && Run(k, before, actions) == after;
    RunMeets(meets, k, before, actions);
  }

  lemma {:induction false} OfLedgerGrows(rows: seq<Row>, more: seq<Row>, ledger: LedgerId)
    requires rows <= more
    ensures |OfLedger(rows, ledger)| <= |OfLedger(more, ledger)|
    decreases |more|
  {
    if |rows| < |more| {
      OfLedgerGrows(rows, more[..|more| - 1], ledger);
    } else {
      assert rows == more;
    }
  }

  lemma ListedLater(rows: seq<Row>, more: seq<Row>, head: ChainState)
    requires head.At? && Listed(rows, head) && rows <= more
    ensures Listed(more, head)
  {
    ListedStable(rows, more[|rows|..], head);
    assert more == rows + more[|rows|..];
  }

  lemma HeldHeadGrounds(rows: seq<Row>, head: ChainState, now: Uint64, req: AdmitRequest)
    requires head.At? && Listed(rows, head)
    ensures Grounded(rows, NextDraft(head, now, req.kind, req.payloadVersion, req.payload))
  {
  }

  lemma DuplicateIsStored(read: Reader, rows: seq<Row>, digest: Digest)
    requires AllRead(read, rows) && HasDigest(rows, digest)
    ensures var r := RecordByDigest(read, rows, digest);
            r.Ok? && r.value.digest == digest && RowOf(r.value) in rows && read(r.value.bytes) == r
  {
    var row := RowWithDigest(rows, digest).value;
    var i :| 0 <= i < |rows| && rows[i] == row;
    assert RowReads(read, row);
  }

  /** `Admit` accepts the genesis kind on any initialized ledger: such a continuation of the
      current head goes in, the table stays a chain, and from then on the full chain check rejects
      the ledger while `Head` still serves it. The one way out is a hash collision. */
  lemma LateGenesisAdmitted(h: Hash, rows: seq<Row>, ledger: LedgerId, now: Uint64, version: Uint64, payload: Bytes,
                            signer: Bytes, signature: Bytes, r: Record)
    requires TableInv(LedgerKernel(h).read, rows) && OfLedger(rows, ledger) != []
    requires var head := HeadOf(LedgerKernel(h).read, rows, ledger);
             head.Ok? && head.value.At? &&
             Build(LedgerKernel(h), NextDraft(head.value, now, LEDGER_INITIALIZED, version, payload), signer, signature) == Ok(r)
    ensures var read, rows' := LedgerKernel(h).read, rows + [RowOf(r)];
            || (exists i :: 0 <= i < |rows| && RowReads(read, rows[i]) && BodiesCollide(h, RecordOf(read, rows[i]), r))
            || (InsertRow(rows, RowOf(r)) == Ok(rows') && TableInv(read, rows') &&
                HeadOf(read, rows', ledger).Ok? && FoldChain(h, LedgerRecords(read, rows', ledger)).Err?)
  {
    var k := LedgerKernel(h);
    var head := HeadOf(k.read, rows, ledger).value;
    var d := NextDraft(head, now, LEDGER_INITIALIZED, version, payload);
    ReadIsListed(k.read, rows, ledger);
    LedgerBuildsWell(h, d, signer, signature);
    if HasDigest(rows, r.digest) {
      SharedDigest(h, rows, ledger, r);
    } else {
      CurrentGoesIn(k.read, rows, d, r);
      LateFold(h, rows, ledger, r);
    }
  }

  /** A record built on the current head of its ledger goes in unless its digest is taken. */
  lemma CurrentGoesIn(read: Reader, rows: seq<Row>, d: Draft, r: Record)
    requires TableInv(read, rows) && Grounded(rows, d) && BuiltWell(read, r, d)
    requires !HasDigest(rows, r.digest) && d.sequence > |OfLedger(rows, d.ledger)|
    ensures InsertRow(rows, RowOf(r)) == Ok(rows + [RowOf(r)]) && TableInv(read, rows + [RowOf(r)])
  {
    InsertOutcomes(read, rows, d, r);
    if HasPosition(rows, d.ledger, d.sequence) { PositionReached(read, rows, d.ledger, d.sequence); }
    InsertKeepsTable(read, rows, d, r);
  }

  lemma LateFold(h: Hash, rows: seq<Row>, ledger: LedgerId, r: Record)
    requires TableInv(LedgerKernel(h).read, rows + [RowOf(r)]) && OfLedger(rows, ledger) != []
    requires r.event.ledger == ledger && r.event.kind == LEDGER_INITIALIZED && LedgerKernel(h).read(r.bytes) == Ok(r)
    ensures var read, rows' := LedgerKernel(h).read, rows + [RowOf(r)];
            HeadOf(read, rows', ledger).Ok? && FoldChain(h, LedgerRecords(read, rows', ledger)).Err?
  {
    TableFold(h, rows + [RowOf(r)], ledger);
    ReadIsListed(LedgerKernel(h).read, rows + [RowOf(r)], ledger);
    LateKind(LedgerKernel(h).read, rows, ledger, r);
  }

  lemma SharedDigest(h: Hash, rows: seq<Row>, ledger: LedgerId, r: Record)
    requires TableInv(LedgerKernel(h).read, rows) && HasDigest(rows, r.digest)
    requires r.event.ledger == ledger && r.event.sequence > |OfLedger(rows, ledger)| && LedgerKernel(h).read(r.bytes) == Ok(r)
    ensures var read := LedgerKernel(h).read;
            exists i :: 0 <= i < |rows| && RowReads(read, rows[i]) && BodiesCollide(h, RecordOf(read, rows[i]), r)
  {
    var read := LedgerKernel(h).read;
    var i :| 0 <= i < |rows| && rows[i].digest == r.digest;
    assert RowReads(read, rows[i]);
    var stored := RecordOf(read, rows[i]);
    if stored == r {
      assert HasPosition(rows, ledger, r.event.sequence);
      PositionReached(read, rows, ledger, r.event.sequence);
    }
    ValidatedIsRecord(h, rows[i].bytes);
    ValidatedIsRecord(h, r.bytes);
    DigestCommits(h, stored, r);
  }

  lemma LateKind(read: Reader, rows: seq<Row>, ledger: LedgerId, r: Record)
    requires AllRead(read, rows + [RowOf(r)]) && OfLedger(rows, ledger) != []
    requires r.event.ledger == ledger && r.event.kind == LEDGER_INITIALIZED
    ensures !NoLateGenesis(LedgerRecords(read, rows + [RowOf(r)], ledger))
  {
    var chain, records := OfLedger(rows, ledger), LedgerRecords(read, rows + [RowOf(r)], ledger);
    OfLedgerAppend(rows, RowOf(r), ledger);
    OfLedgerReads(read, rows + [RowOf(r)], ledger);
    assert RowReads(read, OfLedger(rows + [RowOf(r)], ledger)[|chain|]);
    assert records[|chain|].event.kind == LEDGER_INITIALIZED;
  }

  datatype Outcome =
    | Appended(record: Record)
    | Rejected(record: Record, error: Error)
    | NotBuilt(error: Error)

  /** The system signer on one occasion: what it answers to a digest, if anything. It may answer
      the same digest differently on another occasion. */
  type Signer = Digest -> Option<Bytes>

  /** A record that an attempt made: on which head, at what time, signed by what answer. */
  datatype Candidate = Candidate(record: Record, head: ChainState, now: Uint64, sign: Signer)

  /** The candidate is the successor of its head that carries the request, sealed by the signer. */
  ghost predicate MadeFor(read: Reader, c: Candidate, req: AdmitRequest, signer: Bytes) {
    && c.head.At? && c.head.ledger == req.ledger
    && CarriesRequest(c.record, req) && c.record.event.admittedAt == c.now
    && c.record.event.sequence == c.head.sequence + 1 && c.record.event.previous == Some(c.head.digest)
    && c.record.signer == signer && c.sign(c.record.event.digest) == Some(c.record.signature)
    && read(c.record.bytes) == Ok(c.record)
  }

  /** What a successful call leaves behind: either it appended its candidate and nothing else, or
      the candidate's digest was stored already and the call changed nothing; it returns the stored
      record. */
  ghost predicate Admitted(read: Reader, before: seq<Row>, after: seq<Row>, r: Record, candidate: Record) {
    && RowOf(r) in after && read(r.bytes) == Ok(r) && r.digest == candidate.digest
    && (if HasDigest(before, candidate.digest) then after == before
        else r == candidate && after == before + [RowOf(r)])
  }

  /** With the ledger's own kernel, the record returned is the candidate: the successor of the head
      this call read, carrying the request. Or the two are different bodies with one hash. */
  lemma AdmittedIsCandidate(h: Hash, before: seq<Row>, after: seq<Row>, req: AdmitRequest, signer: Bytes, r: Record, c: Candidate)
    requires Admitted(LedgerKernel(h).read, before, after, r, c.record) && MadeFor(LedgerKernel(h).read, c, req, signer)
    ensures BodiesCollide(h, r, c.record) ||
            (r == c.record && CarriesRequest(r, req) && r.event.sequence == c.head.sequence + 1 && r.event.previous == Some(c.head.digest))
  {
    ValidatedIsRecord(h, r.bytes);
    ValidatedIsRecord(h, c.record.bytes);
    DigestCommits(h, r, c.record);
  }

  /** So what `Admit` returns lies beyond the chain as it was when the call began: never an older
      record that happens to carry the same request. */
  lemma AdmittedIsNew(h: Hash, start: seq<Row>, before: seq<Row>, after: seq<Row>, req: AdmitRequest, signer: Bytes, r: Record, c: Candidate)
    requires MadeFor(LedgerKernel(h).read, c, req, signer)
    requires TableInv(LedgerKernel(h).read, start) && |OfLedger(start, req.ledger)| <= c.head.sequence
    requires Admitted(LedgerKernel(h).read, before, after, r, c.record)
    ensures BodiesCollide(h, r, c.record) || (RowOf(r) !in start && !HasPosition(start, req.ledger, r.event.sequence))
  {
    AdmittedIsCandidate(h, before, after, req, signer, r, c);
    if r == c.record {
      if HasPosition(start, req.ledger, r.event.sequence) {
        PositionReached(LedgerKernel(h).read, start, req.ledger, r.event.sequence);
      }
    }
  }

  lemma FirstOfChain(read: Reader, rows: seq<Row>, row: Row)
    requires TableInv(read, rows + [row]) && row.sequence == 1
    ensures OfLedger(rows, row.ledger) == []
  {
    OfLedgerAppend(rows, row, row.ledger);
    var chain := OfLedger(rows + [row], row.ledger);
    assert Chained(chain);
    ChainedSequences(chain);
    assert chain[|chain| - 1] == row;
  }

  ghost function Vouching(c: Crypto): Condition {
    (kind: Uint64, payload: Bytes) => Vouched(c, kind, payload)
  }

  lemma AdmittedMeets(read: Reader, before: seq<Row>, after: seq<Row>, r: Record, candidate: Record, meets: Condition)
    requires AllRead(read, before) && AllRead(read, after) && TableMeets(meets, read, before)
    requires Admitted(read, before, after, r, candidate) && meets(candidate.event.kind, candidate.event.payload)
    ensures TableMeets(meets, read, after)
  {
    if after != before { MeetsAppend(meets, read, before, r); }
  }

  class Service {
    const kernel: Kernel
    const store: Store
    const signer: Bytes
    const maxRetries: nat
    /** The heads the other clients last read. */
    var heads: map<nat, Snapshot>

    constructor (kernel: Kernel, store: Store, signer: Bytes, maxRetries: nat)
      ensures this.kernel == kernel && this.store == store && this.signer == signer
      ensures this.maxRetries == maxRetries && heads == map[]
    {
      this.kernel, this.store, this.signer := kernel, store, signer;
      this.maxRetries, heads := maxRetries, map[];
    }

    ghost function World(): World
      reads this, store
    {
      Admission.World(store.rows, heads)
    }

    ghost predicate Valid()
      reads this, store
    {
      Sound(kernel) && store.read == kernel.read && Inv(kernel, World())
    }

    /** Whether the event can be made, signed and wrapped into a record. */
    predicate Buildable(d: Draft, sign: Signer) {
      && kernel.newEvent(d).Ok?
      && sign(kernel.newEvent(d).value.digest).Some?
      && kernel.newRecord(kernel.newEvent(d).value, signer, sign(kernel.newEvent(d).value.digest).value).Ok?
    }

    /** The record names this service's signer and holds what it answered to the event's digest. */
    ghost predicate Signed(r: Record, sign: Signer) {
      r.signer == signer && sign(r.event.digest) == Some(r.signature)
    }

    /** Some head of the ledger on which the request could not be built at that time. */
    ghost predicate Unbuildable(req: AdmitRequest, rows: seq<Row>, now: Uint64, sign: Signer) {
      exists head: ChainState ::
        head.At? && Listed(rows, head) && head.ledger == req.ledger &&
        !Buildable(NextDraft(head, now, req.kind, req.payloadVersion, req.payload), sign)
    }

    /** Why a call to `Admit` may fail, and what must be so when it does. */
    ghost predicate Refused(error: Error, req: AdmitRequest, start: seq<Row>, before: seq<Row>,
                            clock: nat -> Uint64, sign: nat -> Signer)
    {
      || (error == EmptyPayload && req.payload == [])
      || (error == LedgerUninitialized && OfLedger(start, req.ledger) == [])
      || ((error == RecordNotBuilt || error == SigningFailed) &&
          exists i :: 0 <= i <= maxRetries && Unbuildable(req, before, clock(i), sign(i)))
      || (error == RetriesExhausted &&
          |OfLedger(before, req.ledger)| >= |OfLedger(start, req.ledger)| + maxRetries + 1)
    }

    /** Other clients take the given steps. */
    method Interleave(actions: seq<Action>)
      requires Valid()
      modifies this, store
      ensures Valid() && World() == Run(kernel, old(World()), actions) && old(store.rows) <= store.rows
    {
      var after := Run(kernel, Admission.World(store.rows, heads), actions);
      RunKeepsInv(kernel, World(), actions);
      store.rows, heads := after.rows, after.heads;
    }

    /** Read the head of a ledger as it is now. */
    method ReadNow(ledger: LedgerId) returns (head: ChainState)
      requires Valid()
      ensures HeadOf(kernel.read, store.rows, ledger) == Ok(head)
      ensures head.At? ==> head.ledger == ledger && Listed(store.rows, head)
      ensures (head.At? <==> OfLedger(store.rows, ledger) != []) && (head.At? ==> head.sequence == |OfLedger(store.rows, ledger)|)
    {
      var read := store.Head(ledger);
      ReadIsListed(kernel.read, store.rows, ledger);
      head := read.value;
    }

    /** Other clients take some steps, this one reads the head, the others take more steps. */
    method StaleHead(beforeHead: seq<Action>, afterHead: seq<Action>, ledger: LedgerId, ghost meets: Condition)
      returns (head: ChainState)
      requires Valid() && Submits(meets, beforeHead) && Submits(meets, afterHead)
      modifies this, store
      ensures Valid() && ByOthers(kernel, meets, old(World()), World())
      ensures HeadOf(kernel.read, Run(kernel, old(World()), beforeHead).rows, ledger) == Ok(head)
      ensures World() == Run(kernel, Run(kernel, old(World()), beforeHead), afterHead)
      ensures head.At? ==> head.ledger == ledger && Listed(store.rows, head)
      ensures head.At? ==> head.sequence == |OfLedger(Run(kernel, old(World()), beforeHead).rows, ledger)|
      ensures head.At? ==> head.sequence >= |OfLedger(old(store.rows), ledger)|
      ensures head.Uninitialized? ==> OfLedger(old(store.rows), ledger) == []
      ensures head.At? ==> OfLedger(store.rows, ledger) != []
      ensures old(store.rows) <= store.rows
    {
      ByOthersRun(kernel, meets, World(), beforeHead, afterHead);
      Interleave(beforeHead);
      OfLedgerGrows(old(store.rows), store.rows, ledger);
      head := ReadNow(ledger);
      ghost var seen := store.rows;
      Interleave(afterHead);
      OfLedgerGrows(seen, store.rows, ledger);
      if head.At? { ListedLater(seen, store.rows, head); }
    }

    /** Build the event, sign its digest, build the record. */
    method Make(d: Draft, sign: Signer) returns (r: Result<Record>)
      requires Sound(kernel)
      ensures r.Ok? <==> Buildable(d, sign)
      ensures r.Ok? ==> BuiltWell(kernel.read, r.value, d) && Signed(r.value, sign)
      ensures r.Err? ==> r.error == RecordNotBuilt || r.error == SigningFailed
    {
      var event := kernel.newEvent(d);
      if event.Err? { return Err(RecordNotBuilt); }
      var signature := sign(event.value.digest);
      if signature.None? { return Err(SigningFailed); }
      var record := kernel.newRecord(event.value, signer, signature.value);
      if record.Err? { return Err(RecordNotBuilt); }
      assert Build(kernel, d, signer, signature.value) == record && Sealed(kernel, record.value, d, signer, signature.value);
      return record;
    }

    /** Insert a record built on some head the table had. */
    method Insert(d: Draft, record: Record) returns (failure: Option<Error>)
      requires Valid() && Grounded(store.rows, d) && BuiltWell(kernel.read, record, d)
      modifies store
      ensures Valid()
      ensures failure.None? ==> store.rows == old(store.rows) + [RowOf(record)]
      ensures failure.Some? ==> store.rows == old(store.rows)
      ensures failure.Some? ==> failure.value == DuplicateRecord || failure.value == ChainHeadMoved
      ensures failure == Some(DuplicateRecord) <==> HasDigest(old(store.rows), record.digest)
      ensures failure == Some(ChainHeadMoved) ==> HasPosition(store.rows, d.ledger, d.sequence)
    {
      InsertOutcomes(kernel.read, store.rows, d, record);
      if InsertRow(store.rows, RowOf(record)).Ok? { AppendKeeps(kernel, World(), d, record); }
      failure := store.Append(record);
    }

    /** Make a record and insert it. */
    method Submit(d: Draft, sign: Signer) returns (outcome: Outcome)
      requires Valid() && Grounded(store.rows, d)
      modifies store
      ensures Valid()
      ensures outcome.Appended? ==> store.rows == old(store.rows) + [RowOf(outcome.record)]
      ensures !outcome.Appended? ==> store.rows == old(store.rows)
      ensures outcome.NotBuilt? <==> !Buildable(d, sign)
      ensures outcome.NotBuilt? ==> outcome.error == RecordNotBuilt || outcome.error == SigningFailed
      ensures !outcome.NotBuilt? ==> BuiltWell(kernel.read, outcome.record, d) && Signed(outcome.record, sign)
      ensures outcome.Appended? ==> !HasDigest(old(store.rows), outcome.record.digest)
      ensures outcome.Rejected? ==> outcome.error == DuplicateRecord || outcome.error == ChainHeadMoved
      ensures outcome.Rejected? && outcome.error == DuplicateRecord ==> HasDigest(store.rows, outcome.record.digest)
      ensures outcome.Rejected? && outcome.error == ChainHeadMoved ==> HasPosition(store.rows, d.ledger, d.sequence)
    {
      var made := Make(d, sign);
      if made.Err? { return NotBuilt(made.error); }
      var failure := Insert(d, made.value);
      return if failure.None? then Appended(made.value) else Rejected(made.value, failure.value);
    }

    /** `InitLedger`; `before` is the world the other clients left just before the insert. What their
        submissions meet and the table met before, it still meets. */
    method InitLedger(ledger: LedgerId, now: Uint64, sign: Signer, others: nat -> seq<Action>, ghost meets: Condition)
      returns (r: Result<Record>, ghost before: World)
      requires Valid() && forall i :: Submits(meets, others(i))
      modifies this, store
      ensures Valid() && ByOthers(kernel, meets, old(World()), before) && heads == before.heads
      ensures r.Ok? ==> store.rows == before.rows + [RowOf(r.value)]
      ensures r.Err? ==> store.rows == before.rows
      ensures r.Ok? ==>
                && BuiltWell(kernel.read, r.value, GenesisDraft(ledger, now)) && Signed(r.value, sign)
                && IsGenesis(r.value.event) && r.value.event.ledger == ledger && r.value.event.admittedAt == now
                && OfLedger(before.rows, ledger) == []
      ensures r == Err(AlreadyInitialized) ==>
                OfLedger(before.rows, ledger) != [] ||
                exists record ::
                  BuiltWell(kernel.read, record, GenesisDraft(ledger, now)) && Signed(record, sign) && HasDigest(before.rows, record.digest)
      ensures r.Err? && r.error != AlreadyInitialized ==> !Buildable(GenesisDraft(ledger, now), sign)
      ensures old(TableMeets(meets, kernel.read, store.rows)) ==> TableMeets(meets, kernel.read, store.rows)
    {
      var head := StaleHead(others(0), others(1), ledger, meets);
      before := World();
      if old(TableMeets(meets, kernel.read, store.rows)) { ByOthersMeets(kernel, meets, old(World()), before); }
      if head.At? { return Err(AlreadyInitialized), before; }
      var outcome := Submit(GenesisDraft(ledger, now), sign);
      match outcome
      case NotBuilt(error) => return Err(error), before;
      case Rejected(record, error) =>
        if error == ChainHeadMoved { PositionReached(kernel.read, store.rows, ledger, 1); }
        return Err(AlreadyInitialized), before;
      case Appended(record) =>
        FirstOfChain(kernel.read, before.rows, RowOf(record));
        if TableMeets(meets, kernel.read, before.rows) { MeetsAppend(meets, kernel.read, before.rows, record); }
        return Ok(record), before;
    }

    /** The stored record whose digest made this one a duplicate. */
    method Existing(record: Record) returns (r: Record)
      requires Valid() && HasDigest(store.rows, record.digest)
      ensures RowOf(r) in store.rows && r.digest == record.digest && kernel.read(r.bytes) == Ok(r)
    {
      DuplicateIsStored(kernel.read, store.rows, record.digest);
      var existing := store.RecordWith(record.digest);
      r := if existing.Ok? then existing.value else record;
    }

    /** The rest of a turn of the loop in `Admit`, on a head that may be stale. It succeeds exactly if
        the record can be made and is stored already or its head is still the head. */
    method Continue(head: ChainState, req: AdmitRequest, now: Uint64, sign: Signer)
      returns (r: Result<Record>, ghost candidate: Option<Candidate>)
      requires Valid() && head.At? && Listed(store.rows, head) && head.ledger == req.ledger
      modifies store
      ensures Valid()
      ensures r.Ok? ==> candidate.Some? && candidate.value == Candidate(candidate.value.record, head, now, sign)
      ensures r.Ok? ==> MadeFor(kernel.read, candidate.value, req, signer)
      ensures r.Ok? ==> Admitted(kernel.read, old(store.rows), store.rows, r.value, candidate.value.record)
      ensures r.Err? ==> store.rows == old(store.rows)
      ensures r.Err? ==>
                || (r.error == ChainHeadMoved && |OfLedger(store.rows, req.ledger)| > head.sequence)
                || ((r.error == RecordNotBuilt || r.error == SigningFailed) &&
                    !Buildable(NextDraft(head, now, req.kind, req.payloadVersion, req.payload), sign))
    {
      var d := NextDraft(head, now, req.kind, req.payloadVersion, req.payload);
      HeldHeadGrounds(store.rows, head, now, req);
      var outcome := Submit(d, sign);
      match outcome
      case NotBuilt(error) => return Err(error), None;
      case Appended(record) => return Ok(record), Some(Candidate(record, head, now, sign));
      case Rejected(record, error) =>
        if error == ChainHeadMoved {
          PositionReached(kernel.read, store.rows, req.ledger, d.sequence);
          return Err(ChainHeadMoved), None;
        }
        var existing := Existing(record);
        return Ok(existing), Some(Candidate(record, head, now, sign));
    }

    /** One turn of the loop in `Admit`: read the head, build on it, insert. */
    method Attempt(req: AdmitRequest, now: Uint64, sign: Signer, beforeHead: seq<Action>, beforeInsert: seq<Action>,
                   ghost meets: Condition)
      returns (r: Result<Record>, ghost before: World, ghost candidate: Option<Candidate>)
      requires Valid() && Submits(meets, beforeHead) && Submits(meets, beforeInsert)
      modifies this, store
      ensures Valid() && ByOthers(kernel, meets, old(World()), before) && heads == before.heads
      ensures before == Run(kernel, Run(kernel, old(World()), beforeHead), beforeInsert) && old(store.rows) <= before.rows
      ensures r.Ok? ==> candidate.Some? && candidate.value.now == now && candidate.value.sign == sign
      ensures r.Ok? ==> HeadOf(kernel.read, Run(kernel, old(World()), beforeHead).rows, req.ledger) == Ok(candidate.value.head)
      ensures r.Ok? ==> MadeFor(kernel.read, candidate.value, req, signer)
      ensures r.Ok? ==> candidate.value.head.sequence >= |OfLedger(old(store.rows), req.ledger)|
      ensures r.Ok? ==> Admitted(kernel.read, before.rows, store.rows, r.value, candidate.value.record)
      ensures r.Err? ==> store.rows == before.rows
      ensures r == Err(ChainHeadMoved) ==>
                |OfLedger(before.rows, req.ledger)| > |OfLedger(Run(kernel, old(World()), beforeHead).rows, req.ledger)|
      ensures r.Err? ==>
                || (r.error == ChainHeadMoved && |OfLedger(store.rows, req.ledger)| > |OfLedger(old(store.rows), req.ledger)|)
                || (r.error == LedgerUninitialized && OfLedger(old(store.rows), req.ledger) == [])
                || ((r.error == RecordNotBuilt || r.error == SigningFailed) && Unbuildable(req, before.rows, now, sign))
    {
      var head := StaleHead(beforeHead, beforeInsert, req.ledger, meets);
      before := World();
      if head.Uninitialized? { return Err(LedgerUninitialized), before, None; }
      r, candidate := Continue(head, req, now, sign);
    }

    /** What `Admit` promises of a success: the record of some attempt, built on a head read during
        the call. */
    ghost predicate Succeeded(req: AdmitRequest, start: seq<Row>, before: seq<Row>, after: seq<Row>, r: Record,
                              candidate: Option<Candidate>, clock: nat -> Uint64, sign: nat -> Signer)
    {
      && candidate.Some? && MadeFor(kernel.read, candidate.value, req, signer)
      && candidate.value.head.sequence >= |OfLedger(start, req.ledger)|
      && (exists i :: 0 <= i <= maxRetries && candidate.value.now == clock(i) && candidate.value.sign == sign(i))
      && Admitted(kernel.read, before, after, r, candidate.value.record)
    }

    /** `Admit`. On success exactly this record was appended, after whatever the others did, or
        its very digest was already stored; on failure this call added nothing. Running out of
        retries means the ledger meanwhile grew by at least one record per attempt, all of them
        other clients'. */
    method Admit(req: AdmitRequest, clock: nat -> Uint64, sign: nat -> Signer, others: nat -> seq<Action>, ghost meets: Condition)
      returns (r: Result<Record>, ghost before: World, ghost candidate: Option<Candidate>)
      requires Valid() && forall i :: Submits(meets, others(i))
      modifies this, store
      ensures Valid() && ByOthers(kernel, meets, old(World()), before) && heads == before.heads
      ensures r.Ok? ==> Succeeded(req, old(store.rows), before.rows, store.rows, r.value, candidate, clock, sign)
      ensures r.Err? ==> store.rows == before.rows && Refused(r.error, req, old(store.rows), before.rows, clock, sign)
      ensures |OfLedger(old(store.rows), req.ledger)| >= MAX_UINT64 ==> r.Err?
    {
      ghost var start := World();
      before, candidate := start, None;
      ByOthersAtRest(kernel, meets, start);
      if req.payload == [] { return Err(EmptyPayload), before, None; }

      var attempt := 0;
      while attempt < maxRetries + 1
        invariant 0 <= attempt <= maxRetries + 1
        invariant Valid() && before == World() && ByOthers(kernel, meets, start, before)
        invariant |OfLedger(store.rows, req.ledger)| >= |OfLedger(start.rows, req.ledger)| + attempt
        invariant start.rows <= store.rows
      {
        ghost var entry := before;
        r, before, candidate :=
          Attempt(req, clock(attempt), sign(attempt), others(2 * attempt), others(2 * attempt + 1), meets);
        ByOthersTransitive(kernel, meets, start, entry, before);
        if r != Err(ChainHeadMoved) { return; }
        attempt := attempt + 1;
      }
      return Err(RetriesExhausted), before, None;
    }

    method CheckEndorsement(crypto: Crypto, p: Accepted) returns (verified: bool)
      ensures verified <==>
              && p.proposer != [] && p.subject != [] && 1 <= |p.topic| <= 128 && 1 <= |p.claim| <= 4096
              && 8 <= |p.proposerSignature| <= 72 && crypto.verify(p.proposer, ProposalDigest(crypto, p), p.proposerSignature)
              && 8 <= |p.subjectSignature| <= 72 && crypto.verify(p.subject, AcceptanceDigest(crypto, p), p.subjectSignature)
      ensures verified ==> Vouched(crypto, ENDORSEMENT_ACCEPTED, EncodeAccepted(p))
    {
      verified := VerifyAccepted(crypto, p);
    }

    method CheckRevocation(crypto: Crypto, p: Revoked) returns (verified: bool)
      ensures verified <==>
              && p.revoker != [] && (p.role == ROLE_PROPOSER || p.role == ROLE_SUBJECT) && |p.reason| <= 256
              && 8 <= |p.signature| <= 72 && crypto.verify(p.revoker, RevocationDigest(crypto, p), p.signature)
      ensures verified ==> Vouched(crypto, ENDORSEMENT_REVOKED, EncodeRevoked(p))
    {
      verified := VerifyRevoked(crypto, p);
    }

    /** `AdmitEndorsement`: nothing reaches the table unless both signatures verify. So a table of
        verified payloads stays one, as long as the others keep to that too. */
    method AdmitEndorsement(crypto: Crypto, ledger: LedgerId, payload: Option<Accepted>, clock: nat -> Uint64,
                            sign: nat -> Signer, others: nat -> seq<Action>, ghost meets: Condition)
      returns (r: Result<Record>, ghost before: World, ghost candidate: Option<Candidate>)
      requires Valid() && forall i :: Submits(meets, others(i))
      modifies this, store
      ensures Valid() && ByOthers(kernel, meets, old(World()), before) && heads == before.heads
      ensures payload.None? ==> r == Err(NilPayload) && World() == old(World())
      ensures r == Err(SignatureRejected) <==>
              payload.Some? &&
              var p := payload.value;
              !(&& p.proposer != [] && p.subject != [] && 1 <= |p.topic| <= 128 && 1 <= |p.claim| <= 4096
                && 8 <= |p.proposerSignature| <= 72 && crypto.verify(p.proposer, ProposalDigest(crypto, p), p.proposerSignature)
                && 8 <= |p.subjectSignature| <= 72 && crypto.verify(p.subject, AcceptanceDigest(crypto, p), p.subjectSignature))
      ensures r == Err(SignatureRejected) ==> World() == old(World())
      ensures r.Ok? ==>
                && payload.Some? && candidate.Some? && candidate.value.record.event.ledger == ledger
                && candidate.value.record.event.kind == ENDORSEMENT_ACCEPTED && candidate.value.record.event.payloadVersion == 1
                && candidate.value.record.event.payload == EncodeAccepted(payload.value)
      ensures payload.Some? && r != Err(SignatureRejected) ==>
                SubmittedFor(EndorsementRequest(ledger, payload.value), old(store.rows), before.rows, store.rows, r, candidate, clock, sign)
      ensures meets == Vouching(crypto) && old(TableMeets(meets, kernel.read, store.rows)) ==>
                TableMeets(meets, kernel.read, store.rows)
    {
      before, candidate := World(), None;
      ByOthersAtRest(kernel, meets, before);
      if payload.None? { return Err(NilPayload), before, None; }
      var verified := CheckEndorsement(crypto, payload.value);
      if !verified { return Err(SignatureRejected), before, None; }
      r, before, candidate := AdmitVouched(EndorsementRequest(ledger, payload.value), crypto, clock, sign, others, meets);
    }

    /** `AdmitRevocation`: only the revoker's signature is checked, not whether there is anything
        to revoke. */
    method AdmitRevocation(crypto: Crypto, ledger: LedgerId, payload: Option<Revoked>, clock: nat -> Uint64,
                           sign: nat -> Signer, others: nat -> seq<Action>, ghost meets: Condition)
      returns (r: Result<Record>, ghost before: World, ghost candidate: Option<Candidate>)
      requires Valid() && forall i :: Submits(meets, others(i))
      modifies this, store
      ensures Valid() && ByOthers(kernel, meets, old(World()), before) && heads == before.heads
      ensures payload.None? ==> r == Err(NilPayload) && World() == old(World())
      ensures r == Err(SignatureRejected) <==>
              payload.Some? &&
              var p := payload.value;
              !(&& p.revoker != [] && (p.role == ROLE_PROPOSER || p.role == ROLE_SUBJECT) && |p.reason| <= 256
                && 8 <= |p.signature| <= 72 && crypto.verify(p.revoker, RevocationDigest(crypto, p), p.signature))
      ensures r == Err(SignatureRejected) ==> World() == old(World())
      ensures r.Ok? ==>
                && payload.Some? && candidate.Some? && candidate.value.record.event.ledger == ledger
                && candidate.value.record.event.kind == ENDORSEMENT_REVOKED && candidate.value.record.event.payloadVersion == 1
                && candidate.value.record.event.payload == EncodeRevoked(payload.value)
      ensures payload.Some? && r != Err(SignatureRejected) ==>
                SubmittedFor(RevocationRequest(ledger, payload.value), old(store.rows), before.rows, store.rows, r, candidate, clock, sign)
      ensures meets == Vouching(crypto) && old(TableMeets(meets, kernel.read, store.rows)) ==>
                TableMeets(meets, kernel.read, store.rows)
    {
      before, candidate := World(), None;
      ByOthersAtRest(kernel, meets, before);
      if payload.None? { return Err(NilPayload), before, None; }
      var verified := CheckRevocation(crypto, payload.value);
      if !verified { return Err(SignatureRejected), before, None; }
      r, before, candidate := AdmitVouched(RevocationRequest(ledger, payload.value), crypto, clock, sign, others, meets);
    }

    /** The call of `Admit` both make, with a payload that has verified. */
    method AdmitVouched(req: AdmitRequest, ghost crypto: Crypto, clock: nat -> Uint64, sign: nat -> Signer,
                        others: nat -> seq<Action>, ghost meets: Condition)
      returns (r: Result<Record>, ghost before: World, ghost candidate: Option<Candidate>)
      requires Valid() && Vouched(crypto, req.kind, req.payload) && forall i :: Submits(meets, others(i))
      modifies this, store
      ensures Valid() && ByOthers(kernel, meets, old(World()), before) && heads == before.heads
      ensures SubmittedFor(req, old(store.rows), before.rows, store.rows, r, candidate, clock, sign)
      ensures r != Err(SignatureRejected) && (r.Ok? ==> candidate.Some? && CarriesRequest(candidate.value.record, req))
      ensures meets == Vouching(crypto) && old(TableMeets(meets, kernel.read, store.rows)) ==>
                TableMeets(meets, kernel.read, store.rows)
    {
      VouchedNotEmpty(crypto, req.kind, req.payload);
      r, before, candidate := Admit(req, clock, sign, others, meets);
      if old(TableMeets(meets, kernel.read, store.rows)) {
        ByOthersMeets(kernel, meets, old(World()), before);
        if r.Ok? && meets == Vouching(crypto) {
          AdmittedMeets(kernel.read, before.rows, store.rows, r.value, candidate.value.record, meets);
        }
      }
    }

    /** How a verified payload fares: as `Admit` says, and never refused as empty. */
    ghost predicate SubmittedFor(req: AdmitRequest, start: seq<Row>, before: seq<Row>, after: seq<Row>,
                                 r: Result<Record>, candidate: Option<Candidate>, clock: nat -> Uint64, sign: nat -> Signer)
    {
      match r
      case Ok(record) => Succeeded(req, start, before, after, record, candidate, clock, sign)
      case Err(error) => after == before && Refused(error, req, start, before, clock, sign) && error != EmptyPayload
    }
  }

  function EndorsementRequest(ledger: LedgerId, p: Accepted): AdmitRequest {
    AdmitRequest(ledger, ENDORSEMENT_ACCEPTED, PAYLOAD_VERSION, EncodeAccepted(p))
  }

  function RevocationRequest(ledger: LedgerId, p: Revoked): AdmitRequest {
    AdmitRequest(ledger, ENDORSEMENT_REVOKED, PAYLOAD_VERSION, EncodeRevoked(p))
  }
}
