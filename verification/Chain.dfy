/** The hash chain: one fold over records, and what its final digest commits to. */
module Chain {
  import opened Prelude
  import opened Ledger

  datatype ChainState = Uninitialized | At(ledger: LedgerId, sequence: Uint64, digest: Digest)

  /** Where a record puts the chain. */
  function Position(record: Record): ChainState {
    At(record.event.ledger, record.event.sequence, record.digest)
  }

  /** `ChainStateFromRecord`: the zero record establishes no position. */
  function StateFromRecord(record: Record): ChainState {
    if record.bytes == [] then Uninitialized else Position(record)
  }

  function ValidateChainConsistency(h: Hash, state: ChainState, record: Record): (r: Result<ChainState>) {
    if record.bytes == [] then Err(SchemaViolation)
    else
      var event := record.event;
      match state
      case Uninitialized =>
        var _ :- ValidateEventSemantics(h, event);
        Ok(At(event.ledger, event.sequence, record.digest))
      case At(ledger, sequence, digest) =>
        if sequence == MAX_UINT64 then Err(InvalidSequence)
        else if event.ledger != ledger then Err(LedgerMismatch)
        else if event.sequence != sequence + 1 then Err(InvalidSequence)
        else if event.previous != Some(digest) then Err(ChainLinkMismatch)
        else if event.kind == LEDGER_INITIALIZED then Err(InvalidSequence)
        else Ok(At(ledger, event.sequence, record.digest))
  }

  /** Feeding records to a check one after another, from the empty state. */
  function FoldWith(step: (ChainState, Record) -> Result<ChainState>, records: seq<Record>): (r: Result<ChainState>) {
    if records == [] then Ok(Uninitialized)
    else
      var state :- FoldWith(step, records[..|records| - 1]);
      step(state, records[|records| - 1])
  }

  function FoldChain(h: Hash, records: seq<Record>): (r: Result<ChainState>) {
    FoldWith((state, record) => ValidateChainConsistency(h, state, record), records)
  }

  ghost predicate AllRecords(h: Hash, records: seq<Record>) {
    forall i :: 0 <= i < |records| ==> IsRecord(h, records[i])
  }

  /** Record `i` sits at sequence `i + 1` of one ledger and names record `i - 1`. */
  ghost predicate LinkedAt(records: seq<Record>, i: nat)
    requires i < |records|
  {
    && records[i].event.ledger == records[0].event.ledger
    && records[i].event.sequence == i + 1
    && records[i].event.previous == (if i == 0 then None else Some(records[i - 1].digest))
  }

  ghost predicate Linked(records: seq<Record>) {
    forall i :: 0 <= i < |records| ==> LinkedAt(records, i)
  }

  /** The genesis event comes first and no other record claims to initialize the ledger. */
  ghost predicate GenesisOnlyFirst(records: seq<Record>) {
    forall i :: 0 <= i < |records| ==>
      if i == 0 then IsGenesis(records[i].event) else records[i].event.kind != LEDGER_INITIALIZED
  }

  lemma LinkedSplit(records: seq<Record>, k: nat)
    requires k < |records| && k == |records| - 1
    ensures Linked(records) <==> Linked(records[..k]) && LinkedAt(records, k)
  {
    var init := records[..k];
    assert forall i :: 0 <= i < k ==> init[i] == records[i];
    forall i | 0 <= i < k ensures LinkedAt(init, i) <==> LinkedAt(records, i) {
      assert init[0] == records[0];
    }
  }

  lemma GenesisSplit(records: seq<Record>, k: nat)
    requires k < |records| && k == |records| - 1
    ensures GenesisOnlyFirst(records) <==>
            && GenesisOnlyFirst(records[..k])
            && (if k == 0 then IsGenesis(records[k].event) else records[k].event.kind != LEDGER_INITIALIZED)
  {
    var init := records[..k];
    assert forall i :: 0 <= i < k ==> init[i] == records[i];
  }

  ghost predicate Extends(state: ChainState, r: Record) {
    if state.Uninitialized? then IsGenesis(r.event)
    else r.event.ledger == state.ledger && r.event.sequence == state.sequence + 1 &&
         r.event.previous == Some(state.digest) && r.event.kind != LEDGER_INITIALIZED
  }

  ghost predicate StepExact(result: Result<ChainState>, state: ChainState, r: Record) {
    if Extends(state, r) then result == Ok(Position(r)) else result.Err?
  }

  lemma PositionOf(h: Hash, r: Record)
    requires IsRecord(h, r)
    ensures r.bytes != [] && StateFromRecord(r) == Position(r)
  {
    RecordSize(h, r);
  }

  /** The zero record is refused, and establishes no position. */
  lemma ZeroRecordRefused(h: Hash, state: ChainState, r: Record)
    requires r.bytes == []
    ensures ValidateChainConsistency(h, state, r) == Err(SchemaViolation) && StateFromRecord(r) == Uninitialized
  {
  }

  lemma StepFromEmpty(h: Hash, r: Record)
    requires r.bytes != [] && (ValidateEventSemantics(h, r.event).Ok? <==> IsGenesis(r.event))
    ensures StepExact(ValidateChainConsistency(h, Uninitialized, r), Uninitialized, r)
  {
  }

  lemma StepFromPosition(h: Hash, state: ChainState, r: Record)
    requires r.bytes != [] && state.At?
    ensures StepExact(ValidateChainConsistency(h, state, r), state, r)
  {
  }

  lemma ConsistencyStep(h: Hash, state: ChainState, r: Record)
    requires IsRecord(h, r)
    ensures StepExact(ValidateChainConsistency(h, state, r), state, r)
  {
    PositionOf(h, r);
    if state.At? {
      StepFromPosition(h, state, r);
    } else {
      SemanticsExact(h, r.event);
      StepFromEmpty(h, r);
    }
  }

  lemma {:induction false} FoldWithExact(step: (ChainState, Record) -> Result<ChainState>, records: seq<Record>)
    requires forall i, state :: 0 <= i < |records| ==> StepExact(step(state, records[i]), state, records[i])
    ensures FoldWith(step, records).Ok? <==> Linked(records) && GenesisOnlyFirst(records)
    ensures FoldWith(step, records).Ok? ==>
            FoldWith(step, records).value ==
            if records == [] then Uninitialized else Position(records[|records| - 1])
  {
    if records != [] {
      var k := |records| - 1;
      var init, last := records[..k], records[k];
      FoldWithExact(step, init);
      LinkedSplit(records, k);
      GenesisSplit(records, k);
      if FoldWith(step, init).Ok? {
        var state := FoldWith(step, init).value;
        assert StepExact(step(state, records[k]), state, records[k]);
        assert k > 0 ==> LinkedAt(init, k - 1);
      }
    }
  }

  /** A sequence of records passes exactly when it is a contiguous linked chain that starts
      with genesis, and the state reached is read off its last record alone. */
  lemma FoldExact(h: Hash, records: seq<Record>)
    requires AllRecords(h, records)
    ensures FoldChain(h, records).Ok? <==> Linked(records) && GenesisOnlyFirst(records)
    ensures FoldChain(h, records).Ok? ==>
            FoldChain(h, records).value ==
            if records == [] then Uninitialized else Position(records[|records| - 1])
  {
    var step := (state, record) => ValidateChainConsistency(h, state, record);
    forall i, state | 0 <= i < |records| ensures StepExact(step(state, records[i]), state, records[i]) {
      ConsistencyStep(h, state, records[i]);
    }
    FoldWithExact(step, records);
  }

  /** Two records whose different bodies hash alike. */
  ghost predicate BodiesCollide(h: Hash, r: Record, s: Record) {
    Collision(h, Preimage(RECORD_DOMAIN, r.body), Preimage(RECORD_DOMAIN, s.body))
  }

  ghost predicate Commits(h: Hash, r: Record, s: Record) {
    r.digest == s.digest ==> r == s || BodiesCollide(h, r, s)
  }

  ghost predicate SomeCollide(h: Hash, a: seq<Record>, b: seq<Record>) {
    exists i, j :: 0 <= i < |a| && 0 <= j < |b| && BodiesCollide(h, a[i], b[j])
  }

  ghost predicate AllCommit(h: Hash, a: seq<Record>, b: seq<Record>) {
    forall i, j :: 0 <= i < |a| && 0 <= j < |b| ==> Commits(h, a[i], b[j])
  }

  lemma CollideLater(h: Hash, a: seq<Record>, b: seq<Record>, i: nat, j: nat)
    requires i <= |a| && j <= |b| && SomeCollide(h, a[..i], b[..j])
    ensures SomeCollide(h, a, b)
  {
    var m, n :| 0 <= m < i && 0 <= n < j && BodiesCollide(h, a[..i][m], b[..j][n]);
    assert BodiesCollide(h, a[m], b[n]);
  }

  /** The two histories of one record: its predecessors have one digest too, or there are none. */
  lemma SameLast(a: seq<Record>, b: seq<Record>, i: nat, j: nat)
    requires Linked(a) && Linked(b) && i == |a| - 1 && j == |b| - 1 && a[i] == b[j]
    ensures i == j && Linked(a[..i]) && Linked(b[..j])
    ensures i > 0 ==> a[..i][i - 1].digest == b[..j][j - 1].digest
  {
    LinkedSplit(a, i);
    LinkedSplit(b, j);
  }

  lemma {:induction false} LinkedTamperEvident(h: Hash, a: seq<Record>, b: seq<Record>)
    requires AllCommit(h, a, b) && Linked(a) && Linked(b)
    requires a != [] && b != [] && a[|a| - 1].digest == b[|b| - 1].digest
    ensures a == b || SomeCollide(h, a, b)
  {
    var i, j := |a| - 1, |b| - 1;
    assert Commits(h, a[i], b[j]);
    if a[i] == b[j] {
      SameLast(a, b, i, j);
      assert a == a[..i] + [a[i]] && b == b[..j] + [b[j]];
      if i > 0 {
        LinkedTamperEvident(h, a[..i], b[..j]);
        if SomeCollide(h, a[..i], b[..j]) { CollideLater(h, a, b, i, j); }
      }
    }
  }

  /** Tamper evidence: the last digest commits to the whole history. Two accepted histories that
      end in the same digest are the same records, byte for byte, or two records among them
      exhibit a hash collision. */
  lemma TamperEvident(h: Hash, a: seq<Record>, b: seq<Record>)
    requires AllRecords(h, a) && AllRecords(h, b)
    requires FoldChain(h, a).Ok? && FoldChain(h, b).Ok?
    requires a != [] && b != [] && a[|a| - 1].digest == b[|b| - 1].digest
    ensures a == b || SomeCollide(h, a, b)
  {
    FoldExact(h, a);
    FoldExact(h, b);
    forall i, j | 0 <= i < |a| && 0 <= j < |b| ensures Commits(h, a[i], b[j]) {
      if a[i].digest == b[j].digest { DigestCommits(h, a[i], b[j]); }
    }
    LinkedTamperEvident(h, a, b);
  }
}
