# Attribution chain: a verified model

A Dafny model of the attestation ledger and the trust graph built on it. It follows the Go code in
three linked parts.

**The record kernel** (`Cbor`, `Grammar`, `Ledger`, `Chain`, `Endorsement`). Records are
deterministic CBOR in three nested layers, with a domain-separated digest at two of them, chained by
the digest of the predecessor. The CBOR subset in use (unsigned integers, byte and text strings,
null and undefined, maps keyed by small integers) is written out after sections 3 and 4.2.1 of RFC
8949, including shortest heads, duplicate keys and UTF-8 validity. The parser is proved exact for
the grammar of all its writings (`Grammar`), the strict decoder to accept exactly the canonical
ones; building and validating a record are proved mutual inverses; the last digest of an accepted
history is proved to commit to all of it, and each signed statement to every field it stands for.

**The admission protocol** (`Store`, `Admission`, `Service`). Any number of clients read a head,
build a record on it, and insert it later, with no lock in between; the table with its uniqueness
and foreign-key constraints is the only arbiter. This is a state machine over the atomic steps "read
a head" and "insert a row". Every interleaving keeps every ledger an unbroken chain, and an insert
wins exactly if the head it was built on is still the head. `InitLedger` and the retry loop of
`Admit` are methods over the shared table that let the other clients take arbitrary steps before
each head read and each insert; what all submissions meet, such as having verified, every stored
record meets.

**The graph and the evaluator** (`Graph`, `Projector`, `Paths`, `Score`, `Evaluation`, `Evaluator`,
`Provenance`). Edges are shared mutable objects reachable through a digest map and three indexes; a
revocation writes the object once. `findPaths` is the recursive search over a `visited` map it marks
and unmarks. Its output is proved to be exactly the simple trust paths of the policy, each once, in
a fixed order; the noisy-OR score is proved monotone in the edges. Replay from the store is proved
equal to applying records one by one, whatever the batches and whatever arrives in between.
`Provenance` joins the three parts: every edge of a projected graph, and so every hop that counts
towards a score, is a verified endorsement.

SHA-256, ECDSA verification, curve membership, the signer and the clock are function parameters, so
every statement holds for all of them. Where injectivity of the hash would be needed, the statement
says instead "or here are two colliding preimages". Weights are exact reals.

Three properties one might expect are false of the code; each is stated with its exact condition.

- The chain check rejects a second genesis-kind record, and decision 0005 says a successor cannot
  have that kind, but `Admit` does not look at the kind. The model follows the code:
  `LateGenesisAdmitted` gives the failing family, `HeadIsFold` says that head and fold agree if and
  only if no such record was admitted, and `HeadIsFoldOfAll` that they agree as long as no client
  submits that kind.
- The endorsement decoder does not insist on canonical bytes: `AcceptedNotUnique` gives a second
  encoding of every readable payload, `AcceptedReencodes` says when encoding restores the bytes, and
  `RevokedNotUnique` and `RevokedReencodes` say the same of revocations.
- Admission checks signatures only, so an admitted payload may not project: `AcceptedRoundTrip`,
  `EndorsementProjects` and `RevocationProjects` say exactly when it does.

## Model

| member | source | states |
|---|---|---|
| `Prelude.BytesLessIsNumeric` | internal/graph/v1/provenance.go:79-81 | byte comparison of equally long strings is the order of the numbers they write, so sorting by that number is sorting by bytes |
| `Cbor.KeyOrderIsBytewise` | internal/ledger/v1/codec.go:14-20 | numeric key order is the bytewise order of encoded keys that deterministic encoding asks for |
| `Cbor.HeadForms` | internal/ledger/v1/codec.go:14-20 | the head of a number is the shortest of the five forms of the CBOR standard that holds it |
| `Cbor.Utf8Exact` | internal/ledger/v1/codec.go:31 | the text check accepts exactly the UTF-8 encodings of sequences of Unicode scalar values |
| `Cbor.ParseEncodeMap` | internal/ledger/v1/codec.go:40-49 | every encoded map parses back to its entries |
| `CborGrammar.ParseMapExact` | internal/ledger/v1/codec.go:62-65 | the parser accepts exactly the writings of a map of up to sixteen entries with different keys, heads of any sufficient width, in any order and with nothing after it, and returns its entries by key |
| `Cbor.EncodingInjective` | internal/ledger/v1/codec.go:40-49 | different field values have different encodings, whether or not their text is UTF-8 |
| `Cbor.HasExactKeys` | internal/ledger/v1/codec.go:96-113 | the two loops accept exactly when the expected keys are distinct and the two key sets are equal |
| `Cbor.ExactKeysMeaning` | internal/ledger/v1/codec.go:75-79 | the key test of the strict decoder is equality of the key set with the schema's keys |
| `Cbor.DecodeCanonicalExact` | internal/ledger/v1/codec.go:51-94 | the strict decoder returns a tuple of fields if and only if the bytes are that tuple's canonical encoding within the size bound: one byte string per tuple, every bounded encoder output accepted |
| `Cbor.UnmarshalEncoded` | internal/endorsement/v1/payload.go:286-290 | the lenient decoder gives back what was encoded when its text is UTF-8 and nothing otherwise |
| `CborGrammar.UnmarshalExact` | internal/endorsement/v1/payload.go:286-290 | the lenient decoder accepts exactly the writings of a map whose keys the struct knows; each field is the value under its number, and zero where that is null, undefined or absent |
| `Cbor.UnmarshalReencodes` | internal/endorsement/v1/payload.go:286-290 | a lenient decoding encodes back to its own bytes if and only if the strict decoder accepts them |
| `Ledger.PreimageDetermines` | internal/ledger/v1/digest.go:10-16 | a domain-separated preimage determines both its domain and its body |
| `Ledger.DomainsSeparate` | internal/ledger/v1/digest.go:10-16 | an event digest equal to a record digest exhibits a hash collision |
| `Ledger.EventLayout` | protocol/ledger/v1/ledger.cddl:19-28 | the event body byte by byte, under the keys of the schema |
| `Ledger.BodyLayout` | protocol/ledger/v1/ledger.cddl:8-17 | the record body byte by byte |
| `Ledger.RecordLayout` | protocol/ledger/v1/ledger.cddl:1-6 | the record byte by byte |
| `Ledger.ValidateEventExact` | internal/ledger/v1/event.go:77-116 | bytes validate as an event if and only if they are its canonical encoding, its fields are in bounds and its digest is theirs |
| `Ledger.NewEventExact` | internal/ledger/v1/event.go:30-59 | an event is built exactly if sequence, kind and version are positive and the payload has 1 to 65,536 bytes; it carries the fields and takes at most 65,655 bytes |
| `Ledger.SemanticsExact` | internal/ledger/v1/event.go:118-138 | of all validated events the semantic check accepts exactly the genesis event |
| `Ledger.GenesisEventBuilt` | internal/ledger/v1/event.go:61-75 | the genesis event always builds and passes that check |
| `Ledger.RecordSize` | internal/ledger/v1/constants.go:41-50 | event, body and record are at most 65,655, 66,328 and 66,381 bytes, so no size check fires on them |
| `Ledger.ValidateRecordExact` | internal/ledger/v1/record.go:74-141 | bytes validate as a record if and only if all three layers are canonical, in bounds and carry matching digests |
| `Ledger.NewRecordThenValidate` | internal/ledger/v1/record.go:32-72 | a record is built exactly if the bytes of the event validate, the signer reference is 1 to 512 printable bytes and the signature 8 to 72 bytes; validating it returns that event, signer and signature |
| `Ledger.ValidateThenNewRecord` | internal/ledger/v1/record.go:74-141 | rebuilding from what any accepted byte string carries gives back those very bytes |
| `Ledger.DigestCommits` | internal/ledger/v1/record.go:120-131 | two records with one digest are the same record or their bodies collide |
| `Chain.ConsistencyStep` | internal/ledger/v1/chain.go:12-53 | one step succeeds exactly on genesis from the empty state or on a linked non-genesis successor, at the maximal sequence never |
| `Chain.FoldExact` | internal/ledger/v1/chain.go:12-53 | a history passes if and only if it is contiguous, linked and starts with its only genesis; the state reached is read off the last record |
| `Chain.TamperEvident` | internal/ledger/v1/chain.go:12-53 | two accepted histories with one last digest are byte for byte the same, or two of their records exhibit a collision |
| `Endorsement.AcceptedRoundTrip` | internal/endorsement/v1/payload.go:270-314 | decoding an encoded in-bounds endorsement gives it back if its keys are P-256 points and its topic is UTF-8, and fails otherwise |
| `Endorsement.DecodeAcceptedExact` | internal/endorsement/v1/payload.go:286-314 | an endorsement is decoded exactly from a writing of its fields with both keys P-256 points and all lengths in bounds |
| `Endorsement.AcceptedLayout` | protocol/ledger/v1/ledger.cddl:32-42 | the endorsement payload byte by byte |
| `Endorsement.AcceptedReencodes` | internal/endorsement/v1/payload.go:286-314 | encoding a decoded endorsement restores its bytes if and only if the strict decoder would accept them |
| `Endorsement.AcceptedNotUnique` | internal/endorsement/v1/payload.go:286-314 | every readable endorsement has a second encoding that decodes to it |
| `Endorsement.RevokedRoundTrip` | internal/endorsement/v1/payload.go:479-520 | the same round trip for revocations, with the reason in place of the topic |
| `Endorsement.DecodeRevokedExact` | internal/endorsement/v1/payload.go:493-520 | a revocation is decoded exactly from a writing of its fields with the key a P-256 point, the role 1 or 2 and all lengths in bounds |
| `Endorsement.RevokedLayout` | protocol/ledger/v1/ledger.cddl:44-52 | the revocation payload byte by byte |
| `Endorsement.RevokedReencodes` | internal/endorsement/v1/payload.go:493-520 | encoding a decoded revocation restores its bytes if and only if the strict decoder would accept them |
| `Endorsement.RevokedNotUnique` | internal/endorsement/v1/payload.go:493-520 | every readable revocation has a second encoding that decodes to it |
| `Endorsement.AcceptedPayloadFits` | internal/endorsement/v1/payload.go:317-343 | an endorsement within the bounds that verification checks always fits the payload bound of an event |
| `Endorsement.RevokedPayloadFits` | internal/endorsement/v1/payload.go:523-535 | likewise for revocations |
| `Endorsement.StatementCommits` | internal/endorsement/v1/payload.go:559-565 | one digest stands for one domain and one tuple of statement fields, or the two statements collide |
| `Endorsement.ProposalLayout` | internal/endorsement/v1/payload.go:114-128 | what the proposer signs, byte by byte |
| `Endorsement.AcceptanceLayout` | internal/endorsement/v1/payload.go:172-183 | what the subject signs, byte by byte: the digest of the proposal and the time |
| `Endorsement.RevocationLayout` | internal/endorsement/v1/payload.go:390-404 | what the revoker signs, byte by byte |
| `Endorsement.ProposalCommits` | internal/endorsement/v1/payload.go:114-128 | the digest the proposer signs fixes both parties, topic, claim and time, or the two statements collide |
| `Endorsement.AcceptanceCommits` | internal/endorsement/v1/payload.go:172-183 | the digest the subject signs fixes everything in the endorsement but the two signatures, or statements of the two collide |
| `Endorsement.RevocationCommits` | internal/endorsement/v1/payload.go:390-404 | the digest the revoker signs fixes everything in the revocation but the signature, or the two statements collide |
| `Endorsement.SignaturesSeparate` | internal/endorsement/v1/payload.go:559-565 | a digest signed as one kind of statement is that of another kind only if the two statements collide |
| `LedgerStore.HeadOnChain` | internal/ledgerstore/read.go:36-60 | on a chained ledger the highest row read by `Head` is the end of the chain |
| `LedgerStore.HighestExact` | internal/ledgerstore/read.go:12-18 | the head query finds a row of the ledger than which none of its rows is higher, or there is none |
| `LedgerStore.Store.Head` | internal/ledgerstore/read.go:36-60 | uninitialized exactly without rows; otherwise the highest row gives the head if it validates and belongs to the ledger, and an error if not |
| `LedgerStore.Store.RecordWith` | internal/ledgerstore/read.go:65-88 | the record stored under a digest, if its bytes validate to that digest; not found exactly without a row |
| `LedgerStore.SelectOnChain` | internal/ledgerstore/read.go:26-32 | on a chained ledger the scan query returns the slice of the chain from that sequence, up to the limit |
| `LedgerStore.ScanOnChain` | internal/ledgerstore/read.go:91-125 | on a contiguous ledger every selected row re-validates and the scan returns the next records |
| `LedgerStore.Store.ScanRecords` | internal/ledgerstore/read.go:91-125 | the loop returns all selected rows as records, or fails if any of them fails to validate or belongs to another ledger |
| `LedgerStore.Store.Append` | internal/ledgerstore/store.go:68-102 | the row goes in exactly if its columns are in range, digest and position are new and the predecessor is there; columns out of range, then a taken digest, a taken position and a missing predecessor name the failure, which leaves the table unchanged |
| `Admission.LedgerKernelSound` | internal/admission/service.go:139-161 | a record built from a draft carries its fields, its time, the signer and the signature, fits the table and reads back from its bytes |
| `Admission.GenesisDraftBuilds` | internal/admission/service.go:84-88 | the genesis event is the ordinary event of the genesis draft and always builds |
| `Admission.GroundedGoesLast` | internal/admission/service.go:135-147 | a row built on any head the table ever had fits only right after the present end of its chain |
| `Admission.InsertKeepsTable` | internal/ledgerstore/store.go:68-102 | inserting such a row keeps every ledger a chain, digests unique and every first row a genesis |
| `Admission.NextKeepsInv` | internal/admission/service.go:75-189 | each atomic step of any client keeps the table invariant and only appends |
| `Admission.ReadSeesEnd` | internal/ledgerstore/read.go:36-60 | a head read sees the end of the chain as it is |
| `Admission.AppendWinsIfCurrent` | internal/admission/service.go:135-166 | a continuation goes in exactly if the head it was built on is still the head, its digest being new: of any number of clients on one head, one wins |
| `Admission.GenesisWinsIfEmpty` | internal/admission/service.go:101-106 | a genesis goes in exactly if the ledger is still empty, its digest being new |
| `Admission.RunKeepsInv` | internal/admission/service.go:75-189 | so does every run, of any number of clients with stale heads |
| `Admission.ChainUnbroken` | internal/admission/service.go:75-189 | in every reachable table each ledger's rows sit at 1..n, only the first lacks a predecessor, each other row names the digest before it, and every row re-validates |
| `Admission.HeadIsFold` | internal/ledgerstore/read.go:36-60 | on every reachable ledger `Head` equals the fold of the chain check over all records if no continuation has the genesis kind, and the fold fails otherwise |
| `Admission.HeadIsFoldOfAll` | internal/admission/service.go:192-229 | head and fold are equal in every run in which no client submits the genesis kind |
| `Admission.RunMeets` | internal/admission/service.go:120-189 | what kind and payload of every submitted continuation meet, those of every stored non-genesis record meet |
| `Admission.ListedInChain` | internal/admission/service.go:135-136 | a head any client ever read stands in its chain at the place its sequence says |
| `Admission.OneGenesis` | internal/admission/service.go:101-106 | once a ledger has a genesis, no later insert of one succeeds in any continuation of any run |
| `Admission.InsertOutcomes` | internal/ledgerstore/errors.go:43-59 | a grounded record is inserted, is a duplicate or lost its position; its predecessor is never missing |
| `AdmissionService.LateGenesisAdmitted` | internal/admission/service.go:120-189 | a genesis-kind continuation of the current head of any initialized ledger is inserted, the table stays a chain, and the chain check then rejects the ledger; or its body collides with a stored one |
| `AdmissionService.AdmittedIsCandidate` | internal/admission/service.go:163-174 | the record a successful call returns is its candidate, the successor of the head it read, carrying the request; or the two collide |
| `AdmissionService.AdmittedIsNew` | internal/admission/service.go:127-174 | so it lies beyond the chain as it was when the call began, and is never an older record with the same content; or the two collide |
| `AdmissionService.Service.StaleHead` | internal/admission/service.go:127-133 | a head read between steps of others is a row of the table ever after, at least as far as the chain was |
| `AdmissionService.Service.Make` | internal/admission/service.go:139-161 | a record is made exactly if event, signature and record can be; it carries the draft, the signer reference and what the signer answered to the digest of the event |
| `AdmissionService.Service.Insert` | internal/admission/service.go:163-185 | a record built on some head is appended, or is a duplicate, or lost its position; nothing else happens |
| `AdmissionService.Service.Continue` | internal/admission/service.go:135-185 | it succeeds exactly if the successor of this head can be made and is stored already or the head is current; it appends that one record or, if its digest is stored, nothing |
| `AdmissionService.Service.Submit` | internal/admission/service.go:139-166 | building, signing and inserting a grounded draft appends that one record or nothing, and says which step failed |
| `AdmissionService.Service.InitLedger` | internal/admission/service.go:75-109 | it succeeds only on an empty ledger, appending that genesis; it reports an initialized ledger only if there is one or the very digest is stored; what all submissions and the table met, the table still meets |
| `AdmissionService.Service.Attempt` | internal/admission/service.go:126-186 | one turn of the loop: the candidate is built on the head as the others' first steps left it; the position is lost only if the chain grew after the head read; at the maximal sequence it fails instead of wrapping |
| `AdmissionService.Service.Admit` | internal/admission/service.go:120-189 | at most one row is added, a candidate of some attempt, built on a head at least as far as the chain at the call, with the clock and the signer as they were then; each failure names its cause; running out of retries means the ledger grew by at least one record of others per attempt |
| `AdmissionService.Service.AdmitEndorsement` | internal/admission/service.go:192-209 | rejected, with nothing changed, exactly unless all bounds hold and both signatures verify, each under its own key and over its own digest; otherwise it is `Admit` of the encoded payload under kind 2, version 1; a table of verified payloads stays one |
| `AdmissionService.Service.AdmitRevocation` | internal/admission/service.go:212-229 | rejected, with nothing changed, exactly unless all bounds hold and the revoker's signature verifies; otherwise it is `Admit` of the encoded payload under kind 3, version 1; a table of verified payloads stays one |
| `TrustPaths.ExploreExact` | internal/graph/v1/evaluator.go:120-209 | the search appends exactly the paths its own moves extend to |
| `TrustPaths.ContinuesExact` | internal/graph/v1/evaluator.go:135-207 | pruning at every hop loses nothing: those moves are exactly the simple paths to the target within the bound whose final weight reaches the floor |
| `TrustPaths.DampedIsPower` | internal/graph/v1/evaluator.go:160 | damping at every hop comes to the root weight times the decay to the number of hops |
| `TrustPaths.ExploreInOrder` | internal/graph/v1/evaluator.go:139-145 | of two paths found, the earlier takes the earlier edge where they part |
| `TrustPaths.AllPathsExact` | internal/graph/v1/evaluator.go:45-70 | over all roots but the target, exactly the contributing paths |
| `TrustPaths.AllPathsAscend` | internal/graph/v1/evaluator.go:45-70 | paths come root by root, and within a root in search order |
| `TrustPaths.AllPathsDistinct` | internal/graph/v1/evaluator.go:45-70 | no path is listed twice |
| `Score.ConfidenceBounds` | internal/graph/v1/evaluator.go:72-83 | noisy-OR stays in [0,1] without the clamp, is at least the direct trust and each path weight, is 0 exactly with neither, and 1 exactly with direct trust 1 |
| `Score.ConfidenceIsNoisyOr` | internal/graph/v1/evaluator.go:78-83 | the score is one minus the product of one minus the direct trust and one minus each path weight |
| `Score.ConfidenceLaw` | internal/graph/v1/evaluator.go:78-83 | with no path it is the direct trust, and each further path takes its weight's share of the remaining doubt |
| `Score.UnconfidenceMonotone` | internal/graph/v1/evaluator.go:79-82 | more paths, in any order, leave no more doubt |
| `Score.PathsAreProper` | internal/graph/v1/evaluator.go:160-164 | every contributing path weighs more than 0 and less than 1 |
| `Score.SearchScoreMonotone` | internal/graph/v1/evaluator.go:72-83 | with more usable hops the score is no lower |
| `Edges.QueryExact` | internal/graph/v1/graph.go:149-201 | a query returns exactly the listed edges that pass its filters |
| `Edges.QueryDistinct` | internal/graph/v1/graph.go:149-201 | and each of them once |
| `Edges.AdjacencyExact` | internal/graph/v1/evaluator.go:139-158 | the hops taken from an identity are exactly those of its active edges of the topic |
| `Edges.AdjacencyBySequence` | internal/graph/v1/evaluator.go:141-143 | on edges with distinct sequences they are taken in strictly ascending sequence |
| `AttestationGraph.HeldIsSelected` | internal/graph/v1/graph.go:83-85 | each index holds under each key exactly the edges with that key, in insertion order |
| `AttestationGraph.ByDigestExact` | internal/graph/v1/graph.go:74-79 | the digest map holds each edge under its own digest and nothing else |
| `AttestationGraph.NodesExact` | internal/graph/v1/graph.go:80-81 | the node set is exactly the parties of the edges |
| `AttestationGraph.FilterSelected` | internal/graph/v1/graph.go:154-166 | filtering an index gives what filtering all edges gives, in the same order |
| `AttestationGraph.FilterSelectedOrder` | internal/graph/v1/graph.go:154-166 | what a query returns is in insertion order, each edge once |
| `AttestationGraph.Graph.SetLastSequence` | internal/graph/v1/graph.go:59-63 | only the watermark changes |
| `AttestationGraph.Graph.AddEdge` | internal/graph/v1/graph.go:66-92 | a new digest appends one edge and raises the watermark, a known one or nil changes nothing; digest map, nodes and indexes agree again |
| `AttestationGraph.Graph.RevokeEdge` | internal/graph/v1/graph.go:95-139 | it succeeds exactly if an active edge has the digest and the revoker is its proposer under the proposer role or its subject under the subject role; that edge becomes inactive, every other edge and all indexes stay as they are; every refusal changes nothing |
| `AttestationGraph.Graph.Authorize` | internal/graph/v1/graph.go:115-126 | only the proposer under the proposer role and the subject under the subject role pass; other roles are refused |
| `AttestationGraph.Graph.WriteRevocation` | internal/graph/v1/graph.go:128-132 | writing through the one shared object changes that edge's value and no other |
| `AttestationGraph.Graph.OutEdges` | internal/graph/v1/graph.go:150-166 | exactly the edges with that proposer, of the topic unless it is empty, and active if so asked, revocations included, in insertion order, each once |
| `AttestationGraph.Graph.InEdges` | internal/graph/v1/graph.go:169-185 | exactly the edges with that subject, of the topic unless it is empty, and active if so asked, revocations included, in insertion order, each once |
| `AttestationGraph.Graph.TopicEdges` | internal/graph/v1/graph.go:188-201 | exactly the edges of that topic, active if so asked, in insertion order, each once |
| `AttestationGraph.Graph.EdgeCount` | internal/graph/v1/graph.go:223-227 | the size of the digest map is the number of edges added |
| `AttestationGraph.Graph.ActiveEdgeCount` | internal/graph/v1/graph.go:230-241 | the loop over the map counts the active edges |
| `Evaluation.ValidatePolicy` | internal/graph/v1/policy.go:61-83 | a policy passes exactly if it has roots, all weights in (0, 1], at least one hop and a decay in (0, 1); only a floor not above 0 and an empty algorithm are replaced, by 0.001 and the default name |
| `Evaluation.HexKeepsOrder` | internal/graph/v1/evaluator.go:41-43 | ordering keys by hexadecimal text is ordering them by bytes |
| `Evaluation.PathsExact` | internal/graph/v1/evaluator.go:45-70 | the contributing paths are exactly the simple paths over active edges of the topic from a root other than the target to the target, within the hop bound, of damped weight at least the floor |
| `Evaluation.PathsOrdered` | internal/graph/v1/evaluator.go:37-70 | each path once; with distinct sequences strictly sorted by root and then by hop sequences |
| `Evaluation.ScoreBounds` | internal/graph/v1/evaluator.go:72-83 | the bounds of the score in terms of policy and paths; it is 0 exactly when the target is no root and has no path, 1 exactly when it is a root of weight 1 |
| `Evaluation.ScoreIsNoisyOr` | internal/graph/v1/evaluator.go:72-83 | noisy-OR of the target's own root weight and its paths; just that weight with no path, just the path's weight with one path and no such weight |
| `Evaluation.ScoreMonotone` | internal/graph/v1/evaluator.go:72-83 | with fewer active edges the score is no higher |
| `Evaluation.AddingNeverLowers` | internal/graph/v1/graph.go:66-92 | adding an edge never lowers any score |
| `Evaluation.RevokingNeverRaises` | internal/graph/v1/graph.go:95-139 | revoking an edge never raises any score |
| `Evaluator.DeduplicateDigests` | internal/graph/v1/provenance.go:74-90 | the result ascends strictly as bytes, with exactly the given digests; the caller's slice is left sorted |
| `Evaluator.SortKeys` | internal/graph/v1/evaluator.go:86-92 | whatever order the set iterates in, the keys come out strictly ascending and complete |
| `Evaluator.SortRoots` | internal/graph/v1/evaluator.go:37-43 | whatever order the map iterates in, the same list of roots results |
| `Evaluator.SortEdges` | internal/graph/v1/evaluator.go:94-100 | ascending by sequence, each collected edge once |
| `Evaluator.SortValues` | internal/graph/v1/evaluator.go:141-143 | sorting the edge objects sorts their values |
| `Evaluator.PathSearch.HopsFrom` | internal/graph/v1/evaluator.go:139-143 | the sorted out-edges are the hops of the search, in order |
| `Evaluator.PathSearch.FindPaths` | internal/graph/v1/evaluator.go:120-209 | it terminates, appends exactly the enumeration from here, keeps the provenance that of the paths so far, and leaves the marks as it found them |
| `Evaluator.PathSearch.Follow` | internal/graph/v1/evaluator.go:146-207 | one edge: skipped if visited or too weak, else a path, a descent or the hop bound |
| `Evaluator.PathSearch.Descend` | internal/graph/v1/evaluator.go:189-207 | marking, searching and unmarking restores the marks |
| `Evaluator.PathSearch.Arrive` | internal/graph/v1/evaluator.go:170-188 | a path and everything on it joins the result and the provenance |
| `Evaluator.PathSearch.CollectHops` | internal/graph/v1/evaluator.go:181-188 | the nodes, digests and edges of all hops, and no others, are added |
| `Evaluator.PathSearch.SearchAll` | internal/graph/v1/evaluator.go:45-70 | over all roots; the target as a root adds only itself to the nodes |
| `Evaluator.Multiply` | internal/graph/v1/evaluator.go:79-83 | the loop computes noisy-OR of direct trust and path weights, clamped to [0, 1] |
| `Evaluator.Assemble` | internal/graph/v1/evaluator.go:85-114 | records, nodes and edges are exactly those on the paths, plus the target when it is a root, each list sorted and without repetition |
| `Evaluator.Evaluate` | internal/graph/v1/evaluator.go:22-118 | an invalid policy is refused; otherwise paths, score and provenance are those the graph defines |
| `Evaluator.EdgesStrictlyAscend` | internal/graph/v1/evaluator.go:94-100 | with distinct sequences the provenance edges ascend strictly |
| `Evaluator.EvaluationDetermined` | internal/graph/v1/evaluator.go:22-118 | with distinct sequences graph, policy and target determine the whole result, so no map iteration order shows in it |
| `Projection.ProjectCounts` | internal/graph/v1/projector.go:69-124 | it adds one edge if it is an endorsement and deactivates one if it is a revocation |
| `Projection.ReplayCounts` | internal/graph/v1/projector.go:44-124 | after n records the watermark is n further, edges grew by the endorsements and active edges by those minus the revocations |
| `Projection.ReplayEvolves` | internal/graph/v1/projector.go:44-124 | edges are never removed, nothing but the revocation of an active edge is ever written, and a revoked one never changes again |
| `Projection.ReplayKeepsProjected` | internal/graph/v1/projector.go:44-124 | projected edges keep distinct digests and sequences, none beyond the watermark |
| `Projection.ReplayStops` | internal/graph/v1/projector.go:146-151 | a replay applies the longest prefix that applies and stops at the first record that does not |
| `Projection.ReplaySplit` | internal/graph/v1/projector.go:137-156 | batches do not matter: replaying a concatenation is replaying the parts in turn |
| `Projection.ReplayResumes` | internal/graph/v1/projector.go:127-159 | replaying now and again after the ledger has grown is replaying the grown ledger once |
| `Projection.Projector.ApplyRecord` | internal/graph/v1/projector.go:44-124 | a record that fails leaves the graph unchanged, one that succeeds has exactly its effect |
| `Projection.Projector.ApplyAll` | internal/graph/v1/projector.go:146-151 | the inner loop applies records until one fails and counts them |
| `Projection.Projector.ApplyBatch` | internal/graph/v1/projector.go:142-155 | a scanned batch is applied until a record fails; more are to come exactly if it was full and went through |
| `Projection.Projector.Turn` | internal/graph/v1/projector.go:136-156 | rows arrive, a batch is scanned and applied: the replay of the ledger as it now is goes on, or has ended |
| `Projection.Proceeds` | internal/graph/v1/projector.go:136-156 | where one batch takes a replay, the wrap-around of the scan at the maximal sequence included |
| `Projection.ReachedGrows` | internal/graph/v1/projector.go:136-141 | how far a replay is does not depend on rows appended behind it |
| `Projection.Projector.ReplayFromStore` | internal/graph/v1/projector.go:127-159 | it terminates for every store and batch size, with rows arriving before every scan; the count is how far the watermark moved; if the ledger is contiguous at the last scan, the graph is that of the longest prefix of its unapplied records that applies, and the call fails exactly if some are left, or if the watermark is maximal and the last batch was full |
| `Provenance.DecodedIsVerified` | internal/endorsement/v1/payload.go:270-343 | a decoded endorsement whose bytes encode a verified one is that one |
| `Provenance.DecodedRevocationIsVerified` | internal/endorsement/v1/payload.go:479-535 | likewise for revocations |
| `Provenance.EffectFaithful` | internal/graph/v1/projector.go:69-116 | the edge or revocation a record asks for has, field by field, the content of its verified payload |
| `Provenance.ReplayTraced` | internal/graph/v1/projector.go:69-116 | over any replay, every edge stays traced to an endorsement and every inactive edge to a revocation by its own party |
| `Provenance.EveryEdgeVerified` | internal/admission/service.go:192-229 | on every ledger of a table that `InitLedger`, `AdmitEndorsement` and `AdmitRevocation` keep verified, every projected edge comes from an endorsement on which both signatures verify, and every revocation on it from one whose signature verifies, by its own party |
| `Provenance.EveryRunVerified` | internal/admission/service.go:192-229 | the same for the table of every run in which every client submits verified payloads, under every interleaving |
| `Provenance.EveryHopVerified` | internal/graph/v1/evaluator.go:45-70 | every hop of every contributing path on such a ledger has the digest, sequence, parties and topic of an endorsement on which the signatures of both its ends verify |
| `Provenance.ReachableContiguous` | internal/ledgerstore/read.go:91-125 | every reachable table is contiguous in the sense replay needs |
| `Provenance.EndorsementProjects` | internal/admission/service.go:192-209 | a verified endorsement next in line projects if and only if its keys are P-256 points, its topic is UTF-8 and its digest is new; it then appends one active edge with its content |
| `Provenance.OtherKindsProject` | internal/graph/v1/projector.go:64-123 | the genesis and any kind the projector does not know move the watermark and nothing else |
| `Provenance.ReplayTakesGenesis` | internal/graph/v1/projector.go:127-159 | on every reachable ledger that was initialized a replay gets past the genesis record |
| `Provenance.RevocationProjects` | internal/admission/service.go:212-229 | a verified revocation next in line projects if and only if it is readable and names an active edge whose party of that role is the revoker; it then changes that edge and nothing else |

## Left out

- The HTTP layer, OpenAPI bindings, configuration, observability and process lifecycle.
- SHA-256, ECDSA, DER and curve arithmetic: parameters of the model; the system signer may answer differently, or not at all, on every attempt.
- PostgreSQL and pgx: the table is a sequence of rows with the named constraints and `Append` one atomic step; connection failures, lost acknowledgements and context cancellation do not occur.
- CBOR beyond the subset in use: floats, tags, nested maps and arrays are refused, as the typed schemas refuse them; an array given where the endorsement decoder expects bytes is refused here.
- Error classes and texts: the decoders have one error per kind of failure, a failed signature check is one error, and `BuildExplanation` and `String` are not modelled.
- Floating-point rounding and NaN: weights are exact reals, on which the clamp is the identity.
- The order of equal keys in `sort.Slice`: sorting here keeps insertion order; on projected graphs no two edges share a sequence.
- The defaults `Validate` writes through its receiver: `ValidatePolicy` returns the completed policy, as `Evaluate` works on a copy.
- The read-write mutex of `Graph`: each method is one atomic step.
- `ReplayState.Apply`: it accepts the genesis event only and adds nothing to the chain fold.
- Constructors of proposals, acceptances and revocations, signing helpers, edge accessors, `Nodes` and `NodeCount`: easy members.
- Clock values: admission times are arbitrary and carry no order.
