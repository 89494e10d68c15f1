# Replicated key-value store: a Dafny model of the replica coordinator

The system is a key-value store of four replicas named by the digits 0 to
3. The key space is `0..255`, split into four quadrants of 64 keys. Each
node stores three of the quadrants. Every stored value carries the
coordinator's write time, and a newer write always wins over an older one
(last-write-wins).

Any node can coordinate a client request:

- It visits itself first when it stores the key, then up to four peers in
  the order its peer table hands them out.
- It answers GET and PUT under consistency level ONE or QUORUM.
- It repairs stale replicas after a GET under `READ_REPAIR`.
- Under `HINTED_HANDOFF`, it buffers writes for unreachable peers and
  sends them later.

Every write a node applies is first appended to a write-ahead log of
`key:value:timestamp` lines. At start-up the node replays that log into
its store.

The model follows the Java sources `Server.java`, `FileProcessor.java`,
`Replica.java` and `DataStoreEntry.java`. Everything is immutable data and
pure functions:

- **Nodes.** A node is a `Server` value (module `Protocol`).
- **Requests.** Serving one message is `ServerNode.HandleRequest`. It
  returns the new node, the reply, the requests sent to peers and the log
  lines appended.
- **Peers.** Their behaviour is a parameter: `reply` is what each peer
  answers during the fan-out, and `ack` says whether each hand-off attempt
  is answered.
- **Hash maps.** The iteration order of the Java `HashMap`s is also a
  parameter: the peer table's order is in the `Server` value, and
  `hintOrder` gives the order of each peer's hint map.
- **Write time.** The clock reading of a client PUT is the parameter `ts`.

| module | file | models |
|---|---|---|
| `Wrappers` | wrappers.dfy | `Option` (a Java `null`) and `Result` (a thrown exception) |
| `JavaText` | text.dfy | `trim`, `split`, `equalsIgnoreCase`, decimal printing and `parseInt`/`parseLong` |
| `Entries` | entry.dfy | `DataStoreEntry`, the store, the last-write-wins test |
| `Replicas` | replica.dfy | `Replica` and `isInRange` |
| `Ownership` | ownership.dfy | the constructor's quadrants and the foreign ranges of `setReplicaMapping` |
| `FileProcessor` | fileprocessor.dfy | `readLine`, `writeLog`, `updateDatastore` |
| `Roster` | roster.dfy | `setReplicaMapping` |
| `Protocol` | protocol.dfy | the request and response messages and the node state |
| `PeerOps` | peerops.dfy | the server-request branch of `handleRequest` (peer GET and PUT) |
| `Coordinator` | coordinator.dfy | the four-iteration fan-out loop and the consistency levels |
| `ReadRepair` | readrepair.dfy | `doReadRepair` |
| `HintedHandoff` | hints.dfy | `doHintedHandoff` and the hand-off loop that ends `handleRequest` |
| `ServerNode` | server.dfy | the constructor, start-up in `main`, and `handleRequest` end to end |

## Model

| member | source | states |
|---|---|---|
| Entries.NewEntry | DataStoreEntry.java:8-9 | a fresh entry has timestamp 0 |
| Entries.SetValue | DataStoreEntry.java:16-19 | setting the value changes the value and nothing else |
| Entries.SetTimestamp | DataStoreEntry.java:26-29 | setting the timestamp changes the timestamp and nothing else |
| Entries.FilledEntry | DataStoreEntry.java:8-29 | filling a fresh entry with a value and a timestamp, in either order, yields exactly that pair |
| Entries.Lookup | Server.java:569 | `HashMap.get` gives an entry exactly when the key is present with a non-null slot, and it is that slot |
| Entries.StoredEntryNotSuperseded | Server.java:585 | the last-write-wins test refuses the entry already stored and any entry that is not strictly newer |
| Replicas.NewReplica | Replica.java:7-11 | a fresh descriptor has null name and address and zero port and range |
| Replicas.SetReplicaName | Replica.java:18-21 | the setter changes the name field only |
| Replicas.SetIp | Replica.java:28-31 | the setter changes the address field only |
| Replicas.SetPort | Replica.java:38-41 | the setter changes the port field only |
| Replicas.SetStart | Replica.java:48-51 | the setter changes the range start only |
| Replicas.SetEnd | Replica.java:58-61 | the setter changes the range end only |
| Replicas.ExcludedExactlyOnRange | Replica.java:63-69 | with start <= end, `isInRange` is false exactly for keys in `start..end` |
| Replicas.QuadrantDescriptorAdmits192 | Replica.java:63-69 | a 64-key foreign range inside 0..255 leaves exactly the 192 keys outside it admitted |
| Replicas.UnsetRangeRefusesOnlyZero | Replica.java:63-69 | a descriptor whose range was never set refuses key 0 and admits the other 255 keys |
| Ownership.InitStore | Server.java:31-62 | a new node stores a key of 0..255 exactly when its name holds one of the four digits other than the digit of the key's one non-owner; a name with the single digit q stores all of 0..255 outside quadrant (q+1) mod 4; every slot is null |
| Ownership.OwnedKeyByNonOwner | Server.java:31-62 | the constructor's four containment tests admit a key exactly when the name holds a digit other than that of the key's non-owner |
| Ownership.WithForeignRange | Server.java:82-102 | the foreign range is chosen by the first of the digits 0, 1, 2, 3, in that order, that the name contains (64-127, 128-191, 192-255, 0-63); a name with none of them keeps the descriptor unchanged; name, address and port are never touched |
| Ownership.DescriptorIsForeignQuadrant | Server.java:82-102 | a name with exactly one digit q is given the foreign range of quadrant (q+1) mod 4 |
| Ownership.SingleDigitNameOwnsThreeQuadrants | Server.java:31-62 | a name with exactly one digit q stores the 192 keys of 0..255 outside quadrant (q+1) mod 4, all null |
| Ownership.OwnedKeyPointwise | Server.java:31-62 | a single-digit node stores a key exactly when the key is in 0..255 and outside its foreign quadrant |
| Ownership.AdmittedKeyPointwise | Server.java:82-102 | a peer's descriptor admits a key of 0..255 exactly when the key is outside that peer's foreign quadrant |
| Ownership.ConstructorAgreesWithDescriptor | Server.java:31-102 | the keys a node stores are exactly the keys its peers' descriptor for it admits |
| Ownership.DigitlessName | Server.java:31-102 | a name with none of the four digits stores nothing and is given a never-set range |
| Ownership.NonOwnerIsForeign | Server.java:31-62 | node q's foreign quadrant holds the key exactly when q is the key's one non-owner |
| Ownership.EveryKeyHasThreeOwners | Server.java:31-102 | among nodes named by the four digits, every key is stored by exactly three, and the descriptors agree |
| JavaText.Trim | FileProcessor.java:43-47 | the trimmed line is a slice of the line with only blanks cut from either end; it is empty exactly when the line is all blanks, and otherwise starts and ends with a visible character |
| JavaText.TrimKeepsVisibleEnds | FileProcessor.java:46 | a line that already starts and ends with a visible character is not changed by trimming |
| JavaText.JoinPieces | FileProcessor.java:81 | joining the pieces of a line around the separator gives the line back |
| JavaText.PiecesOfJoin | FileProcessor.java:81 | cutting a join of separator-free parts at the separator gives the parts back |
| JavaText.SplitThree | FileProcessor.java:81 | `split(":")` of `a:b:c` with colon-free fields and a non-empty last field gives exactly `[a, b, c]` |
| JavaText.NatToString | FileProcessor.java:61 | printing a natural number gives digits that denote that number |
| JavaText.IntToString | FileProcessor.java:61 | a printed integer starts with a minus sign exactly when it is negative |
| JavaText.IntToStringDigits | FileProcessor.java:61 | after the optional leading minus sign a printed integer is a non-empty run of digits denoting its magnitude, so no sign occurs anywhere else |
| JavaText.PrintedFieldShape | FileProcessor.java:61 | a printed integer holds no colon and starts and ends with a visible character, so it survives `trim` and `split(":")` |
| JavaText.ParseDecimal | FileProcessor.java:83 | only an optional sign followed by at least one digit parses, a leading minus gives a non-positive number, and the result lies in the integer type's range |
| JavaText.ParsePrinted | FileProcessor.java:83 | parsing the printed form of an in-range number gives the number back |
| FileProcessor.ReadLine | FileProcessor.java:43-47 | the reader yields nothing exactly at end of input; otherwise it yields the first line, trimmed, and leaves the lines after it |
| FileProcessor.RecordLines | FileProcessor.java:56-68 | a run of writes appends one line per write, in order, each in the `key:value:timestamp` format |
| FileProcessor.ApplyRecord | FileProcessor.java:83-90 | replay touches only a key the store already holds, and stores the record exactly when the slot is null or strictly older |
| FileProcessor.ReplayLine | FileProcessor.java:81-90 | a replayed line never adds or removes a key |
| FileProcessor.ReplayLog | FileProcessor.java:76-92 | replaying a whole log never adds or removes a key |
| FileProcessor.ApplyRecords | FileProcessor.java:79-91 | applying records in order keeps the store's key set |
| FileProcessor.WrittenLineRoundTrip | FileProcessor.java:56-92 | a written log line survives trimming and splits and parses back into its key, value and timestamp |
| FileProcessor.ReplayWrittenLine | FileProcessor.java:56-92 | replaying a written line applies exactly the record that was written |
| FileProcessor.ReplayWrittenLog | FileProcessor.java:56-92 | replaying a log written record by record equals applying those records in order |
| FileProcessor.ReplayIgnoresForeignKey | FileProcessor.java:83 | a record for a key the store lacks changes nothing |
| FileProcessor.ApplyRecordIdempotent | FileProcessor.java:83-90 | replaying a record twice equals replaying it once, and an older record after it changes nothing |
| FileProcessor.ReplayKeepsSurvivor | FileProcessor.java:76-92 | after replay an owned slot is null exactly when no record names it; otherwise it holds the newest record, the earliest of equal ones |
| Roster.ParseRosterLine | Server.java:77-102 | a roster line parses exactly when splitting it at whitespace gives at least three fields and the third is an `int`; otherwise it fails with a missing field or a bad number; a parsed line is named by field 0 and carries field 1 as address, the third field's value as port, no name, and the foreign range its name selects |
| Roster.RecordPeer | Server.java:104-107 | a line naming another node, ignoring case, is put in the table under its name; a line naming this node leaves the table unchanged |
| Roster.SetReplicaMapping | Server.java:70-111 | reading the roster succeeds exactly when every line parses, and never drops a table entry |
| Roster.RosterParsesEveryLine | Server.java:75-102 | the roster parses exactly when every line does, line by line; otherwise it fails with the first malformed line's error |
| Roster.RecordAllCovers | Server.java:104-107 | every parsed line naming another node ends up in the table |
| Roster.RecordAllLastWins | Server.java:104-107 | for each name, the table holds the last line that names it |
| Roster.RecordAllKeeps | Server.java:104-107 | a name that no line names keeps the entry the table started with |
| Roster.RecordAllFromLines | Server.java:104-107 | every table entry is an initial one or a parsed line naming another node |
| Roster.RosterCoversEveryLine | Server.java:70-111 | after reading the roster, every line naming another node has its name in the peer table |
| Roster.RosterEntriesComeFromLines | Server.java:70-111 | every peer-table entry is the parse of some roster line naming another node, and carries the foreign range of its name |
| Protocol.PutRequest | Server.java:150-159 | a replication, repair or hand-off PUT carries the key, the entry's value and timestamp, type PUT and the sender's name |
| PeerOps.PeerGet | Server.java:565-581 | a peer GET answers SUCCESS with the stored entry, or with `("", 0)` for an absent key or null slot |
| PeerOps.PeerPut | Server.java:582-597 | a peer PUT stores the entry and writes one log line exactly when the slot is null or strictly older; otherwise it changes nothing; it answers SUCCESS either way |
| PeerOps.ServePeer | Server.java:558-600 | a GET (type compared ignoring case) answers the stored entry and changes nothing; a PUT is applied last-write-wins exactly as `PeerPut`; a type other than GET or PUT gets an empty reply and changes nothing |
| PeerOps.PeerPutIdempotent | Server.java:582-597 | applying the same peer PUT twice leaves the store as applying it once, with no second log line |
| PeerOps.OlderPutAfterNewerIsNoop | Server.java:585 | a PUT no newer than one already applied for the key changes nothing |
| PeerOps.PutThenGet | Server.java:565-597 | after a peer PUT, a GET reports an entry at least as new, and the PUT's value when the PUT won |
| Coordinator.VisitPeersOnly | Server.java:301-377 | once this node has been visited (or never will be), the remaining iterations visit the next peers in iterator order, one per iteration |
| Coordinator.CandidatesShape | Server.java:299-377 | the loop visits this node first and exactly once when it stores the key, then the first three peers; otherwise the first four peers |
| Coordinator.AddAvailable | Server.java:357-361 | recording a peer as heard from keeps the earlier names in place and appends the peer only when it is not there yet, so a list without repeats stays without repeats |
| Coordinator.CandidatesAreValid | Server.java:299-329 | every peer the loop visits is in the peer table |
| Coordinator.LocalEntry | Server.java:306-317 | the coordinator's own answer is its stored entry, or `("", 0)` for a null slot |
| Coordinator.GatherGetCounts | Server.java:301-377 | the fan-out appends one answer per answering candidate after the answers already held |
| Coordinator.GatherGetCollects | Server.java:301-377 | the fan-out collects one answer per answering candidate, sends a GET to every in-range peer and to nothing else, and records as heard from only peers that replied |
| Coordinator.GatherGetAnswerAt | Server.java:301-377 | the answer of an answering candidate sits after those of the answering candidates before it, and is that candidate's entry under its name: the local entry for this node, the replied entry for a peer |
| Coordinator.GatherGetAnswers | Server.java:301-377 | the same for every answering candidate at once |
| Coordinator.LocalAnswersFirst | Server.java:306-321 | with an owned key the first collected answer is the coordinator's own entry |
| Coordinator.ResolveGet | Server.java:378-408 | a GET succeeds exactly with one answer under ONE or two otherwise; ONE returns the first answer, QUORUM the later of the first two (the second on a tie); a failure carries no value |
| Coordinator.RecordHint | Server.java:493-514 | a missed write is buffered for the peer unless the peer already has a hint for the key at least as new; nothing else changes |
| Coordinator.GatherPutCounts | Server.java:426-524 | the PUT fan-out counts one success per acknowledging candidate |
| Coordinator.GatherPutSends | Server.java:453-472 | every PUT the fan-out sends carries the client's value and the one request timestamp |
| Coordinator.PutStepStore | Server.java:428-442 | one visit changes the store only when it is the coordinator's own unconditional write |
| Coordinator.GatherPutStore | Server.java:426-524 | the fan-out writes `(value, ts)` to this node's store exactly when it visits itself, and changes nothing else there |
| Coordinator.PutStepHintsThisWrite | Server.java:487-514 | one visit records at most a hint for this key holding this write |
| Coordinator.GatherPutHintsThisWrite | Server.java:426-524 | every hint the fan-out records is for this key and holds this write |
| Coordinator.PutStepHintsUnreachable | Server.java:487-514 | one visit changes hints only under hinted handoff, for its own peer, when that peer is in range and unreachable |
| Coordinator.GatherPutHintsUnreachable | Server.java:426-524 | hints are recorded only under hinted handoff and only for in-range peers that could not be reached |
| Coordinator.ResolvePut | Server.java:525-550 | a PUT succeeds exactly with one success under ONE or two otherwise, and fails otherwise |
| ReadRepair.ScanNewestFinds | Server.java:123-134 | the scan yields an entry no older than any answer or the start; it is the start when nothing beats it, and otherwise the first answer with the largest timestamp |
| ReadRepair.NewestIsFirstMaximum | Server.java:123-134 | the repair target is `("", 0)` when no answer has a positive timestamp, and otherwise the first answer with the largest timestamp |
| ReadRepair.RepairAllSends | Server.java:137-176 | a repair pass sends one PUT of the newest entry per stale peer answer, in answer order |
| ReadRepair.RepairAllStore | Server.java:137-189 | a repair pass writes the newest entry to this node exactly when this node's answer is stale, and changes nothing else |
| ReadRepair.ReadRepairEffect | Server.java:121-190 | read repair sends the newest entry to exactly the stale peers, in order, updates this node's slot exactly when its answer is stale, and changes nothing else |
| ReadRepair.ReadRepairSends | Server.java:137-176 | the PUTs read repair sends are one repair PUT of the newest entry to each stale peer, in answer order |
| ReadRepair.StaleRemotesExactly | Server.java:137-142 | a node is sent a repair exactly when it gave a strictly older answer and it is not this node, ignoring case |
| ReadRepair.AgreeingAnswersNeedNoRepair | Server.java:121-190 | answers that all carry the same non-negative timestamp cause no repair at all |
| ReadRepair.RepairPutConverges | Server.java:139-162 | a peer whose slot is null or older than the newest entry ends up holding the newest entry once it applies its repair PUT |
| ReadRepair.TwoAnswerRepair | Server.java:121-190 | with two answers, the second newer and positive, the stale first source ends up holding the second entry, as this node or as a peer whose slot is null or older |
| HintedHandoff.DrainShape | Server.java:197-248 | each drain attempt sends one PUT, to the peer, of a hint it held; hints that stay are unchanged |
| HintedHandoff.DrainAccounts | Server.java:203-248 | from any iterator position, a hint is removed only after an answered offer, and one that stays was refused or already passed |
| HintedHandoff.DrainAnsweredRemoved | Server.java:232-237 | the key of an answered delivery is not in the buffer when the drain ends |
| HintedHandoff.DrainPeerEffect | Server.java:197-248 | a full drain removes a hint exactly when an offer of it was answered; every hint that stays was offered and refused |
| HintedHandoff.DrainAllAnswered | Server.java:232-237 | when every attempt is answered, the buffer empties with one PUT per hint |
| HintedHandoff.DrainNoneAnswered | Server.java:203-248 | when no attempt is answered, each hint is offered exactly once, in iteration order, and all stay |
| HintedHandoff.HandOffShrinks | Server.java:613-620 | the hand-off loop only removes hints, only for peers heard from under hinted handoff, keeps no empty buffer it drained, and sends only to those peers |
| HintedHandoff.DrainAnsweredOffers | Server.java:197-253 | a full drain drops a hint exactly when a PUT of it to the peer was answered, and offers nothing to any other peer |
| HintedHandoff.HandOffAccounts | Server.java:613-620 | after the hand-off loop a buffered hint is gone exactly when a PUT of it to its peer was answered, so a refused or failed delivery never loses a hint; attempts are numbered one per message |
| HintedHandoff.HandOffDelivers | Server.java:613-620 | when every delivery is answered, every peer heard from has no buffered hints left |
| ServerNode.NewServer | Server.java:22-63 | a new node has the constructor's store, no hints and an empty, consistently ordered peer table |
| ServerNode.StartUp | Server.java:637-652 | a started node keeps its name and setting and owns the constructor's keys; without a log every slot is null; every peer is another node carrying its name's foreign range; its peer order enumerates the table, so it can serve requests |
| ServerNode.HandleRequestKeepsRoster | Server.java:263-625 | serving a request never changes the node's name, setting, peer table or peer order |
| ServerNode.ClientGetEffect | Server.java:290-415 | a client GET succeeds exactly when enough candidates answer; ONE returns the first answering candidate's value, the local value at an owning node; QUORUM returns the first of the first two answering candidates' values when its timestamp is strictly greater, else the second's; without read repair it changes nothing and sends only in-range peer GETs |
| ServerNode.ClientGetSends | Server.java:409-415 | a client GET sends its fan-out GETs and then, under read repair, one PUT of the newest gathered answer to each stale peer in answer order, and nothing more without read repair |
| ServerNode.ClientGetRepair | Server.java:409-415 | under read repair a client GET writes the newest gathered answer to its own slot exactly when its own answer was stale, changes no other slot, and neither writes nor logs otherwise |
| ServerNode.ClientPutStore | Server.java:417-551 | an owning node's store ends with `(value, ts)` at the key; a non-owning node's store is unchanged |
| ServerNode.ClientPutOutcome | Server.java:417-551 | a client PUT succeeds exactly when enough candidates acknowledge; an owning node stores `(value, ts)` and a non-owning one changes nothing |
| ServerNode.ClientPutMessages | Server.java:417-524 | every PUT sent carries the value and `ts`; hints are only for this write and only for unreachable in-range peers under hinted handoff |
| ServerNode.ReadAfterWrite | Server.java:290-551 | at an owning node, a ONE PUT succeeds whatever the peers do, and a following ONE GET there returns the written value |
| ServerNode.PeerContactDeliversHints | Server.java:558-620 | under hinted handoff, a peer that contacts the node with every delivery answered ends with no hints buffered for it |
| ServerNode.QuorumPutFanOut | Server.java:426-524 | node 0, peer 1 up, peer 2 down: the fan-out of a PUT to key 10 writes locally, is acknowledged by 1, hints 2 and skips 3 |
| ServerNode.QuorumPutOutcome | Server.java:263-625 | in that situation the QUORUM PUT succeeds, node 2 is owed one hint carrying the write, and two PUTs are sent |
| ServerNode.QuorumPutWithOneOwnerDown | Server.java:22-625 | the same outcome at a freshly constructed node 0 with a four-node peer table |

## Left out

- Sockets, protobuf encoding and `System.out` printing are not modelled. A message arrives as a parsed value and a reply leaves as one. An outbound connection is recorded as an `Outbound` value, and its result comes from the `reply` or `ack` parameter.
- `System.currentTimeMillis()` is the parameter `ts` of a client PUT.
- `main`'s file handling is left out:
  - the argument count check
  - `checkLogFile`, modelled as the log being `Some(lines)` or `None`
  - opening and closing files
  - the listening socket and the accept loop
- `main` catches any exception and stops the server. Start-up models this as a `Failure`. After start-up the model serves one message at a time.
- Concurrency is not modelled. The Java server handles one connection at a time.
- Java `HashMap` iteration orders are parameters, not computed from hash codes:
  - the peer table's order is `Server.order`
  - each peer's hint map is `hintOrder`
- A hint map is assumed to keep the relative order of its keys when one is removed. The Java iterator restarts after each delivery, so the restart resumes at the head of that order.
- A peer that answers with no message at all is not modelled. `parseDelimitedFrom` then returns `null` and the server ends with a `NullPointerException`.
- `replicaMap.get` on a name missing from the table is not modelled, because the fan-out only visits names from the table itself. The same holds for `hintedHandoff.get` on a missing peer.
- Read repair ignores the replies to its repair PUTs. An I/O failure during a repair or a hand-off is modelled as a refusal, and the stack trace is not modelled.
- Case folding in `equalsIgnoreCase` covers ASCII letters only, not the rest of Unicode. `trim` removes characters up to U+0020. `parseInt`/`parseLong` accept ASCII digits only.
- A value containing `:` is replayed exactly as Java's `split(":")` handles it: `Split` and `ReplayLine` apply to any line. Only the round-trip lemmas (`WrittenLineRoundTrip`, `ReplayWrittenLine`, `ReplayWrittenLog`) require colon-free values (`Loggable`), because such a line does not split back into the fields that were written.
- A value containing a line terminator stays one log line in the model. The buffered reader would read it back as two lines.
- Java `null` values are modelled as `""` in an entry whose value was never set. Every entry the server stores has its value set first.
- Timestamps and keys are unbounded integers. The 32-bit and 64-bit ranges are checked only where `parseInt`/`parseLong` check them: during log replay and for the roster port.
- `Client.java` is not part of this model.
- HintedHandoff.DrainPeerEffect: requires every buffered key to occur in the hint map's iteration order, which the iteration order of a real map always satisfies.
- HintedHandoff.HandOffDelivers: states delivery only when every attempt is answered; with partial answers, `HandOffAccounts` gives the per-hint account.
- ReadRepair.AgreeingAnswersNeedNoRepair: requires non-negative timestamps. If every answer carries the same negative timestamp, the scan's start `("", 0)` wins, and every answer is repaired to it.
- Roster.SetReplicaMapping: parses every line before recording any. The Java code interleaves the two steps, but a malformed line throws out of start-up either way, so the outcome is the same.
