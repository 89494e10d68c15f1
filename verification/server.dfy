/**
 * One node end to end: start-up (constructor, log replay, roster) and
 * `handleRequest`, which serves one message and then hands off hints to
 * the peers it heard from.
 */
module ServerNode {
  import opened Wrappers
  import opened JavaText
  import opened Entries
  import opened Replicas
  import opened Ownership
  import opened FileProcessor
  import opened Roster
  import opened Protocol
  import opened PeerOps
  import opened Coordinator
  import opened ReadRepair
  import opened HintedHandoff

  /** The constructor: the owned keys with `null` slots, no hints, no peers. */
  function NewServer(name: string, procedure: string): (s: Server)
    ensures s.name == name && s.procedure == procedure
    ensures s.store.Keys == OwnedKeys(name) && forall k :: k in s.store ==> s.store[k].None?
    ensures s.hints == map[] && RosterOrder(s)
  {
    Server(name, procedure, InitStore(name), map[], map[], [])
  }

  /**
   * `main`: construct, replay the write-ahead log if there is one, then
   * read the roster; a malformed line in either aborts start-up. `order` is
   * the iteration order the peer table will hand out: one enumeration of
   * the table the roster yields, as a `HashMap` gives.
   */
  function StartUp(name: string, procedure: string, log: Option<seq<string>>, roster: seq<string>,
                   order: seq<string>): (r: Result<Server, ParseError>)
    requires SetReplicaMapping(name, map[], roster).Success? ==>
      Enumerates(order, SetReplicaMapping(name, map[], roster).value)
    ensures r.Success? ==> r.value.name == name && r.value.procedure == procedure && r.value.hints == map[]
    ensures r.Success? ==> r.value.store.Keys == OwnedKeys(name)
    ensures r.Success? && log.None? ==> forall k :: k in r.value.store ==> r.value.store[k].None?
    ensures r.Success? ==> forall n :: n in r.value.peers ==>
      !EqualsIgnoreCase(name, n) && RangeFromName(n, r.value.peers[n])
    ensures r.Success? ==> r.value.order == order && RosterOrder(r.value)
  {
    var s := NewServer(name, procedure);
    var replayed := if log.Some? then ReplayLog(s.store, log.value) else Success(s.store);
    if replayed.Failure? then Failure(replayed.error)
    else
      var peers := SetReplicaMapping(name, map[], roster);
      if peers.Failure? then Failure(peers.error)
      else
        RosterEntriesComeFromLines(name, map[], roster);
        Success(s.(store := replayed.value, peers := peers.value, order := order))
  }

  /** A served client request: the new store and hints, the reply, the
      peers that answered, the requests sent and the log lines written. */
  datatype Handled = Handled(store: Store, hints: Hints, response: ClientResponse, available: seq<string>,
                             sent: seq<Outbound>, log: seq<string>)

  /** Client GET: fan out, resolve, and under `READ_REPAIR` repair. */
  function ClientGet(s: Server, req: ClientRequest, reply: string -> PeerReply): Handled
    requires RosterOrder(s)
  {
    var owns := req.key in s.store;
    CandidatesAreValid(s, owns);
    var g := GatherGet(s, req.key, Candidates(owns, s.order), reply, Gathered([], [], []));
    var resolved := ResolveGet(req.consistency, g.responses);
    var repair := if IsReadRepair(s) then DoReadRepair(s.name, s.store, req.key, g.responses) else Repair(s.store, [], []);
    Handled(repair.store, s.hints, ClientResponse(req.key, resolved.0, resolved.1), g.available,
            g.sent + repair.sent, repair.log)
  }

  /** Client PUT at time `ts`: fan out and resolve; the reply has no value. */
  function ClientPut(s: Server, req: ClientRequest, ts: int, reply: string -> PeerReply): Handled
    requires RosterOrder(s)
  {
    var owns := req.key in s.store;
    CandidatesAreValid(s, owns);
    var g := GatherPut(s, req.key, req.value, ts, Candidates(owns, s.order), reply,
                       PutState(s.store, s.hints, 0, [], [], []));
    Handled(g.store, g.hints, ClientResponse(req.key, "", ResolvePut(req.consistency, g.successes)),
            g.available, g.sent, g.log)
  }

  /** The client branch: the type is matched exactly (`equals`), and any
      other type gets a reply with the key and no status. */
  function ServeClient(s: Server, req: ClientRequest, ts: int, reply: string -> PeerReply): Handled
    requires RosterOrder(s)
  {
    if req.kind == "GET" then ClientGet(s, req, reply)
    else if req.kind == "PUT" then ClientPut(s, req, ts, reply)
    else Handled(s.store, s.hints, ClientResponse(req.key, "", NotSet), [], [], [])
  }

  /** The node after one message, its reply if it sends one, the requests
      it sent and the log lines it wrote. */
  datatype Outcome = Outcome(server: Server, reply: Option<Reply>, sent: seq<Outbound>, log: seq<string>)

  /**
   * `handleRequest`. `msg` is the parsed message (`None` at end of stream),
   * `ts` the clock reading a client PUT takes, `reply` the peers' answers
   * to the fan-out, `ack` the answers to hand-off deliveries, and
   * `hintOrder` the iteration order of each peer's hint map.
   */
  function HandleRequest(s: Server, msg: Option<Message>, ts: int, reply: string -> PeerReply,
                         ack: nat -> bool, hintOrder: string -> seq<int>): Outcome
    requires RosterOrder(s)
  {
    match msg
    case None => Outcome(s, None, [], [])
    case Some(FromClient(c)) =>
      var h := ServeClient(s, c, ts, reply);
      Finish(s.(store := h.store, hints := h.hints), Some(ToClient(h.response)), h.available, h.sent, h.log, ack, hintOrder)
    case Some(FromPeer(r)) =>
      var served := ServePeer(s.store, r);
      Finish(s.(store := served.store), Some(ToPeer(served.response)), [r.replicaName], [], served.log, ack, hintOrder)
    case Some(OtherPayload) => Outcome(s, None, [], [])
  }

  /** The end of `handleRequest`: hand off hints to the peers heard from. */
  function Finish(s: Server, reply: Option<Reply>, available: seq<string>, sent: seq<Outbound>, log: seq<string>,
                  ack: nat -> bool, hintOrder: string -> seq<int>): Outcome
  {
    var h := HandOff(s.name, s.hints, available, IsHintedHandoff(s), hintOrder, ack, 0);
    Outcome(s.(hints := h.hints), reply, sent + h.sent, log)
  }

  /** A request never changes the node's name, setting or peer table. */
  lemma HandleRequestKeepsRoster(s: Server, msg: Option<Message>, ts: int, reply: string -> PeerReply,
                                 ack: nat -> bool, hintOrder: string -> seq<int>)
    requires RosterOrder(s)
    ensures var o := HandleRequest(s, msg, ts, reply, ack, hintOrder);
      && o.server.name == s.name && o.server.procedure == s.procedure
      && o.server.peers == s.peers && o.server.order == s.order
      && RosterOrder(o.server)
  {
  }

  /**
   * A client GET succeeds exactly when enough candidates answer: one under
   * ONE, two otherwise. ONE answers with the first answering candidate's
   * value, which at a node that stores the key is the local entry's;
   * QUORUM answers with the value of the first of the first two answering
   * candidates when its timestamp is strictly greater, else the second's.
   * Without read repair a GET changes nothing and sends only peer GETs to
   * in-range candidates.
   */
  lemma ClientGetEffect(s: Server, req: ClientRequest, reply: string -> PeerReply)
    requires RosterOrder(s) && req.kind == "GET"
    ensures var owns := req.key in s.store;
      var cs := Candidates(owns, s.order);
      var h := ClientGet(s, req, reply);
      && ValidCandidates(s, cs)
      && h.response.key == req.key && h.hints == s.hints
      && (h.response.status == Succeeded <==>
            CountAnswers(s, req.key, cs, reply) >= 1 && (IsOne(req.consistency) || CountAnswers(s, req.key, cs, reply) >= 2))
      && (h.response.status != Succeeded ==> h.response == ClientResponse(req.key, "", Failed))
      && (owns && IsOne(req.consistency) ==>
            h.response == ClientResponse(req.key, LocalEntry(s.store, req.key).value, Succeeded))
      && (IsOne(req.consistency) ==> forall i :: NthAnswering(s, req.key, cs, reply, i, 0) ==>
            h.response == ClientResponse(req.key, AnswerOf(s, req.key, cs[i], reply).entry.value, Succeeded))
      && (!IsOne(req.consistency) ==> forall i, j ::
            NthAnswering(s, req.key, cs, reply, i, 0) && NthAnswering(s, req.key, cs, reply, j, 1) ==>
              var a, b := AnswerOf(s, req.key, cs[i], reply).entry, AnswerOf(s, req.key, cs[j], reply).entry;
              h.response == ClientResponse(req.key, if a.timestamp > b.timestamp then a.value else b.value, Succeeded))
      && (!IsReadRepair(s) ==> h.store == s.store && h.log == [])
      && (!IsReadRepair(s) ==> forall m :: m in h.sent ==>
            && m.request == ServerRequest(req.key, "GET", "", 0, s.name)
            && Peer(m.to) in cs
            && InRange(s.peers[m.to], req.key))
  {
    var owns := req.key in s.store;
    var cs := Candidates(owns, s.order);
    CandidatesAreValid(s, owns);
    GatherGetCollects(s, req.key, cs, reply, Gathered([], [], []));
    GatherGetCounts(s, req.key, cs, reply, Gathered([], [], []));
    GatherGetAnswers(s, req.key, cs, reply, Gathered([], [], []));
    if owns {
      CandidatesShape(owns, s.order);
      LocalAnswersFirst(s, req.key, cs, reply);
    }
  }

  /** The parts of a client GET's outcome: the fan-out's GETs, then what
      read repair (if enabled) sends, writes and logs. */
  lemma ClientGetParts(s: Server, req: ClientRequest, reply: string -> PeerReply)
    requires RosterOrder(s)
    ensures var g := GatherGet(s, req.key, Candidates(req.key in s.store, s.order), reply, Gathered([], [], []));
      var r := DoReadRepair(s.name, s.store, req.key, g.responses);
      var h := ClientGet(s, req, reply);
      && (IsReadRepair(s) ==> h.sent == g.sent + r.sent && h.store == r.store && h.log == r.log)
      && (!IsReadRepair(s) ==> h.sent == g.sent && h.store == s.store && h.log == [])
  {
    var g := GatherGet(s, req.key, Candidates(req.key in s.store, s.order), reply, Gathered([], [], []));
    assert g.sent + [] == g.sent;
  }

  /**
   * The requests a client GET sends: first the fan-out's GETs (which
   * `GatherGetCollects` describes); then, under `READ_REPAIR`, one PUT of the
   * newest gathered answer to each stale peer, in answer order, and
   * nothing more without it.
   */
  lemma ClientGetSends(s: Server, req: ClientRequest, reply: string -> PeerReply)
    requires RosterOrder(s)
    ensures var g := GatherGet(s, req.key, Candidates(req.key in s.store, s.order), reply, Gathered([], [], []));
      var w := Newest(g.responses);
      var h := ClientGet(s, req, reply);
      && (IsReadRepair(s) ==> h.sent == g.sent + RepairPuts(s.name, req.key, w, StaleRemotes(s.name, w, g.responses)))
      && (!IsReadRepair(s) ==> h.sent == g.sent)
  {
    var g := GatherGet(s, req.key, Candidates(req.key in s.store, s.order), reply, Gathered([], [], []));
    ClientGetParts(s, req, reply);
    ReadRepairSends(s.name, s.store, req.key, g.responses);
  }

  /**
   * What read repair does to a client GET's node: under `READ_REPAIR` it
   * writes the newest gathered answer to its own slot exactly when its
   * own answer was stale, and changes no other slot; without a stale own
   * answer it neither writes nor logs.
   */
  lemma ClientGetRepair(s: Server, req: ClientRequest, reply: string -> PeerReply)
    requires RosterOrder(s) && IsReadRepair(s)
    ensures var g := GatherGet(s, req.key, Candidates(req.key in s.store, s.order), reply, Gathered([], [], []));
      var w := Newest(g.responses);
      var h := ClientGet(s, req, reply);
      && h.store.Keys == s.store.Keys + (if LocalStale(s.name, w, g.responses) then {req.key} else {})
      && (forall k :: k in s.store && k != req.key ==> h.store[k] == s.store[k])
      && (LocalStale(s.name, w, g.responses) ==> h.store[req.key] == Some(w))
      && (!LocalStale(s.name, w, g.responses) ==> h.store == s.store && h.log == [])
  {
    var g := GatherGet(s, req.key, Candidates(req.key in s.store, s.order), reply, Gathered([], [], []));
    ClientGetParts(s, req, reply);
    ReadRepairEffect(s.name, s.store, req.key, g.responses);
  }

  /** The store a client PUT leaves: `(value, ts)` written when this node
      stores the key, otherwise untouched. */
  lemma ClientPutStore(s: Server, req: ClientRequest, ts: int, reply: string -> PeerReply)
    requires RosterOrder(s)
    ensures var h := ClientPut(s, req, ts, reply);
      && (req.key in s.store ==> h.store == s.store[req.key := Some(Entry(req.value, ts))])
      && (req.key !in s.store ==> h.store == s.store)
  {
    var owns := req.key in s.store;
    var cs := Candidates(owns, s.order);
    CandidatesAreValid(s, owns);
    var acc := PutState(s.store, s.hints, 0, [], [], []);
    GatherPutStore(s, req.key, req.value, ts, cs, reply, acc);
    CandidatesShape(owns, s.order);
    if owns {
      assert Local in cs;
    } else {
      assert Local !in cs;
    }
  }

  /**
   * A client PUT at time `ts` succeeds exactly when enough candidates
   * acknowledge: one under ONE, two otherwise. A node that stores the key
   * writes `(value, ts)`; one that does not leaves its store alone.
   */
  lemma ClientPutOutcome(s: Server, req: ClientRequest, ts: int, reply: string -> PeerReply)
    requires RosterOrder(s) && req.kind == "PUT"
    ensures var owns := req.key in s.store;
      var cs := Candidates(owns, s.order);
      var h := ClientPut(s, req, ts, reply);
      && ValidCandidates(s, cs)
      && h.response.key == req.key && h.response.value == ""
      && (h.response.status == Succeeded <==>
            CountAcks(s, req.key, cs, reply) >= 1 && (IsOne(req.consistency) || CountAcks(s, req.key, cs, reply) >= 2))
      && (owns ==> h.store == s.store[req.key := Some(Entry(req.value, ts))])
      && (!owns ==> h.store == s.store)
  {
    var owns := req.key in s.store;
    var cs := Candidates(owns, s.order);
    CandidatesAreValid(s, owns);
    GatherPutCounts(s, req.key, req.value, ts, cs, reply, PutState(s.store, s.hints, 0, [], [], []));
    ClientPutStore(s, req, ts, reply);
  }

  /**
   * Every request a client PUT sends carries the value and `ts`; the hints
   * it records are for this key and this write, and only under hinted
   * handoff for in-range peers it could not reach.
   */
  lemma ClientPutMessages(s: Server, req: ClientRequest, ts: int, reply: string -> PeerReply)
    requires RosterOrder(s) && req.kind == "PUT"
    ensures var owns := req.key in s.store;
      var cs := Candidates(owns, s.order);
      var h := ClientPut(s, req, ts, reply);
      && ValidCandidates(s, cs)
      && (forall m :: m in h.sent ==> m.request == PutRequest(s.name, req.key, Entry(req.value, ts)))
      && OnlyHintsFor(s.hints, h.hints, req.key, Entry(req.value, ts))
      && (forall p :: p in h.hints && !(p in s.hints && h.hints[p] == s.hints[p]) ==>
            IsHintedHandoff(s) && Peer(p) in cs && reply(p).Unreachable? && InRange(s.peers[p], req.key))
  {
    var owns := req.key in s.store;
    var cs := Candidates(owns, s.order);
    CandidatesAreValid(s, owns);
    var acc := PutState(s.store, s.hints, 0, [], [], []);
    GatherPutSends(s, req.key, req.value, ts, cs, reply, acc);
    GatherPutHintsThisWrite(s, req.key, req.value, ts, cs, reply, acc);
    GatherPutHintsUnreachable(s, req.key, req.value, ts, cs, reply, acc);
  }

  /**
   * Read-your-writes at one node: at a node that stores the key, a ONE
   * PUT succeeds whatever the peers do, and a following ONE GET there
   * returns the written value.
   */
  lemma ReadAfterWrite(s: Server, key: int, value: string, ts: int, ts2: int,
                       reply1: string -> PeerReply, ack1: nat -> bool,
                       reply2: string -> PeerReply, ack2: nat -> bool, hintOrder: string -> seq<int>)
    requires RosterOrder(s) && key in s.store
    ensures var o1 := HandleRequest(s, Some(FromClient(ClientRequest(key, "PUT", "ONE", value))), ts, reply1, ack1, hintOrder);
      && o1.reply == Some(ToClient(ClientResponse(key, "", Succeeded)))
      && RosterOrder(o1.server)
      && HandleRequest(o1.server, Some(FromClient(ClientRequest(key, "GET", "ONE", ""))), ts2, reply2, ack2, hintOrder).reply
         == Some(ToClient(ClientResponse(key, value, Succeeded)))
  {
    var put := ClientRequest(key, "PUT", "ONE", value);
    var get := ClientRequest(key, "GET", "ONE", "");
    assert IsOne("ONE");
    ClientPutOutcome(s, put, ts, reply1);
    var cs := Candidates(true, s.order);
    CandidatesShape(true, s.order);
    CandidatesAreValid(s, true);
    assert CountAcks(s, key, cs, reply1) >= 1;
    var o1 := HandleRequest(s, Some(FromClient(put)), ts, reply1, ack1, hintOrder);
    HandleRequestKeepsRoster(s, Some(FromClient(put)), ts, reply1, ack1, hintOrder);
    assert o1.server.store[key] == Some(Entry(value, ts));
    ClientGetEffect(o1.server, get, reply2);
  }

  /**
   * Hinted handoff on contact: under `HINTED_HANDOFF`, when a peer holding
   * hints sends any peer request and every delivery is answered, its
   * hints are all delivered and its buffer entry is gone.
   */
  lemma PeerContactDeliversHints(s: Server, r: ServerRequest, ts: int, reply: string -> PeerReply,
                                 ack: nat -> bool, hintOrder: string -> seq<int>)
    requires RosterOrder(s) && IsHintedHandoff(s)
    requires forall p :: p in s.hints ==> forall k :: k in s.hints[p] ==> k in hintOrder(p)
    requires forall n :: ack(n)
    ensures var o := HandleRequest(s, Some(FromPeer(r)), ts, reply, ack, hintOrder);
      r.replicaName !in o.server.hints
  {
    var served := ServePeer(s.store, r);
    var s' := s.(store := served.store);
    assert IsHintedHandoff(s');
    assert HandleRequest(s, Some(FromPeer(r)), ts, reply, ack, hintOrder)
      == Finish(s', Some(ToPeer(served.response)), [r.replicaName], [], served.log, ack, hintOrder);
    HandOffDelivers(s.name, s.hints, [r.replicaName], hintOrder, ack, 0);
    var h := HandOff(s.name, s.hints, [r.replicaName], true, hintOrder, ack, 0);
    assert r.replicaName in [r.replicaName];
    assert r.replicaName !in h.hints;
  }

  /** The peer table of node "0" in a four-node deployment named "0" to "3". */
  function FourNodePeers(): map<string, Replica>
  {
    map["1" := DescriptorOf("1"), "2" := DescriptorOf("2"), "3" := DescriptorOf("3")]
  }

  /** Its peer table handed out in the order "1", "2", "3". */
  lemma FourNodeRosterOrder(s: Server)
    requires s.peers == FourNodePeers() && s.order == ["1", "2", "3"]
    ensures RosterOrder(s)
  {
    var o := s.order;
    assert forall i, j :: 0 <= i < j < |o| ==> o[i] != o[j] by {
      assert o[0] == "1" && o[1] == "2" && o[2] == "3";
    }
    forall n | n in s.peers ensures n in o {
      assert n == "1" || n == "2" || n == "3";
    }
  }

  /** Key 10 is in range for nodes "1" and "2" and foreign to node "3". */
  lemma KeyTenRanges()
    ensures InRange(FourNodePeers()["1"], 10) && InRange(FourNodePeers()["2"], 10)
    ensures !InRange(FourNodePeers()["3"], 10)
  {
    DescriptorIsForeignQuadrant("1", 1);
    DescriptorIsForeignQuadrant("2", 2);
    DescriptorIsForeignQuadrant("3", 3);
  }

  /** The first two visits: node "0" writes, node "1" acknowledges. */
  lemma QuorumPutFirstVisits(s: Server, value: string, ts: int, reply: string -> PeerReply)
    requires s.peers == FourNodePeers() && s.hints == map[] && s.name == "0"
    requires reply("1").Replied?
    ensures ValidCandidates(s, [Local, Peer("1"), Peer("2"), Peer("3")])
    ensures var e := Entry(value, ts);
      GatherPut(s, 10, value, ts, [Local, Peer("1"), Peer("2"), Peer("3")], reply, PutState(s.store, s.hints, 0, [], [], []))
      == GatherPut(s, 10, value, ts, [Peer("2"), Peer("3")], reply,
                   PutState(s.store[10 := Some(e)], map[], 2, ["1"], [Outbound("1", PutRequest("0", 10, e))],
                            [WriteLog(10, value, ts)]))
  {
    KeyTenRanges();
    var e := Entry(value, ts);
    var cs := [Local, Peer("1"), Peer("2"), Peer("3")];
    var a0 := PutState(s.store, s.hints, 0, [], [], []);
    var a1 := PutState(s.store[10 := Some(e)], map[], 1, [], [], [WriteLog(10, value, ts)]);
    var a2 := a1.(successes := 2, available := ["1"], sent := [Outbound("1", PutRequest("0", 10, e))]);
    assert PutStep(s, 10, value, ts, Local, reply, a0) == a1;
    assert PutStep(s, 10, value, ts, Peer("1"), reply, a1) == a2;
    assert cs[1..] == [Peer("1"), Peer("2"), Peer("3")];
    assert cs[1..][1..] == [Peer("2"), Peer("3")];
  }

  /** The last two visits: node "2" is owed a hint, node "3" is skipped. */
  lemma QuorumPutLastVisits(s: Server, value: string, ts: int, reply: string -> PeerReply, acc: PutState)
    requires s.peers == FourNodePeers() && IsHintedHandoff(s) && s.name == "0"
    requires reply("2").Unreachable? && acc.hints == map[]
    ensures ValidCandidates(s, [Peer("2"), Peer("3")])
    ensures var e := Entry(value, ts);
      GatherPut(s, 10, value, ts, [Peer("2"), Peer("3")], reply, acc)
      == acc.(hints := map["2" := map[10 := e]], sent := acc.sent + [Outbound("2", PutRequest("0", 10, e))])
  {
    KeyTenRanges();
    var cs := [Peer("2"), Peer("3")];
    assert cs[1..] == [Peer("3")];
    assert cs[1..][1..] == [];
  }

  /** The fan-out of that PUT. */
  lemma QuorumPutFanOut(s: Server, value: string, ts: int, reply: string -> PeerReply)
    requires s.peers == FourNodePeers() && s.hints == map[]
    requires IsHintedHandoff(s) && s.name == "0"
    requires reply("1").Replied? && reply("2").Unreachable?
    ensures ValidCandidates(s, [Local, Peer("1"), Peer("2"), Peer("3")])
    ensures var e := Entry(value, ts);
      GatherPut(s, 10, value, ts, [Local, Peer("1"), Peer("2"), Peer("3")], reply, PutState(s.store, s.hints, 0, [], [], []))
      == PutState(s.store[10 := Some(e)], map["2" := map[10 := e]], 2, ["1"],
                  [Outbound("1", PutRequest("0", 10, e)), Outbound("2", PutRequest("0", 10, e))],
                  [WriteLog(10, value, ts)])
  {
    var e := Entry(value, ts);
    QuorumPutFirstVisits(s, value, ts, reply);
    var mid := PutState(s.store[10 := Some(e)], map[], 2, ["1"], [Outbound("1", PutRequest("0", 10, e))], [WriteLog(10, value, ts)]);
    QuorumPutLastVisits(s, value, ts, reply, mid);
    assert [Outbound("1", PutRequest("0", 10, e))] + [Outbound("2", PutRequest("0", 10, e))]
      == [Outbound("1", PutRequest("0", 10, e)), Outbound("2", PutRequest("0", 10, e))];
  }

  /** Node "0" stores key 10 (quadrant 0 is foreign only to node "3"). */
  lemma NodeZeroStoresKeyTen()
    ensures 10 in InitStore("0") && InitStore("0")[10].None?
  {
    assert OnlyDigit("0", 0);
    OwnedKeyPointwise("0", 0, 10);
  }

  /** The client-side result of that PUT, before the hand-off loop. */
  lemma QuorumPutHandled(s: Server, value: string, ts: int, reply: string -> PeerReply)
    requires s.peers == FourNodePeers() && s.order == ["1", "2", "3"] && s.hints == map[]
    requires IsHintedHandoff(s) && s.name == "0" && 10 in s.store && RosterOrder(s)
    requires reply("1").Replied? && reply("2").Unreachable?
    ensures var e := Entry(value, ts);
      ClientPut(s, ClientRequest(10, "PUT", "QUORUM", value), ts, reply)
      == Handled(s.store[10 := Some(e)], map["2" := map[10 := e]], ClientResponse(10, "", Succeeded), ["1"],
                 [Outbound("1", PutRequest("0", 10, e)), Outbound("2", PutRequest("0", 10, e))], [WriteLog(10, value, ts)])
  {
    var e := Entry(value, ts);
    CandidatesShape(true, s.order);
    var cs := Candidates(true, s.order);
    assert cs == [Local, Peer("1"), Peer("2"), Peer("3")];
    QuorumPutFanOut(s, value, ts, reply);
    var g := GatherPut(s, 10, value, ts, cs, reply, PutState(s.store, s.hints, 0, [], [], []));
    assert g.successes == 2;
    assert !IsOne("QUORUM");
    assert ResolvePut("QUORUM", 2) == Succeeded;
  }

  /**
   * A QUORUM PUT of key 10 at node "0", which stores key 10, under hinted
   * handoff, while node "2" is down and node "1" is up: node "0" stores
   * the write, node "1" acknowledges it, node "3" does not hold key 10 and
   * is skipped, so the PUT succeeds and node "2" is owed one hint
   * carrying the write.
   */
  lemma QuorumPutOutcome(s: Server, value: string, ts: int, reply: string -> PeerReply,
                         ack: nat -> bool, hintOrder: string -> seq<int>)
    requires s.peers == FourNodePeers() && s.order == ["1", "2", "3"] && s.hints == map[]
    requires IsHintedHandoff(s) && s.name == "0" && 10 in s.store && RosterOrder(s)
    requires reply("1").Replied? && reply("2").Unreachable?
    ensures var o := HandleRequest(s, Some(FromClient(ClientRequest(10, "PUT", "QUORUM", value))), ts, reply, ack, hintOrder);
      && o.reply == Some(ToClient(ClientResponse(10, "", Succeeded)))
      && o.server.store == s.store[10 := Some(Entry(value, ts))]
      && o.server.hints == map["2" := map[10 := Entry(value, ts)]]
      && o.sent == [Outbound("1", PutRequest("0", 10, Entry(value, ts))), Outbound("2", PutRequest("0", 10, Entry(value, ts)))]
  {
    var e := Entry(value, ts);
    var req := ClientRequest(10, "PUT", "QUORUM", value);
    var sent := [Outbound("1", PutRequest("0", 10, e)), Outbound("2", PutRequest("0", 10, e))];
    var hints := map["2" := map[10 := e]];
    QuorumPutHandled(s, value, ts, reply);
    var handled := ClientPut(s, req, ts, reply);
    assert ServeClient(s, req, ts, reply) == handled;
    var s' := s.(store := handled.store, hints := handled.hints);
    var o := Finish(s', Some(ToClient(handled.response)), handled.available, handled.sent, handled.log, ack, hintOrder);
    assert HandleRequest(s, Some(FromClient(req)), ts, reply, ack, hintOrder) == o;
    assert IsHintedHandoff(s');
    var h := HandOff("0", hints, ["1"], true, hintOrder, ack, 0);
    assert h == HandedOff(hints, [], 0);
    assert sent + [] == sent;
  }

  /** The same PUT at a freshly constructed node "0" whose peer "2" is down. */
  lemma QuorumPutWithOneOwnerDown(value: string, ts: int, ack: nat -> bool, hintOrder: string -> seq<int>)
    ensures var s := Server("0", "HINTED_HANDOFF", InitStore("0"), map[], FourNodePeers(), ["1", "2", "3"]);
      var reply := (n: string) => if n == "2" then Unreachable else Replied(ServerResponse(0, "", 0, Succeeded));
      && RosterOrder(s)
      && var o := HandleRequest(s, Some(FromClient(ClientRequest(10, "PUT", "QUORUM", value))), ts, reply, ack, hintOrder);
      && o.reply == Some(ToClient(ClientResponse(10, "", Succeeded)))
      && o.server.store == InitStore("0")[10 := Some(Entry(value, ts))]
      && o.server.hints == map["2" := map[10 := Entry(value, ts)]]
  {
    var s := Server("0", "HINTED_HANDOFF", InitStore("0"), map[], FourNodePeers(), ["1", "2", "3"]);
    var reply := (n: string) => if n == "2" then Unreachable else Replied(ServerResponse(0, "", 0, Succeeded));
    NodeZeroStoresKeyTen();
    FourNodeRosterOrder(s);
    assert IsHintedHandoff(s);
    QuorumPutOutcome(s, value, ts, reply, ack, hintOrder);
  }
}
