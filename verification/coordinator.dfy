/**
 * The coordinator side of a client GET or PUT (`handleRequest`,
 * client-request branch): which replicas the four-iteration loop visits,
 * what each visit does, and how the consistency level turns the collected
 * answers into the client's result.
 */
module Coordinator {
  import opened Wrappers
  import opened JavaText
  import opened Entries
  import opened Replicas
  import opened FileProcessor
  import opened Protocol

  /** A source the fan-out loop visits: this node or a peer by name. */
  datatype Candidate = Local | Peer(name: string)

  /**
   * The loop skeleton shared by GET and PUT: iteration `i` (of 4) visits
   * this node if it stores the key and has not been visited yet, otherwise
   * takes the next name from the peer iterator if there is one.
   */
  function Visit(localOwns: bool, rest: seq<string>, i: nat, isOwner: bool): seq<Candidate>
    requires i <= 4
    decreases 4 - i
  {
    if i == 4 then []
    else if localOwns && !isOwner then [Local] + Visit(localOwns, rest, i + 1, true)
    else if rest != [] then [Peer(rest[0])] + Visit(localOwns, rest[1..], i + 1, isOwner)
    else Visit(localOwns, rest, i + 1, isOwner)
  }

  function PeersOf(names: seq<string>): (cs: seq<Candidate>)
    ensures |cs| == |names|
    ensures forall i :: 0 <= i < |names| ==> cs[i] == Peer(names[i])
  {
    if names == [] then [] else [Peer(names[0])] + PeersOf(names[1..])
  }

  function Take(names: seq<string>, n: nat): (t: seq<string>)
    ensures t == names[..if n < |names| then n else |names|]
  {
    if n < |names| then names[..n] else names
  }

  /** The candidates of a request: this node first when it stores the key,
      then the first `4 - 1` or `4` peers in iterator order. */
  function Candidates(localOwns: bool, order: seq<string>): seq<Candidate>
  {
    Visit(localOwns, order, 0, false)
  }

  lemma {:induction false} VisitPeersOnly(localOwns: bool, rest: seq<string>, i: nat, isOwner: bool)
    requires i <= 4
    requires isOwner || !localOwns
    ensures Visit(localOwns, rest, i, isOwner) == PeersOf(Take(rest, 4 - i))
    decreases 4 - i
  {
    if i < 4 {
      if rest != [] {
        VisitPeersOnly(localOwns, rest[1..], i + 1, isOwner);
        var t := Take(rest, 4 - i);
        assert t != [] && t[0] == rest[0] && t[1..] == Take(rest[1..], 4 - (i + 1));
        assert PeersOf(t) == [Peer(rest[0])] + PeersOf(t[1..]);
      } else {
        VisitPeersOnly(localOwns, rest, i + 1, isOwner);
      }
    }
  }

  /** The loop visits this node exactly once and first when it stores the
      key, and then peers in iterator order, as many as the remaining
      iterations allow. */
  lemma CandidatesShape(localOwns: bool, order: seq<string>)
    ensures Candidates(localOwns, order) ==
      (if localOwns then [Local] + PeersOf(Take(order, 3)) else PeersOf(Take(order, 4)))
  {
    if localOwns {
      VisitPeersOnly(localOwns, order, 1, true);
    } else {
      VisitPeersOnly(localOwns, order, 0, false);
    }
  }

  /** `availableServer.add` guarded by `contains`: the list keeps its
      earlier names in place and gains `name` at the end unless it already
      holds it, so it never holds a name twice. */
  function AddAvailable(available: seq<string>, name: string): (r: seq<string>)
    ensures name in r
    ensures |available| <= |r| <= |available| + 1 && r[..|available|] == available
    ensures forall n :: n in r ==> n in available || n == name
    ensures Distinct(available) ==> Distinct(r)
  {
    if name in available then available else available + [name]
  }

  predicate ValidCandidates(s: Server, cs: seq<Candidate>)
  {
    forall i :: 0 <= i < |cs| && cs[i].Peer? ==> cs[i].name in s.peers
  }

  lemma CandidatesAreValid(s: Server, localOwns: bool)
    requires RosterOrder(s)
    ensures ValidCandidates(s, Candidates(localOwns, s.order))
  {
    CandidatesShape(localOwns, s.order);
  }

  // ---------------------------------------------------------------------
  // client GET
  // ---------------------------------------------------------------------

  /** One collected answer and the node it came from. */
  datatype Response = Response(entry: Entry, source: string)

  /** This node's own answer: the stored entry, or `("", 0)` for a `null` slot. */
  function LocalEntry(store: Store, key: int): (e: Entry)
    ensures Lookup(store, key).Some? ==> e == Lookup(store, key).value
    ensures Lookup(store, key).None? ==> e == Entry("", 0)
  {
    match Lookup(store, key)
    case None => Entry("", 0)
    case Some(e) => e
  }

  /** What a GET fan-out accumulates: the answers, the peers that replied,
      and the requests sent. */
  datatype Gathered = Gathered(responses: seq<Response>, available: seq<string>, sent: seq<Outbound>)

  function GetStep(s: Server, key: int, c: Candidate, reply: string -> PeerReply, acc: Gathered): Gathered
    requires c.Peer? ==> c.name in s.peers
  {
    match c
    case Local => acc.(responses := acc.responses + [Response(LocalEntry(s.store, key), s.name)])
    case Peer(p) =>
      if !InRange(s.peers[p], key) then acc
      else
        var sent := acc.sent + [Outbound(p, ServerRequest(key, "GET", "", 0, s.name))];
        match reply(p)
        case Replied(resp) =>
          Gathered(acc.responses + [Response(Entry(resp.value, resp.timestamp), p)], AddAvailable(acc.available, p), sent)
        case _ => acc.(sent := sent)
  }

  function GatherGet(s: Server, key: int, cs: seq<Candidate>, reply: string -> PeerReply, acc: Gathered): Gathered
    requires ValidCandidates(s, cs)
    decreases |cs|
  {
    if cs == [] then acc else GatherGet(s, key, cs[1..], reply, GetStep(s, key, cs[0], reply, acc))
  }

  /** The candidates that answer a GET: this node always, a peer when it is
      in range and replies. */
  predicate Answers(s: Server, key: int, c: Candidate, reply: string -> PeerReply)
    requires c.Peer? ==> c.name in s.peers
  {
    c.Local? || (InRange(s.peers[c.name], key) && reply(c.name).Replied?)
  }

  function CountAnswers(s: Server, key: int, cs: seq<Candidate>, reply: string -> PeerReply): nat
    requires ValidCandidates(s, cs)
  {
    if cs == [] then 0
    else (if Answers(s, key, cs[0], reply) then 1 else 0) + CountAnswers(s, key, cs[1..], reply)
  }

  /** The answer an answering candidate contributes: this node's own entry
      under its name, or the entry a peer replied with under the peer's name. */
  function AnswerOf(s: Server, key: int, c: Candidate, reply: string -> PeerReply): Response
    requires c.Peer? ==> c.name in s.peers
    requires Answers(s, key, c, reply)
  {
    match c
    case Local => Response(LocalEntry(s.store, key), s.name)
    case Peer(p) => Response(Entry(reply(p).response.value, reply(p).response.timestamp), p)
  }

  /** Answering candidates before `cs[i]` shift its answer by one each. */
  lemma CountAnswersPrefix(s: Server, key: int, cs: seq<Candidate>, reply: string -> PeerReply, i: nat)
    requires ValidCandidates(s, cs) && 0 < i <= |cs|
    ensures ValidCandidates(s, cs[..i]) && ValidCandidates(s, cs[1..][..i - 1])
    ensures CountAnswers(s, key, cs[..i], reply) ==
      (if Answers(s, key, cs[0], reply) then 1 else 0) + CountAnswers(s, key, cs[1..][..i - 1], reply)
  {
    assert cs[..i][1..] == cs[1..][..i - 1];
  }

  /** A GET fan-out appends one answer per answering candidate and keeps
      the answers already held. */
  lemma {:induction false} GatherGetCounts(s: Server, key: int, cs: seq<Candidate>, reply: string -> PeerReply, acc: Gathered)
    requires ValidCandidates(s, cs)
    ensures var g := GatherGet(s, key, cs, reply, acc);
      && |g.responses| == |acc.responses| + CountAnswers(s, key, cs, reply)
      && g.responses[..|acc.responses|] == acc.responses
    decreases |cs|
  {
    if cs != [] {
      var acc' := GetStep(s, key, cs[0], reply, acc);
      GatherGetCounts(s, key, cs[1..], reply, acc');
      var g := GatherGet(s, key, cs, reply, acc);
      assert g.responses[..|acc.responses|] == acc.responses by {
        assert acc'.responses[..|acc.responses|] == acc.responses;
        assert g.responses[..|acc'.responses|] == acc'.responses;
      }
    }
  }

  /**
   * What a GET fan-out collects: one answer per answering candidate, after
   * the answers already held; a GET request to every in-range peer and to
   * nothing else.
   */
  lemma {:induction false} GatherGetCollects(s: Server, key: int, cs: seq<Candidate>, reply: string -> PeerReply, acc: Gathered)
    requires ValidCandidates(s, cs)
    ensures var g := GatherGet(s, key, cs, reply, acc);
      && |g.responses| == |acc.responses| + CountAnswers(s, key, cs, reply)
      && g.responses[..|acc.responses|] == acc.responses
      && (forall m :: m in acc.sent ==> m in g.sent)
      && (forall m :: m in g.sent ==>
            (|| m in acc.sent
             || (m.request == ServerRequest(key, "GET", "", 0, s.name) && Peer(m.to) in cs && InRange(s.peers[m.to], key))))
      && (forall i :: 0 <= i < |cs| && cs[i].Peer? && InRange(s.peers[cs[i].name], key) ==>
            Outbound(cs[i].name, ServerRequest(key, "GET", "", 0, s.name)) in g.sent)
      && (forall n :: n in g.available ==> n in acc.available || (Peer(n) in cs && reply(n).Replied?))
    decreases |cs|
  {
    if cs != [] {
      var acc' := GetStep(s, key, cs[0], reply, acc);
      GatherGetCollects(s, key, cs[1..], reply, acc');
      GatherGetCounts(s, key, cs, reply, acc);
      var g := GatherGet(s, key, cs, reply, acc);
      forall i | 0 <= i < |cs| && cs[i].Peer? && InRange(s.peers[cs[i].name], key)
        ensures Outbound(cs[i].name, ServerRequest(key, "GET", "", 0, s.name)) in g.sent
      {
        if i > 0 {
          assert cs[i] == cs[1..][i - 1];
        }
      }
    }
  }

  /** Where the answer of one answering candidate `cs[i]` lands. */
  lemma {:induction false} GatherGetAnswerAt(s: Server, key: int, cs: seq<Candidate>, reply: string -> PeerReply,
                                             acc: Gathered, i: nat)
    requires ValidCandidates(s, cs) && i < |cs| && Answers(s, key, cs[i], reply)
    ensures ValidCandidates(s, cs[..i])
    ensures var g := GatherGet(s, key, cs, reply, acc);
      && |acc.responses| + CountAnswers(s, key, cs[..i], reply) < |g.responses|
      && g.responses[|acc.responses| + CountAnswers(s, key, cs[..i], reply)] == AnswerOf(s, key, cs[i], reply)
    decreases i
  {
    var acc' := GetStep(s, key, cs[0], reply, acc);
    var g := GatherGet(s, key, cs, reply, acc);
    assert g == GatherGet(s, key, cs[1..], reply, acc');
    GatherGetCounts(s, key, cs[1..], reply, acc');
    if i == 0 {
      assert cs[..0] == [];
      assert acc'.responses == acc.responses + [AnswerOf(s, key, cs[0], reply)];
      assert g.responses[..|acc'.responses|] == acc'.responses;
    } else {
      assert cs[i] == cs[1..][i - 1];
      GatherGetAnswerAt(s, key, cs[1..], reply, acc', i - 1);
      CountAnswersPrefix(s, key, cs, reply, i);
      assert |acc'.responses| == |acc.responses| + (if Answers(s, key, cs[0], reply) then 1 else 0);
    }
  }

  /**
   * Where each answer lands: the answer of an answering candidate `cs[i]`
   * sits right after the answers already held and those of the answering
   * candidates before it, and carries that candidate's entry and name.
   */
  lemma GatherGetAnswers(s: Server, key: int, cs: seq<Candidate>, reply: string -> PeerReply, acc: Gathered)
    requires ValidCandidates(s, cs)
    ensures var g := GatherGet(s, key, cs, reply, acc);
      forall i :: 0 <= i < |cs| && Answers(s, key, cs[i], reply) ==>
        && ValidCandidates(s, cs[..i])
        && |acc.responses| + CountAnswers(s, key, cs[..i], reply) < |g.responses|
        && g.responses[|acc.responses| + CountAnswers(s, key, cs[..i], reply)] == AnswerOf(s, key, cs[i], reply)
  {
    forall i | 0 <= i < |cs| && Answers(s, key, cs[i], reply)
      ensures ValidCandidates(s, cs[..i])
      ensures var g := GatherGet(s, key, cs, reply, acc);
        && |acc.responses| + CountAnswers(s, key, cs[..i], reply) < |g.responses|
        && g.responses[|acc.responses| + CountAnswers(s, key, cs[..i], reply)] == AnswerOf(s, key, cs[i], reply)
    {
      GatherGetAnswerAt(s, key, cs, reply, acc, i);
    }
  }

  /** `cs[i]` is the answering candidate that comes `n`-th (from 0) among
      the answering candidates. */
  predicate NthAnswering(s: Server, key: int, cs: seq<Candidate>, reply: string -> PeerReply, i: int, n: nat)
    requires ValidCandidates(s, cs)
  {
    0 <= i < |cs| && Answers(s, key, cs[i], reply) && CountAnswers(s, key, cs[..i], reply) == n
  }

  /** With an owned key the first collected answer is this node's own entry. */
  lemma {:induction false} LocalAnswersFirst(s: Server, key: int, cs: seq<Candidate>, reply: string -> PeerReply)
    requires ValidCandidates(s, cs) && cs != [] && cs[0] == Local
    ensures var g := GatherGet(s, key, cs, reply, Gathered([], [], []));
      |g.responses| >= 1 && g.responses[0] == Response(LocalEntry(s.store, key), s.name)
  {
    var acc' := GetStep(s, key, cs[0], reply, Gathered([], [], []));
    GatherGetCollects(s, key, cs[1..], reply, acc');
  }

  predicate IsOne(consistency: string)
  {
    EqualsIgnoreCase(consistency, "ONE")
  }

  /**
   * Consistency for a GET: no answer fails; ONE returns the first answer;
   * anything else is QUORUM, which needs two answers and returns the later of
   * the first two (the second on a tie), ignoring any further answers.
   */
  function ResolveGet(consistency: string, rs: seq<Response>): (r: (string, Status))
    ensures r.1 == Succeeded <==> |rs| >= 1 && (IsOne(consistency) || |rs| >= 2)
    ensures r.1 != Succeeded ==> r == ("", Failed)
    ensures r.1 == Succeeded && IsOne(consistency) ==> r.0 == rs[0].entry.value
    ensures r.1 == Succeeded && !IsOne(consistency) ==>
      (rs[0].entry.timestamp > rs[1].entry.timestamp && r.0 == rs[0].entry.value) ||
      (rs[0].entry.timestamp <= rs[1].entry.timestamp && r.0 == rs[1].entry.value)
  {
    if |rs| == 0 then ("", Failed)
    else if IsOne(consistency) then (rs[0].entry.value, Succeeded)
    else if |rs| >= 2 then
      if rs[0].entry.timestamp > rs[1].entry.timestamp then (rs[0].entry.value, Succeeded)
      else (rs[1].entry.value, Succeeded)
    else ("", Failed)
  }

  // ---------------------------------------------------------------------
  // client PUT
  // ---------------------------------------------------------------------

  /** What a PUT fan-out accumulates. */
  datatype PutState = PutState(store: Store, hints: Hints, successes: nat, available: seq<string>,
                               sent: seq<Outbound>, log: seq<string>)

  /** Storing a missed write for a peer: kept only if the peer has no hint
      for the key or an older one. */
  function RecordHint(hints: Hints, peer: string, key: int, e: Entry): (h: Hints)
    ensures h.Keys == hints.Keys + {peer}
    ensures forall p :: p in hints && p != peer ==> h[p] == hints[p]
    ensures forall k :: peer in hints && k in hints[peer] && k != key ==> k in h[peer] && h[peer][k] == hints[peer][k]
    ensures h[peer].Keys == (if peer in hints then hints[peer].Keys else {}) + {key}
    ensures (peer !in hints || key !in hints[peer] || hints[peer][key].timestamp < e.timestamp) ==> h[peer][key] == e
    ensures !(peer !in hints || key !in hints[peer] || hints[peer][key].timestamp < e.timestamp) ==> h == hints
  {
    var existing := if peer in hints then hints[peer] else map[];
    if key !in existing || existing[key].timestamp < e.timestamp then hints[peer := existing[key := e]]
    else hints
  }

  /** One visit of a PUT. Every write carries the request's single timestamp;
      this node's own write is unconditional. */
  function PutStep(s: Server, key: int, value: string, ts: int, c: Candidate,
                   reply: string -> PeerReply, acc: PutState): PutState
    requires c.Peer? ==> c.name in s.peers
  {
    var e := Entry(value, ts);
    match c
    case Local =>
      acc.(store := acc.store[key := Some(e)], successes := acc.successes + 1,
           log := acc.log + [WriteLog(key, value, ts)])
    case Peer(p) =>
      if !InRange(s.peers[p], key) then acc
      else
        var sent := acc.sent + [Outbound(p, PutRequest(s.name, key, e))];
        match reply(p)
        case Replied(_) =>
          acc.(successes := acc.successes + 1, available := AddAvailable(acc.available, p), sent := sent)
        case Unreachable =>
          acc.(hints := if IsHintedHandoff(s) then RecordHint(acc.hints, p, key, e) else acc.hints, sent := sent)
        case NoServerResponse => acc.(sent := sent)
  }

  function GatherPut(s: Server, key: int, value: string, ts: int, cs: seq<Candidate>,
                     reply: string -> PeerReply, acc: PutState): PutState
    requires ValidCandidates(s, cs)
    decreases |cs|
  {
    if cs == [] then acc else GatherPut(s, key, value, ts, cs[1..], reply, PutStep(s, key, value, ts, cs[0], reply, acc))
  }

  /** The candidates that acknowledge a PUT. */
  predicate Acknowledges(s: Server, key: int, c: Candidate, reply: string -> PeerReply)
    requires c.Peer? ==> c.name in s.peers
  {
    c.Local? || (InRange(s.peers[c.name], key) && reply(c.name).Replied?)
  }

  function CountAcks(s: Server, key: int, cs: seq<Candidate>, reply: string -> PeerReply): nat
    requires ValidCandidates(s, cs)
  {
    if cs == [] then 0
    else (if Acknowledges(s, key, cs[0], reply) then 1 else 0) + CountAcks(s, key, cs[1..], reply)
  }

  /** A PUT fan-out counts one success per acknowledging candidate. */
  lemma {:induction false} GatherPutCounts(s: Server, key: int, value: string, ts: int, cs: seq<Candidate>,
                                           reply: string -> PeerReply, acc: PutState)
    requires ValidCandidates(s, cs)
    ensures GatherPut(s, key, value, ts, cs, reply, acc).successes == acc.successes + CountAcks(s, key, cs, reply)
    decreases |cs|
  {
    if cs != [] {
      GatherPutCounts(s, key, value, ts, cs[1..], reply, PutStep(s, key, value, ts, cs[0], reply, acc));
    }
  }

  /** Every request a PUT fan-out sends carries the value and the one timestamp. */
  lemma {:induction false} GatherPutSends(s: Server, key: int, value: string, ts: int, cs: seq<Candidate>,
                                          reply: string -> PeerReply, acc: PutState)
    requires ValidCandidates(s, cs)
    ensures forall m :: m in GatherPut(s, key, value, ts, cs, reply, acc).sent ==>
      m in acc.sent || m.request == PutRequest(s.name, key, Entry(value, ts))
    decreases |cs|
  {
    if cs != [] {
      GatherPutSends(s, key, value, ts, cs[1..], reply, PutStep(s, key, value, ts, cs[0], reply, acc));
    }
  }

  /** One visit touches the store only when it is this node's own write. */
  lemma PutStepStore(s: Server, key: int, value: string, ts: int, c: Candidate,
                     reply: string -> PeerReply, acc: PutState)
    requires c.Peer? ==> c.name in s.peers
    ensures PutStep(s, key, value, ts, c, reply, acc).store ==
      if c == Local then acc.store[key := Some(Entry(value, ts))] else acc.store
  {
  }

  /** This node's write is unconditional and the only change to its store:
      the store ends with `(value, ts)` at `key` exactly when the fan-out
      visits this node, and is otherwise left as it was. */
  lemma {:induction false} GatherPutStore(s: Server, key: int, value: string, ts: int, cs: seq<Candidate>,
                                          reply: string -> PeerReply, acc: PutState)
    requires ValidCandidates(s, cs)
    ensures GatherPut(s, key, value, ts, cs, reply, acc).store ==
      if Local in cs then acc.store[key := Some(Entry(value, ts))] else acc.store
    decreases |cs|
  {
    if cs != [] {
      var acc' := PutStep(s, key, value, ts, cs[0], reply, acc);
      GatherPutStore(s, key, value, ts, cs[1..], reply, acc');
      PutStepStore(s, key, value, ts, cs[0], reply, acc);
      assert GatherPut(s, key, value, ts, cs, reply, acc) == GatherPut(s, key, value, ts, cs[1..], reply, acc');
      assert Local in cs <==> cs[0] == Local || Local in cs[1..] by {
        assert cs == [cs[0]] + cs[1..];
      }
      var e := Some(Entry(value, ts));
      assert acc.store[key := e][key := e] == acc.store[key := e];
    }
  }

  /** `after` differs from `before` at most by hints for `key` holding `e`. */
  ghost predicate OnlyHintsFor(before: Hints, after: Hints, key: int, e: Entry)
  {
    && (forall p :: p in after ==> after[p].Keys <= (if p in before then before[p].Keys else {}) + {key})
    && (forall p, k :: p in after && k in after[p] && k != key ==> p in before && after[p][k] == before[p][k])
    && (forall p :: p in after && key in after[p] ==>
          (|| (p in before && key in before[p] && after[p][key] == before[p][key])
           || after[p][key] == e))
  }

  lemma OnlyHintsForTransitive(a: Hints, b: Hints, c: Hints, key: int, e: Entry)
    requires OnlyHintsFor(a, b, key, e) && OnlyHintsFor(b, c, key, e)
    ensures OnlyHintsFor(a, c, key, e)
  {
  }

  /** One visit records at most a hint for this key holding this write. */
  lemma PutStepHintsThisWrite(s: Server, key: int, value: string, ts: int, c: Candidate,
                              reply: string -> PeerReply, acc: PutState)
    requires c.Peer? ==> c.name in s.peers
    ensures OnlyHintsFor(acc.hints, PutStep(s, key, value, ts, c, reply, acc).hints, key, Entry(value, ts))
  {
    var h := PutStep(s, key, value, ts, c, reply, acc).hints;
    if h != acc.hints {
      assert c.Peer? && reply(c.name).Unreachable?;
      assert h == RecordHint(acc.hints, c.name, key, Entry(value, ts));
    }
  }

  /** Hints a PUT fan-out records are for this key and hold the request's entry. */
  lemma {:induction false} GatherPutHintsThisWrite(s: Server, key: int, value: string, ts: int, cs: seq<Candidate>,
                                                   reply: string -> PeerReply, acc: PutState)
    requires ValidCandidates(s, cs)
    ensures OnlyHintsFor(acc.hints, GatherPut(s, key, value, ts, cs, reply, acc).hints, key, Entry(value, ts))
    decreases |cs|
  {
    if cs != [] {
      var acc' := PutStep(s, key, value, ts, cs[0], reply, acc);
      GatherPutHintsThisWrite(s, key, value, ts, cs[1..], reply, acc');
      PutStepHintsThisWrite(s, key, value, ts, cs[0], reply, acc);
      OnlyHintsForTransitive(acc.hints, acc'.hints, GatherPut(s, key, value, ts, cs, reply, acc).hints, key, Entry(value, ts));
    }
  }

  /** One visit changes a peer's hints only under hinted handoff, and only
      when it is that peer's visit, the peer is in range and unreachable. */
  lemma PutStepHintsUnreachable(s: Server, key: int, value: string, ts: int, c: Candidate,
                                reply: string -> PeerReply, acc: PutState)
    requires c.Peer? ==> c.name in s.peers
    ensures var h := PutStep(s, key, value, ts, c, reply, acc).hints;
      && (!IsHintedHandoff(s) ==> h == acc.hints)
      && (forall p :: p in h && !(p in acc.hints && h[p] == acc.hints[p]) ==>
            c == Peer(p) && reply(p).Unreachable? && InRange(s.peers[p], key))
  {
    var h := PutStep(s, key, value, ts, c, reply, acc).hints;
    if h != acc.hints {
      assert c.Peer? && reply(c.name).Unreachable? && InRange(s.peers[c.name], key);
      assert h == RecordHint(acc.hints, c.name, key, Entry(value, ts));
    }
  }

  /** A PUT fan-out records hints only under hinted handoff, and only for
      in-range peers it could not reach. */
  lemma {:induction false} GatherPutHintsUnreachable(s: Server, key: int, value: string, ts: int, cs: seq<Candidate>,
                                                     reply: string -> PeerReply, acc: PutState)
    requires ValidCandidates(s, cs)
    ensures var g := GatherPut(s, key, value, ts, cs, reply, acc);
      && (!IsHintedHandoff(s) ==> g.hints == acc.hints)
      && (forall p :: p in g.hints && !(p in acc.hints && g.hints[p] == acc.hints[p]) ==>
            Peer(p) in cs && reply(p).Unreachable? && InRange(s.peers[p], key))
    decreases |cs|
  {
    if cs != [] {
      var acc' := PutStep(s, key, value, ts, cs[0], reply, acc);
      GatherPutHintsUnreachable(s, key, value, ts, cs[1..], reply, acc');
      PutStepHintsUnreachable(s, key, value, ts, cs[0], reply, acc);
      var g := GatherPut(s, key, value, ts, cs, reply, acc);
      assert g == GatherPut(s, key, value, ts, cs[1..], reply, acc');
      forall p | p in g.hints && !(p in acc.hints && g.hints[p] == acc.hints[p])
        ensures Peer(p) in cs && reply(p).Unreachable? && InRange(s.peers[p], key)
      {
        if !(p in acc'.hints && g.hints[p] == acc'.hints[p]) {
          assert Peer(p) in cs[1..];
        }
      }
    }
  }

  /** Consistency for a PUT: ONE needs one success, anything else two. */
  function ResolvePut(consistency: string, successes: nat): (status: Status)
    ensures status == Succeeded <==> successes >= 1 && (IsOne(consistency) || successes >= 2)
    ensures status != Succeeded ==> status == Failed
  {
    if successes == 0 then Failed
    else if IsOne(consistency) then (if successes >= 1 then Succeeded else Failed)
    else if successes >= 2 then Succeeded
    else Failed
  }
}
