/**
 * The four message variants of the wire protocol, with protobuf's defaults
 * for unset fields ("" for strings, 0 for numbers), and the node state the
 * coordinator works on.
 */
module Protocol {
  import opened Wrappers
  import opened JavaText
  import opened Entries
  import opened Replicas

  /** A response status; `NotSet` is a response whose status was never filled in. */
  datatype Status = Succeeded | Failed | NotSet

  datatype ClientRequest = ClientRequest(key: int, kind: string, consistency: string, value: string)

  datatype ClientResponse = ClientResponse(key: int, value: string, status: Status)

  /** A request between nodes; `replicaName` is the sender. */
  datatype ServerRequest = ServerRequest(key: int, kind: string, value: string, timestamp: int, replicaName: string)

  datatype ServerResponse = ServerResponse(key: int, value: string, timestamp: int, status: Status)

  /** An incoming envelope: one of the two request variants, or anything else. */
  datatype Message = FromClient(client: ClientRequest) | FromPeer(peer: ServerRequest) | OtherPayload

  /** What the node writes back on the accepted connection. */
  datatype Reply = ToClient(client: ClientResponse) | ToPeer(peer: ServerResponse)

  /** A request this node attempted to send to `to` (whether or not the
      connection succeeded). */
  datatype Outbound = Outbound(to: string, request: ServerRequest)

  /** What one connection attempt to a peer produced: a connect or I/O
      failure, a reply without a server response, or a server response. */
  datatype PeerReply = Unreachable | NoServerResponse | Replied(response: ServerResponse)

  /** The PUT a node sends to replicate, repair or hand off a write. */
  function PutRequest(self: string, key: int, e: Entry): (req: ServerRequest)
    ensures req.key == key && req.value == e.value && req.timestamp == e.timestamp
    ensures req.kind == "PUT" && req.replicaName == self
  {
    ServerRequest(key, "PUT", e.value, e.timestamp, self)
  }

  /** Hints: per peer, the latest write it missed for each key. */
  type Hints = map<string, map<int, Entry>>

  /**
   * One node: its name, the anti-entropy setting (`READ_REPAIR` or
   * `HINTED_HANDOFF`), the local store, the hint buffer, the peer table and
   * the order in which the peer table's `HashMap` hands out its names.
   */
  datatype Server = Server(
    name: string,
    procedure: string,
    store: Store,
    hints: Hints,
    peers: map<string, Replica>,
    order: seq<string>)

  /** No name occurs twice. */
  predicate Distinct(names: seq<string>)
  {
    forall i, j :: 0 <= i < j < |names| ==> names[i] != names[j]
  }

  /** `order` lists the names of `peers`, each exactly once: one possible
      iteration order of a `HashMap` holding them. */
  predicate Enumerates(order: seq<string>, peers: map<string, Replica>)
  {
    && (forall i :: 0 <= i < |order| ==> order[i] in peers)
    && Distinct(order)
    && (forall n :: n in peers ==> n in order)
  }

  /** `order` enumerates the peer table: each peer exactly once. */
  predicate RosterOrder(s: Server)
  {
    Enumerates(s.order, s.peers)
  }

  predicate IsReadRepair(s: Server)
  {
    EqualsIgnoreCase(s.procedure, "READ_REPAIR")
  }

  predicate IsHintedHandoff(s: Server)
  {
    EqualsIgnoreCase(s.procedure, "HINTED_HANDOFF")
  }
}
