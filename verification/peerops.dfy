/** How a node serves a GET or PUT sent by another node (`handleRequest`,
    server-request branch). */
module PeerOps {
  import opened Wrappers
  import opened JavaText
  import opened Entries
  import opened FileProcessor
  import opened Protocol

  /** A served peer request: the store afterwards, the reply, and the lines
      appended to the write-ahead log. */
  datatype Served = Served(store: Store, response: ServerResponse, log: seq<string>)

  /** Peer GET: the stored entry, or `("", 0)` for an absent key or `null` slot. */
  function PeerGet(store: Store, key: int): (r: ServerResponse)
    ensures r.key == key && r.status == Succeeded
    ensures Lookup(store, key).None? ==> r.value == "" && r.timestamp == 0
    ensures Lookup(store, key).Some? ==>
      r.value == store[key].value.value && r.timestamp == store[key].value.timestamp
  {
    match Lookup(store, key)
    case None => ServerResponse(key, "", 0, Succeeded)
    case Some(e) => ServerResponse(key, e.value, e.timestamp, Succeeded)
  }

  /**
   * Peer PUT: last-write-wins with no ownership test, so a key the store
   * lacks is inserted. The log line is written only when the store changes,
   * and the reply (whose key, value and timestamp are never set) always
   * says SUCCESS.
   */
  function PeerPut(store: Store, req: ServerRequest): (r: Served)
    ensures r.response == ServerResponse(0, "", 0, Succeeded)
    ensures r.store.Keys == store.Keys + {req.key}
    ensures forall k :: k in store && k != req.key ==> r.store[k] == store[k]
    ensures Supersedes(Lookup(store, req.key), Entry(req.value, req.timestamp)) ==>
      r.store[req.key] == Some(Entry(req.value, req.timestamp)) &&
      r.log == [WriteLog(req.key, req.value, req.timestamp)]
    ensures !Supersedes(Lookup(store, req.key), Entry(req.value, req.timestamp)) ==>
      r.store == store && r.log == []
  {
    var e := Entry(req.value, req.timestamp);
    var response := ServerResponse(0, "", 0, Succeeded);
    if Supersedes(Lookup(store, req.key), e) then
      Served(store[req.key := Some(e)], response, [WriteLog(req.key, req.value, req.timestamp)])
    else
      Served(store, response, [])
  }

  /** The server-request branch: GET and PUT compared ignoring case; any
      other type gets an empty reply without a status. */
  function ServePeer(store: Store, req: ServerRequest): (r: Served)
    ensures EqualsIgnoreCase(req.kind, "GET") ==>
      r.store == store && r.log == [] && r.response == PeerGet(store, req.key)
    ensures !EqualsIgnoreCase(req.kind, "GET") && EqualsIgnoreCase(req.kind, "PUT") ==>
      r == PeerPut(store, req)
    ensures !EqualsIgnoreCase(req.kind, "GET") && !EqualsIgnoreCase(req.kind, "PUT") ==>
      r == Served(store, ServerResponse(0, "", 0, NotSet), [])
  {
    if EqualsIgnoreCase(req.kind, "GET") then Served(store, PeerGet(store, req.key), [])
    else if EqualsIgnoreCase(req.kind, "PUT") then PeerPut(store, req)
    else Served(store, ServerResponse(0, "", 0, NotSet), [])
  }

  /** Applying the same PUT twice leaves the store as applying it once, and
      the second application writes no log line. */
  lemma PeerPutIdempotent(store: Store, req: ServerRequest)
    ensures PeerPut(PeerPut(store, req).store, req).store == PeerPut(store, req).store
    ensures PeerPut(PeerPut(store, req).store, req).log == []
  {
  }

  /** A PUT no newer than one already applied for the key changes nothing. */
  lemma OlderPutAfterNewerIsNoop(store: Store, newer: ServerRequest, older: ServerRequest)
    requires older.key == newer.key && older.timestamp <= newer.timestamp
    ensures PeerPut(PeerPut(store, newer).store, older).store == PeerPut(store, newer).store
    ensures PeerPut(PeerPut(store, newer).store, older).log == []
  {
  }

  /** After a PUT, a GET for the key reports an entry at least as new as the
      PUT's, and exactly the PUT's value when the PUT was newer. */
  lemma PutThenGet(store: Store, req: ServerRequest)
    ensures PeerGet(PeerPut(store, req).store, req.key).timestamp >= req.timestamp
    ensures Supersedes(Lookup(store, req.key), Entry(req.value, req.timestamp)) ==>
      PeerGet(PeerPut(store, req).store, req.key).value == req.value
  {
  }
}
