/** Server.doReadRepair: after a GET, bring every replica that answered with
    an older entry up to the newest one. */
module ReadRepair {
  import opened Wrappers
  import opened JavaText
  import opened Entries
  import opened FileProcessor
  import opened Protocol
  import opened PeerOps
  import opened Coordinator

  /** The scan for the newest answer: start from `("", 0)` and take an answer
      only when its timestamp is strictly greater than the best so far. */
  function ScanNewest(rs: seq<Response>, best: Entry): Entry
  {
    if rs == [] then best
    else ScanNewest(rs[1..], if rs[0].entry.timestamp > best.timestamp then rs[0].entry else best)
  }

  function Newest(rs: seq<Response>): Entry
  {
    ScanNewest(rs, Entry("", 0))
  }

  /** `rs[i]` is the first answer carrying the largest timestamp, and that
      timestamp beats the floor `low`. */
  ghost predicate IsFirstNewest(rs: seq<Response>, i: int, low: int)
  {
    && 0 <= i < |rs|
    && rs[i].entry.timestamp > low
    && (forall j :: 0 <= j < |rs| ==> rs[j].entry.timestamp <= rs[i].entry.timestamp)
    && (forall j :: 0 <= j < i ==> rs[j].entry.timestamp < rs[i].entry.timestamp)
  }

  lemma {:induction false} ScanNewestFinds(rs: seq<Response>, best: Entry)
    ensures ScanNewest(rs, best).timestamp >= best.timestamp
    ensures forall j :: 0 <= j < |rs| ==> rs[j].entry.timestamp <= ScanNewest(rs, best).timestamp
    ensures (forall j :: 0 <= j < |rs| ==> rs[j].entry.timestamp <= best.timestamp) ==> ScanNewest(rs, best) == best
    ensures (exists j :: 0 <= j < |rs| && rs[j].entry.timestamp > best.timestamp) ==>
      exists i :: IsFirstNewest(rs, i, best.timestamp) && ScanNewest(rs, best) == rs[i].entry
    decreases |rs|
  {
    if rs != [] {
      var next := if rs[0].entry.timestamp > best.timestamp then rs[0].entry else best;
      ScanNewestFinds(rs[1..], next);
      var r := ScanNewest(rs, best);
      assert r == ScanNewest(rs[1..], next);
      forall j | 0 <= j < |rs|
        ensures rs[j].entry.timestamp <= r.timestamp
      {
        if j > 0 {
          assert rs[j] == rs[1..][j - 1];
        }
      }
      if exists j :: 0 <= j < |rs| && rs[j].entry.timestamp > best.timestamp {
        if exists j :: 0 <= j < |rs[1..]| && rs[1..][j].entry.timestamp > next.timestamp {
          var i :| IsFirstNewest(rs[1..], i, next.timestamp) && r == rs[1..][i].entry;
          assert IsFirstNewest(rs, i + 1, best.timestamp) by {
            forall j | 0 <= j < i + 1
              ensures rs[j].entry.timestamp < rs[i + 1].entry.timestamp
            {
              if j > 0 {
                assert rs[j] == rs[1..][j - 1];
              }
            }
          }
        } else {
          assert r == next;
          if rs[0].entry.timestamp > best.timestamp {
            assert IsFirstNewest(rs, 0, best.timestamp);
          }
        }
      }
    }
  }

  /**
   * The winner of the scan: `("", 0)` when no answer has a positive
   * timestamp, otherwise the first answer with the largest timestamp.
   */
  lemma NewestIsFirstMaximum(rs: seq<Response>)
    ensures Newest(rs).timestamp >= 0
    ensures forall j :: 0 <= j < |rs| ==> rs[j].entry.timestamp <= Newest(rs).timestamp
    ensures (forall j :: 0 <= j < |rs| ==> rs[j].entry.timestamp <= 0) ==> Newest(rs) == Entry("", 0)
    ensures (exists j :: 0 <= j < |rs| && rs[j].entry.timestamp > 0) ==>
      exists i :: IsFirstNewest(rs, i, 0) && Newest(rs) == rs[i].entry
  {
    ScanNewestFinds(rs, Entry("", 0));
  }

  /** What a repair produces: the store afterwards, the repair PUTs sent to
      peers, and the lines written to the log. */
  datatype Repair = Repair(store: Store, sent: seq<Outbound>, log: seq<string>)

  /** One answer: older than the winner means repair, a peer by a PUT, this
      node (its name compared ignoring case) by a direct store write. */
  function RepairOne(self: string, key: int, w: Entry, r: Response, acc: Repair): Repair
  {
    if r.entry.timestamp < w.timestamp then
      if !EqualsIgnoreCase(r.source, self) then acc.(sent := acc.sent + [Outbound(r.source, PutRequest(self, key, w))])
      else acc.(store := acc.store[key := Some(w)], log := acc.log + [WriteLog(key, w.value, w.timestamp)])
    else acc
  }

  function RepairAll(self: string, key: int, w: Entry, rs: seq<Response>, acc: Repair): Repair
    decreases |rs|
  {
    if rs == [] then acc else RepairAll(self, key, w, rs[1..], RepairOne(self, key, w, rs[0], acc))
  }

  function DoReadRepair(self: string, store: Store, key: int, rs: seq<Response>): Repair
  {
    RepairAll(self, key, Newest(rs), rs, Repair(store, [], []))
  }

  /** Answer `i` is stale: strictly older than the winner `w`. */
  predicate Stale(rs: seq<Response>, i: int, w: Entry)
  {
    0 <= i < |rs| && rs[i].entry.timestamp < w.timestamp
  }

  /** The sources that get a repair PUT, in answer order. */
  function StaleRemotes(self: string, w: Entry, rs: seq<Response>): seq<string>
  {
    if rs == [] then []
    else
      var here := if rs[0].entry.timestamp < w.timestamp && !EqualsIgnoreCase(rs[0].source, self) then [rs[0].source] else [];
      here + StaleRemotes(self, w, rs[1..])
  }

  /** A repair PUT of `w` to each of `names`, in order. */
  function RepairPuts(self: string, key: int, w: Entry, names: seq<string>): (r: seq<Outbound>)
    ensures |r| == |names|
    ensures forall i :: 0 <= i < |names| ==> r[i] == Outbound(names[i], PutRequest(self, key, w))
  {
    seq(|names|, i requires 0 <= i < |names| => Outbound(names[i], PutRequest(self, key, w)))
  }

  lemma RepairPutsAppend(self: string, key: int, w: Entry, a: seq<string>, b: seq<string>)
    ensures RepairPuts(self, key, w, a + b) == RepairPuts(self, key, w, a) + RepairPuts(self, key, w, b)
  {
  }

  /** The repair PUTs of a pass: one per stale peer answer, in order. */
  lemma {:induction false} RepairAllSends(self: string, key: int, w: Entry, rs: seq<Response>, acc: Repair)
    ensures RepairAll(self, key, w, rs, acc).sent == acc.sent + RepairPuts(self, key, w, StaleRemotes(self, w, rs))
    decreases |rs|
  {
    if rs != [] {
      var acc' := RepairOne(self, key, w, rs[0], acc);
      RepairAllSends(self, key, w, rs[1..], acc');
      var tail := StaleRemotes(self, w, rs[1..]);
      if rs[0].entry.timestamp < w.timestamp && !EqualsIgnoreCase(rs[0].source, self) {
        assert StaleRemotes(self, w, rs) == [rs[0].source] + tail;
        RepairPutsAppend(self, key, w, [rs[0].source], tail);
        assert acc'.sent == acc.sent + RepairPuts(self, key, w, [rs[0].source]);
      } else {
        assert StaleRemotes(self, w, rs) == tail;
        assert acc'.sent == acc.sent;
      }
    } else {
      assert RepairPuts(self, key, w, []) == [];
    }
  }

  /** Some answer in `rs` is stale and came from this node. */
  predicate LocalStale(self: string, w: Entry, rs: seq<Response>)
  {
    exists i :: 0 <= i < |rs| && Stale(rs, i, w) && EqualsIgnoreCase(rs[i].source, self)
  }

  lemma LocalStaleCons(self: string, w: Entry, rs: seq<Response>)
    requires rs != []
    ensures LocalStale(self, w, rs) <==>
      (rs[0].entry.timestamp < w.timestamp && EqualsIgnoreCase(rs[0].source, self)) || LocalStale(self, w, rs[1..])
  {
    if LocalStale(self, w, rs[1..]) {
      var i :| 0 <= i < |rs[1..]| && Stale(rs[1..], i, w) && EqualsIgnoreCase(rs[1..][i].source, self);
      assert rs[i + 1] == rs[1..][i];
    }
    if LocalStale(self, w, rs) {
      var i :| 0 <= i < |rs| && Stale(rs, i, w) && EqualsIgnoreCase(rs[i].source, self);
      if i > 0 {
        assert rs[1..][i - 1] == rs[i];
      }
    }
  }

  /** The store side of a pass: the winner is written locally exactly when
      this node's own answer was stale, and nothing else changes. */
  lemma {:induction false} RepairAllStore(self: string, key: int, w: Entry, rs: seq<Response>, acc: Repair)
    ensures var r := RepairAll(self, key, w, rs, acc);
      && r.store.Keys == acc.store.Keys + (if LocalStale(self, w, rs) then {key} else {})
      && (forall k :: k in acc.store && k != key ==> r.store[k] == acc.store[k])
      && (LocalStale(self, w, rs) ==> r.store[key] == Some(w))
      && (!LocalStale(self, w, rs) ==> r.store == acc.store && r.log == acc.log)
    decreases |rs|
  {
    if rs != [] {
      var acc' := RepairOne(self, key, w, rs[0], acc);
      RepairAllStore(self, key, w, rs[1..], acc');
      LocalStaleCons(self, w, rs);
      assert RepairAll(self, key, w, rs, acc) == RepairAll(self, key, w, rs[1..], acc');
    }
  }

  /**
   * Read repair: every stale answer from a peer gets one repair PUT with the
   * winner's value and timestamp, in answer order, and nothing else is sent;
   * a stale answer from this node writes the winner into the local store;
   * answers at the winning timestamp are left alone.
   */
  lemma ReadRepairEffect(self: string, store: Store, key: int, rs: seq<Response>)
    ensures var w := Newest(rs);
      var r := DoReadRepair(self, store, key, rs);
      && |r.sent| == |StaleRemotes(self, w, rs)|
      && (forall i :: 0 <= i < |r.sent| ==> r.sent[i] == Outbound(StaleRemotes(self, w, rs)[i], PutRequest(self, key, w)))
      && r.store.Keys == store.Keys + (if LocalStale(self, w, rs) then {key} else {})
      && (forall k :: k in store && k != key ==> r.store[k] == store[k])
      && (LocalStale(self, w, rs) ==> r.store[key] == Some(w))
      && (!LocalStale(self, w, rs) ==> r.store == store && r.log == [])
  {
    RepairAllSends(self, key, Newest(rs), rs, Repair(store, [], []));
    RepairAllStore(self, key, Newest(rs), rs, Repair(store, [], []));
  }

  /** The PUTs read repair sends are the repair PUTs to the stale peers. */
  lemma ReadRepairSends(self: string, store: Store, key: int, rs: seq<Response>)
    ensures DoReadRepair(self, store, key, rs).sent == RepairPuts(self, key, Newest(rs), StaleRemotes(self, Newest(rs), rs))
  {
    RepairAllSends(self, key, Newest(rs), rs, Repair(store, [], []));
    assert [] + RepairPuts(self, key, Newest(rs), StaleRemotes(self, Newest(rs), rs))
        == RepairPuts(self, key, Newest(rs), StaleRemotes(self, Newest(rs), rs));
  }

  /** The sources that get repaired are exactly the stale peers. */
  lemma {:induction false} StaleRemotesExactly(self: string, w: Entry, rs: seq<Response>)
    ensures forall n :: n in StaleRemotes(self, w, rs) <==>
      exists i :: Stale(rs, i, w) && !EqualsIgnoreCase(rs[i].source, self) && rs[i].source == n
    ensures (forall i :: !Stale(rs, i, w)) ==> StaleRemotes(self, w, rs) == []
    decreases |rs|
  {
    if rs != [] {
      StaleRemotesExactly(self, w, rs[1..]);
      if forall i :: !Stale(rs, i, w) {
        assert !Stale(rs, 0, w);
        forall i ensures !Stale(rs[1..], i, w) {
          assert !Stale(rs, i + 1, w);
        }
      }
      forall n ensures n in StaleRemotes(self, w, rs) <==>
        exists i :: Stale(rs, i, w) && !EqualsIgnoreCase(rs[i].source, self) && rs[i].source == n
      {
        if exists i :: Stale(rs, i, w) && !EqualsIgnoreCase(rs[i].source, self) && rs[i].source == n {
          var i :| Stale(rs, i, w) && !EqualsIgnoreCase(rs[i].source, self) && rs[i].source == n;
          if i > 0 {
            assert Stale(rs[1..], i - 1, w) && rs[1..][i - 1] == rs[i];
          }
        }
        if n in StaleRemotes(self, w, rs[1..]) {
          var i :| Stale(rs[1..], i, w) && !EqualsIgnoreCase(rs[1..][i].source, self) && rs[1..][i].source == n;
          assert Stale(rs, i + 1, w) && rs[i + 1] == rs[1..][i];
        }
      }
    }
  }

  /** When every answer carries the same timestamp (in particular when all
      are 0), read repair changes nothing and sends nothing. */
  lemma AgreeingAnswersNeedNoRepair(self: string, store: Store, key: int, rs: seq<Response>)
    requires forall i :: 0 <= i < |rs| ==> rs[i].entry.timestamp >= 0
    requires forall i, j :: 0 <= i < |rs| && 0 <= j < |rs| ==> rs[i].entry.timestamp == rs[j].entry.timestamp
    ensures DoReadRepair(self, store, key, rs) == Repair(store, [], [])
  {
    var w := Newest(rs);
    NewestIsFirstMaximum(rs);
    ReadRepairEffect(self, store, key, rs);
    if exists j :: 0 <= j < |rs| && rs[j].entry.timestamp > 0 {
      var m :| IsFirstNewest(rs, m, 0) && w == rs[m].entry;
      forall i | 0 <= i < |rs| ensures !Stale(rs, i, w) {
        assert rs[i].entry.timestamp == rs[m].entry.timestamp;
      }
    }
    StaleRemotesExactly(self, w, rs);
  }

  /**
   * Convergence: a peer whose slot is `null` (it answered `("", 0)`) or
   * holds an entry older than the winner ends up holding the winner once
   * it applies its repair PUT.
   */
  lemma RepairPutConverges(self: string, key: int, rs: seq<Response>, peerStore: Store)
    requires Lookup(peerStore, key).None? || Lookup(peerStore, key).value.timestamp < Newest(rs).timestamp
    ensures PeerPut(peerStore, PutRequest(self, key, Newest(rs))).store[key] == Some(Newest(rs))
  {
  }

  /** Two answers, the second newer and positive: the stale first source
      ends with the second entry, whether it is a peer whose slot is `null`
      or older (through its repair PUT) or this node. */
  lemma TwoAnswerRepair(self: string, store: Store, key: int, a: Response, b: Response, peerStore: Store)
    requires a.entry.timestamp < b.entry.timestamp && 0 < b.entry.timestamp
    requires Lookup(peerStore, key).None? || Lookup(peerStore, key).value.timestamp < b.entry.timestamp
    ensures Newest([a, b]) == b.entry
    ensures !EqualsIgnoreCase(a.source, self) ==>
      DoReadRepair(self, store, key, [a, b]).sent == [Outbound(a.source, PutRequest(self, key, b.entry))] &&
      PeerPut(peerStore, PutRequest(self, key, b.entry)).store[key] == Some(b.entry)
    ensures EqualsIgnoreCase(a.source, self) ==>
      Lookup(DoReadRepair(self, store, key, [a, b]).store, key) == Some(b.entry) &&
      DoReadRepair(self, store, key, [a, b]).sent == []
  {
    assert [a, b][1..] == [b];
    assert [b][1..] == [];
    var best := if a.entry.timestamp > 0 then a.entry else Entry("", 0);
    assert ScanNewest([a, b], Entry("", 0)) == ScanNewest([b], best);
    assert ScanNewest([b], best) == ScanNewest([], b.entry);
    var w := Newest([a, b]);
    assert w == b.entry;
    var first := RepairOne(self, key, w, a, Repair(store, [], []));
    assert DoReadRepair(self, store, key, [a, b]) == RepairAll(self, key, w, [b], first);
    assert RepairOne(self, key, w, b, first) == first;
    assert RepairAll(self, key, w, [b], first) == RepairAll(self, key, w, [], first);
    assert DoReadRepair(self, store, key, [a, b]) == first;
    if EqualsIgnoreCase(a.source, self) {
      assert first.store == store[key := Some(b.entry)] && first.sent == [];
    } else {
      assert first.sent == [Outbound(a.source, PutRequest(self, key, b.entry))];
    }
  }
}
