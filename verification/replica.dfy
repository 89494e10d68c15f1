/** Replica.java: a peer descriptor and its ownership test. */
module Replicas {
  import opened Wrappers

  /**
   * A peer as the server records it. `start..end` is the peer's foreign
   * range: the one block of keys it does not store. `replicaName` and `ip`
   * are Java references, `None` until set.
   */
  datatype Replica = Replica(replicaName: Option<string>, ip: Option<string>, port: int, start: int, end: int)

  /** `new Replica()`: every reference `null`, every number 0. */
  function NewReplica(): (r: Replica)
    ensures r.replicaName.None? && r.ip.None?
    ensures r.port == 0 && r.start == 0 && r.end == 0
  {
    Replica(None, None, 0, 0, 0)
  }

  function SetReplicaName(r: Replica, name: string): (r': Replica)
    ensures r'.replicaName == Some(name)
    ensures r' == r.(replicaName := r'.replicaName)
  {
    r.(replicaName := Some(name))
  }

  function SetIp(r: Replica, ip: string): (r': Replica)
    ensures r'.ip == Some(ip)
    ensures r' == r.(ip := r'.ip)
  {
    r.(ip := Some(ip))
  }

  function SetPort(r: Replica, port: int): (r': Replica)
    ensures r'.port == port
    ensures r' == r.(port := r'.port)
  {
    r.(port := port)
  }

  function SetStart(r: Replica, start: int): (r': Replica)
    ensures r'.start == start
    ensures r' == r.(start := r'.start)
  {
    r.(start := start)
  }

  function SetEnd(r: Replica, end: int): (r': Replica)
    ensures r'.end == end
    ensures r' == r.(end := r'.end)
  {
    r.(end := end)
  }

  /** `isInRange`: the peer stores `key` iff the key lies outside its foreign range. */
  predicate InRange(r: Replica, key: int)
  {
    key < r.start || key > r.end
  }

  /** The integers `lo..hi-1`. */
  predicate Between(lo: int, k: int, hi: int)
  {
    lo <= k < hi
  }

  function KeyRange(lo: int, hi: int): set<int>
  {
    set k | lo <= k < hi && Between(lo, k, hi)
  }

  lemma {:induction false} KeyRangeSize(lo: int, hi: int)
    requires lo <= hi
    ensures |KeyRange(lo, hi)| == hi - lo
    decreases hi - lo
  {
    if lo < hi {
      KeyRangeSize(lo, hi - 1);
      assert KeyRange(lo, hi) == KeyRange(lo, hi - 1) + {hi - 1};
    } else {
      assert KeyRange(lo, hi) == {};
    }
  }

  /** The keys of `0..255` a descriptor admits. */
  function AdmittedKeys(r: Replica): set<int>
  {
    set k | k in KeyRange(0, 256) && InRange(r, k)
  }

  /** With a well-formed range, the descriptor refuses exactly `start..end`. */
  lemma ExcludedExactlyOnRange(r: Replica, key: int)
    requires r.start <= r.end
    ensures !InRange(r, key) <==> r.start <= key <= r.end
  {
  }

  /** A 64-key foreign range inside `0..255` leaves exactly 192 keys admitted. */
  lemma QuadrantDescriptorAdmits192(r: Replica)
    requires 0 <= r.start && r.end == r.start + 63 && r.end <= 255
    ensures AdmittedKeys(r) == KeyRange(0, r.start) + KeyRange(r.end + 1, 256)
    ensures |AdmittedKeys(r)| == 192
  {
    var a, b := KeyRange(0, r.start), KeyRange(r.end + 1, 256);
    assert AdmittedKeys(r) == a + b;
    assert a * b == {};
    KeyRangeSize(0, r.start);
    KeyRangeSize(r.end + 1, 256);
  }

  /** A descriptor whose range was never set (`start == end == 0`) refuses key 0 only. */
  lemma UnsetRangeRefusesOnlyZero(key: int)
    ensures !InRange(NewReplica(), key) <==> key == 0
    ensures |AdmittedKeys(NewReplica())| == 255
  {
    assert AdmittedKeys(NewReplica()) == KeyRange(1, 256);
    KeyRangeSize(1, 256);
  }
}
