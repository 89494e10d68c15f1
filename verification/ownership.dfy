/**
 * Partitioning of the key space `0..255` among four nodes: the quadrants a
 * node stores (Server constructor) and the foreign range it is given when
 * it appears as someone else's peer (setReplicaMapping).
 */
module Ownership {
  import opened Wrappers
  import opened Entries
  import opened Replicas

  /** Quadrant `q` holds keys `64q .. 64q+63`. */
  function Quadrant(q: nat): set<int>
    requires q < 4
  {
    KeyRange(64 * q, 64 * q + 64)
  }

  /** Keys the constructor pre-fills: each quadrant guarded by its own
      three-digit containment test. */
  function OwnedKeys(name: string): set<int>
  {
    (if '0' in name || '1' in name || '2' in name then KeyRange(0, 64) else {})
    + (if '1' in name || '2' in name || '3' in name then KeyRange(64, 128) else {})
    + (if '2' in name || '3' in name || '0' in name then KeyRange(128, 192) else {})
    + (if '3' in name || '0' in name || '1' in name then KeyRange(192, 256) else {})
  }

  /**
   * The store of a freshly constructed server: a `null` slot for each key of
   * `0..255` that the name's digits cover. Each quadrant is left out by
   * exactly one digit (the key's non-owner), so a node stores a key
   * exactly when its name holds some other of the four digits; a name
   * with one digit `q` stores everything outside quadrant `(q+1) mod 4`.
   */
  function InitStore(name: string): (st: Store)
    ensures st.Keys == OwnedKeys(name)
    ensures forall k :: k in st <==> 0 <= k < 256 && HasOtherDigit(name, NonOwner(k))
    ensures forall q :: OnlyDigit(name, q) ==> st.Keys == KeyRange(0, 256) - Quadrant(ForeignQuadrant(q))
    ensures forall k :: k in st ==> st[k].None?
  {
    OwnedKeysPartition(name);
    map k | k in OwnedKeys(name) :: None
  }

  /** The name holds one of the four digits other than the digit `q`. */
  predicate HasOtherDigit(name: string, q: nat)
  {
    || (q != 0 && '0' in name)
    || (q != 1 && '1' in name)
    || (q != 2 && '2' in name)
    || (q != 3 && '3' in name)
  }

  /** The constructor's four containment tests, read key by key. */
  lemma OwnedKeyByNonOwner(name: string, k: int)
    ensures k in OwnedKeys(name) <==> 0 <= k < 256 && HasOtherDigit(name, NonOwner(k))
  {
    if 0 <= k < 256 {
      var j := k / 64;
      assert 0 <= j < 4 && 64 * j <= k < 64 * j + 64;
      assert NonOwner(k) == (j + 3) % 4;
      if j == 0 {
        assert k in KeyRange(0, 64) && k !in KeyRange(64, 128) && k !in KeyRange(128, 192) && k !in KeyRange(192, 256);
      } else if j == 1 {
        assert k !in KeyRange(0, 64) && k in KeyRange(64, 128) && k !in KeyRange(128, 192) && k !in KeyRange(192, 256);
      } else if j == 2 {
        assert k !in KeyRange(0, 64) && k !in KeyRange(64, 128) && k in KeyRange(128, 192) && k !in KeyRange(192, 256);
      } else {
        assert k !in KeyRange(0, 64) && k !in KeyRange(64, 128) && k !in KeyRange(128, 192) && k in KeyRange(192, 256);
      }
    }
  }

  lemma OwnedKeysPartition(name: string)
    ensures forall k :: k in OwnedKeys(name) <==> 0 <= k < 256 && HasOtherDigit(name, NonOwner(k))
    ensures forall q :: OnlyDigit(name, q) ==> OwnedKeys(name) == KeyRange(0, 256) - Quadrant(ForeignQuadrant(q))
  {
    forall k ensures k in OwnedKeys(name) <==> 0 <= k < 256 && HasOtherDigit(name, NonOwner(k)) {
      OwnedKeyByNonOwner(name, k);
    }
    forall q | OnlyDigit(name, q) ensures OwnedKeys(name) == KeyRange(0, 256) - Quadrant(ForeignQuadrant(q)) {
      forall k ensures k in OwnedKeys(name) <==> k in KeyRange(0, 256) - Quadrant(ForeignQuadrant(q)) {
        OwnedKeyPointwise(name, q, k);
      }
    }
  }

  /**
   * The foreign range for a peer's name, by the first of the digits 0, 1,
   * 2, 3 (tested in that order) that the name contains, wherever in the
   * name it occurs: "31" gets digit 1's range. A name with none of the four
   * digits leaves the descriptor's range untouched.
   */
  function WithForeignRange(r: Replica, name: string): (r': Replica)
    ensures r'.replicaName == r.replicaName && r'.ip == r.ip && r'.port == r.port
    ensures '0' in name ==> r'.start == 64 && r'.end == 127
    ensures '0' !in name && '1' in name ==> r'.start == 128 && r'.end == 191
    ensures '0' !in name && '1' !in name && '2' in name ==> r'.start == 192 && r'.end == 255
    ensures '0' !in name && '1' !in name && '2' !in name && '3' in name ==> r'.start == 0 && r'.end == 63
    ensures '0' !in name && '1' !in name && '2' !in name && '3' !in name ==> r' == r
  {
    if '0' in name then SetEnd(SetStart(r, 64), 127)
    else if '1' in name then SetEnd(SetStart(r, 128), 191)
    else if '2' in name then SetEnd(SetStart(r, 192), 255)
    else if '3' in name then SetEnd(SetStart(r, 0), 63)
    else r
  }

  /** The descriptor a name yields when only its range matters. */
  function DescriptorOf(name: string): Replica
  {
    WithForeignRange(NewReplica(), name)
  }

  /** The name contains the digit of `q` (0..3) and none of the other three. */
  predicate OnlyDigit(name: string, q: nat)
  {
    && q < 4
    && ('0' in name <==> q == 0)
    && ('1' in name <==> q == 1)
    && ('2' in name <==> q == 2)
    && ('3' in name <==> q == 3)
  }

  /** The quadrant a node named with digit `q` does not store. */
  function ForeignQuadrant(q: nat): nat
    requires q < 4
  {
    (q + 1) % 4
  }

  /** The node (by digit) that does not store `key`. */
  function NonOwner(key: int): nat
    requires 0 <= key < 256
  {
    (key / 64 + 3) % 4
  }

  /** A name with exactly one of the digits is refused, as a peer, exactly
      its foreign quadrant. */
  lemma DescriptorIsForeignQuadrant(name: string, q: nat)
    requires OnlyDigit(name, q)
    ensures DescriptorOf(name).start == 64 * ForeignQuadrant(q)
    ensures DescriptorOf(name).end == 64 * ForeignQuadrant(q) + 63
  {
  }

  /** A name with exactly one of the digits gets a 192-key store of `null`
      slots that lacks exactly its foreign quadrant. */
  lemma SingleDigitNameOwnsThreeQuadrants(name: string, q: nat)
    requires OnlyDigit(name, q)
    ensures InitStore(name).Keys == KeyRange(0, 256) - Quadrant(ForeignQuadrant(q))
    ensures |InitStore(name)| == 192
    ensures forall k :: k in InitStore(name) ==> InitStore(name)[k].None?
  {
    var d := DescriptorOf(name);
    DescriptorIsForeignQuadrant(name, q);
    ConstructorAgreesWithDescriptor(name, q);
    QuadrantDescriptorAdmits192(d);
    var st := InitStore(name);
    assert |st.Keys| == 192;
  }

  /** The keys a node stores are exactly the keys its peers' descriptor for it
      admits: constructor and foreign-range table describe the same partition. */
  lemma ConstructorAgreesWithDescriptor(name: string, q: nat)
    requires OnlyDigit(name, q)
    ensures InitStore(name).Keys == AdmittedKeys(DescriptorOf(name))
    ensures AdmittedKeys(DescriptorOf(name)) == KeyRange(0, 256) - Quadrant(ForeignQuadrant(q))
  {
    var d := DescriptorOf(name);
    var expected := KeyRange(0, 256) - Quadrant(ForeignQuadrant(q));
    forall k ensures k in OwnedKeys(name) <==> k in expected {
      OwnedKeyPointwise(name, q, k);
    }
    forall k ensures k in AdmittedKeys(d) <==> k in expected {
      AdmittedKeyPointwise(name, q, k);
    }
  }

  lemma OwnedKeyPointwise(name: string, q: nat, k: int)
    requires OnlyDigit(name, q)
    ensures k in OwnedKeys(name) <==> 0 <= k < 256 && !(64 * ForeignQuadrant(q) <= k < 64 * ForeignQuadrant(q) + 64)
  {
    var a, b, c, d := KeyRange(0, 64), KeyRange(64, 128), KeyRange(128, 192), KeyRange(192, 256);
    if q == 0 {
      assert OwnedKeys(name) == a + c + d;
    } else if q == 1 {
      assert OwnedKeys(name) == a + b + d;
    } else if q == 2 {
      assert OwnedKeys(name) == a + b + c;
    } else {
      assert OwnedKeys(name) == b + c + d;
    }
  }

  lemma AdmittedKeyPointwise(name: string, q: nat, k: int)
    requires OnlyDigit(name, q)
    ensures k in AdmittedKeys(DescriptorOf(name)) <==> 0 <= k < 256 && !(64 * ForeignQuadrant(q) <= k < 64 * ForeignQuadrant(q) + 64)
  {
  }

  /** A name with none of the four digits gets an empty store, and as a peer
      a never-set range that refuses key 0 alone. */
  lemma DigitlessName(name: string)
    requires '0' !in name && '1' !in name && '2' !in name && '3' !in name
    ensures InitStore(name) == map[]
    ensures DescriptorOf(name) == NewReplica()
  {
    assert OwnedKeys(name) == {};
  }

  /** Among four nodes named with the four digits, every key is stored by
      exactly three, and the one left out is `NonOwner(key)`. */
  lemma EveryKeyHasThreeOwners(names: seq<string>, key: int)
    requires |names| == 4
    requires forall q :: 0 <= q < 4 ==> OnlyDigit(names[q], q)
    requires 0 <= key < 256
    ensures forall q :: 0 <= q < 4 ==> (key in InitStore(names[q]) <==> q != NonOwner(key))
    ensures forall q :: 0 <= q < 4 ==> (InRange(DescriptorOf(names[q]), key) <==> q != NonOwner(key))
    ensures |set q | q in KeyRange(0, 4) && key in InitStore(names[q])| == 3
  {
    var n := NonOwner(key);
    forall q | 0 <= q < 4
      ensures key in InitStore(names[q]) <==> q != n
      ensures InRange(DescriptorOf(names[q]), key) <==> q != n
    {
      OwnedKeyPointwise(names[q], q, key);
      AdmittedKeyPointwise(names[q], q, key);
      NonOwnerIsForeign(q, key);
    }
    var owners := set q | q in KeyRange(0, 4) && key in InitStore(names[q]);
    forall q ensures q in owners <==> q in KeyRange(0, 4) - {n} {
    }
    assert owners == KeyRange(0, 4) - {n};
    KeyRangeSize(0, 4);
    assert n in KeyRange(0, 4);
  }

  /** Node `q` leaves out `key` exactly when `q` is the key's non-owner. */
  lemma NonOwnerIsForeign(q: nat, key: int)
    requires q < 4 && 0 <= key < 256
    ensures (64 * ForeignQuadrant(q) <= key < 64 * ForeignQuadrant(q) + 64) <==> q == NonOwner(key)
  {
    var j := key / 64;
    assert 0 <= j < 4;
    assert 64 * j <= key < 64 * j + 64;
  }
}
