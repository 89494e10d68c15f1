/**
 * Hinted handoff (`doHintedHandoff` and the loop that ends `handleRequest`):
 * after a request, every peer that was heard from and has buffered hints
 * is sent those hints as peer PUTs; a hint is dropped once the peer
 * answers, and the iterator over the hints restarts after every delivery.
 */
module HintedHandoff {
  import opened Wrappers
  import opened Entries
  import opened Protocol

  /** The outcome of draining one peer's hints: the hints still buffered,
      the PUTs sent in order, and the next attempt number. */
  datatype Drained = Drained(remaining: map<int, Entry>, sent: seq<Outbound>, attempts: nat)

  /**
   * The drain loop. `order` is the iteration order of the hint map's keys
   * (a hash map keeps the relative order of its keys when one is removed),
   * `pos` is the iterator's position in it, and `ack(n)` tells whether the
   * `n`-th delivery attempt of the request got a server response back.
   * A delivered hint is removed and the iterator starts over; a refused or
   * failed one is skipped.
   */
  function DrainFrom(self: string, peer: string, order: seq<int>, hints: map<int, Entry>, pos: nat,
                     ack: nat -> bool, attempt: nat): Drained
    requires pos <= |order|
    decreases |hints|, |order| - pos
  {
    if pos == |order| then Drained(hints, [], attempt)
    else if order[pos] !in hints then DrainFrom(self, peer, order, hints, pos + 1, ack, attempt)
    else
      var k := order[pos];
      var offer := Outbound(peer, PutRequest(self, k, hints[k]));
      var rest :=
        if ack(attempt) then DrainFrom(self, peer, order, hints - {k}, 0, ack, attempt + 1)
        else DrainFrom(self, peer, order, hints, pos + 1, ack, attempt + 1);
      Drained(rest.remaining, [offer] + rest.sent, rest.attempts)
  }

  function DrainPeer(self: string, peer: string, order: seq<int>, hints: map<int, Entry>,
                     ack: nat -> bool, attempt: nat): Drained
  {
    DrainFrom(self, peer, order, hints, 0, ack, attempt)
  }

  /** Attempt `j` of drain `d` (which started at attempt `attempt`) offered
      the hint `(k, e)`. */
  predicate Offered(d: Drained, self: string, peer: string, attempt: nat, j: int, k: int, e: Entry)
  {
    attempt <= j < d.attempts && j - attempt < |d.sent| && d.sent[j - attempt] == Outbound(peer, PutRequest(self, k, e))
  }

  /** Attempts are numbered consecutively, one message per attempt, each a
      PUT to the peer of a hint it held, and the hints that stay are
      unchanged. */
  lemma {:induction false} DrainShape(self: string, peer: string, order: seq<int>, hints: map<int, Entry>, pos: nat,
                                      ack: nat -> bool, attempt: nat)
    requires pos <= |order|
    ensures var d := DrainFrom(self, peer, order, hints, pos, ack, attempt);
      && d.attempts == attempt + |d.sent|
      && d.remaining.Keys <= hints.Keys
      && (forall k :: k in d.remaining ==> d.remaining[k] == hints[k])
      && (forall i :: 0 <= i < |d.sent| ==>
            d.sent[i].to == peer && d.sent[i].request.key in hints &&
            d.sent[i] == Outbound(peer, PutRequest(self, d.sent[i].request.key, hints[d.sent[i].request.key])))
    decreases |hints|, |order| - pos
  {
    if pos < |order| {
      if order[pos] !in hints {
        DrainShape(self, peer, order, hints, pos + 1, ack, attempt);
      } else {
        var k := order[pos];
        if ack(attempt) {
          DrainShape(self, peer, order, hints - {k}, 0, ack, attempt + 1);
        } else {
          DrainShape(self, peer, order, hints, pos + 1, ack, attempt + 1);
        }
      }
    }
  }

  /**
   * A hint leaves the buffer only after an attempt that offered it was
   * answered; a hint that stays was offered and refused, unless the
   * iterator had already passed it when this pass began.
   */
  ghost predicate Accounted(self: string, peer: string, order: seq<int>, hints: map<int, Entry>, pos: nat,
                            ack: nat -> bool, attempt: nat)
    requires pos <= |order|
  {
    var d := DrainFrom(self, peer, order, hints, pos, ack, attempt);
    && (forall k :: k in hints && k !in d.remaining ==>
          exists j :: Offered(d, self, peer, attempt, j, k, hints[k]) && ack(j))
    && (forall k :: k in hints && k in d.remaining ==>
          (exists j :: Offered(d, self, peer, attempt, j, k, hints[k]) && !ack(j)) || k in order[..pos])
  }

  /** Skipping a key that has no hint keeps the account. */
  lemma AccountedSkip(self: string, peer: string, order: seq<int>, hints: map<int, Entry>, pos: nat,
                      ack: nat -> bool, attempt: nat)
    requires pos < |order| && order[pos] !in hints
    requires Accounted(self, peer, order, hints, pos + 1, ack, attempt)
    ensures Accounted(self, peer, order, hints, pos, ack, attempt)
  {
    assert order[..pos + 1] == order[..pos] + [order[pos]];
  }

  /** An offer that is answered: the hint goes, and the rest is accounted
      by the restarted pass. */
  lemma AccountedDelivered(self: string, peer: string, order: seq<int>, hints: map<int, Entry>, pos: nat,
                           ack: nat -> bool, attempt: nat)
    requires pos < |order| && order[pos] in hints && ack(attempt)
    requires forall k :: k in hints ==> k in order
    requires Accounted(self, peer, order, hints - {order[pos]}, 0, ack, attempt + 1)
    ensures Accounted(self, peer, order, hints, pos, ack, attempt)
  {
    var k := order[pos];
    var h' := hints - {k};
    var d := DrainFrom(self, peer, order, hints, pos, ack, attempt);
    var rest := DrainFrom(self, peer, order, h', 0, ack, attempt + 1);
    DrainShape(self, peer, order, h', 0, ack, attempt + 1);
    assert d.sent == [Outbound(peer, PutRequest(self, k, hints[k]))] + rest.sent;
    assert d.remaining == rest.remaining && d.attempts == rest.attempts;
    assert Offered(d, self, peer, attempt, attempt, k, hints[k]);
    forall k2 | k2 in hints && k2 in d.remaining
      ensures exists j :: Offered(d, self, peer, attempt, j, k2, hints[k2]) && !ack(j)
    {
      var j :| Offered(rest, self, peer, attempt + 1, j, k2, h'[k2]) && !ack(j);
      assert d.sent[j - attempt] == rest.sent[j - (attempt + 1)];
      assert Offered(d, self, peer, attempt, j, k2, hints[k2]);
    }
    forall k2 | k2 in hints && k2 !in d.remaining && k2 != k
      ensures exists j :: Offered(d, self, peer, attempt, j, k2, hints[k2]) && ack(j)
    {
      var j :| Offered(rest, self, peer, attempt + 1, j, k2, h'[k2]) && ack(j);
      assert d.sent[j - attempt] == rest.sent[j - (attempt + 1)];
      assert Offered(d, self, peer, attempt, j, k2, hints[k2]);
    }
  }

  /** An offer that is refused: the hint stays, having been offered. */
  lemma AccountedRefused(self: string, peer: string, order: seq<int>, hints: map<int, Entry>, pos: nat,
                         ack: nat -> bool, attempt: nat)
    requires pos < |order| && order[pos] in hints && !ack(attempt)
    requires Accounted(self, peer, order, hints, pos + 1, ack, attempt + 1)
    ensures Accounted(self, peer, order, hints, pos, ack, attempt)
  {
    var k := order[pos];
    var d := DrainFrom(self, peer, order, hints, pos, ack, attempt);
    var rest := DrainFrom(self, peer, order, hints, pos + 1, ack, attempt + 1);
    DrainShape(self, peer, order, hints, pos + 1, ack, attempt + 1);
    assert d.sent == [Outbound(peer, PutRequest(self, k, hints[k]))] + rest.sent;
    assert d.remaining == rest.remaining && d.attempts == rest.attempts;
    assert order[..pos + 1] == order[..pos] + [k];
    assert Offered(d, self, peer, attempt, attempt, k, hints[k]);
    forall k2 | k2 in hints && k2 in d.remaining && k2 != k && k2 !in order[..pos]
      ensures exists j :: Offered(d, self, peer, attempt, j, k2, hints[k2]) && !ack(j)
    {
      var j :| Offered(rest, self, peer, attempt + 1, j, k2, hints[k2]) && !ack(j);
      assert d.sent[j - attempt] == rest.sent[j - (attempt + 1)];
      assert Offered(d, self, peer, attempt, j, k2, hints[k2]);
    }
    forall k2 | k2 in hints && k2 !in d.remaining
      ensures exists j :: Offered(d, self, peer, attempt, j, k2, hints[k2]) && ack(j)
    {
      var j :| Offered(rest, self, peer, attempt + 1, j, k2, hints[k2]) && ack(j);
      assert d.sent[j - attempt] == rest.sent[j - (attempt + 1)];
      assert Offered(d, self, peer, attempt, j, k2, hints[k2]);
    }
  }

  lemma {:induction false} DrainAccounts(self: string, peer: string, order: seq<int>, hints: map<int, Entry>, pos: nat,
                                         ack: nat -> bool, attempt: nat)
    requires pos <= |order|
    requires forall k :: k in hints ==> k in order
    ensures Accounted(self, peer, order, hints, pos, ack, attempt)
    decreases |hints|, |order| - pos
  {
    if pos == |order| {
      assert order[..pos] == order;
    } else if order[pos] !in hints {
      DrainAccounts(self, peer, order, hints, pos + 1, ack, attempt);
      AccountedSkip(self, peer, order, hints, pos, ack, attempt);
    } else if ack(attempt) {
      DrainAccounts(self, peer, order, hints - {order[pos]}, 0, ack, attempt + 1);
      AccountedDelivered(self, peer, order, hints, pos, ack, attempt);
    } else {
      DrainAccounts(self, peer, order, hints, pos + 1, ack, attempt + 1);
      AccountedRefused(self, peer, order, hints, pos, ack, attempt);
    }
  }

  /** The key of an answered attempt is gone at the end: a delivered hint
      is removed for good and never re-enters the buffer. */
  lemma {:induction false} DrainAnsweredRemoved(self: string, peer: string, order: seq<int>, hints: map<int, Entry>, pos: nat,
                                                ack: nat -> bool, attempt: nat, i: nat)
    requires pos <= |order|
    requires i < |DrainFrom(self, peer, order, hints, pos, ack, attempt).sent| && ack(attempt + i)
    ensures var d := DrainFrom(self, peer, order, hints, pos, ack, attempt);
      d.sent[i].request.key !in d.remaining
    decreases |hints|, |order| - pos
  {
    var d := DrainFrom(self, peer, order, hints, pos, ack, attempt);
    if order[pos] !in hints {
      DrainAnsweredRemoved(self, peer, order, hints, pos + 1, ack, attempt, i);
    } else {
      var k := order[pos];
      if ack(attempt) {
        var rest := DrainFrom(self, peer, order, hints - {k}, 0, ack, attempt + 1);
        assert d.sent == [Outbound(peer, PutRequest(self, k, hints[k]))] + rest.sent;
        assert d.remaining == rest.remaining;
        if i == 0 {
          DrainShape(self, peer, order, hints - {k}, 0, ack, attempt + 1);
        } else {
          assert d.sent[i] == rest.sent[i - 1];
          assert ack((attempt + 1) + (i - 1));
          DrainAnsweredRemoved(self, peer, order, hints - {k}, 0, ack, attempt + 1, i - 1);
        }
      } else {
        var rest := DrainFrom(self, peer, order, hints, pos + 1, ack, attempt + 1);
        assert d.sent == [Outbound(peer, PutRequest(self, k, hints[k]))] + rest.sent;
        assert d.remaining == rest.remaining;
        assert i > 0;
        assert d.sent[i] == rest.sent[i - 1];
        assert ack((attempt + 1) + (i - 1));
        DrainAnsweredRemoved(self, peer, order, hints, pos + 1, ack, attempt + 1, i - 1);
      }
    }
  }

  /**
   * A full drain (the iterator starting at the beginning): a hint is
   * removed exactly when some attempt offering it was answered, every
   * hint that stays was offered and refused, and nothing else changes.
   */
  lemma DrainPeerEffect(self: string, peer: string, order: seq<int>, hints: map<int, Entry>, ack: nat -> bool, attempt: nat)
    requires forall k :: k in hints ==> k in order
    ensures var d := DrainPeer(self, peer, order, hints, ack, attempt);
      && d.attempts == attempt + |d.sent|
      && (forall k :: k in d.remaining ==> k in hints && d.remaining[k] == hints[k])
      && (forall k :: k in hints && k !in d.remaining ==> exists j :: Offered(d, self, peer, attempt, j, k, hints[k]) && ack(j))
      && (forall k :: k in hints && k in d.remaining ==> exists j :: Offered(d, self, peer, attempt, j, k, hints[k]) && !ack(j))
      && (forall k, j :: k in hints && Offered(d, self, peer, attempt, j, k, hints[k]) && ack(j) ==> k !in d.remaining)
  {
    DrainShape(self, peer, order, hints, 0, ack, attempt);
    DrainAccounts(self, peer, order, hints, 0, ack, attempt);
    assert order[..0] == [];
    var d := DrainPeer(self, peer, order, hints, ack, attempt);
    forall k, j | k in hints && Offered(d, self, peer, attempt, j, k, hints[k]) && ack(j)
      ensures k !in d.remaining
    {
      assert d.sent[j - attempt].request.key == k;
      assert ack(attempt + (j - attempt));
      DrainAnsweredRemoved(self, peer, order, hints, 0, ack, attempt, j - attempt);
    }
  }

  /** When every attempt is answered, the peer's buffer empties, one PUT per hint. */
  lemma {:induction false} DrainAllAnswered(self: string, peer: string, order: seq<int>, hints: map<int, Entry>, pos: nat,
                                            ack: nat -> bool, attempt: nat)
    requires pos <= |order|
    requires forall k :: k in hints ==> k in order[pos..]
    requires forall n :: ack(n)
    ensures var d := DrainFrom(self, peer, order, hints, pos, ack, attempt);
      d.remaining == map[] && |d.sent| == |hints|
    decreases |hints|, |order| - pos
  {
    if pos == |order| {
      forall k | k in hints ensures k in order[pos..] && |order[pos..]| == 0 {
      }
      assert hints.Keys == {};
    } else if order[pos] !in hints {
      assert order[pos..] == [order[pos]] + order[pos + 1..];
      DrainAllAnswered(self, peer, order, hints, pos + 1, ack, attempt);
    } else {
      var k := order[pos];
      assert order[pos..] == [order[pos]] + order[pos + 1..];
      assert order[0..] == order;
      DrainAllAnswered(self, peer, order, hints - {k}, 0, ack, attempt + 1);
      assert |(hints - {k}).Keys| == |hints.Keys - {k}| == |hints.Keys| - 1;
    }
  }

  /** When no attempt is answered, every hint is offered exactly once and all of them stay. */
  lemma {:induction false} DrainNoneAnswered(self: string, peer: string, order: seq<int>, hints: map<int, Entry>, pos: nat,
                                             ack: nat -> bool, attempt: nat)
    requires pos <= |order|
    requires forall n :: !ack(n)
    ensures var d := DrainFrom(self, peer, order, hints, pos, ack, attempt);
      d.remaining == hints && d.sent == Offers(self, peer, order[pos..], hints)
    decreases |order| - pos
  {
    if pos < |order| {
      DrainNoneAnswered(self, peer, order, hints, pos + 1, ack, attempt + (if order[pos] in hints then 1 else 0));
      assert order[pos..] == [order[pos]] + order[pos + 1..];
    }
  }

  /** One PUT for each key of `keys` that has a hint, in that order. */
  function Offers(self: string, peer: string, keys: seq<int>, hints: map<int, Entry>): seq<Outbound>
  {
    if keys == [] then []
    else
      var first := if keys[0] in hints then [Outbound(peer, PutRequest(self, keys[0], hints[keys[0]]))] else [];
      first + Offers(self, peer, keys[1..], hints)
  }

  /** What the end-of-request loop leaves: the hint buffer, the PUTs sent,
      and the next attempt number. */
  datatype HandedOff = HandedOff(hints: Hints, sent: seq<Outbound>, attempts: nat)

  /**
   * The loop over the peers heard from during the request: under
   * `HINTED_HANDOFF`, a peer with buffered hints is drained, and its entry
   * is dropped once its buffer is empty.
   */
  function HandOff(self: string, hints: Hints, available: seq<string>, handoff: bool,
                   order: string -> seq<int>, ack: nat -> bool, attempt: nat): HandedOff
    decreases |available|
  {
    if available == [] then HandedOff(hints, [], attempt)
    else
      var p := available[0];
      if p in hints && handoff then
        var d := DrainPeer(self, p, order(p), hints[p], ack, attempt);
        var hints' := if d.remaining == map[] then hints - {p} else hints[p := d.remaining];
        var rest := HandOff(self, hints', available[1..], handoff, order, ack, d.attempts);
        HandedOff(rest.hints, d.sent + rest.sent, rest.attempts)
      else HandOff(self, hints, available[1..], handoff, order, ack, attempt)
  }

  /** The end-of-request loop only ever shrinks the buffer: it touches only
      peers it heard from, keeps no empty buffer it drained, and keeps each
      remaining hint as it was. Without hinted handoff it does nothing. */
  lemma {:induction false} HandOffShrinks(self: string, hints: Hints, available: seq<string>, handoff: bool,
                                          order: string -> seq<int>, ack: nat -> bool, attempt: nat)
    ensures var h := HandOff(self, hints, available, handoff, order, ack, attempt);
      && h.hints.Keys <= hints.Keys
      && (forall p :: p in hints && (p !in available || !handoff) ==> p in h.hints && h.hints[p] == hints[p])
      && (forall p, k :: p in h.hints && k in h.hints[p] ==> k in hints[p] && h.hints[p][k] == hints[p][k])
      && (forall p :: p in h.hints && p in available && handoff ==> h.hints[p] != map[])
      && (forall i :: 0 <= i < |h.sent| ==> h.sent[i].to in available && h.sent[i].to in hints)
      && (!handoff ==> h == HandedOff(hints, [], attempt))
    decreases |available|
  {
    if available != [] {
      var p := available[0];
      if p in hints && handoff {
        var d := DrainPeer(self, p, order(p), hints[p], ack, attempt);
        DrainShape(self, p, order(p), hints[p], 0, ack, attempt);
        var hints' := if d.remaining == map[] then hints - {p} else hints[p := d.remaining];
        HandOffShrinks(self, hints', available[1..], handoff, order, ack, d.attempts);
        var h := HandOff(self, hints, available, handoff, order, ack, attempt);
        var rest := HandOff(self, hints', available[1..], handoff, order, ack, d.attempts);
        assert h.sent == d.sent + rest.sent;
        forall q | q in h.hints && q in available && handoff
          ensures h.hints[q] != map[]
        {
          if q == p {
            assert q in hints' && hints'[q] == d.remaining;
          }
        }
      } else {
        HandOffShrinks(self, hints, available[1..], handoff, order, ack, attempt);
      }
    }
  }

  /** The hint `(p, k)` is still buffered in `h`. */
  predicate Held(h: HandedOff, p: string, k: int)
  {
    p in h.hints && k in h.hints[p]
  }

  /** Some message of `sent` (the first numbered `attempt`) is a PUT of the
      hint `(k, e)` to `p` that got a server response back. */
  ghost predicate AnsweredOffer(sent: seq<Outbound>, attempt: nat, ack: nat -> bool, self: string, p: string, k: int, e: Entry)
  {
    exists i :: 0 <= i < |sent| && sent[i] == Outbound(p, PutRequest(self, k, e)) && ack(attempt + i)
  }

  /** An answered offer in a concatenation lies in one of the two parts,
      the second part numbered after the first. */
  lemma AnsweredOfferAppend(a: seq<Outbound>, b: seq<Outbound>, attempt: nat, ack: nat -> bool,
                            self: string, p: string, k: int, e: Entry)
    ensures AnsweredOffer(a + b, attempt, ack, self, p, k, e) <==>
      AnsweredOffer(a, attempt, ack, self, p, k, e) || AnsweredOffer(b, attempt + |a|, ack, self, p, k, e)
  {
    if AnsweredOffer(a + b, attempt, ack, self, p, k, e) {
      var i :| 0 <= i < |a + b| && (a + b)[i] == Outbound(p, PutRequest(self, k, e)) && ack(attempt + i);
      if i >= |a| {
        assert b[i - |a|] == (a + b)[i] && ack(attempt + |a| + (i - |a|));
      }
    }
    if AnsweredOffer(b, attempt + |a|, ack, self, p, k, e) {
      var i :| 0 <= i < |b| && b[i] == Outbound(p, PutRequest(self, k, e)) && ack(attempt + |a| + i);
      assert (a + b)[|a| + i] == b[i];
    }
    if AnsweredOffer(a, attempt, ack, self, p, k, e) {
      var i :| 0 <= i < |a| && a[i] == Outbound(p, PutRequest(self, k, e)) && ack(attempt + i);
      assert (a + b)[i] == a[i];
    }
  }

  /** A drain of `peer` that keeps the key `k` holds no answered offer of
      `k`'s hint, and a drain that drops it holds one; a drain offers
      nothing to any other peer. */
  lemma DrainAnsweredOffers(self: string, peer: string, order: seq<int>, hints: map<int, Entry>,
                            ack: nat -> bool, attempt: nat)
    requires forall k :: k in hints ==> k in order
    ensures var d := DrainPeer(self, peer, order, hints, ack, attempt);
      && d.attempts == attempt + |d.sent|
      && d.remaining.Keys <= hints.Keys
      && (forall k :: k in d.remaining ==> d.remaining[k] == hints[k])
      && (forall k :: k in hints ==>
            (k !in d.remaining <==> AnsweredOffer(d.sent, attempt, ack, self, peer, k, hints[k])))
      && (forall q, k, e :: q != peer ==> !AnsweredOffer(d.sent, attempt, ack, self, q, k, e))
  {
    var d := DrainPeer(self, peer, order, hints, ack, attempt);
    DrainShape(self, peer, order, hints, 0, ack, attempt);
    DrainPeerEffect(self, peer, order, hints, ack, attempt);
    forall k | k in hints
      ensures k !in d.remaining <==> AnsweredOffer(d.sent, attempt, ack, self, peer, k, hints[k])
    {
      if k !in d.remaining {
        var j :| Offered(d, self, peer, attempt, j, k, hints[k]) && ack(j);
        assert d.sent[j - attempt] == Outbound(peer, PutRequest(self, k, hints[k])) && ack(attempt + (j - attempt));
      }
    }
  }

  /**
   * The per-hint account of the whole end-of-request loop: a buffered
   * hint is gone afterwards exactly when a PUT of it to its peer was
   * answered, so a hint whose delivery was refused or failed is never
   * lost. Attempts are numbered consecutively, one per message sent.
   */
  lemma {:induction false} HandOffAccounts(self: string, hints: Hints, available: seq<string>, handoff: bool,
                                           order: string -> seq<int>, ack: nat -> bool, attempt: nat)
    requires forall p, k :: p in hints && k in hints[p] ==> k in order(p)
    ensures var h := HandOff(self, hints, available, handoff, order, ack, attempt);
      && h.attempts == attempt + |h.sent|
      && (forall p, k :: p in hints && k in hints[p] ==>
            (!Held(h, p, k) <==> AnsweredOffer(h.sent, attempt, ack, self, p, k, hints[p][k])))
    decreases |available|
  {
    var h := HandOff(self, hints, available, handoff, order, ack, attempt);
    if available == [] {
      assert h == HandedOff(hints, [], attempt);
    } else {
      var p := available[0];
      if p in hints && handoff {
        var d := DrainPeer(self, p, order(p), hints[p], ack, attempt);
        DrainAnsweredOffers(self, p, order(p), hints[p], ack, attempt);
        var hints' := if d.remaining == map[] then hints - {p} else hints[p := d.remaining];
        HandOffAccounts(self, hints', available[1..], handoff, order, ack, d.attempts);
        HandOffShrinks(self, hints', available[1..], handoff, order, ack, d.attempts);
        var rest := HandOff(self, hints', available[1..], handoff, order, ack, d.attempts);
        assert h.hints == rest.hints && h.sent == d.sent + rest.sent && h.attempts == rest.attempts;
        forall q, k | q in hints && k in hints[q]
          ensures !Held(h, q, k) <==> AnsweredOffer(h.sent, attempt, ack, self, q, k, hints[q][k])
        {
          AnsweredOfferAppend(d.sent, rest.sent, attempt, ack, self, q, k, hints[q][k]);
          if q != p {
            assert q in hints' && hints'[q] == hints[q];
          } else if k in d.remaining {
            assert q in hints' && hints'[q] == d.remaining;
          } else {
            assert !Held(rest, q, k);
          }
        }
      } else {
        HandOffAccounts(self, hints, available[1..], handoff, order, ack, attempt);
      }
    }
  }

  /** When every delivery is answered, hinted handoff empties the buffer of
      every peer it heard from. */
  lemma {:induction false} HandOffDelivers(self: string, hints: Hints, available: seq<string>,
                                           order: string -> seq<int>, ack: nat -> bool, attempt: nat)
    requires forall p :: p in hints ==> forall k :: k in hints[p] ==> k in order(p)
    requires forall n :: ack(n)
    ensures var h := HandOff(self, hints, available, true, order, ack, attempt);
      forall p :: p in available ==> p !in h.hints
    decreases |available|
  {
    if available != [] {
      var p := available[0];
      var hints' := hints;
      var next := attempt;
      if p in hints {
        var d := DrainPeer(self, p, order(p), hints[p], ack, attempt);
        assert order(p)[0..] == order(p);
        DrainAllAnswered(self, p, order(p), hints[p], 0, ack, attempt);
        hints' := hints - {p};
        next := d.attempts;
      }
      HandOffDelivers(self, hints', available[1..], order, ack, next);
      HandOffShrinks(self, hints', available[1..], true, order, ack, next);
    }
  }
}
