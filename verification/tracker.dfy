/**
 * The transaction-reconciliation tracker behind the interface of src/node/txreconciliation.h.
 *
 * One registry maps a peer to its lifecycle state: absent (NONE), pre-registered (local salt
 * generated) or registered (reconciliation state created). Registered peers keep a pending
 * set of wtxids. Peers we initiate with (outbound ones) wait in a FIFO queue; a single global
 * gate `nextAt` paces how often the head of the queue may start a round. The tracker is a
 * value: every operation returns the new tracker, so a query that returns only a result
 * cannot change the state.
 */
module Tracker {
  import opened Common
  import opened Wrappers
  import opened ReconSets
  import Salt
  import opened Selection

  /** Supported transaction reconciliation protocol version. */
  const TXRECONCILIATION_VERSION: nat := 1

  /** Fixed-point scale of the q-coefficient (15 bits). */
  const Q_PRECISION: nat := 32767
  /** `uint16_t(32767 * 0.25)`: q = 1/4, truncated (not rounded) to an integer. */
  const RECON_Q_FORMATTED: nat := Q_PRECISION / 4

  /** Per transaction, this many outbound reconciling peers receive a full announcement... */
  const OUTBOUND_FANOUT_TARGET: nat := 1
  /** ...and one in this many inbound reconciling peers. */
  const INBOUND_FANOUT_DIVISOR: nat := 10

  datatype ReconciliationRegisterResult = NOT_FOUND | SUCCESS | ALREADY_REGISTERED | PROTOCOL_VIOLATION

  /** State of a registered peer. */
  datatype ReconState = ReconState(
    isInbound: bool,
    k0: nat, k1: nat,               // short-ID salt words
    localSet: ReconciliationSet,
    inFlight: bool)                 // a round was initiated and has not been concluded
  {
    /** Roles follow the direction: we initiate with outbound peers only. */
    predicate WeInitiate() {
      !isInbound
    }
  }

  datatype PeerState = PreRegistered(localSalt: nat) | Registered(state: ReconState)

  /**
   * Construction parameters: our protocol version, the pending-set limit, and the
   * reconciliation interval shared out among the queued peers.
   */
  datatype Config = Config(reconVersion: nat, setLimit: nat, reconInterval: nat)

  datatype TxReconciliationTracker = TxReconciliationTracker(
    config: Config,
    peers: map<PeerId, PeerState>,
    order: seq<PeerId>,             // registered peers, in registration order
    queue: seq<PeerId>,             // registered peers we initiate with, head first
    nextAt: int)                    // earliest time the head of the queue may be picked
  {
    ghost predicate Valid() {
      && Distinct(order)
      && (forall p :: p in order <==> p in peers && peers[p].Registered?)
      && Distinct(queue)
      && (forall p :: p in queue <==> p in peers && peers[p].Registered? && peers[p].state.WeInitiate())
    }
  }

  function NewTracker(config: Config): (t: TxReconciliationTracker)
    ensures t.Valid()
    ensures forall p :: !IsPeerRegistered(t, p) && p !in t.peers
  {
    TxReconciliationTracker(config, map[], [], [], 0)
  }

  /**
   * True exactly in the REGISTERED state; in a valid tracker that is exactly the peers in the
   * registration order.
   */
  function IsPeerRegistered(t: TxReconciliationTracker, peer: PeerId): (r: bool)
    ensures r ==> peer in t.peers && !t.peers[peer].PreRegistered?
    ensures t.Valid() ==> (r <==> peer in t.order)
  {
    peer in t.peers && t.peers[peer].Registered?
  }

  // ---------------------------------------------------------------------------
  // Registry

  /**
   * Step 0: stores the freshly generated local salt (`freshSalt`, a random 64-bit value) and
   * returns it. Must be called only once per peer, hence only for a peer not tracked yet.
   */
  function PreRegisterPeer(t: TxReconciliationTracker, peer: PeerId, freshSalt: nat): (r: (nat, TxReconciliationTracker))
    requires peer !in t.peers
    requires freshSalt < U64 - 1
    ensures r.0 == freshSalt
    ensures r.1.peers == t.peers[peer := PreRegistered(freshSalt)]
    ensures r.1.order == t.order && r.1.queue == t.queue && r.1.nextAt == t.nextAt && r.1.config == t.config
    ensures !IsPeerRegistered(r.1, peer)
    ensures t.Valid() ==> r.1.Valid()
  {
    (freshSalt, t.(peers := t.peers[peer := PreRegistered(freshSalt)]))
  }

  /**
   * Step 0, second half: the peer agreed to reconcile. Succeeds only for a pre-registered
   * peer offering a version of at least 1 (a higher one is downgraded to ours). Every other
   * outcome leaves the tracker unchanged.
   */
  function RegisterPeer(t: TxReconciliationTracker, peer: PeerId, isPeerInbound: bool,
                        peerReconVersion: nat, remoteSalt: nat, hash: Salt.SaltHasher)
    : (r: (ReconciliationRegisterResult, TxReconciliationTracker))
    ensures r.0 != SUCCESS ==> r.1 == t
    ensures r.1.config == t.config
    ensures r.0 == NOT_FOUND <==> peer !in t.peers
    ensures r.0 == ALREADY_REGISTERED <==> IsPeerRegistered(t, peer)
    ensures r.0 == PROTOCOL_VIOLATION <==>
              peer in t.peers && t.peers[peer].PreRegistered? && Min(peerReconVersion, t.config.reconVersion) < 1
    ensures r.0 == SUCCESS <==>
              peer in t.peers && t.peers[peer].PreRegistered? && Min(peerReconVersion, t.config.reconVersion) >= 1
    ensures r.0 == SUCCESS ==>
              && IsPeerRegistered(r.1, peer)
              && r.1.peers[peer].state.isInbound == isPeerInbound
              && r.1.peers[peer].state.localSet.GetSize() == 0
              && !r.1.peers[peer].state.inFlight
              && t.peers[peer].PreRegistered?
              && r.1.peers[peer].state.k0 == Salt.Uint64Word(Salt.ComputeSalt(t.peers[peer].localSalt, remoteSalt, hash), 0)
              && r.1.peers[peer].state.k1 == Salt.Uint64Word(Salt.ComputeSalt(t.peers[peer].localSalt, remoteSalt, hash), 1)
              && r.1.peers.Keys == t.peers.Keys
              && (forall p :: p in t.peers && p != peer ==> r.1.peers[p] == t.peers[p])
              && r.1.order == t.order + [peer]
              && r.1.queue == t.queue + (if isPeerInbound then [] else [peer])
              && r.1.nextAt == t.nextAt
    ensures t.Valid() ==> r.1.Valid()
  {
    if peer !in t.peers then (NOT_FOUND, t)
    else match t.peers[peer]
      case Registered(_) => (ALREADY_REGISTERED, t)
      case PreRegistered(localSalt) =>
        if Min(peerReconVersion, t.config.reconVersion) < 1 then (PROTOCOL_VIOLATION, t)
        else
          var fullSalt := Salt.ComputeSalt(localSalt, remoteSalt, hash);
          var state := ReconState(isPeerInbound, Salt.Uint64Word(fullSalt, 0), Salt.Uint64Word(fullSalt, 1),
                                  EmptySet, false);
          (SUCCESS, t.(peers := t.peers[peer := Registered(state)],
                       order := t.order + [peer],
                       queue := t.queue + (if isPeerInbound then [] else [peer])))
  }

  /** Drops everything known about the peer, in whatever state it is; safe on any id. */
  function ForgetPeer(t: TxReconciliationTracker, peer: PeerId): (r: TxReconciliationTracker)
    ensures peer !in r.peers && !IsPeerRegistered(r, peer)
    ensures r.peers == t.peers - {peer}
    ensures r.order == Without(t.order, peer) && r.queue == Without(t.queue, peer)
    ensures r.nextAt == t.nextAt && r.config == t.config
    ensures peer !in t.peers && t.Valid() ==> r == t
    ensures t.Valid() ==> r.Valid()
  {
    assert t.Valid() ==> Distinct(Without(t.order, peer)) && Distinct(Without(t.queue, peer)) by {
      if t.Valid() {
        WithoutDistinct(t.order, peer);
        WithoutDistinct(t.queue, peer);
      }
    }
    t.(peers := t.peers - {peer}, order := Without(t.order, peer), queue := Without(t.queue, peer))
  }

  /** Replaces the state of a registered peer, keeping its direction. */
  function WithState(t: TxReconciliationTracker, peer: PeerId, s: ReconState): (r: TxReconciliationTracker)
    requires IsPeerRegistered(t, peer)
    requires s.isInbound == t.peers[peer].state.isInbound
    ensures r.peers == t.peers[peer := Registered(s)]
    ensures r.order == t.order && r.queue == t.queue && r.nextAt == t.nextAt && r.config == t.config
    ensures t.Valid() ==> r.Valid()
  {
    t.(peers := t.peers[peer := Registered(s)])
  }

  // ---------------------------------------------------------------------------
  // Pending set

  /**
   * Step 1: queues `w` for the next reconciliation with the peer, unless the peer is not
   * registered, already has it, or its set reached the limit. Returns whether it was added.
   */
  function AddToSet(t: TxReconciliationTracker, peer: PeerId, w: Wtxid): (r: (bool, TxReconciliationTracker))
    ensures !IsPeerRegistered(t, peer) ==> !r.0
    ensures IsPeerRegistered(t, peer) ==>
              (r.0 <==> w !in t.peers[peer].state.localSet.wtxids
                        && t.peers[peer].state.localSet.GetSize() < t.config.setLimit)
    ensures !r.0 ==> r.1 == t
    ensures r.0 ==> && IsPeerRegistered(r.1, peer)
                    && r.1.peers[peer].state.localSet.wtxids == t.peers[peer].state.localSet.wtxids + {w}
                    && r.1.peers[peer].state.localSet.GetSize() == t.peers[peer].state.localSet.GetSize() + 1
                    && r.1.peers[peer].state.localSet.GetSize() <= t.config.setLimit
                    && r.1.peers[peer].state == t.peers[peer].state.(localSet := r.1.peers[peer].state.localSet)
                    && (forall p :: p != peer ==> (p in r.1.peers <==> p in t.peers))
                    && (forall p :: p in t.peers && p != peer ==> r.1.peers[p] == t.peers[p])
                    && r.1.order == t.order && r.1.queue == t.queue && r.1.nextAt == t.nextAt
                    && r.1.config == t.config
    ensures t.Valid() ==> r.1.Valid()
  {
    if !IsPeerRegistered(t, peer) then (false, t)
    else
      var s := t.peers[peer].state;
      if s.localSet.GetSize() >= t.config.setLimit then (false, t)
      else
        var insertion := s.localSet.Insert(w);
        if !insertion.0 then (false, t)
        else (true, WithState(t, peer, s.(localSet := insertion.1)))
  }

  /**
   * Removes `w` from the pending set of a registered peer (the caller must check
   * registration). Returns whether it was there.
   */
  function TryRemovingFromSet(t: TxReconciliationTracker, peer: PeerId, w: Wtxid): (r: (bool, TxReconciliationTracker))
    requires IsPeerRegistered(t, peer)
    ensures r.0 <==> w in t.peers[peer].state.localSet.wtxids
    ensures IsPeerRegistered(r.1, peer)
    ensures r.1.peers[peer].state.localSet.wtxids == t.peers[peer].state.localSet.wtxids - {w}
    ensures r.1.peers[peer].state.localSet.GetSize() ==
              t.peers[peer].state.localSet.GetSize() - (if r.0 then 1 else 0)
    ensures r.1.peers[peer].state == t.peers[peer].state.(localSet := r.1.peers[peer].state.localSet)
    ensures r.1.peers.Keys == t.peers.Keys
    ensures forall p :: p in t.peers && p != peer ==> r.1.peers[p] == t.peers[p]
    ensures r.1.order == t.order && r.1.queue == t.queue && r.1.nextAt == t.nextAt && r.1.config == t.config
    ensures t.Valid() ==> r.1.Valid()
  {
    var s := t.peers[peer].state;
    var erasure := s.localSet.Erase(w);
    (erasure.0, WithState(t, peer, s.(localSet := erasure.1)))
  }

  // ---------------------------------------------------------------------------
  // Scheduler and request builder

  /** Number of queued peers with no round in flight; they share the reconciliation interval. */
  function ActiveCount(t: TxReconciliationTracker, m: nat): (n: nat)
    requires m <= |t.queue|
    ensures n <= m
  {
    if m == 0 then 0
    else
      var p := t.queue[m - 1];
      var active := p in t.peers && t.peers[p].Registered? && !t.peers[p].state.inFlight;
      ActiveCount(t, m - 1) + (if active then 1 else 0)
  }

  /** Time between two picks: the interval divided among the active queued peers. */
  function PickDelay(t: TxReconciliationTracker): (d: nat)
    ensures d <= t.config.reconInterval
  {
    DivIsAtMost(t.config.reconInterval, Max(1, ActiveCount(t, |t.queue|)));
    t.config.reconInterval / Max(1, ActiveCount(t, |t.queue|))
  }

  /**
   * Whether it is time to initiate a round with the peer. Only the head of the queue can be
   * picked, and only once the global gate has passed. A head whose previous round is still
   * in flight is not picked but moved to the tail, so that it does not hold up the rest of
   * the queue. A picked head moves to the tail too, and the gate is pushed `PickDelay` ahead.
   */
  function IsPeerNextToReconcileWith(t: TxReconciliationTracker, peer: PeerId, now: int)
    : (r: (bool, TxReconciliationTracker))
    ensures r.0 <==> && IsPeerRegistered(t, peer) && t.peers[peer].state.WeInitiate()
                     && |t.queue| > 0 && t.queue[0] == peer
                     && now >= t.nextAt
                     && !t.peers[peer].state.inFlight
    ensures r.1.peers == t.peers && r.1.order == t.order && r.1.config == t.config
    ensures r.1.queue == t.queue || (|t.queue| > 0 && r.1.queue == t.queue[1..] + [t.queue[0]])
    ensures r.0 ==> r.1.queue == t.queue[1..] + [peer] && now <= r.1.nextAt <= now + t.config.reconInterval
    ensures !r.0 ==> r.1.nextAt == t.nextAt
    ensures t.Valid() ==> r.1.Valid()
  {
    if !IsPeerRegistered(t, peer) || !t.peers[peer].state.WeInitiate() then (false, t)
    else if |t.queue| == 0 || t.queue[0] != peer || now < t.nextAt then (false, t)
    else
      var rotated := t.queue[1..] + [peer];
      assert t.Valid() ==> Distinct(rotated) by {
        if t.Valid() {
          assert t.queue == [peer] + t.queue[1..];
          forall i, j | 0 <= i < j < |rotated| ensures rotated[i] != rotated[j] {
            if j == |rotated| - 1 {
              assert rotated[i] == t.queue[i + 1];
            }
          }
        }
      }
      assert forall p :: p in rotated <==> p in t.queue by {
        assert t.queue == [peer] + t.queue[1..];
      }
      if t.peers[peer].state.inFlight then (false, t.(queue := rotated))
      else (true, t.(queue := rotated, nextAt := now + PickDelay(t)))
  }

  /**
   * Step 2: unless the peer is unregistered or its previous round is unfinished, starts a
   * round and returns the pair sent to the peer: our pending-set size and the q-coefficient,
   * both as `uint16` values.
   */
  function InitiateReconciliationRequest(t: TxReconciliationTracker, peer: PeerId)
    : (r: (Option<(nat, nat)>, TxReconciliationTracker))
    ensures r.0.None? <==> !IsPeerRegistered(t, peer) || t.peers[peer].state.inFlight
    ensures r.0.None? ==> r.1 == t
    ensures r.0.Some? ==>
              && r.0.value.0 < U16 && r.0.value.1 < U16
              && r.0.value.0 == t.peers[peer].state.localSet.GetSize() % U16
              && r.0.value.1 == RECON_Q_FORMATTED
              && IsPeerRegistered(r.1, peer) && r.1.peers[peer].state.inFlight
              && r.1.peers[peer].state.localSet == t.peers[peer].state.localSet
              && r.1.peers.Keys == t.peers.Keys
              && (forall p :: p in t.peers && p != peer ==> r.1.peers[p] == t.peers[p])
              && r.1.order == t.order && r.1.queue == t.queue && r.1.nextAt == t.nextAt
    ensures t.Valid() ==> r.1.Valid()
  {
    if !IsPeerRegistered(t, peer) then (None, t)
    else
      var s := t.peers[peer].state;
      if s.inFlight then (None, t)
      else (Some((s.localSet.GetSize() % U16, RECON_Q_FORMATTED)), WithState(t, peer, s.(inFlight := true)))
  }

  // ---------------------------------------------------------------------------
  // Fanout selection

  /** Registered peers of one direction, in registration order: the peer's rank is its index here. */
  function Class(t: TxReconciliationTracker, inbound: bool, order: seq<PeerId>): (cls: seq<PeerId>)
    ensures forall p :: p in cls <==> p in order && IsPeerRegistered(t, p) && t.peers[p].state.isInbound == inbound
    ensures Distinct(order) ==> Distinct(cls)
  {
    if |order| == 0 then []
    else
      var rest := Class(t, inbound, order[1..]);
      assert forall p :: p in order[1..] ==> p in order;
      var p := order[0];
      if IsPeerRegistered(t, p) && t.peers[p].state.isInbound == inbound then
        assert Distinct(order) ==> p !in order[1..];
        [p] + rest
      else rest
  }

  /** Target number of fanout peers in a class of `n` peers. */
  function FanoutTarget(inbound: bool, n: nat): (k: nat)
    ensures k <= Max(n, 1)
    ensures !inbound ==> k == OUTBOUND_FANOUT_TARGET
    ensures inbound ==> k * INBOUND_FANOUT_DIVISOR <= n < (k + 1) * INBOUND_FANOUT_DIVISOR
  {
    DivBounds(n, INBOUND_FANOUT_DIVISOR);
    if inbound then n / INBOUND_FANOUT_DIVISOR else OUTBOUND_FANOUT_TARGET
  }

  /** The class target reduced, saturating at zero, by the peers that already got the transaction outside reconciliation. */
  function EffectiveTarget(inbound: bool, n: nat, inboundsNonrcncl: nat, outboundsNonrcncl: nat): (k: nat)
    ensures k <= FanoutTarget(inbound, n)
    ensures var already := if inbound then inboundsNonrcncl else outboundsNonrcncl;
            already + k == Max(FanoutTarget(inbound, n), already)
  {
    var target := FanoutTarget(inbound, n);
    var already := if inbound then inboundsNonrcncl else outboundsNonrcncl;
    if target > already then target - already else 0
  }

  /**
   * Whether `w` goes to the peer by full announcement besides reconciliation. Peers that do
   * not reconcile always get it. Otherwise the peer is chosen when its rank in its direction
   * class lies in the cyclic window `[h mod N, h mod N + k)`, with `h` the keyed hash of `w`
   * (`sip`), `N` the class size and `k` the effective target.
   */
  function ShouldFanoutTo(t: TxReconciliationTracker, w: Wtxid, sip: Wtxid -> nat, peer: PeerId,
                          inboundsNonrcncl: nat, outboundsNonrcncl: nat): (fanout: bool)
    requires t.Valid()
    ensures !IsPeerRegistered(t, peer) ==> fanout
  {
    if !IsPeerRegistered(t, peer) then true
    else
      var inbound := t.peers[peer].state.isInbound;
      var cls := Class(t, inbound, t.order);
      var n := |cls|;
      var k := EffectiveTarget(inbound, n, inboundsNonrcncl, outboundsNonrcncl);
      InWindow(IndexOf(cls, peer), n, sip(w) % n, k)
  }

  /** The fanout decision for each peer of `cls`, in order. */
  function FanoutDecisions(t: TxReconciliationTracker, w: Wtxid, sip: Wtxid -> nat, inboundsNonrcncl: nat,
                           outboundsNonrcncl: nat, cls: seq<PeerId>): (flags: seq<bool>)
    requires t.Valid()
    ensures |flags| == |cls|
    ensures forall j :: 0 <= j < |cls| ==>
              flags[j] == ShouldFanoutTo(t, w, sip, cls[j], inboundsNonrcncl, outboundsNonrcncl)
  {
    seq(|cls|, j requires 0 <= j < |cls| => ShouldFanoutTo(t, w, sip, cls[j], inboundsNonrcncl, outboundsNonrcncl))
  }

  /** Number of peers of `cls` chosen for `w`. */
  function FanoutCount(t: TxReconciliationTracker, w: Wtxid, sip: Wtxid -> nat, inboundsNonrcncl: nat,
                       outboundsNonrcncl: nat, cls: seq<PeerId>): nat
    requires t.Valid()
  {
    CountTrue(FanoutDecisions(t, w, sip, inboundsNonrcncl, outboundsNonrcncl, cls), |cls|)
  }

  /** The peer of rank `j` in its class is chosen exactly when `j` lies in the class's window. */
  lemma FanoutToClassMember(t: TxReconciliationTracker, w: Wtxid, sip: Wtxid -> nat,
                            inboundsNonrcncl: nat, outboundsNonrcncl: nat, inbound: bool, j: nat)
    requires t.Valid()
    requires j < |Class(t, inbound, t.order)|
    ensures var cls := Class(t, inbound, t.order);
            var n := |cls|;
            ShouldFanoutTo(t, w, sip, cls[j], inboundsNonrcncl, outboundsNonrcncl) <==>
            InWindow(j, n, sip(w) % n, EffectiveTarget(inbound, n, inboundsNonrcncl, outboundsNonrcncl))
  {
    var cls := Class(t, inbound, t.order);
    assert cls[j] in cls;
    IndexOfDistinct(cls, j);
  }

  /** The chosen peers of a class are the ranks inside the cyclic window that starts at the hash. */
  lemma FanoutCountIsWindowCount(t: TxReconciliationTracker, w: Wtxid, sip: Wtxid -> nat,
                                 inboundsNonrcncl: nat, outboundsNonrcncl: nat, inbound: bool)
    requires t.Valid()
    requires |Class(t, inbound, t.order)| > 0
    ensures var cls := Class(t, inbound, t.order);
            var n := |cls|;
            FanoutCount(t, w, sip, inboundsNonrcncl, outboundsNonrcncl, cls) ==
            CountInWindow(n, n, sip(w) % n, EffectiveTarget(inbound, n, inboundsNonrcncl, outboundsNonrcncl))
  {
    var cls := Class(t, inbound, t.order);
    var n := |cls|;
    var k := EffectiveTarget(inbound, n, inboundsNonrcncl, outboundsNonrcncl);
    var flags := FanoutDecisions(t, w, sip, inboundsNonrcncl, outboundsNonrcncl, cls);
    forall j | 0 <= j < |flags| ensures flags[j] <==> InWindow(j, n, sip(w) % n, k) {
      FanoutToClassMember(t, w, sip, inboundsNonrcncl, outboundsNonrcncl, inbound, j);
    }
    CountTrueWindow(flags, n, n, sip(w) % n, k);
  }

  /**
   * Exactly `k` peers of a non-empty class are chosen for any transaction, `k` being the
   * effective target of the class: the selection neither over- nor under-shoots.
   */
  lemma FanoutExactCount(t: TxReconciliationTracker, w: Wtxid, sip: Wtxid -> nat,
                         inboundsNonrcncl: nat, outboundsNonrcncl: nat, inbound: bool)
    requires t.Valid()
    requires |Class(t, inbound, t.order)| > 0
    ensures var cls := Class(t, inbound, t.order);
            FanoutCount(t, w, sip, inboundsNonrcncl, outboundsNonrcncl, cls) ==
            EffectiveTarget(inbound, |cls|, inboundsNonrcncl, outboundsNonrcncl)
  {
    var cls := Class(t, inbound, t.order);
    var n := |cls|;
    FanoutCountIsWindowCount(t, w, sip, inboundsNonrcncl, outboundsNonrcncl, inbound);
    WindowExactCount(n, sip(w) % n, EffectiveTarget(inbound, n, inboundsNonrcncl, outboundsNonrcncl));
  }
}
