/**
 * Properties of the reconciliation tracker that relate several operations: the registration
 * lifecycle, fanout selection, the round-robin scheduler and the request builder. The
 * `...Scenario` methods replay the unit tests of src/test/txreconciliation_tests.cpp step by
 * step and state the results those tests expect.
 */
module TrackerProperties {
  import opened Common
  import opened Wrappers
  import opened Tracker

  /** A stand-in for the salt hasher; registration outcomes do not depend on it. */
  function TestSaltHash(a: nat, b: nat): nat { a + b }

  // ---------------------------------------------------------------------------
  // Lifecycle

  /** Registration needs a live pre-registration: a pre-registered then forgotten peer is NOT_FOUND. */
  lemma ForgottenPreRegistrationNotFound(t: TxReconciliationTracker, peer: PeerId, freshSalt: nat,
                                         isPeerInbound: bool, version: nat, remoteSalt: nat, hash: Salt.SaltHasher)
    requires t.Valid() && peer !in t.peers && freshSalt < U64 - 1
    ensures var t1 := ForgetPeer(PreRegisterPeer(t, peer, freshSalt).1, peer);
            RegisterPeer(t1, peer, isPeerInbound, version, remoteSalt, hash).0 == NOT_FOUND
  {
  }

  /** A peer registers at most once: a second registration reports ALREADY_REGISTERED and changes nothing. */
  lemma RegisterOnlyOnce(t: TxReconciliationTracker, peer: PeerId, isPeerInbound: bool, version: nat,
                         remoteSalt: nat, hash: Salt.SaltHasher,
                         isPeerInbound': bool, version': nat, remoteSalt': nat)
    requires RegisterPeer(t, peer, isPeerInbound, version, remoteSalt, hash).0 == SUCCESS
    ensures var t1 := RegisterPeer(t, peer, isPeerInbound, version, remoteSalt, hash).1;
            RegisterPeer(t1, peer, isPeerInbound', version', remoteSalt', hash) == (ALREADY_REGISTERED, t1)
  {
  }

  /**
   * `IsPeerRegistered` across the lifecycle: false in NONE and PRE_REGISTERED, true after a
   * successful registration, false again after forgetting, after which pre-registration is
   * allowed anew.
   */
  lemma RegisteredOnlyBetweenRegisterAndForget(t: TxReconciliationTracker, peer: PeerId, freshSalt: nat,
                                               isPeerInbound: bool, version: nat, remoteSalt: nat,
                                               hash: Salt.SaltHasher)
    requires t.Valid() && peer !in t.peers && freshSalt < U64 - 1
    ensures !IsPeerRegistered(t, peer)
    ensures var t1 := PreRegisterPeer(t, peer, freshSalt).1;
            var r := RegisterPeer(t1, peer, isPeerInbound, version, remoteSalt, hash);
            && !IsPeerRegistered(t1, peer)
            && (r.0 == SUCCESS <==> version >= 1 && t.config.reconVersion >= 1)
            && (r.0 == SUCCESS ==> IsPeerRegistered(r.1, peer))
            && !IsPeerRegistered(ForgetPeer(r.1, peer), peer)
            && peer !in ForgetPeer(r.1, peer).peers
  {
  }

  /** Forgetting twice is the same as forgetting once. */
  lemma ForgetIdempotent(t: TxReconciliationTracker, peer: PeerId)
    ensures ForgetPeer(ForgetPeer(t, peer), peer) == ForgetPeer(t, peer)
  {
  }

  /** A version-0 registration is a protocol violation and leaves the peer pre-registered. */
  lemma VersionZeroRejected(t: TxReconciliationTracker, peer: PeerId, isPeerInbound: bool, remoteSalt: nat,
                            hash: Salt.SaltHasher)
    requires peer in t.peers && t.peers[peer].PreRegistered?
    ensures RegisterPeer(t, peer, isPeerInbound, 0, remoteSalt, hash) == (PROTOCOL_VIOLATION, t)
  {
  }

  // ---------------------------------------------------------------------------
  // Fanout

  /**
   * Both ends of a connection derive the same short-ID keys: each registers with its own
   * pre-registration salt as local and the other's as remote.
   */
  lemma BothEndsShareKeys(a: TxReconciliationTracker, peerA: PeerId, inboundA: bool, versionA: nat,
                          b: TxReconciliationTracker, peerB: PeerId, inboundB: bool, versionB: nat,
                          hash: Salt.SaltHasher)
    requires peerA in a.peers && a.peers[peerA].PreRegistered?
    requires peerB in b.peers && b.peers[peerB].PreRegistered?
    requires RegisterPeer(a, peerA, inboundA, versionA, b.peers[peerB].localSalt, hash).0 == SUCCESS
    requires RegisterPeer(b, peerB, inboundB, versionB, a.peers[peerA].localSalt, hash).0 == SUCCESS
    ensures var sa := RegisterPeer(a, peerA, inboundA, versionA, b.peers[peerB].localSalt, hash).1.peers[peerA].state;
            var sb := RegisterPeer(b, peerB, inboundB, versionB, a.peers[peerA].localSalt, hash).1.peers[peerB].state;
            sa.k0 == sb.k0 && sa.k1 == sb.k1
  {
    Salt.ComputeSaltSymmetric(a.peers[peerA].localSalt, b.peers[peerB].localSalt, hash);
  }

  /** One registered outbound peer gets every transaction, unless an outbound non-reconciling peer already did. */
  lemma SoleOutboundPeerFanout(t: TxReconciliationTracker, peer: PeerId, w: Wtxid, sip: Wtxid -> nat,
                               inboundsNonrcncl: nat)
    requires t.Valid()
    requires Class(t, false, t.order) == [peer]
    ensures ShouldFanoutTo(t, w, sip, peer, inboundsNonrcncl, 0)
    ensures !ShouldFanoutTo(t, w, sip, peer, inboundsNonrcncl, 1)
  {
    assert peer in Class(t, false, t.order);
  }

  /**
   * Thirty registered inbound peers: every transaction goes to exactly three of them, and to
   * none once four inbound non-reconciling peers relayed it.
   */
  lemma ThirtyInboundPeersFanout(t: TxReconciliationTracker, w: Wtxid, sip: Wtxid -> nat)
    requires t.Valid()
    requires |Class(t, true, t.order)| == 30
    ensures var cls := Class(t, true, t.order);
            && FanoutCount(t, w, sip, 0, 0, cls) == 3
            && FanoutCount(t, w, sip, 4, 0, cls) == 0
  {
    FanoutExactCount(t, w, sip, 0, 0, true);
    FanoutExactCount(t, w, sip, 4, 0, true);
  }

  // ---------------------------------------------------------------------------
  // Scheduler and request builder

  /** Of two outbound peers registered on an empty queue, only the earlier one can be next. */
  lemma EarlierRegisteredIsNextFirst(t: TxReconciliationTracker, a: PeerId, b: PeerId, hash: Salt.SaltHasher,
                                     now: int)
    requires t.Valid() && t.queue == []
    requires a != b && a in t.peers && t.peers[a].PreRegistered? && b in t.peers && t.peers[b].PreRegistered?
    requires t.config.reconVersion >= 1
    ensures var t1 := RegisterPeer(t, a, false, 1, 0, hash).1;
            var t2 := RegisterPeer(t1, b, false, 1, 0, hash).1;
            && t2.queue == [a, b]
            && !IsPeerNextToReconcileWith(t2, b, now).0
            && (IsPeerNextToReconcileWith(t2, a, now).0 <==> now >= t.nextAt)
  {
  }

  /** A picked peer goes to the back of the queue: with others queued it cannot be picked again straight away. */
  lemma PickedPeerWaitsForItsTurn(t: TxReconciliationTracker, peer: PeerId, now: int, later: int)
    requires t.Valid() && |t.queue| >= 2
    requires IsPeerNextToReconcileWith(t, peer, now).0
    ensures !IsPeerNextToReconcileWith(IsPeerNextToReconcileWith(t, peer, now).1, peer, later).0
  {
    var t1 := IsPeerNextToReconcileWith(t, peer, now).1;
    assert t1.queue[0] == t.queue[1];
    assert t.queue[0] == peer;
  }

  /** A forgotten head is never next, and the peer behind it is exposed to the due check at once. */
  lemma ForgottenHeadDoesNotBlock(t: TxReconciliationTracker, p: PeerId, q: PeerId, now: int)
    requires t.Valid() && |t.queue| >= 2 && t.queue[0] == p && t.queue[1] == q
    ensures var t1 := ForgetPeer(t, p);
            && !IsPeerNextToReconcileWith(t1, p, now).0
            && (IsPeerNextToReconcileWith(t1, q, now).0 <==> now >= t.nextAt && !t.peers[q].state.inFlight)
  {
    var t1 := ForgetPeer(t, p);
    assert t.queue == [p] + t.queue[1..];
    assert t.queue[1..] == [q] + t.queue[2..];
    assert p !in t.queue[1..];
    assert Without(t.queue, p) == t.queue[1..];
    assert q in t.queue;
  }

  /** q is 0.25 in 15-bit fixed point, truncated: 8191, not the rounded 8192. */
  lemma QCoefficientTruncated()
    ensures RECON_Q_FORMATTED == 8191
    ensures 4 * RECON_Q_FORMATTED <= Q_PRECISION < 4 * (RECON_Q_FORMATTED + 1)
  {
  }

  /**
   * A request reports the pending-set size: three distinct transactions added to a fresh
   * registration give `(3, 8191)`.
   */
  lemma RequestReportsSetSize(t: TxReconciliationTracker, peer: PeerId, a: Wtxid, b: Wtxid, c: Wtxid)
    requires IsPeerRegistered(t, peer) && !t.peers[peer].state.inFlight
    requires t.peers[peer].state.localSet.GetSize() == 0
    requires t.config.setLimit >= 3
    requires a != b && b != c && a != c
    ensures var t1 := AddToSet(AddToSet(AddToSet(t, peer, a).1, peer, b).1, peer, c).1;
            InitiateReconciliationRequest(t1, peer).0 == Some((3, 8191))
  {
    var t1 := AddToSet(t, peer, a).1;
    var t2 := AddToSet(t1, peer, b).1;
    var t3 := AddToSet(t2, peer, c).1;
    assert t3.peers[peer].state.localSet.GetSize() == 3;
  }

  // ---------------------------------------------------------------------------
  // Unit-test scenarios

  /** RegisterPeerTest: version 0 rejected, versions 1 and 2 accepted, duplicates and unknown peers refused. */
  method RegisterPeerScenario() returns (outcomes: seq<ReconciliationRegisterResult>, registered: seq<bool>)
    ensures outcomes == [PROTOCOL_VIOLATION, SUCCESS, SUCCESS, SUCCESS, ALREADY_REGISTERED, NOT_FOUND]
    ensures registered == [false, true, true, true, false]
  {
    var t := NewTracker(Config(TXRECONCILIATION_VERSION, 100, 8));
    var r;
    t := PreRegisterPeer(t, 0, 11).1;
    r := RegisterPeer(t, 0, true, 0, 0, TestSaltHash);
    t := r.1;
    outcomes := [r.0];
    registered := [IsPeerRegistered(t, 0)];
    r := RegisterPeer(t, 0, true, 1, 0, TestSaltHash);
    t := r.1;
    outcomes := outcomes + [r.0];
    registered := registered + [IsPeerRegistered(t, 0)];
    t := PreRegisterPeer(t, 1, 12).1;
    r := RegisterPeer(t, 1, false, 1, 0, TestSaltHash);
    t := r.1;
    outcomes := outcomes + [r.0];
    registered := registered + [IsPeerRegistered(t, 1)];
    t := PreRegisterPeer(t, 2, 13).1;
    r := RegisterPeer(t, 2, true, 2, 0, TestSaltHash);
    t := r.1;
    outcomes := outcomes + [r.0];
    registered := registered + [IsPeerRegistered(t, 2)];
    r := RegisterPeer(t, 1, false, 1, 0, TestSaltHash);
    t := r.1;
    outcomes := outcomes + [r.0];
    r := RegisterPeer(t, 100, true, 1, 0, TestSaltHash);
    t := r.1;
    outcomes := outcomes + [r.0];
    registered := registered + [IsPeerRegistered(t, 100)];
  }

  /**
   * The scheduler-relevant state of a tracker whose peers are all registered, outbound and
   * queued: the queue, the gate and which peers have a round in flight.
   */
  ghost predicate SchedulerAt(t: TxReconciliationTracker, queue: seq<PeerId>, nextAt: int, inFlight: set<PeerId>)
  {
    && t.Valid()
    && t.config.reconVersion >= 1
    && t.queue == queue && t.nextAt == nextAt
    && t.peers.Keys == Elements(queue)
    && (forall p :: p in t.peers ==> t.peers[p].Registered? && !t.peers[p].state.isInbound)
    && (forall p :: p in t.peers ==> (t.peers[p].state.inFlight <==> p in inFlight))
  }

  /** Number of entries of `qs` without a round in flight. */
  function NotInFlight(qs: seq<PeerId>, inFlight: set<PeerId>): (n: nat)
    ensures n <= |qs|
  {
    if |qs| == 0 then 0
    else NotInFlight(qs[..|qs| - 1], inFlight) + (if qs[|qs| - 1] in inFlight then 0 else 1)
  }

  lemma {:induction false} ActiveCountIsNotInFlight(t: TxReconciliationTracker, queue: seq<PeerId>,
                                                    inFlight: set<PeerId>, m: nat)
    requires SchedulerAt(t, queue, t.nextAt, inFlight) && m <= |queue|
    ensures ActiveCount(t, m) == NotInFlight(queue[..m], inFlight)
  {
    if m > 0 {
      ActiveCountIsNotInFlight(t, queue, inFlight, m - 1);
      assert queue[..m][..m - 1] == queue[..m - 1];
      assert queue[m - 1] in Elements(queue);
    }
  }

  /**
   * One due check in scheduler terms: only a due head without a round in flight is picked
   * and pushes the gate by the interval shared among the peers not in flight; a due head with
   * a round in flight is moved back; anything else leaves the tracker as it was.
   */
  lemma DueCheckStep(t: TxReconciliationTracker, queue: seq<PeerId>, nextAt: int, inFlight: set<PeerId>,
                     peer: PeerId, now: int)
    requires SchedulerAt(t, queue, nextAt, inFlight)
    ensures var r := IsPeerNextToReconcileWith(t, peer, now);
            var due := |queue| > 0 && queue[0] == peer && now >= nextAt;
            && (r.0 <==> due && peer !in inFlight)
            && (!due ==> r.1 == t)
            && (due && peer in inFlight ==> SchedulerAt(r.1, queue[1..] + [peer], nextAt, inFlight))
            && (r.0 ==> SchedulerAt(r.1, queue[1..] + [peer],
                                    now + t.config.reconInterval / Max(1, NotInFlight(queue, inFlight)), inFlight))
  {
    if |queue| > 0 && queue[0] == peer && now >= nextAt {
      assert queue[0] in Elements(queue);
      assert queue == [peer] + queue[1..];
      assert Elements(queue[1..] + [peer]) == Elements(queue);
      ActiveCountIsNotInFlight(t, queue, inFlight, |queue|);
      assert queue[..|queue|] == queue;
    }
  }

  /** A due check of a due head with no round in flight: it is picked and the gate moves on. */
  method PickStep(t: TxReconciliationTracker, queue: seq<PeerId>, nextAt: int, inFlight: set<PeerId>, now: int,
                  queue': seq<PeerId>, nextAt': int)
    returns (picked: bool, t': TxReconciliationTracker)
    requires SchedulerAt(t, queue, nextAt, inFlight)
    requires |queue| > 0 && queue[0] !in inFlight && now >= nextAt
    requires queue' == queue[1..] + [queue[0]]
    requires nextAt' == now + t.config.reconInterval / Max(1, NotInFlight(queue, inFlight))
    ensures picked
    ensures SchedulerAt(t', queue', nextAt', inFlight) && t'.config == t.config
  {
    DueCheckStep(t, queue, nextAt, inFlight, queue[0], now);
    picked, t' := IsPeerNextToReconcileWith(t, queue[0], now).0, IsPeerNextToReconcileWith(t, queue[0], now).1;
  }

  /** A due check of a due head with a round in flight: not picked, moved to the back. */
  method SkipStep(t: TxReconciliationTracker, queue: seq<PeerId>, nextAt: int, inFlight: set<PeerId>, now: int,
                  queue': seq<PeerId>)
    returns (picked: bool, t': TxReconciliationTracker)
    requires SchedulerAt(t, queue, nextAt, inFlight)
    requires |queue| > 0 && queue[0] in inFlight && now >= nextAt && queue' == queue[1..] + [queue[0]]
    ensures !picked
    ensures SchedulerAt(t', queue', nextAt, inFlight) && t'.config == t.config
  {
    DueCheckStep(t, queue, nextAt, inFlight, queue[0], now);
    picked, t' := IsPeerNextToReconcileWith(t, queue[0], now).0, IsPeerNextToReconcileWith(t, queue[0], now).1;
  }

  /** A due check of a peer that is not the head, or before the gate: not picked, nothing changes. */
  method WaitStep(t: TxReconciliationTracker, queue: seq<PeerId>, nextAt: int, inFlight: set<PeerId>,
                  peer: PeerId, now: int)
    returns (picked: bool)
    requires SchedulerAt(t, queue, nextAt, inFlight)
    requires |queue| == 0 || queue[0] != peer || now < nextAt
    ensures !picked
    ensures IsPeerNextToReconcileWith(t, peer, now).1 == t
  {
    DueCheckStep(t, queue, nextAt, inFlight, peer, now);
    picked := IsPeerNextToReconcileWith(t, peer, now).0;
  }

  /** Pre-registering and registering a fresh outbound peer appends it to the queue, not in flight. */
  method RegisterOutboundStep(t: TxReconciliationTracker, queue: seq<PeerId>, nextAt: int, inFlight: set<PeerId>,
                              peer: PeerId, freshSalt: nat, remoteSalt: nat)
    returns (t': TxReconciliationTracker)
    requires SchedulerAt(t, queue, nextAt, inFlight) && peer !in queue && freshSalt < U64 - 1
    ensures SchedulerAt(t', queue + [peer], nextAt, inFlight - {peer}) && t'.config == t.config
  {
    assert Elements(queue + [peer]) == Elements(queue) + {peer};
    t' := RegisterPeer(PreRegisterPeer(t, peer, freshSalt).1, peer, false, 1, remoteSalt, TestSaltHash).1;
  }

  /** Starting a round with a queued peer marks it in flight and leaves the queue and the gate alone. */
  method InitiateStep(t: TxReconciliationTracker, queue: seq<PeerId>, nextAt: int, inFlight: set<PeerId>,
                      peer: PeerId)
    returns (t': TxReconciliationTracker)
    requires SchedulerAt(t, queue, nextAt, inFlight) && peer in queue && peer !in inFlight
    ensures var r := InitiateReconciliationRequest(t, peer);
            r.0.Some? && r.1 == t'
    ensures SchedulerAt(t', queue, nextAt, inFlight + {peer}) && t'.config == t.config
  {
    assert peer in Elements(queue);
    t' := InitiateReconciliationRequest(t, peer).1;
  }

  /** Forgetting a peer drops it from the queue and nothing else. */
  method ForgetStep(t: TxReconciliationTracker, queue: seq<PeerId>, nextAt: int, inFlight: set<PeerId>,
                    peer: PeerId)
    returns (t': TxReconciliationTracker)
    requires SchedulerAt(t, queue, nextAt, inFlight)
    ensures t' == ForgetPeer(t, peer)
    ensures SchedulerAt(t', Without(queue, peer), nextAt, inFlight - {peer}) && t'.config == t.config
  {
    t' := ForgetPeer(t, peer);
  }

  /** IsPeerNextToReconcileWith test, one peer: never next before registration. */
  method SchedulerBeforeRegistration() returns (observed: seq<bool>, t: TxReconciliationTracker)
    ensures observed == [false, false]
    ensures SchedulerAt(t, [0], 0, {}) && t.config.reconInterval == 8
  {
    t := NewTracker(Config(TXRECONCILIATION_VERSION, 100, 8));
    assert SchedulerAt(t, [], 0, {});
    var b1 := WaitStep(t, [], 0, {}, 0, 1);
    var b2 := IsPeerNextToReconcileWith(PreRegisterPeer(t, 0, 11).1, 0, 1).0;
    t := RegisterOutboundStep(t, [], 0, {}, 0, 11, 1);
    assert {} - {0} == {};
    observed := [b1, b2];
  }

  /** One registered peer: picked at 1 s, not at 8 s, again at 10 s (interval 8 s); then forgotten. */
  method SchedulerSinglePeer(t0: TxReconciliationTracker) returns (observed: seq<bool>, t: TxReconciliationTracker)
    requires SchedulerAt(t0, [0], 0, {}) && t0.config.reconInterval == 8
    ensures observed == [true, false, true]
    ensures SchedulerAt(t, [], 18, {}) && t.config.reconInterval == 8
  {
    assert [0][1..] + [0] == [0] && NotInFlight([0], {}) == 1;
    var b1; b1, t := PickStep(t0, [0], 0, {}, 1, [0], 9);
    var b2 := WaitStep(t, [0], 9, {}, 0, 8);
    var b3; b3, t := PickStep(t, [0], 9, {}, 10, [0], 18);
    t := ForgetStep(t, [0], 18, {}, 0);
    observed := [b1, b2, b3];
  }

  /** Two outbound peers registered in order 1, 2 on an empty queue are queued in that order. */
  method SchedulerTwoPeersRegister(t0: TxReconciliationTracker) returns (t: TxReconciliationTracker)
    requires SchedulerAt(t0, [], t0.nextAt, {}) && t0.config.reconInterval == 8
    ensures SchedulerAt(t, [1, 2], t0.nextAt, {}) && t.config.reconInterval == 8
  {
    t := RegisterOutboundStep(t0, [], t0.nextAt, {}, 1, 12, 1);
    assert [] + [1] == [1] && {} - {1} == {};
    t := RegisterOutboundStep(t, [1], t0.nextAt, {}, 2, 13, 1);
    assert [1] + [2] == [1, 2] && {} - {2} == {};
  }

  /**
   * Two peers alternate on a 4 s gate (the 8 s interval halved): peer 1 at 100 s, peer 2 not
   * at 100 s but at 105 s, peer 1 not at 108 s but at 110 s, peer 2 not at 113 s.
   */
  method SchedulerTwoPeersAlternate(t0: TxReconciliationTracker) returns (observed: seq<bool>, t: TxReconciliationTracker)
    requires SchedulerAt(t0, [1, 2], t0.nextAt, {}) && t0.nextAt <= 100 && t0.config.reconInterval == 8
    ensures observed == [true, false, true, false, true, false]
    ensures SchedulerAt(t, [2, 1], 114, {}) && t.config.reconInterval == 8
  {
    assert [1, 2][1..] + [1] == [2, 1] && [2, 1][1..] + [2] == [1, 2];
    assert NotInFlight([1, 2], {}) == 2 && NotInFlight([2, 1], {}) == 2;
    var b1; b1, t := PickStep(t0, [1, 2], t0.nextAt, {}, 100, [2, 1], 104);
    var b2 := WaitStep(t, [2, 1], 104, {}, 2, 100);
    var b3; b3, t := PickStep(t, [2, 1], 104, {}, 105, [1, 2], 109);
    var b4 := WaitStep(t, [1, 2], 109, {}, 1, 108);
    var b5; b5, t := PickStep(t, [1, 2], 109, {}, 110, [2, 1], 114);
    var b6 := WaitStep(t, [2, 1], 114, {}, 2, 113);
    observed := [b1, b2, b3, b4, b5, b6];
  }

  /**
   * A round starts with peer 2: peer 2 is skipped and moved back, and peer 1 alone shares
   * the interval (8 s gate).
   */
  method SchedulerSkipsInFlight(t0: TxReconciliationTracker) returns (observed: seq<bool>, t: TxReconciliationTracker)
    requires SchedulerAt(t0, [2, 1], 114, {}) && t0.config.reconInterval == 8
    ensures observed == [false, false, true]
    ensures SchedulerAt(t, [2, 1], 123, {2}) && t.config.reconInterval == 8
  {
    t := InitiateStep(t0, [2, 1], 114, {}, 2);
    assert [1, 2][1..] + [1] == [2, 1] && [2, 1][1..] + [2] == [1, 2] && NotInFlight([1, 2], {2}) == 1;
    var b1 := WaitStep(t, [2, 1], 114, {2}, 1, 113);
    var b2; b2, t := SkipStep(t, [2, 1], 114, {2}, 115, [1, 2]);
    var b3; b3, t := PickStep(t, [1, 2], 114, {2}, 115, [2, 1], 123);
    observed := [b1, b2, b3];
  }

  /** The in-flight peer keeps being skipped; peer 1 is picked again once the gate passes. */
  method SchedulerSkipsInFlightAgain(t0: TxReconciliationTracker) returns (observed: seq<bool>, t: TxReconciliationTracker)
    requires SchedulerAt(t0, [2, 1], 123, {2}) && t0.config.reconInterval == 8
    ensures observed == [false, false, false, true]
    ensures SchedulerAt(t, [2, 1], 132, {2}) && t.config.reconInterval == 8
  {
    assert [1, 2][1..] + [1] == [2, 1] && [2, 1][1..] + [2] == [1, 2] && NotInFlight([1, 2], {2}) == 1;
    var b1 := WaitStep(t0, [2, 1], 123, {2}, 2, 120);
    var b2 := WaitStep(t0, [2, 1], 123, {2}, 1, 120);
    var b3; b3, t := SkipStep(t0, [2, 1], 123, {2}, 124, [1, 2]);
    var b4; b4, t := PickStep(t, [1, 2], 123, {2}, 124, [2, 1], 132);
    observed := [b1, b2, b3, b4];
  }

  /** Once peer 2 is forgotten, peer 1 is picked at once and peer 2 never is. */
  method SchedulerAfterForget(t0: TxReconciliationTracker) returns (observed: seq<bool>)
    requires SchedulerAt(t0, [2, 1], 132, {2}) && t0.config.reconInterval == 8
    ensures observed == [true, false]
  {
    var t := ForgetStep(t0, [2, 1], 132, {2}, 2);
    assert Without([2, 1], 2) == [1] && {2} - {2} == {} && [1][1..] + [1] == [1] && NotInFlight([1], {}) == 1;
    var b1; b1, t := PickStep(t, [1], 132, {}, 132, [1], 140);
    var b2 := WaitStep(t, [1], 140, {}, 2, 132);
    observed := [b1, b2];
  }

  /** The whole IsPeerNextToReconcileWith test, in order, its answers grouped by phase. */
  method SchedulerScenario() returns (observed: seq<seq<bool>>)
    ensures observed == [[false, false], [true, false, true],
                         [true, false, true, false, true, false],
                         [false, false, true], [false, false, false, true],
                         [true, false]]
  {
    var o1, t := SchedulerBeforeRegistration();
    var o2; o2, t := SchedulerSinglePeer(t);
    t := SchedulerTwoPeersRegister(t);
    var o4; o4, t := SchedulerTwoPeersAlternate(t);
    var o5; o5, t := SchedulerSkipsInFlight(t);
    var o6; o6, t := SchedulerSkipsInFlightAgain(t);
    var o7 := SchedulerAfterForget(t);
    observed := [o1, o2, o4, o5, o6, o7];
  }

  /** InitiateReconciliationRequest test, first half: none before registration, then `(0, 8191)`. */
  method RequestsAroundRegistration() returns (requests: seq<Option<(nat, nat)>>, t: TxReconciliationTracker)
    ensures requests == [None, None, Some((0, 8191))]
    ensures t.Valid() && IsPeerRegistered(t, 0) && t.peers[0].state.inFlight
    ensures t.config == Config(TXRECONCILIATION_VERSION, 100, 8)
  {
    t := NewTracker(Config(TXRECONCILIATION_VERSION, 100, 8));
    var r := InitiateReconciliationRequest(t, 0);
    requests := [r.0];
    t := PreRegisterPeer(t, 0, 11).1;
    r := InitiateReconciliationRequest(t, 0);
    requests := requests + [r.0];
    t := RegisterPeer(t, 0, false, 1, 1, TestSaltHash).1;
    r := InitiateReconciliationRequest(t, 0);
    t := r.1;
    requests := requests + [r.0];
  }

  /** Second half: after a fresh registration and three added transactions the request is `(3, 8191)`. */
  method RequestAfterThreeAdditions(t0: TxReconciliationTracker) returns (request: Option<(nat, nat)>)
    requires t0.Valid() && 0 in t0.peers
    requires t0.config == Config(TXRECONCILIATION_VERSION, 100, 8)
    ensures request == Some((3, 8191))
  {
    var t := ForgetPeer(t0, 0);
    t := PreRegisterPeer(t, 0, 12).1;
    t := RegisterPeer(t, 0, false, 1, 1, TestSaltHash).1;
    RequestReportsSetSize(t, 0, 1001, 1002, 1003);
    t := AddToSet(AddToSet(AddToSet(t, 0, 1001).1, 0, 1002).1, 0, 1003).1;
    request := InitiateReconciliationRequest(t, 0).0;
  }

  /** The whole InitiateReconciliationRequest test, in order. */
  method RequestScenario() returns (requests: seq<Option<(nat, nat)>>)
    ensures requests == [None, None, Some((0, 8191)), Some((3, 8191))]
  {
    var first, t := RequestsAroundRegistration();
    var last := RequestAfterThreeAdditions(t);
    requests := first + [last];
  }
}
