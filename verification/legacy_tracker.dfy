/**
 * The reconciliation tracker of src/txreconciliation.cpp: a map of per-peer local salts
 * (filled by `SuggestReconciling`) and a map of per-peer reconciliation states (filled by
 * `EnableReconciliationSupport`). The tracker is a value; every mutating operation returns
 * the new tracker, and queries take it by value, so they cannot change it.
 */
module LegacyTracker {
  import opened Common
  import opened Wrappers
  import opened ReconSets
  import Salt
  import Selection

  /** Current protocol version. */
  const RECON_VERSION: nat := 1
  /** Full-wtxid announcements go to a limited number of inbound and outbound peers. */
  const INBOUND_FANOUT_DESTINATIONS: nat := 2
  const OUTBOUND_FANOUT_DESTINATIONS: nat := 2

  /** Parameters and pending transactions of one registered peer. */
  datatype ReconciliationState = ReconciliationState(
    k0: nat, k1: nat,            // short-ID salt words
    weInitiate: bool,            // our role on this connection
    localSet: ReconciliationSet)

  datatype Tracker = Tracker(
    localSalts: map<PeerId, nat>,
    states: map<PeerId, ReconciliationState>)
  {
    /** A peer is registered only after its local salt was generated. */
    predicate Valid() {
      states.Keys <= localSalts.Keys
    }
  }

  const EmptyTracker: Tracker := Tracker(map[], map[])

  /** What `SuggestReconciling` hands to the handshake layer. */
  datatype Suggestion = Suggestion(weInitiate: bool, weRespond: bool, version: nat, localSalt: nat)

  /**
   * Generates and stores the local salt for a new peer; roles follow the connection
   * direction. `freshSalt` is the value of `GetRand(UINT64_MAX)`. The source asserts that
   * no salt was stored for the peer yet.
   */
  function SuggestReconciling(t: Tracker, peer: PeerId, inbound: bool, freshSalt: nat): (r: (Suggestion, Tracker))
    requires peer !in t.localSalts
    requires freshSalt < U64 - 1
    ensures r.0.weInitiate == !inbound && r.0.weRespond == inbound
    ensures r.0.version == RECON_VERSION && r.0.localSalt == freshSalt
    ensures peer in r.1.localSalts && r.1.localSalts[peer] == freshSalt
    ensures forall p :: p != peer ==> (p in r.1.localSalts <==> p in t.localSalts)
    ensures forall p :: p != peer && p in t.localSalts ==> r.1.localSalts[p] == t.localSalts[p]
    ensures r.1.states == t.states
    ensures t.Valid() ==> r.1.Valid()
  {
    var roles := if inbound then (false, true) else (true, false);
    (Suggestion(roles.0, roles.1, RECON_VERSION, freshSalt),
     t.(localSalts := t.localSalts[peer := freshSalt]))
  }

  /** Whether we initiate with the peer, from our direction and the peer's announced flags. */
  function WeInitiate(inbound: bool, theyMayRespond: bool): bool {
    var weMayInitiate := !inbound;
    weMayInitiate && theyMayRespond
  }

  /** Whether the peer initiates with us. */
  function TheyInitiate(inbound: bool, theyMayInitiate: bool): bool {
    var weMayRespond := inbound;
    theyMayInitiate && weMayRespond
  }

  /** The two roles never coincide: both depend on the one `inbound` flag. */
  lemma RolesExclusive(inbound: bool, theyMayInitiate: bool, theyMayRespond: bool)
    ensures !(TheyInitiate(inbound, theyMayInitiate) && WeInitiate(inbound, theyMayRespond))
  {
  }

  /** The version both sides speak: the peer's, downgraded to ours. */
  function NegotiatedVersion(reconVersion: nat): (v: nat)
    ensures v <= RECON_VERSION && v <= reconVersion
    ensures v == reconVersion || v == RECON_VERSION
  {
    Min(reconVersion, RECON_VERSION)
  }

  /**
   * Registers the peer once it agreed to reconcile. Returns false, and leaves the tracker
   * unchanged, on every protocol violation: a second registration, a version below 1, a
   * missing local salt, or a peer that announced neither role we can pair with.
   */
  function EnableReconciliationSupport(t: Tracker, peer: PeerId, inbound: bool,
                                       theyMayInitiate: bool, theyMayRespond: bool,
                                       reconVersion: nat, remoteSalt: nat,
                                       hash: Salt.SaltHasher): (r: (bool, Tracker))
    ensures !r.0 ==> r.1 == t
    ensures r.0 <==> && peer !in t.states
                     && reconVersion >= 1
                     && peer in t.localSalts
                     && ((inbound && theyMayInitiate) || (!inbound && theyMayRespond))
    ensures r.0 ==> && r.1.localSalts == t.localSalts
                    && r.1.states.Keys == t.states.Keys + {peer}
                    && (forall p :: p in t.states ==> r.1.states[p] == t.states[p])
                    && r.1.states[peer].weInitiate == (!inbound && theyMayRespond)
                    && r.1.states[peer].localSet.GetSize() == 0
                    && r.1.states[peer].k0 == Salt.Uint64Word(Salt.ComputeSalt(t.localSalts[peer], remoteSalt, hash), 0)
                    && r.1.states[peer].k1 == Salt.Uint64Word(Salt.ComputeSalt(t.localSalts[peer], remoteSalt, hash), 1)
    ensures t.Valid() ==> r.1.Valid()
  {
    if peer in t.states then (false, t)
    else
      var version := NegotiatedVersion(reconVersion);
      if version < 1 then (false, t)
      else if peer !in t.localSalts then (false, t)
      else
        var theyInitiate := TheyInitiate(inbound, theyMayInitiate);
        var weInitiate := WeInitiate(inbound, theyMayRespond);
        if !(theyInitiate || weInitiate) then (false, t)
        else
          var fullSalt := Salt.ComputeSalt(t.localSalts[peer], remoteSalt, hash);
          var state := ReconciliationState(Salt.Uint64Word(fullSalt, 0), Salt.Uint64Word(fullSalt, 1),
                                           weInitiate, EmptySet);
          (true, t.(states := t.states[peer := state]))
  }

  /** Replaces the pending set of a registered peer. */
  function WithLocalSet(t: Tracker, peer: PeerId, s: ReconciliationSet): (r: Tracker)
    requires peer in t.states
    ensures r.localSalts == t.localSalts && r.states.Keys == t.states.Keys
    ensures r.states[peer].localSet == s
    ensures r.states[peer] == t.states[peer].(localSet := s)
    ensures forall p :: p in t.states && p != peer ==> r.states[p] == t.states[p]
  {
    t.(states := t.states[peer := t.states[peer].(localSet := s)])
  }

  /** The insertion loop: inserts each wtxid of the batch and counts the new ones. */
  method InsertAll(s: ReconciliationSet, txs: seq<Wtxid>) returns (added: nat, s': ReconciliationSet)
    ensures s'.wtxids == s.wtxids + Elements(txs)
    ensures s'.GetSize() == s.GetSize() + added
    ensures added <= |txs|
  {
    s' := s;
    added := 0;
    var i := 0;
    while i < |txs|
      invariant i <= |txs|
      invariant added <= i
      invariant s'.wtxids == s.wtxids + Elements(txs[..i])
      invariant s'.GetSize() == s.GetSize() + added
    {
      var insertion := s'.Insert(txs[i]);
      s' := insertion.1;
      if insertion.0 {
        added := added + 1;
      }
      assert txs[..i + 1] == txs[..i] + [txs[i]];
      ElementsSnoc(txs[..i], txs[i]);
      i := i + 1;
    }
    assert txs[..i] == txs;
  }

  /**
   * Adds transactions to a registered peer's pending set. The source asserts the batch is
   * non-empty and the peer registered; `added` counts the wtxids that were new.
   */
  method AddToReconSet(t: Tracker, peer: PeerId, txs: seq<Wtxid>) returns (added: nat, t': Tracker)
    requires |txs| > 0
    requires peer in t.states
    ensures peer in t'.states
    ensures t'.states[peer].localSet.wtxids == t.states[peer].localSet.wtxids + Elements(txs)
    ensures t'.states[peer].localSet.GetSize() == t.states[peer].localSet.GetSize() + added
    ensures added <= |txs|
    ensures t'.states[peer] == t.states[peer].(localSet := t'.states[peer].localSet)
    ensures t'.localSalts == t.localSalts && t'.states.Keys == t.states.Keys
    ensures forall p :: p in t.states && p != peer ==> t'.states[p] == t.states[p]
    ensures t.Valid() ==> t'.Valid()
  {
    var s;
    added, s := InsertAll(t.states[peer].localSet, txs);
    t' := WithLocalSet(t, peer, s);
  }

  /** Drops a wtxid from the pending set; a peer that is not registered is ignored. */
  function TryRemovingFromReconSet(t: Tracker, peer: PeerId, w: Wtxid): (r: Tracker)
    ensures peer !in t.states ==> r == t
    ensures peer in t.states ==> peer in r.states &&
                                 r.states[peer].localSet.wtxids == t.states[peer].localSet.wtxids - {w} &&
                                 r.states[peer] == t.states[peer].(localSet := r.states[peer].localSet)
    ensures r.localSalts == t.localSalts && r.states.Keys == t.states.Keys
    ensures forall p :: p in t.states && p != peer ==> r.states[p] == t.states[p]
  {
    if peer !in t.states then t
    else WithLocalSet(t, peer, t.states[peer].localSet.Erase(w).1)
  }

  /** Forgets the peer: both its salt and its state are erased. */
  function RemovePeer(t: Tracker, peer: PeerId): (r: Tracker)
    ensures peer !in r.localSalts && peer !in r.states
    ensures forall p :: p != peer ==> (p in r.localSalts <==> p in t.localSalts)
    ensures forall p :: p != peer && p in t.localSalts ==> r.localSalts[p] == t.localSalts[p]
    ensures forall p :: p != peer && p in t.states ==> p in r.states && r.states[p] == t.states[p]
    ensures r.states.Keys <= t.states.Keys
    ensures t.Valid() ==> r.Valid()
  {
    Tracker(t.localSalts - {peer}, t.states - {peer})
  }

  /** A peer is registered exactly when it has a reconciliation state; it then also has a salt. */
  function IsPeerRegistered(t: Tracker, peer: PeerId): (r: bool)
    ensures r <==> peer in t.states.Keys
    ensures r && t.Valid() ==> peer in t.localSalts
  {
    peer in t.states
  }

  /** Whether the peer initiates (so we only respond); none for an unregistered peer. */
  function IsPeerInitiator(t: Tracker, peer: PeerId): (r: Option<bool>)
    ensures r.None? <==> !IsPeerRegistered(t, peer)
    ensures r.Some? ==> (r.value <==> !t.states[peer].weInitiate)
  {
    if peer !in t.states then None else Some(!t.states[peer].weInitiate)
  }

  /** Size of the pending set; none for an unregistered peer. */
  function GetPeerSetSize(t: Tracker, peer: PeerId): (r: Option<nat>)
    ensures r.None? <==> !IsPeerRegistered(t, peer)
    ensures r.Some? ==> r.value == |t.states[peer].localSet.wtxids|
  {
    if peer !in t.states then None else Some(t.states[peer].localSet.GetSize())
  }

  /** The three per-peer queries agree on which peers they know: exactly the registered ones. */
  lemma QueriesAgreeOnRegistration(t: Tracker, peer: PeerId)
    ensures IsPeerRegistered(t, peer) <==> IsPeerInitiator(t, peer).Some?
    ensures IsPeerRegistered(t, peer) <==> GetPeerSetSize(t, peer).Some?
  {
  }

  /** Registered peers, in `order`, whose role matches `weInitiate`. */
  function EligiblePeers(t: Tracker, order: seq<PeerId>, weInitiate: bool): (r: seq<PeerId>)
    ensures forall p :: p in r <==> p in order && p in t.states && t.states[p].weInitiate == weInitiate
    ensures Distinct(order) ==> Distinct(r)
  {
    if |order| == 0 then []
    else
      var rest := EligiblePeers(t, order[1..], weInitiate);
      assert forall p :: p in order[1..] ==> p in order;
      if order[0] in t.states && t.states[order[0]].weInitiate == weInitiate
      then
        assert Distinct(order) ==> order[0] !in order[1..];
        [order[0]] + rest
      else rest
  }

  /** Modulus of the flooding rule: 2 for classes up to the destination count, else size / destinations. */
  function ReverseProbability(eligible: nat, destinations: nat): (rp: nat)
    requires destinations > 0
    ensures rp >= 1
    ensures eligible <= destinations ==> rp == 2
    ensures eligible > destinations ==> rp * destinations <= eligible < (rp + 1) * destinations
  {
    Selection.DivBounds(eligible, destinations);
    if eligible <= destinations then 2 else eligible / destinations
  }

  /**
   * Whether to flood `w` to `peer` besides reconciling. `order` is the iteration order of
   * the state map, an arbitrary enumeration of the registered peers; `txHash` is the
   * tracker-wide salted txid hasher.
   */
  function ShouldFloodTo(t: Tracker, w: Wtxid, peer: PeerId, order: seq<PeerId>, txHash: Wtxid -> nat): (flood: bool)
    requires Distinct(order) && Elements(order) == t.states.Keys
    ensures peer !in t.states ==> !flood
  {
    if peer !in t.states then false
    else
      var weInitiate := t.states[peer].weInitiate;
      var destinations := if weInitiate then OUTBOUND_FANOUT_DESTINATIONS else INBOUND_FANOUT_DESTINATIONS;
      var eligible := EligiblePeers(t, order, weInitiate);
      var rp := ReverseProbability(|eligible|, destinations);
      var index := IndexOf(eligible, peer);
      txHash(w) % rp == index % rp
  }

  /** The flooding decision for each peer of `cls`, in order. */
  function FloodDecisions(t: Tracker, w: Wtxid, order: seq<PeerId>, txHash: Wtxid -> nat, cls: seq<PeerId>)
    : (flags: seq<bool>)
    requires Distinct(order) && Elements(order) == t.states.Keys
    ensures |flags| == |cls|
    ensures forall j :: 0 <= j < |cls| ==> flags[j] == ShouldFloodTo(t, w, cls[j], order, txHash)
  {
    seq(|cls|, j requires 0 <= j < |cls| => ShouldFloodTo(t, w, cls[j], order, txHash))
  }

  /** Number of peers of `cls` chosen for flooding `w`. */
  function FloodCount(t: Tracker, w: Wtxid, order: seq<PeerId>, txHash: Wtxid -> nat, cls: seq<PeerId>): nat
    requires Distinct(order) && Elements(order) == t.states.Keys
  {
    Selection.CountTrue(FloodDecisions(t, w, order, txHash, cls), |cls|)
  }

  /** The `j`-th peer of a class is flooded to exactly when `j` and the hash agree modulo the reverse probability. */
  lemma FloodToClassMember(t: Tracker, w: Wtxid, order: seq<PeerId>, txHash: Wtxid -> nat, weInitiate: bool, j: nat)
    requires Distinct(order) && Elements(order) == t.states.Keys
    requires j < |EligiblePeers(t, order, weInitiate)|
    ensures var cls := EligiblePeers(t, order, weInitiate);
            var rp := ReverseProbability(|cls|, 2);
            ShouldFloodTo(t, w, cls[j], order, txHash) <==> j % rp == txHash(w) % rp
  {
    var cls := EligiblePeers(t, order, weInitiate);
    var p := cls[j];
    assert p in cls;
    assert t.states[p].weInitiate == weInitiate;
    IndexOfDistinct(cls, j);
  }

  /** The flooded peers of a class are the indices congruent to the hash modulo the reverse probability. */
  lemma FloodCountIsResidueCount(t: Tracker, w: Wtxid, order: seq<PeerId>, txHash: Wtxid -> nat, weInitiate: bool)
    requires Distinct(order) && Elements(order) == t.states.Keys
    ensures var cls := EligiblePeers(t, order, weInitiate);
            var rp := ReverseProbability(|cls|, 2);
            FloodCount(t, w, order, txHash, cls) == Selection.CountResidue(|cls|, rp, txHash(w) % rp)
  {
    var cls := EligiblePeers(t, order, weInitiate);
    var rp := ReverseProbability(|cls|, 2);
    var flags := FloodDecisions(t, w, order, txHash, cls);
    forall j | 0 <= j < |flags| ensures flags[j] <==> j % rp == txHash(w) % rp {
      FloodToClassMember(t, w, order, txHash, weInitiate, j);
    }
    Selection.CountTrueResidue(flags, |cls|, rp, txHash(w) % rp);
  }

  /**
   * Each class floods about `destinations` = 2 peers per transaction: exactly one when the
   * class has two peers, and two or three when it is larger.
   */
  lemma FloodCountBounds(t: Tracker, w: Wtxid, order: seq<PeerId>, txHash: Wtxid -> nat, weInitiate: bool)
    requires Distinct(order) && Elements(order) == t.states.Keys
    ensures var cls := EligiblePeers(t, order, weInitiate);
            var n := FloodCount(t, w, order, txHash, cls);
            && (|cls| <= 1 ==> n <= 1)
            && (|cls| == 2 ==> n == 1)
            && (|cls| >= 3 ==> 2 <= n <= 3)
  {
    var cls := EligiblePeers(t, order, weInitiate);
    var rp := ReverseProbability(|cls|, 2);
    var c := txHash(w) % rp;
    FloodCountIsResidueCount(t, w, order, txHash, weInitiate);
    Selection.CountResidueFormula(|cls|, rp, c);
    if |cls| <= 2 {
      Selection.DivModUnique(|cls|, 2, |cls| / 2, |cls| % 2);
    } else if rp == 1 {
      assert |cls| == 3;
    } else {
      assert |cls| == rp * 2 + |cls| % 2;
      Selection.DivModUnique(|cls|, rp, 2, |cls| % 2);
    }
  }

  // ---------------------------------------------------------------------------
  // Lifecycle properties

  /** Roles depend only on the connection direction: an inbound peer initiates, an outbound one responds. */
  lemma RolesFromDirection(t: Tracker, peer: PeerId, inbound: bool, theyMayInitiate: bool, theyMayRespond: bool,
                           reconVersion: nat, remoteSalt: nat, hash: Salt.SaltHasher)
    requires EnableReconciliationSupport(t, peer, inbound, theyMayInitiate, theyMayRespond,
                                         reconVersion, remoteSalt, hash).0
    ensures IsPeerInitiator(EnableReconciliationSupport(t, peer, inbound, theyMayInitiate, theyMayRespond,
                                                        reconVersion, remoteSalt, hash).1, peer) == Some(inbound)
  {
  }

  /** After removal every query reports the peer as unknown, and removal is idempotent. */
  lemma RemovePeerForgets(t: Tracker, peer: PeerId)
    ensures var r := RemovePeer(t, peer);
            && !IsPeerRegistered(r, peer)
            && IsPeerInitiator(r, peer) == None
            && GetPeerSetSize(r, peer) == None
            && RemovePeer(r, peer) == r
  {
  }

  /** A removed peer can be registered again only through a fresh `SuggestReconciling`. */
  lemma ReRegistrationNeedsSuggestion(t: Tracker, peer: PeerId, inbound: bool, theyMayInitiate: bool,
                                      theyMayRespond: bool, reconVersion: nat, remoteSalt: nat,
                                      hash: Salt.SaltHasher)
    ensures !EnableReconciliationSupport(RemovePeer(t, peer), peer, inbound, theyMayInitiate, theyMayRespond,
                                         reconVersion, remoteSalt, hash).0
  {
  }

  /** The full handshake on a fresh peer succeeds exactly when the peer offers a usable version and role. */
  lemma HandshakeSucceeds(t: Tracker, peer: PeerId, inbound: bool, freshSalt: nat, reconVersion: nat,
                          remoteSalt: nat, hash: Salt.SaltHasher)
    requires peer !in t.localSalts && freshSalt < U64 - 1 && t.Valid()
    ensures var t1 := SuggestReconciling(t, peer, inbound, freshSalt).1;
            var s := SuggestReconciling(t, peer, inbound, freshSalt).0;
            var r := EnableReconciliationSupport(t1, peer, inbound, s.weRespond, s.weInitiate,
                                                 reconVersion, remoteSalt, hash);
            (r.0 <==> reconVersion >= 1) && (r.0 ==> GetPeerSetSize(r.1, peer) == Some(0))
  {
  }

  /**
   * The two ends of a connection store the same short-ID keys: each registers with its own
   * salt as local and the other's as remote, and the salts are combined in ascending order.
   */
  lemma BothEndsShareKeys(a: Tracker, peerA: PeerId, inboundA: bool, initA: bool, respA: bool,
                          b: Tracker, peerB: PeerId, inboundB: bool, initB: bool, respB: bool,
                          reconVersion: nat, hash: Salt.SaltHasher)
    requires peerA in a.localSalts && peerB in b.localSalts
    requires EnableReconciliationSupport(a, peerA, inboundA, initA, respA, reconVersion, b.localSalts[peerB], hash).0
    requires EnableReconciliationSupport(b, peerB, inboundB, initB, respB, reconVersion, a.localSalts[peerA], hash).0
    ensures var sa := EnableReconciliationSupport(a, peerA, inboundA, initA, respA, reconVersion, b.localSalts[peerB], hash).1;
            var sb := EnableReconciliationSupport(b, peerB, inboundB, initB, respB, reconVersion, a.localSalts[peerA], hash).1;
            sa.states[peerA].k0 == sb.states[peerB].k0 && sa.states[peerA].k1 == sb.states[peerB].k1
  {
    Salt.ComputeSaltSymmetric(a.localSalts[peerA], b.localSalts[peerB], hash);
  }
}
