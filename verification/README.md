# Transaction reconciliation (Erlay) tracker and simulator helpers, in Dafny

This project models the per-peer bookkeeping that Bitcoin Core keeps for transaction
reconciliation (BIP-330, "Erlay"), and proves properties about it. It also covers the small
algorithms around that bookkeeping: the exhaustive sketch test and the Transaction-Simulator.

Most parts are pure functions over immutable values. Each operation takes a tracker and
returns a new one.

- `LegacyTracker` (`legacy_tracker.dfy`) follows the concrete bodies in
  `src/txreconciliation.cpp`. It keeps two maps:
  - `localSalts`, filled by `SuggestReconciling`;
  - `states`, filled by `EnableReconciliationSupport`. Entries are created with the
    direction-based roles and a pending set.

  It provides set insertion and erasure, removal, the `nullopt`-style queries, and the old
  `ShouldFloodTo` rule, a hash residue modulo a "reverse probability".
- `Tracker` (`tracker.dfy`) is the newer facade of `src/node/txreconciliation.h`. It has the
  lifecycle NONE → PRE_REGISTERED → REGISTERED → forgotten, with explicit
  `ReconciliationRegisterResult` codes. It also covers:
  - the pending set, with its limit;
  - a round-robin scheduler;
  - the request builder, which returns `(set size, q = 8191)`;
  - the low-fanout selector `ShouldFanoutTo`.

  `TrackerProperties` (`tracker_properties.dfy`) relates these operations. It also replays the
  unit tests of `src/test/txreconciliation_tests.cpp` step by step.
- `Salt` covers BIP-330 salt combination: the two 64-bit salts are hashed smaller first.
  `ReconSets` covers the per-peer set of pending wtxids.
- `Combinatorics` models `Combination(n, k)` of `src/test-exhaust.cpp`:
  - `uint64_t` arithmetic, including wrap-around, is written out;
  - the result is proved equal to the binomial coefficient whenever no intermediate product
    overflows.
- `Topology` models the degree-capped random graph built by the simulator's topology helper,
  and the rule that creates one link per undirected edge.
- `Framing` and `SimNode` model the simulator node:
  - the `'#'`-delimited stream framing with a per-sender buffer;
  - the reaction to each message (INV de-duplication into GET_DATA, and so on);
  - the relay-target filter;
  - the filter values handed out by `AnnounceFilters`.
- `Selection` holds the counting arithmetic behind the flooding and fanout counts. `Common`
  and `Wrappers` hold shared helpers.

Several inputs are foreign code or randomness, so the model takes them as parameters:

- tagged SHA-256, SipHash and `std::hash`;
- `GetRand` and `rand()`;
- the JSON parser;
- the iteration order of the C++ `unordered_map`.

## Model

| member | source | states |
|---|---|---|
| Salt.ComputeSalt | src/txreconciliation.cpp:25-31 | The two salts are hashed in ascending order, whichever of them is the local one. |
| Salt.ComputeSaltSymmetric | src/txreconciliation.cpp:25-31 | Both ends of a connection derive the same full salt: swapping local and remote salt does not change the result. |
| Salt.Uint64Word | src/txreconciliation.cpp:181-182 | The short-ID keys k0 and k1 taken from the salt digest are 64-bit values. |
| ReconSets.ReconciliationSet.Insert | src/txreconciliation.cpp:37-51 | Set insertion reports "new" exactly when the wtxid was absent. The size grows by one exactly then, so re-adding is a no-op. |
| ReconSets.ReconciliationSet.Erase | src/txreconciliation.cpp:204-211 | Erasure reports "present" exactly when the wtxid was in the set. The size drops by one exactly then. |
| ReconSets.ReconciliationSet.Clear | src/txreconciliation.cpp:46-49 | A cleared set is empty. |
| LegacyTracker.SuggestReconciling | src/txreconciliation.cpp:118-140 | Inbound gives (initiate = false, respond = true) and outbound the reverse. Version 1 and the fresh salt are returned. The salt is stored for a peer that had none. States and every other peer's salt are untouched, and the registration invariant is kept. |
| LegacyTracker.NegotiatedVersion | src/txreconciliation.cpp:150-157 | The peer's version is downgraded to ours (1) and never raised. |
| LegacyTracker.RolesExclusive | src/txreconciliation.cpp:164-171 | "We initiate" and "they initiate" are never both true, because both derive from the one inbound flag. |
| LegacyTracker.EnableReconciliationSupport | src/txreconciliation.cpp:142-184 | Registration succeeds exactly when all of these hold: the peer is not registered, its version is at least 1, a local salt exists, and its announced flags pair with our role. Every rejection leaves both maps unchanged. On success only the new state is added, with role "we initiate" = outbound and responder, and an empty set. Its keys k0 and k1 are the first and second 64-bit words of the salt combined from the local and the remote salt. Every registered peer keeps a salt. |
| LegacyTracker.BothEndsShareKeys | src/txreconciliation.cpp:178-182 | When two nodes each register the other with the salt the other suggested, both derive the same k0 and k1. |
| LegacyTracker.IsPeerRegistered | src/txreconciliation.cpp:223-227 | A peer is registered exactly when it has a reconciliation state, and a registered peer of a valid tracker also has a stored salt. |
| LegacyTracker.IsPeerInitiator | src/txreconciliation.cpp:229-237 | None exactly for an unregistered peer; otherwise true exactly when we do not initiate. |
| LegacyTracker.GetPeerSetSize | src/txreconciliation.cpp:239-247 | None exactly for an unregistered peer; otherwise the number of pending wtxids of that peer. |
| LegacyTracker.QueriesAgreeOnRegistration | src/txreconciliation.cpp:223-247 | A peer is registered exactly when `IsPeerInitiator` answers, and exactly when `GetPeerSetSize` answers. |
| LegacyTracker.InsertAll | src/txreconciliation.cpp:193-198 | The insertion loop leaves the set holding its old contents and every wtxid of the batch. The counter `added` is exactly the growth of the set, so it counts the wtxids that were new, at most the batch length. |
| LegacyTracker.AddToReconSet | src/txreconciliation.cpp:186-202 | The peer's set becomes its old contents united with the batch. The size grows by exactly the number of new wtxids, which is at most the batch length. The peer's keys and role, other peers and the salts are unchanged. |
| LegacyTracker.TryRemovingFromReconSet | src/txreconciliation.cpp:204-211 | An unregistered peer leaves the tracker unchanged. Otherwise exactly that wtxid leaves that peer's set; its keys and role, other peers and the salts are unchanged. |
| LegacyTracker.RemovePeer | src/txreconciliation.cpp:213-221 | Salt and state of the peer are both erased and every other entry is kept with its value. The registration invariant is preserved. |
| LegacyTracker.RemovePeerForgets | src/txreconciliation.cpp:213-247 | After removal the peer is unregistered and both `IsPeerInitiator` and `GetPeerSetSize` are none. Removing again changes nothing. |
| LegacyTracker.RolesFromDirection | src/txreconciliation.h:42-54 | After a successful registration the peer is the initiator exactly when the connection is inbound. |
| LegacyTracker.ReRegistrationNeedsSuggestion | src/txreconciliation.h:77-81 | Once removed, a peer cannot be registered again without a new `SuggestReconciling`. |
| LegacyTracker.HandshakeSucceeds | src/txreconciliation.h:56-67 | The peer answers a suggestion on a fresh peer with the complementary roles. Registration then succeeds exactly when the peer offers a version of at least 1, and it starts with an empty set. |
| LegacyTracker.EligiblePeers | src/txreconciliation.cpp:260-276 | The eligible list holds exactly the registered peers with the same role, without repetition. |
| LegacyTracker.ReverseProbability | src/txreconciliation.cpp:281-288 | The modulus is at least 1, and it is 2 when the class has no more peers than destinations. With more eligible peers than destinations it is the quotient: rp·destinations ≤ eligible < (rp + 1)·destinations. |
| LegacyTracker.ShouldFloodTo | src/txreconciliation.cpp:249-256 | An unregistered peer is never flooded to. |
| LegacyTracker.FloodToClassMember | src/txreconciliation.cpp:258-291 | The peer at index j of its role's eligible list is flooded to exactly when j and the transaction hash agree modulo the reverse probability. |
| LegacyTracker.FloodCountIsResidueCount | src/txreconciliation.cpp:278-291 | Across the whole eligible list, the number of peers flooded to equals the number of indices congruent to the hash modulo the reverse probability. |
| LegacyTracker.FloodCountBounds | src/txreconciliation.cpp:281-291 | Per transaction, a class of at most one peer floods to at most one peer. A class of two floods to exactly one, and a larger class to two or three. |
| Tracker.NewTracker | src/node/txreconciliation.h:58 | A new tracker knows no peer and satisfies the tracker invariant. |
| Tracker.PreRegisterPeer | src/node/txreconciliation.h:61-68 | The generated salt is returned and stored for a peer that was not tracked. The peer is not yet registered and nothing else changes. |
| Tracker.RegisterPeer | src/node/txreconciliation.h:70-75 | Exactly one outcome holds. NOT_FOUND iff no pre-registration; ALREADY_REGISTERED iff registered; PROTOCOL_VIOLATION iff pre-registered with negotiated version below 1; SUCCESS otherwise. Only SUCCESS changes the tracker: the peer becomes registered with its direction and an empty set, its keys k0 and k1 are the two 64-bit words of the salt combined from its pre-registration salt and the remote salt, and it joins the queue when outbound. The configuration never changes. |
| Tracker.ForgetPeer | src/node/txreconciliation.h:111-115 | Afterwards the peer is unknown in every state; every other peer, the queue order and the timer are kept. On an unknown id it is a no-op. |
| Tracker.IsPeerRegistered | src/node/txreconciliation.h:117-120 | True only in the REGISTERED state; in a valid tracker, true exactly for the peers in the registration order. |
| Tracker.AddToSet | src/node/txreconciliation.h:77-82 | The result is true exactly when the peer is registered, the wtxid is new and the set is below the limit. Then the set gains exactly that wtxid and grows by one, while the peer's keys and direction, other peers, the queue, the timer and the configuration stay as they were. Otherwise the tracker is unchanged. |
| Tracker.TryRemovingFromSet | src/node/txreconciliation.h:84-91 | On a registered peer, the result is true exactly when the wtxid was present. It is then removed and the size drops by one; the peer's keys and direction, other peers, the queue, the timer and the configuration are untouched. |
| Tracker.PickDelay | src/node/txreconciliation.h:93-99 | The delay before the next pick never exceeds the reconciliation interval. |
| Tracker.IsPeerNextToReconcileWith | src/node/txreconciliation.h:93-99 | True exactly for a registered outbound peer that heads the queue, whose timer has passed, and with no round in flight. A pick moves the peer to the back and sets the timer within one interval of now. Peers and registration order never change. |
| Tracker.InitiateReconciliationRequest | src/node/txreconciliation.h:101-109 | None exactly when the peer is unregistered or a round is in flight, and then nothing changes. Otherwise it returns the set size as `uint16` and q = 8191, and marks the round in flight. |
| Tracker.Class | src/node/txreconciliation.h:122-126 | A direction class holds exactly the registered peers of that direction, once each. |
| Tracker.FanoutTarget | src/test/txreconciliation_tests.cpp:113-152 | The class target is 1 for outbound peers and ⌊N/10⌋ for N inbound peers. |
| Tracker.EffectiveTarget | src/test/txreconciliation_tests.cpp:113-152 | Relays by non-reconciling peers top the class target up and never beyond it: what they already sent plus the effective target is the larger of the class target and what they sent. |
| Tracker.ShouldFanoutTo | src/test/txreconciliation_tests.cpp:90-124 | Unregistered, pre-registered and forgotten peers always get the transaction. |
| Tracker.FanoutToClassMember | src/node/txreconciliation.h:122-126 | The registered peer of rank j in its direction class is chosen exactly when j lies in the cyclic window of effective-target length that starts at the transaction's hash modulo the class size. |
| Tracker.FanoutCountIsWindowCount | src/node/txreconciliation.h:122-126 | The number of peers of a class chosen for a transaction is the number of ranks in the cyclic window starting at the hash. |
| Tracker.FanoutExactCount | src/test/txreconciliation_tests.cpp:133-152 | Any transaction is fanned out to exactly the effective target number of peers of a non-empty class. |
| TrackerProperties.ForgottenPreRegistrationNotFound | src/test/txreconciliation_tests.cpp:54-57 | Registration after pre-register and forget reports NOT_FOUND. |
| TrackerProperties.RegisterOnlyOnce | src/test/txreconciliation_tests.cpp:41-42 | A second registration of a registered peer reports ALREADY_REGISTERED and changes nothing. |
| TrackerProperties.BothEndsShareKeys | src/node/txreconciliation.h:62-75 | When two trackers each pre-register the other and register it with the salt the other generated, both store the same k0 and k1. |
| TrackerProperties.RegisteredOnlyBetweenRegisterAndForget | src/test/txreconciliation_tests.cpp:68-82 | `IsPeerRegistered` is false before and after pre-registration. It is true after SUCCESS, which happens exactly when both versions are at least 1. It is false again after forgetting. |
| TrackerProperties.ForgetIdempotent | src/node/txreconciliation.h:111-115 | Forgetting twice equals forgetting once. |
| TrackerProperties.VersionZeroRejected | src/test/txreconciliation_tests.cpp:21-27 | Version 0 gives PROTOCOL_VIOLATION and the peer stays pre-registered. |
| TrackerProperties.SoleOutboundPeerFanout | src/test/txreconciliation_tests.cpp:105-117 | A sole outbound reconciling peer is chosen when no outbound non-reconciling peer relayed, and not when one did. |
| TrackerProperties.ThirtyInboundPeersFanout | src/test/txreconciliation_tests.cpp:126-152 | With 30 inbound peers exactly 3 are chosen per transaction, and none with 4 inbound non-reconciling relays. |
| TrackerProperties.EarlierRegisteredIsNextFirst | src/test/txreconciliation_tests.cpp:183-193 | Of two outbound peers, the earlier-registered one is next first and the other is not. |
| TrackerProperties.PickedPeerWaitsForItsTurn | src/test/txreconciliation_tests.cpp:195-205 | With another peer queued, a just-picked peer is not next on the following query, whatever its time. |
| TrackerProperties.ForgottenHeadDoesNotBlock | src/test/txreconciliation_tests.cpp:226-230 | A forgotten head is never next. The peer behind it is next as soon as the timer passes and no round is in flight. |
| TrackerProperties.QCoefficientTruncated | src/test/txreconciliation_tests.cpp:269 | q = `uint16_t(32767 * 0.25)` = 8191, the truncated (not rounded) quarter. |
| TrackerProperties.RequestReportsSetSize | src/test/txreconciliation_tests.cpp:271-282 | After three distinct additions to a fresh registration, the request is (3, 8191). |
| TrackerProperties.RegisterPeerScenario | src/test/txreconciliation_tests.cpp:13-47 | The registration test's outcomes in order: PROTOCOL_VIOLATION, SUCCESS ×3, ALREADY_REGISTERED, NOT_FOUND; registered flags accordingly. |
| TrackerProperties.DueCheckStep | src/node/txreconciliation.h:93-99 | When every peer is queued and outbound, a due check picks exactly a due head with no round in flight. The timer moves by the configured interval divided among peers with no round in flight. A due in-flight head moves to the back, and nothing else changes, the configuration included. |
| TrackerProperties.SchedulerBeforeRegistration | src/test/txreconciliation_tests.cpp:162-165 | An unknown and a pre-registered peer are not next. |
| TrackerProperties.SchedulerSinglePeer | src/test/txreconciliation_tests.cpp:167-174 | A sole registered peer is next at 1 s, is not at 8 s, and is next again at 10 s, once the 8 s interval has passed. |
| TrackerProperties.SchedulerTwoPeersAlternate | src/test/txreconciliation_tests.cpp:189-205 | Two peers alternate on half the 8 s interval: peer 1 at 100 s, peer 2 not at 100 s but at 105 s, peer 1 not at 108 s but at 110 s, peer 2 not at 113 s. |
| TrackerProperties.SchedulerSkipsInFlight | src/test/txreconciliation_tests.cpp:207-213 | A peer with a round in flight is skipped, and the other peer then gets the whole interval. |
| TrackerProperties.SchedulerSkipsInFlightAgain | src/test/txreconciliation_tests.cpp:215-224 | The in-flight peer keeps being skipped while the other is picked once the timer passes. |
| TrackerProperties.SchedulerAfterForget | src/test/txreconciliation_tests.cpp:226-230 | After forgetting the in-flight peer the remaining one is next and the forgotten one is not. |
| TrackerProperties.SchedulerScenario | src/test/txreconciliation_tests.cpp:157-230 | The whole scheduler test gives the answers the test expects, in order, grouped by phase. |
| TrackerProperties.RequestsAroundRegistration | src/test/txreconciliation_tests.cpp:258-269 | The request is none for unknown and pre-registered peers, and (0, 8191) once registered. |
| TrackerProperties.RequestAfterThreeAdditions | src/test/txreconciliation_tests.cpp:271-282 | After re-registering and three additions the request is (3, 8191). |
| TrackerProperties.RequestScenario | src/test/txreconciliation_tests.cpp:253-283 | The whole request test gives [none, none, (0, 8191), (3, 8191)]. |
| Combinatorics.BinomSymmetric | src/test-exhaust.cpp:18 | C(n, k) = C(n, n − k), so replacing k by n − k does not change the result. |
| Combinatorics.MultiplicativeStep | src/test-exhaust.cpp:21 | C(n, i − 1)·(n − i + 1) = i·C(n, i), so the division in the loop is exact. |
| Combinatorics.ExactStep | src/test-exhaust.cpp:20-23 | Each iteration turns C(n0, i − 1) into C(n0, i) when its product fits in 64 bits. |
| Combinatorics.EffectiveK | src/test-exhaust.cpp:18 | For k ≤ n the loop count is min(k, n − k). |
| Combinatorics.Combination | src/test-exhaust.cpp:17-25 | The result fits in 64 bits, and Combination(n, 0) = Combination(n, n) = 1. The loop runs min(k, n − k) times for k ≤ n, as its counted iterations show. For k ≤ n with no overflowing product the result is the binomial coefficient C(n, k). |
| Combinatorics.UnboundedLoopInput | src/test-exhaust.cpp:18-20 | The only 64-bit inputs whose loop bound reaches 2^64 − 1, where `i <= k` can never fail, are n = 2^64 − 2 with k = 2^64 − 1. |
| Topology.RemoveAt | Transaction-Simulator/src/applications/helper/bitcoin-topology-helper.cc:119 | Erasing a pool entry removes exactly that node and keeps the rest distinct. |
| Topology.ConnectWellFormed | Transaction-Simulator/src/applications/helper/bitcoin-topology-helper.cc:93-113 | Adding an edge between two distinct, unconnected, non-full nodes keeps the graph well formed: no self links, no duplicates, symmetric, degrees within the cap. |
| Topology.BuildTopology | Transaction-Simulator/src/applications/helper/bitcoin-topology-helper.cc:71-124 | The built graph has no self links and no duplicate edges; it is symmetric and degree-capped. Every node below the cap is still in the pool, so the draw never hits an empty pool. A node leaves the pool only when full. Each node makes at most 10·max attempts, and one that stopped early is full. |
| Topology.LinksOf | Transaction-Simulator/src/applications/helper/bitcoin-topology-helper.cc:240-244 | A node creates links exactly to its listed peers with a larger id. |
| Topology.LinksAreEdges | Transaction-Simulator/src/applications/helper/bitcoin-topology-helper.cc:237-244 | A link (a, b) is created exactly for an adjacency entry with a < b. |
| Topology.OneLinkPerEdge | Transaction-Simulator/src/applications/helper/bitcoin-topology-helper.cc:237-244 | In a symmetric graph each undirected edge gives exactly the link (min, max), never the reverse. |
| Framing.CString | Transaction-Simulator/src/applications/model/bitcoin-node.cc:518-527 | The packet is read as a C string: the prefix before its first NUL. |
| Framing.SplitIsSplit | Transaction-Simulator/src/applications/model/bitcoin-node.cc:531-644 | The frames, each followed by `'#'`, plus the remainder reassemble the data. Frames and remainder contain no `'#'`. |
| Framing.SplitUnique | Transaction-Simulator/src/applications/model/bitcoin-node.cc:531-644 | Any such decomposition is the one the frame loop produces. |
| Framing.ExtractFrames | Transaction-Simulator/src/applications/model/bitcoin-node.cc:527-650 | The frame loop cuts buffered data plus packet into exactly the reference split. The frames are the texts before successive `'#'` and the remainder is what follows the last one. |
| SimNode.RequestNewHashes | Transaction-Simulator/src/applications/model/bitcoin-node.cc:582-594 | Exactly the announced hashes not yet known are requested, once each and in announcement order (the reference `NewHashes`). Each is appended to the known hashes, and afterwards every announced hash is known. |
| SimNode.ToUint32 | Transaction-Simulator/src/applications/model/bitcoin-node.cc:562 | The filter is stored as `uint32`; non-negative values below 2^32 are kept. |
| SimNode.NewHashes | Transaction-Simulator/src/applications/model/bitcoin-node.cc:582-594 | The hashes an INV requests are exactly the announced ones not yet known, without repetition. |
| SimNode.HandleMessage | Transaction-Simulator/src/applications/model/bitcoin-node.cc:558-641 | FILTER and MODE record the sender's setting and nothing else. An INV yields one GET_DATA with exactly the new hashes, or nothing when all are known. GET_DATA is answered by TX with the same transactions. TX schedules one relay per transaction, and anything else does nothing. |
| SimNode.InvTwice | Transaction-Simulator/src/applications/model/bitcoin-node.cc:584-598 | Handling the same INV twice sends no GET_DATA the second time. |
| SimNode.HandleFrames | Transaction-Simulator/src/applications/model/bitcoin-node.cc:527-644 | Handling a read's frames in order keeps every buffer, only adds known hashes, and adds none when no accepted frame is an INV. |
| SimNode.HandleEachFrame | Transaction-Simulator/src/applications/model/bitcoin-node.cc:527-644 | The frame loop yields the state and effects of the fold `HandleFrames` over the frames. |
| SimNode.HandleRead | Transaction-Simulator/src/applications/model/bitcoin-node.cc:515-650 | The sender's buffer becomes the split remainder. Apart from that buffer, the new state and the effects are those of handling the accepted frames one after another (`HandleFrames`). Known hashes only grow, and they stay unchanged when no frame is an INV. |
| SimNode.NumberHash | Transaction-Simulator/src/applications/model/bitcoin-node.cc:697 | Truncating the hash to 32 bits keeps its residue modulo 8. |
| SimNode.RelayTargets | Transaction-Simulator/src/applications/model/bitcoin-node.cc:697-717 | A peer receives the INV exactly when its IP differs from the sender's, it is not blocks-only, and the sender's link filter admits the hash. |
| SimNode.FilteredRelay | Transaction-Simulator/src/applications/model/bitcoin-node.cc:701 | Under filters-on-links with a sender filter f in 1..7, the transaction goes out exactly when hash ≡ f (mod 8). |
| SimNode.AnnounceFilters | Transaction-Simulator/src/applications/model/bitcoin-node.cc:272-286 | One announcement per peer, in peer order. The first eight peers are told 0 through 7, and from then on each peer is told what the peer eight places earlier was told. |
| SimNode.AnnouncedFiltersBalanced | Transaction-Simulator/src/applications/model/bitcoin-node.cc:272-286 | The filters are spread evenly: each value f < 8 goes to ⌊P/8⌋ of the P peers, plus one more when f < P mod 8. |

## Left out

- Hashing and randomness are oracles passed as parameters:
  - tagged SHA-256 (`Salt.SaltHasher`);
  - SipHash / `SaltedTxidHasher` (`sip`, `txHash`);
  - `std::hash`;
  - `GetRand` (`freshSalt`);
  - `rand()` (`rng`).
- Locking (`Mutex`, `LOCK`, `GUARDED_BY`) and all logging are left out. The tracker is a sequential value.
- The iteration order of `m_states` in `ShouldFloodTo` is an input, `order`. It is any fixed
  enumeration of the registered peers.
- The legacy header `src/txreconciliation.h` declares `StoreTxsToAnnounce`,
  `IsPeerChosenForFlooding`, `IsPeerResponder` and an `outbound_flooders` parameter. None of these
  exist in `src/txreconciliation.cpp`. The model follows the `.cpp` bodies (`AddToReconSet`,
  `IsPeerInitiator`, `ShouldFloodTo`) and uses the header only for its doc-comment contracts.
- The bodies of the new tracker in `src/node/txreconciliation.h` are not part of this model's
  sources. Its behaviour is reconstructed from the header comments and the unit tests:
  - `Tracker.RegisterPeer` checks, in order: is the peer known, is it registered, is the version
    valid. For an unknown peer offering version 0 this gives NOT_FOUND. The legacy
    `EnableReconciliationSupport` checks the version before the salt and rejects such a peer for
    its version. No test tells the two orders apart.
  - `Tracker.IsPeerNextToReconcileWith` is a reconstruction. It uses a FIFO queue of outbound
    peers and one global timer that moves by the reconciliation interval divided among the
    queued peers with no round in flight. The interval is a tracker parameter (8 s in the
    replayed test). An in-flight head is moved to the back rather than picked.
  - `Tracker.InitiateReconciliationRequest` marks a round in flight. Concluding a round (and so
    clearing the flag, and `ReconciliationSet.Clear` on the set) belongs to later protocol steps
    the facade does not declare, so no operation here clears it.
  - `Tracker.AddToSet`: the set limit is a tracker parameter (`Config.setLimit`), because its
    value is not stated.
  - `Tracker.ShouldFanoutTo`: only the unregistered case is stated in its own contract. For
    registered peers the rule is a reconstruction: a cyclic window over the peer's rank in its
    direction class. `Tracker.FanoutToClassMember` states that window per peer, and
    `Tracker.FanoutExactCount` states what it guarantees as a count per class.
- `LegacyTracker.ShouldFloodTo`: its own contract covers only unregistered peers. For registered
  peers, `LegacyTracker.FloodToClassMember` states the rule per peer, and
  `LegacyTracker.FloodCountIsResidueCount` and `LegacyTracker.FloodCountBounds` state it as a
  count per class.
- `LegacyTracker.AddToReconSet` and `LegacyTracker.SuggestReconciling`: the source asserts a
  non-empty batch and a registered peer for the first, and a peer without a stored salt for the
  second. The model turns these asserts into preconditions.
- `LegacyTracker.SuggestReconciling` requires `freshSalt < 2^64 − 1`, because `GetRand(UINT64_MAX)`
  draws below `UINT64_MAX`. `Tracker.PreRegisterPeer` uses the same bound, since the facade's salt
  generator is not part of this model.
- `Combinatorics.Combination`: intermediate products `ret * n` wrap modulo 2^64, as the code does.
  The binomial result is proved only under the `Fits` condition that no product overflows. Beyond
  it the `uint64_t` result is the wrapped value, and the model claims nothing about it.
- `Combinatorics.Combination` excludes n = 2^64 − 2 with k = 2^64 − 1 (see
  `Combinatorics.UnboundedLoopInput`). There the loop bound is 2^64 − 1, `i <= k` holds for every
  `uint64_t` `i`, and the source loops without end, dividing by zero once `i` wraps to 0. No
  result exists to model.
- `src/test-exhaust.cpp` outside `Combination` (`TestAll`, `TestRand`, `main`) is left out:
  threads, `random_device`, sketch calls and `pow`. So are the minisketch library
  (`src/minisketch/include/minisketch.h`, declarations only), the benchmark
  (`src/bench/txreconciliation.cpp`) and the functional test (`test/functional/p2p_reqtxrcncl.py`).
- Simulator pieces left out:
  - sockets, `Simulator::Schedule` (a scheduled relay is returned as an `Effect`), rapidjson
    encoding and parsing (the parser is a parameter), statistics counters, wall-clock timing,
    and device and IP setup;
  - the region and connection-count distributions of the topology helper. The model builds the
    graph with one cap, `maxConnections`, which the source uses as both minimum and maximum.
- `SimNode.RelayTargets`: the blocks-only record is an input map keyed by peer IP. The source indexes
  `blocksOnlyMode` with the peer's IPv4 address, while FILTER/MODE messages record it under the
  sender's socket address. The declaration that would reconcile the two key types is not part of
  this model.
- `SimNode.HandleMessage`: the TX case falls through into `default` in the source. The model
  reflects that, since `default` only logs.
- `SimNode.AnnounceFilters`: the `int` counter is unbounded in the model. Overflow would need
  2^31 peers.
- Test lines 243-249 of `src/test/txreconciliation_tests.cpp` are malformed (an `else` without an
  `if`). Their six-peer scenario is not replayed.
