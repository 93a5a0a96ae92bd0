/**
 * Message handling of the simulator node (`BitcoinNode` in
 * Transaction-Simulator/src/applications/model/bitcoin-node.cc): the per-sender framing of
 * the received stream, the reaction to each message (filters, blocks-only mode, INV
 * de-duplication into GET_DATA, GET_DATA answered by TX, TX scheduling a relay), the choice of
 * relay targets for a transaction and the filter values announced to peers. JSON parsing,
 * sockets, timers and statistics are outside the model: a parser is a parameter and the
 * messages a node would send or schedule are returned as `Effect`s.
 */
module SimNode {
  import opened Common
  import opened Wrappers
  import Framing
  import Selection

  /** A sender's socket address; relay destinations are compared by IP only. */
  datatype Address = Address(ip: nat, port: nat)

  /** The messages the node reacts to, as the JSON parser would report them. */
  datatype Message =
    | Filter(filter: int)
    | Mode(blocksOnly: bool)
    | Block
    | Inv(inv: seq<string>)
    | GetData(transactions: seq<string>)
    | Tx(transactions: seq<string>)
    | Unknown

  /**
   * What handling a message makes the node send or schedule. `to` names the peer by the
   * sender's socket address; the node sends to that peer's IPv4 address on its Bitcoin port,
   * so only the `ip` part of `to` selects the destination.
   */
  datatype Effect =
    | SendGetData(to: Address, transactions: seq<string>)
    | SendTx(to: Address, transactions: seq<string>)
    | ScheduleAdvertise(from: Address, hash: string)

  datatype NodeState = NodeState(
    knownTxHashes: seq<string>,
    filters: map<Address, nat>,
    blocksOnlyMode: map<Address, bool>,
    bufferedData: map<Address, string>)

  /** Relay protocols that matter here: only filters-on-links restricts relay by hash. */
  datatype Protocol = FiltersOnLinks | OtherProtocol

  // ---------------------------------------------------------------------------
  // INV de-duplication

  /**
   * The hashes an INV makes the node request, in announcement order: each announced hash not
   * yet known, which becomes known at once, so a hash repeated inside one INV counts once.
   */
  function NewHashes(known: seq<string>, inv: seq<string>): (requested: seq<string>)
    ensures forall h :: h in requested <==> h in inv && h !in known
    ensures Distinct(requested)
    decreases |inv|
  {
    if |inv| == 0 then []
    else if inv[0] in known then NewHashes(known, inv[1..])
    else
      var rest := NewHashes(known + [inv[0]], inv[1..]);
      assert inv[0] !in rest;
      [inv[0]] + rest
  }

  /** The INV loop, one announced hash at a time. */
  method RequestNewHashes(known: seq<string>, inv: seq<string>) returns (requested: seq<string>, known': seq<string>)
    ensures requested == NewHashes(known, inv)
    ensures known' == known + requested
    ensures forall h :: h in requested <==> h in inv && h !in known
    ensures Distinct(requested)
    ensures forall h :: h in inv ==> h in known'
  {
    requested := [];
    known' := known;
    var j := 0;
    while j < |inv|
      invariant 0 <= j <= |inv|
      invariant known' == known + requested
      invariant requested + NewHashes(known', inv[j..]) == NewHashes(known, inv)
    {
      var h := inv[j];
      assert inv[j..][0] == h && inv[j..][1..] == inv[j + 1..];
      if h !in known' {
        assert requested + ([h] + NewHashes(known' + [h], inv[j + 1..])) ==
               (requested + [h]) + NewHashes(known' + [h], inv[j + 1..]);
        requested := requested + [h];
        known' := known' + [h];
      }
      j := j + 1;
    }
    assert requested + [] == requested;
  }

  // ---------------------------------------------------------------------------
  // One message

  /** `uint32_t filter = d["filter"].GetInt()`: the signed value converted modulo 2^32. */
  function ToUint32(x: int): (r: nat)
    ensures r < U32
    ensures 0 <= x < U32 ==> r == x
  {
    x % U32
  }

  /**
   * Reaction to one parsed message from `from`: the new node state and what it sends or
   * schedules. FILTER and MODE record the sender's settings; INV requests the new hashes with
   * one GET_DATA (none when nothing is new); GET_DATA is answered by TX with the same
   * transactions; TX schedules one relay per transaction; anything else is ignored.
   */
  function HandleMessage(st: NodeState, from: Address, m: Message): (r: (NodeState, seq<Effect>))
    ensures r.0.bufferedData == st.bufferedData
    ensures !m.Filter? ==> r.0.filters == st.filters
    ensures m.Filter? ==> r.0.filters == st.filters[from := ToUint32(m.filter)]
    ensures !m.Mode? ==> r.0.blocksOnlyMode == st.blocksOnlyMode
    ensures m.Mode? ==> r.0.blocksOnlyMode == st.blocksOnlyMode[from := m.blocksOnly]
    ensures !m.Inv? ==> r.0.knownTxHashes == st.knownTxHashes
    ensures m.Inv? ==>
              && st.knownTxHashes <= r.0.knownTxHashes
              && (forall h :: h in r.0.knownTxHashes <==> h in st.knownTxHashes || h in m.inv)
              && (r.1 == [] <==> forall h :: h in m.inv ==> h in st.knownTxHashes)
              && (r.1 != [] ==>
                    && |r.1| == 1 && r.1[0].SendGetData? && r.1[0].to == from
                    && Distinct(r.1[0].transactions)
                    && r.0.knownTxHashes == st.knownTxHashes + r.1[0].transactions
                    && (forall h :: h in r.1[0].transactions <==> h in m.inv && h !in st.knownTxHashes))
    ensures m.GetData? ==> r.1 == [SendTx(from, m.transactions)]
    ensures m.Tx? ==> |r.1| == |m.transactions| &&
                      forall j :: 0 <= j < |r.1| ==> r.1[j] == ScheduleAdvertise(from, m.transactions[j])
    ensures m.Filter? || m.Mode? || m.Block? || m.Unknown? ==> r.1 == []
  {
    match m
    case Filter(f) => (st.(filters := st.filters[from := ToUint32(f)]), [])
    case Mode(b) => (st.(blocksOnlyMode := st.blocksOnlyMode[from := b]), [])
    case Block => (st, [])
    case Inv(inv) =>
      var requested := NewHashes(st.knownTxHashes, inv);
      var st' := st.(knownTxHashes := st.knownTxHashes + requested);
      if |requested| != 0 then
        assert requested[0] in inv && requested[0] !in st.knownTxHashes;
        (st', [SendGetData(from, requested)])
      else
        assert forall h :: h in inv ==> h in st.knownTxHashes by {
          forall h | h in inv ensures h in st.knownTxHashes {
            assert h !in requested;
          }
        }
        (st', [])
    case GetData(txs) => (st, [SendTx(from, txs)])
    case Tx(txs) => (st, seq(|txs|, j requires 0 <= j < |txs| => ScheduleAdvertise(from, txs[j])))
    case Unknown => (st, [])
  }

  /**
   * INV de-duplication across messages: the same INV handled twice requests its new hashes
   * the first time and nothing, leaving the known hashes alone, the second time.
   */
  method InvTwice(st: NodeState, from: Address, inv: seq<string>)
    returns (first: seq<Effect>, second: seq<Effect>, st': NodeState)
    ensures second == []
    ensures first == [] <==> forall h :: h in inv ==> h in st.knownTxHashes
    ensures forall h :: h in inv ==> h in st'.knownTxHashes
  {
    var r1 := HandleMessage(st, from, Inv(inv));
    var r2 := HandleMessage(r1.0, from, Inv(inv));
    first, second, st' := r1.1, r2.1, r2.0;
  }

  // ---------------------------------------------------------------------------
  // Reading a packet

  /** One frame: handled when the parser accepts it, dropped otherwise. */
  function HandleFrame(st: NodeState, from: Address, frame: string, parse: string -> Option<Message>)
    : (r: (NodeState, seq<Effect>))
  {
    match parse(frame)
    case None => (st, [])
    case Some(m) => HandleMessage(st, from, m)
  }

  /**
   * The frames of one read, handled in order: each frame sees the state the frames before it
   * left, and the effects come out in frame order.
   */
  function HandleFrames(st: NodeState, from: Address, frames: seq<string>, parse: string -> Option<Message>)
    : (r: (NodeState, seq<Effect>))
    ensures r.0.bufferedData == st.bufferedData
    ensures st.knownTxHashes <= r.0.knownTxHashes
    ensures (forall i :: 0 <= i < |frames| ==> parse(frames[i]).None? || !parse(frames[i]).value.Inv?) ==>
              r.0.knownTxHashes == st.knownTxHashes
    decreases |frames|
  {
    if |frames| == 0 then (st, [])
    else
      var before := HandleFrames(st, from, frames[..|frames| - 1], parse);
      var last := HandleFrame(before.0, from, frames[|frames| - 1], parse);
      (last.0, before.1 + last.1)
  }

  /** The frame loop of `HandleRead`, one frame at a time. */
  method HandleEachFrame(st: NodeState, from: Address, frames: seq<string>, parse: string -> Option<Message>)
    returns (st': NodeState, effects: seq<Effect>)
    ensures (st', effects) == HandleFrames(st, from, frames, parse)
  {
    st' := st;
    effects := [];
    var i := 0;
    while i < |frames|
      invariant 0 <= i <= |frames|
      invariant (st', effects) == HandleFrames(st, from, frames[..i], parse)
    {
      assert frames[..i + 1][..i] == frames[..i];
      var r := HandleFrame(st', from, frames[i], parse);
      st' := r.0;
      effects := effects + r.1;
      i := i + 1;
    }
    assert frames[..i] == frames;
  }

  /**
   * `HandleRead` for one packet from `from`: frames are cut from the sender's buffered data
   * plus the packet; each frame the parser accepts is handled in order, a frame it rejects is
   * dropped; the text after the last `'#'` is buffered for the next packet.
   */
  method HandleRead(st: NodeState, from: Address, packet: string, parse: string -> Option<Message>)
    returns (st': NodeState, effects: seq<Effect>, frames: seq<string>)
    ensures var total := (if from in st.bufferedData then st.bufferedData[from] else []) + Framing.CString(packet);
            && frames == Framing.Split(total).0
            && st'.bufferedData == st.bufferedData[from := Framing.Split(total).1]
            && Framing.IsSplitOf(frames, st'.bufferedData[from], total)
    ensures (st'.(bufferedData := st.bufferedData), effects) == HandleFrames(st, from, frames, parse)
    ensures st.knownTxHashes <= st'.knownTxHashes
    ensures (forall i :: 0 <= i < |frames| ==> parse(frames[i]).None? || !parse(frames[i]).value.Inv?) ==>
              st'.knownTxHashes == st.knownTxHashes
  {
    var buffered := if from in st.bufferedData then st.bufferedData[from] else [];
    var remainder;
    frames, remainder := Framing.ExtractFrames(buffered, packet);
    var handled;
    handled, effects := HandleEachFrame(st, from, frames, parse);
    st' := handled.(bufferedData := handled.bufferedData[from := remainder]);
    assert st'.(bufferedData := st.bufferedData) == handled;
  }

  // ---------------------------------------------------------------------------
  // Relay and filters

  /** `uint numberHash = std::hash<std::string>()(...)`: the hash truncated to 32 bits. */
  function NumberHash(hash: nat): (r: nat)
    ensures r < U32 && r % 8 == hash % 8
  {
    assert U32 == 8 * 0x2000_0000;
    hash % U32
  }

  /**
   * Whether filters-on-links lets a transaction through: a non-zero filter recorded for the
   * sender admits only hashes with that residue modulo 8.
   */
  predicate FilterAdmits(protocol: Protocol, senderFilter: nat, hash: nat) {
    !(protocol == FiltersOnLinks && senderFilter != 0 && NumberHash(hash) % 8 != senderFilter)
  }

  /**
   * The peers an INV for a new transaction is sent to, in peer order: none when the sender's
   * link filter rejects the hash, otherwise every peer except the sender's IP and the
   * blocks-only peers. `blocksOnly` is the node's blocks-only record as the relay looks it up
   * (absent means false).
   */
  function RelayTargets(peers: seq<nat>, from: Address, st: NodeState, protocol: Protocol,
                        blocksOnly: map<nat, bool>, hash: nat): (targets: seq<nat>)
    ensures |targets| <= |peers|
    ensures forall p :: p in targets <==>
              && p in peers && p != from.ip
              && !(p in blocksOnly && blocksOnly[p])
              && FilterAdmits(protocol, if from in st.filters then st.filters[from] else 0, hash)
  {
    if |peers| == 0 then []
    else
      var p := peers[0];
      var senderFilter := if from in st.filters then st.filters[from] else 0;
      var keep := FilterAdmits(protocol, senderFilter, hash) && !(p in blocksOnly && blocksOnly[p]) && p != from.ip;
      (if keep then [p] else []) + RelayTargets(peers[1..], from, st, protocol, blocksOnly, hash)
  }

  /** Under filters-on-links with filter `f` in 1..7 from the sender, exactly the hashes `== f` mod 8 go out. */
  lemma FilteredRelay(peers: seq<nat>, from: Address, st: NodeState, blocksOnly: map<nat, bool>, hash: nat)
    requires from in st.filters && 0 < st.filters[from] < 8
    requires exists p :: p in peers && p != from.ip && !(p in blocksOnly && blocksOnly[p])
    ensures RelayTargets(peers, from, st, FiltersOnLinks, blocksOnly, hash) != [] <==> hash % 8 == st.filters[from]
  {
    var p :| p in peers && p != from.ip && !(p in blocksOnly && blocksOnly[p]);
    var targets := RelayTargets(peers, from, st, FiltersOnLinks, blocksOnly, hash);
    assert |targets| > 0 ==> targets[0] in targets;
    assert hash % 8 == st.filters[from] ==> p in targets;
  }

  /**
   * `AnnounceFilters`: every peer is told a filter below 8 and the filters cycle through
   * 0, 1, ..., 7 in peer order (the `count++ % 8` counter).
   */
  function AnnounceFilters(peers: seq<nat>): (announced: seq<(nat, nat)>)
    ensures |announced| == |peers|
    ensures forall i :: 0 <= i < |peers| ==> announced[i].0 == peers[i] && announced[i].1 < 8
    ensures forall i :: 0 <= i < |peers| && i < 8 ==> announced[i].1 == i
    ensures forall i :: 8 <= i < |peers| ==> announced[i].1 == announced[i - 8].1
  {
    var announced := seq(|peers|, i requires 0 <= i < |peers| => (peers[i], i % 8));
    forall i | 8 <= i < |peers| ensures announced[i].1 == announced[i - 8].1 {
      Selection.DivModUnique(i, 8, (i - 8) / 8 + 1, (i - 8) % 8);
    }
    announced
  }

  /** Number of peers told filter `f`. */
  function PeersToldFilter(peers: seq<nat>, f: nat): nat {
    var announced := AnnounceFilters(peers);
    Selection.CountTrue(seq(|peers|, i requires 0 <= i < |peers| => announced[i].1 == f), |peers|)
  }

  /**
   * The filters are spread evenly: each of the eight values goes to `|peers| / 8` peers, one
   * more for the values below `|peers| % 8`.
   */
  lemma AnnouncedFiltersBalanced(peers: seq<nat>, f: nat)
    requires f < 8
    ensures PeersToldFilter(peers, f) == |peers| / 8 + (if f < |peers| % 8 then 1 else 0)
  {
    var announced := AnnounceFilters(peers);
    var told := seq(|peers|, i requires 0 <= i < |peers| => announced[i].1 == f);
    forall j | 0 <= j < |told| ensures told[j] <==> j % 8 == f {
      FilterIsIndexMod8(peers, j);
    }
    Selection.CountTrueResidue(told, |peers|, 8, f);
    Selection.CountResidueFormula(|peers|, 8, f);
  }

  /** The filter announced to the `j`-th peer is `j % 8`, from the cycle alone. */
  lemma {:induction false} FilterIsIndexMod8(peers: seq<nat>, j: nat)
    requires j < |peers|
    ensures AnnounceFilters(peers)[j].1 == j % 8
    decreases j
  {
    if j >= 8 {
      FilterIsIndexMod8(peers, j - 8);
      Selection.DivModUnique(j, 8, (j - 8) / 8 + 1, (j - 8) % 8);
    }
  }
}
