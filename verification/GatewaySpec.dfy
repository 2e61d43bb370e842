/** The gateway coordinator as a transition system on values: what every management request, uplink,
    expiry and pairing slice does to the registry, the peer table, the downlink queue, the link
    statistics and the pairing window, and the relations between them that no run breaks. */
module GatewaySpec {
  import opened Basics
  import opened SlotTable
  import opened Peers
  import opened DownlinkQueue

  type i8 = x: int | -128 <= x < 128

  const MGMT_OK: u8 := 0
  const MGMT_UNSUPPORTED: u8 := 1
  const MGMT_BAD_ARG: u8 := 2
  const MGMT_NOT_FOUND: u8 := 3
  const MGMT_FULL: u8 := 4
  const MGMT_BUSY: u8 := 5
  const MGMT_STORAGE: u8 := 6
  const MGMT_TIMEOUT: u8 := 7
  const FLAG_UNNAMED: u8 := 2
  const MAX_NAME := 16
  const DEFAULT_TTL_S: u16 := 3600
  const NEVER: u32 := 0xFFFF_FFFF
  const RSSI_NONE: i8 := 127

  /** One registered node, as persisted. */
  datatype Record = Record(key: Key, flags: u8, name: bytes)

  datatype Stat = Stat(seen: u32, rssi: i8, uplinks: u16)

  datatype Op =
    | Describe
    | NodeList
    | NodeAdd(addr: Addr, key: Key, name: bytes, flags: u8, txFloor: u32)
    | NodeRemove(addr: Addr)
    | NodeUpdate(addr: Addr, newName: Option<bytes>, newFlags: Option<u8>)
    | NodeRevealKey(addr: Addr)
    | PairingOpen(window: u16)
    | PairingCancel
    | QueuePush(node: Addr, ttl: u16, data: bytes)
    | QueueList(node: Addr)
    | QueueDrop(node: Addr, item: Option<u16>)
    | StatsConfig(period: u32)
    | NodeSide

  /** What the world outside decides while a request is handled: whether the EEPROM write took,
      whether the counter floor was made durable, whether an ephemeral key could be drawn, and the
      clock. */
  datatype Io = Io(stored: bool, raised: bool, prepared: bool, now: nat, nowS: u32)

  datatype NodeEntry = NodeEntry(flags: u8, name: bytes, lastSeen: u32, rssi: i8, uplinks: u16, queued: nat)

  datatype Body =
    | NoRecord
    | Device(addr: Addr, count: nat)
    | Nodes(entries: map<Addr, NodeEntry>)
    | Revealed(addr: Addr, key: Key)
    | QueueId(item: u16)
    | Items(items: seq<Item>)
    | Paired(addr: Addr)

  /** A final response: the request it answers (numbered over the boot), its id, result, records. */
  datatype Answer = Answer(request: nat, reqId: u16, code: u8, body: Body)

  /** How a queued downlink left the queue. */
  datatype Fate = Delivered | TimedOut | Dropped

  /** What the one loop owns. `fates` is history: the end of every item that left the queue. */
  datatype Assets = Assets(
    own: Addr,
    writable: bool,
    nodes: map<Addr, Record>,
    peers: map<Addr, Peer>,
    items: set<Item>,
    nextOrder: nat,
    stats: map<Addr, Stat>,
    fates: map<nat, Fate>)

  /** Requests and responses of a boot. `pairing` is the open window's request id, `windowReq` the
      number of that request. */
  datatype Ledger = Ledger(pairing: Option<u16>, windowReq: nat, asked: seq<u16>, answers: seq<Answer>)

  datatype View = View(assets: Assets, ledger: Ledger, period: u32)

  // ---- what happens to the assets ----------------------------------------------------

  /** Register a node or overwrite its record; a known peer keeps its pending flag. */
  function Added(s: Assets, a: Addr, r: Record): Assets {
    s.(nodes := s.nodes[a := r], peers := s.peers[a := Peer(r.key, a in s.peers && s.peers[a].pending)])
  }

  function Fated(fates: map<nat, Fate>, gone: set<Item>, how: Fate): map<nat, Fate> {
    fates + map it | it in gone :: it.order := how
  }

  /** Items leave the queue. */
  function Gone(s: Assets, gone: set<Item>, how: Fate): Assets {
    s.(items := s.items - gone, fates := Fated(s.fates, gone, how))
  }

  function Removed(s: Assets, a: Addr): Assets {
    Gone(s.(nodes := s.nodes - {a}, peers := s.peers - {a}, stats := s.stats - {a}), ForNode(s.items, a), Dropped)
  }

  function Named(r: Record, name: Option<bytes>, flags: Option<u8>): Record {
    Record(r.key, if flags.Some? then flags.value else r.flags, if name.Some? then name.value else r.name)
  }

  function Renamed(s: Assets, a: Addr, name: Option<bytes>, flags: Option<u8>): Assets
    requires a in s.nodes
  {
    s.(nodes := s.nodes[a := Named(s.nodes[a], name, flags)])
  }

  /** The node's flag follows its queue. */
  function Refreshed(s: Assets, node: Addr): Assets {
    s.(peers := WithPending(s.peers, node, HasFor(s.items, node)))
  }

  function Pushed(s: Assets, it: Item): Assets {
    s.(items := s.items + {it}, nextOrder := s.nextOrder + 1, peers := WithPending(s.peers, it.node, true))
  }

  function Clamp8(x: int): (r: i8)
    ensures -128 <= x <= 127 ==> r == x
  {
    if x < -128 then -128 else if x > 127 then 127 else x
  }

  /** The link statistics after an uplink of `src`. */
  function Counted(s: Assets, src: Addr, rssi: int, nowS: u32): Assets {
    var n := if src !in s.stats then 0 else s.stats[src].uplinks;
    s.(stats := s.stats[src := Stat(nowS, Clamp8(rssi), if n == 0xFFFF then 0xFFFF else n + 1)])
  }

  function Reflagged(peers: map<Addr, Peer>, gone: set<Item>, left: set<Item>): map<Addr, Peer> {
    map a | a in peers :: if HasFor(gone, a) then peers[a].(pending := HasFor(left, a)) else peers[a]
  }

  /** Expiry: the flag of every node that lost an item follows its queue. */
  function Expiry(s: Assets, now: nat): Assets {
    var gone := s.items - Live(s.items, now);
    Gone(s, gone, TimedOut).(peers := Reflagged(s.peers, gone, s.items - gone))
  }

  // ---- what happens to the ledger ----------------------------------------------------

  function Asked(l: Ledger, reqId: u16): Ledger {
    l.(asked := l.asked + [reqId])
  }

  /** The final response to the request asked last. */
  function Answered(l: Ledger, code: u8, body: Body): Ledger
    requires l.asked != []
  {
    l.(answers := l.answers + [Answer(|l.asked| - 1, l.asked[|l.asked| - 1], code, body)])
  }

  /** The request asked last opens the window: its response is delayed. */
  function Opened(l: Ledger): Ledger
    requires l.asked != []
  {
    l.(pairing := Some(l.asked[|l.asked| - 1]), windowReq := |l.asked| - 1)
  }

  /** The delayed response: the window closes. */
  function Resolved(l: Ledger, code: u8, body: Body): Ledger
    requires l.pairing.Some?
  {
    l.(pairing := None, answers := l.answers + [Answer(l.windowReq, l.pairing.value, code, body)])
  }

  // ---- transitions -------------------------------------------------------------------

  /** `w` is `v` with the assets changed to `s` and the current request answered. */
  ghost predicate Replies(v: View, s: Assets, code: u8, body: Body, w: View)
    requires v.ledger.asked != []
  {
    w == v.(assets := s, ledger := Answered(v.ledger, code, body))
  }

  function EntryOf(s: Assets, a: Addr, nowS: u32): NodeEntry
    requires a in s.nodes
  {
    var r := s.nodes[a];
    if a in s.stats then
      var st := s.stats[a];
      NodeEntry(r.flags, r.name, if nowS <= st.seen then 0 else nowS - st.seen, st.rssi, st.uplinks, CountFor(s.items, a))
    else NodeEntry(r.flags, r.name, NEVER, RSSI_NONE, 0, CountFor(s.items, a))
  }

  function Entries(s: Assets, nowS: u32): map<Addr, NodeEntry> {
    map a | a in s.nodes :: EntryOf(s, a, nowS)
  }

  /** The items a `QueueDrop` takes. */
  function Chosen(items: set<Item>, node: Addr, item: Option<u16>): set<Item> {
    set it | it in items && it.node == node && (item == None || item == Some(it.id))
  }

  ghost predicate Lists(items: set<Item>, node: Addr, listing: seq<Item>) {
    && (forall it :: it in listing <==> it in items && (node == 0 || it.node == node))
    && (forall i, j :: 0 <= i < j < |listing| ==> listing[i] != listing[j])
  }

  ghost predicate HandlesNodeOp(v: View, op: Op, io: Io, w: View)
    requires v.ledger.asked != [] && (op.NodeAdd? || op.NodeRemove? || op.NodeUpdate? || op.NodeRevealKey?)
  {
    var s := v.assets;
    match op
    case NodeAdd(a, key, name, flags, floor) =>
      if !PeerAddrValid(a, s.own) || |name| > MAX_NAME || floor == 0xFFFF_FFFF then Replies(v, s, MGMT_BAD_ARG, NoRecord, w)
      else if !io.raised then Replies(v, s, MGMT_STORAGE, NoRecord, w)
      else if a !in s.nodes && |s.nodes| >= CAPACITY then Replies(v, s, MGMT_FULL, NoRecord, w)
      else if !io.stored then Replies(v, s, MGMT_STORAGE, NoRecord, w)
      else Replies(v, Added(s, a, Record(key, flags, name)), MGMT_OK, NoRecord, w)
    case NodeRemove(a) =>
      if a !in s.nodes then Replies(v, s, MGMT_NOT_FOUND, NoRecord, w)
      else if !io.stored then Replies(v, s, MGMT_STORAGE, NoRecord, w)
      else Replies(v, Removed(s, a), MGMT_OK, NoRecord, w)
    case NodeUpdate(a, name, flags) =>
      if name.Some? && |name.value| > MAX_NAME then Replies(v, s, MGMT_BAD_ARG, NoRecord, w)
      else if a !in s.nodes then Replies(v, s, MGMT_NOT_FOUND, NoRecord, w)
      else if !io.stored then Replies(v, s, MGMT_STORAGE, NoRecord, w)
      else Replies(v, Renamed(s, a, name, flags), MGMT_OK, NoRecord, w)
    case NodeRevealKey(a) =>
      if a !in s.nodes then Replies(v, s, MGMT_NOT_FOUND, NoRecord, w)
      else Replies(v, s, MGMT_OK, Revealed(a, s.nodes[a].key), w)
  }

  /** The item a push makes; its id is any that no queued item holds. */
  function NewItem(s: Assets, id: u16, node: Addr, ttl: u16, data: bytes, now: nat): Item {
    Item(id, node, now, if ttl == 0 then DEFAULT_TTL_S else ttl, s.nextOrder, data)
  }

  ghost predicate HandlesQueueOp(v: View, op: Op, io: Io, w: View)
    requires v.ledger.asked != [] && (op.QueuePush? || op.QueueList? || op.QueueDrop?)
  {
    var s := v.assets;
    match op
    case QueuePush(n, ttl, data) =>
      if n !in s.nodes then Replies(v, s, MGMT_NOT_FOUND, NoRecord, w)
      else if data == [] || |data| > MAX_ITEM then Replies(v, s, MGMT_BAD_ARG, NoRecord, w)
      else if CountFor(s.items, n) >= PER_NODE_CAP || |s.items| >= QUEUE_CAP then Replies(v, s, MGMT_FULL, NoRecord, w)
      else exists id: u16 ::
        id != 0 && id !in Ids(s.items) && Replies(v, Pushed(s, NewItem(s, id, n, ttl, data, io.now)), MGMT_OK, QueueId(id), w)
    case QueueList(n) =>
      exists listing :: Lists(s.items, n, listing) && Replies(v, s, MGMT_OK, Items(listing), w)
    case QueueDrop(n, item) =>
      var gone := Chosen(s.items, n, item);
      Replies(v, Refreshed(Gone(s, gone, Dropped), n), if gone == {} then MGMT_NOT_FOUND else MGMT_OK, NoRecord, w)
  }

  ghost predicate HandlesPairingOp(v: View, op: Op, io: Io, w: View)
    requires v.ledger.asked != [] && (op.PairingOpen? || op.PairingCancel?)
  {
    var s, l := v.assets, v.ledger;
    match op
    case PairingOpen(window) =>
      if l.pairing.Some? then Replies(v, s, MGMT_BUSY, NoRecord, w)
      else if window == 0 then Replies(v, s, MGMT_BAD_ARG, NoRecord, w)
      else if |s.nodes| >= CAPACITY then Replies(v, s, MGMT_FULL, NoRecord, w)
      else if !io.prepared then Replies(v, s, MGMT_UNSUPPORTED, NoRecord, w)
      else w == v.(ledger := Opened(l))
    case PairingCancel =>
      w == v.(ledger := Answered(if l.pairing.Some? then Resolved(l, MGMT_TIMEOUT, NoRecord) else l, MGMT_OK, NoRecord))
  }

  /** One management request, already counted in `v.ledger.asked`. */
  ghost predicate Handles(v: View, op: Op, io: Io, w: View)
    requires v.ledger.asked != []
  {
    var s := v.assets;
    if !s.writable && (op.NodeAdd? || op.PairingOpen?) then Replies(v, s, MGMT_STORAGE, NoRecord, w)
    else match op
      case Describe => Replies(v, s, MGMT_OK, Device(s.own, |s.nodes|), w)
      case NodeList => Replies(v, s, MGMT_OK, Nodes(Entries(s, io.nowS)), w)
      case StatsConfig(period) => Replies(v.(period := period), s, MGMT_OK, NoRecord, w)
      case NodeSide => Replies(v, s, MGMT_UNSUPPORTED, NoRecord, w)
      case NodeAdd(_, _, _, _, _) => HandlesNodeOp(v, op, io, w)
      case NodeRemove(_) => HandlesNodeOp(v, op, io, w)
      case NodeUpdate(_, _, _) => HandlesNodeOp(v, op, io, w)
      case NodeRevealKey(_) => HandlesNodeOp(v, op, io, w)
      case QueuePush(_, _, _) => HandlesQueueOp(v, op, io, w)
      case QueueList(_) => HandlesQueueOp(v, op, io, w)
      case QueueDrop(_, _) => HandlesQueueOp(v, op, io, w)
      case PairingOpen(_) => HandlesPairingOp(v, op, io, w)
      case PairingCancel => HandlesPairingOp(v, op, io, w)
  }

  /** One authenticated uplink of `src`; `acked` is whether a downlink sent to it was delivered. */
  ghost predicate Hears(s: Assets, src: Addr, rssi: int, now: nat, nowS: u32, acked: bool, t: Assets) {
    var u := Counted(s, src, rssi, nowS);
    if NoHead(s.items, src, now) || !acked then t == Refreshed(u, src)
    else exists head :: IsHead(s.items, src, now, head) && t == Refreshed(Gone(u, {head}, Delivered), src)
  }

  datatype PairedPeer = PairedPeer(addr: Addr, key: Key)

  /** What the radio's pairing host hands up: an address it may admit, and no known peer. */
  ghost predicate Admitted(s: Assets, joined: Option<PairedPeer>) {
    joined.Some? ==> PeerAddrValid(joined.value.addr, s.own) && joined.value.addr !in s.peers
  }

  ghost predicate Commits(v: View, p: PairedPeer, stored: bool, w: View)
    requires v.ledger.pairing.Some?
  {
    var s, l := v.assets, v.ledger;
    if p.addr in s.nodes then w == v.(ledger := Resolved(l, MGMT_BAD_ARG, NoRecord))
    else if |s.nodes| >= CAPACITY then w == v.(ledger := Resolved(l, MGMT_FULL, NoRecord))
    else if !stored then w == v.(ledger := Resolved(l, MGMT_STORAGE, NoRecord))
    else w == v.(assets := Added(s, p.addr, Record(p.key, FLAG_UNNAMED, [])), ledger := Resolved(l, MGMT_OK, Paired(p.addr)))
  }

  /** One slice of the pairing window, if one is open. */
  ghost predicate Slices(v: View, ended: bool, joined: Option<PairedPeer>, stored: bool, w: View) {
    var l := v.ledger;
    if l.pairing.None? then w == v
    else if |v.assets.nodes| >= CAPACITY then w == v.(ledger := Resolved(l, MGMT_FULL, NoRecord))
    else if ended then w == v.(ledger := Resolved(l, MGMT_TIMEOUT, NoRecord))
    else if joined.None? then w == v
    else Commits(v, joined.value, stored, w)
  }

  datatype Event =
    | Request(reqId: u16, op: Op, io: Io)
    | Uplink(src: Addr, rssi: int, now: nat, nowS: u32, acked: bool)
    | Housekeeping(now: nat)
    | PairSlice(ended: bool, joined: Option<PairedPeer>, stored: bool)

  ghost predicate StepBy(v: View, e: Event, w: View) {
    match e
    case Request(reqId, op, io) =>
      (io.stored ==> v.assets.writable) && Handles(v.(ledger := Asked(v.ledger, reqId)), op, io, w)
    case Uplink(src, rssi, now, nowS, acked) =>
      src in v.assets.peers && w == v.(assets := w.assets) && Hears(v.assets, src, rssi, now, nowS, acked, w.assets)
    case Housekeeping(now) =>
      w == v.(assets := Expiry(v.assets, now))
    case PairSlice(ended, joined, stored) =>
      Admitted(v.assets, joined) && (stored ==> v.assets.writable) && Slices(v, ended, joined, stored, w)
  }

  // ---- the coupling of registry, peer table, flags, queue and statistics -------------

  /** The peer table is the registry's mirror: the same addresses, all admissible, the same keys. */
  ghost predicate Mirror(own: Addr, nodes: map<Addr, Record>, peers: map<Addr, Peer>) {
    && peers.Keys == nodes.Keys
    && forall a :: a in nodes ==> peers[a].key == nodes[a].key && PeerAddrValid(a, own)
  }

  /** A node is flagged exactly when something waits for it. */
  ghost predicate Flagged(peers: map<Addr, Peer>, items: set<Item>) {
    forall a :: a in peers ==> (peers[a].pending <==> HasFor(items, a))
  }

  ghost predicate Owned(items: set<Item>, nodes: map<Addr, Record>) {
    forall it :: it in items ==> it.node in nodes
  }

  ghost predicate Sized(writable: bool, nodes: map<Addr, Record>) {
    |nodes| <= CAPACITY && (!writable ==> nodes == map[])
  }

  ghost predicate Coupled(s: Assets) {
    && Mirror(s.own, s.nodes, s.peers)
    && Flagged(s.peers, s.items)
    && Owned(s.items, s.nodes)
    && s.stats.Keys <= s.nodes.Keys
    && Sized(s.writable, s.nodes)
    && WellFormed(s.items, s.nextOrder)
  }

  lemma SizedPut(writable: bool, nodes: map<Addr, Record>, a: Addr, r: Record)
    requires Sized(writable, nodes) && writable && (a in nodes || |nodes| < CAPACITY)
    ensures Sized(writable, nodes[a := r])
  {
  }

  lemma SizedDrop(writable: bool, nodes: map<Addr, Record>, a: Addr)
    requires Sized(writable, nodes)
    ensures Sized(writable, nodes - {a})
  {
  }

  lemma MirrorPut(own: Addr, nodes: map<Addr, Record>, peers: map<Addr, Peer>, a: Addr, r: Record, p: Peer)
    requires Mirror(own, nodes, peers) && PeerAddrValid(a, own) && p.key == r.key
    ensures Mirror(own, nodes[a := r], peers[a := p])
  {
  }

  lemma MirrorFlag(own: Addr, nodes: map<Addr, Record>, peers: map<Addr, Peer>, a: Addr, pending: bool)
    requires Mirror(own, nodes, peers)
    ensures Mirror(own, nodes, WithPending(peers, a, pending))
  {
  }

  lemma MirrorLeft(own: Addr, nodes: map<Addr, Record>, peers: map<Addr, Peer>, gone: set<Item>, left: set<Item>)
    requires Mirror(own, nodes, peers)
    ensures Mirror(own, nodes, Reflagged(peers, gone, left))
  {
  }

  lemma FlaggedLess(peers: map<Addr, Peer>, items: set<Item>, gone: set<Item>, node: Addr)
    requires Flagged(peers, items) && forall it :: it in gone ==> it.node == node
    ensures Flagged(WithPending(peers, node, HasFor(items - gone, node)), items - gone)
  {
  }

  lemma FlaggedMore(peers: map<Addr, Peer>, items: set<Item>, it: Item)
    requires Flagged(peers, items)
    ensures Flagged(WithPending(peers, it.node, true), items + {it})
  {
  }

  lemma FlaggedWithout(peers: map<Addr, Peer>, items: set<Item>, node: Addr)
    requires Flagged(peers, items)
    ensures Flagged(peers - {node}, items - ForNode(items, node))
  {
  }

  lemma FlaggedLeft(peers: map<Addr, Peer>, items: set<Item>, gone: set<Item>)
    requires Flagged(peers, items)
    ensures Flagged(Reflagged(peers, gone, items - gone), items - gone)
  {
  }

  lemma GoneCoupled(s: Assets, gone: set<Item>, how: Fate, node: Addr)
    requires Coupled(s) && gone <= s.items && forall it :: it in gone ==> it.node == node
    ensures Coupled(Refreshed(Gone(s, gone, how), node))
  {
    hide WellFormed, Mirror, Flagged, Sized, WithPending, HasFor, Fated;
    SubsetKeepsShape(s.items, s.items - gone, s.nextOrder);
    FlaggedLess(s.peers, s.items, gone, node);
    MirrorFlag(s.own, s.nodes, s.peers, node, HasFor(s.items - gone, node));
  }

  lemma SettledCoupled(s: Assets, node: Addr)
    requires Coupled(s)
    ensures Coupled(Refreshed(s, node))
  {
  }

  lemma MirrorDrop(own: Addr, nodes: map<Addr, Record>, peers: map<Addr, Peer>, a: Addr)
    requires Mirror(own, nodes, peers)
    ensures Mirror(own, nodes - {a}, peers - {a})
  {
  }

  lemma OwnedDrop(items: set<Item>, nodes: map<Addr, Record>, a: Addr)
    requires Owned(items, nodes)
    ensures Owned(items - ForNode(items, a), nodes - {a})
  {
  }

  lemma RemovedCoupled(s: Assets, a: Addr)
    requires Coupled(s)
    ensures Coupled(Removed(s, a))
  {
    hide WellFormed, Flagged, Sized, Fated, Mirror, Owned, ForNode;
    SubsetKeepsShape(s.items, s.items - ForNode(s.items, a), s.nextOrder);
    SizedDrop(s.writable, s.nodes, a);
    MirrorDrop(s.own, s.nodes, s.peers, a);
    OwnedDrop(s.items, s.nodes, a);
    FlaggedWithout(s.peers, s.items, a);
  }

  /** A node that is new has nothing queued. */
  lemma FlaggedPut(peers: map<Addr, Peer>, items: set<Item>, a: Addr, p: Peer)
    requires Flagged(peers, items) && (a !in peers ==> !HasFor(items, a))
    requires p.pending == (a in peers && peers[a].pending)
    ensures Flagged(peers[a := p], items)
  {
  }

  lemma AddedCoupled(s: Assets, a: Addr, r: Record)
    requires Coupled(s) && s.writable && (a in s.nodes || |s.nodes| < CAPACITY) && PeerAddrValid(a, s.own)
    ensures Coupled(Added(s, a, r))
  {
    hide WellFormed, Sized, Flagged;
    var p := Peer(r.key, a in s.peers && s.peers[a].pending);
    SizedPut(s.writable, s.nodes, a, r);
    MirrorPut(s.own, s.nodes, s.peers, a, r, p);
    assert s.peers.Keys == s.nodes.Keys;
    hide Mirror;
    FlaggedPut(s.peers, s.items, a, p);
  }

  lemma RenamedCoupled(s: Assets, a: Addr, name: Option<bytes>, flags: Option<u8>)
    requires Coupled(s) && a in s.nodes
    ensures Coupled(Renamed(s, a, name, flags))
  {
  }

  lemma PushedCoupled(s: Assets, it: Item)
    requires Coupled(s) && it.node in s.nodes && 0 < |it.data| <= MAX_ITEM && it.order == s.nextOrder
    requires it.id != 0 && it.id !in Ids(s.items)
    requires CountFor(s.items, it.node) < PER_NODE_CAP && |s.items| < QUEUE_CAP
    ensures Coupled(Pushed(s, it))
  {
    hide WellFormed, CountFor, Flagged, Mirror, Sized, WithPending;
    PushKeepsShape(s.items, it, s.nextOrder);
    FlaggedMore(s.peers, s.items, it);
    MirrorFlag(s.own, s.nodes, s.peers, it.node, true);
  }

  lemma CountedCoupled(s: Assets, src: Addr, rssi: int, nowS: u32)
    requires Coupled(s) && src in s.peers
    ensures Coupled(Counted(s, src, rssi, nowS))
  {
  }

  lemma HearsCoupled(s: Assets, src: Addr, rssi: int, now: nat, nowS: u32, acked: bool, t: Assets)
    requires Coupled(s) && src in s.peers && Hears(s, src, rssi, now, nowS, acked, t)
    ensures Coupled(t)
  {
    hide Coupled, NoHead, Expired;
    var u := Counted(s, src, rssi, nowS);
    CountedCoupled(s, src, rssi, nowS);
    if NoHead(s.items, src, now) || !acked {
      SettledCoupled(u, src);
    } else {
      var head :| IsHead(s.items, src, now, head) && t == Refreshed(Gone(u, {head}, Delivered), src);
      GoneCoupled(u, {head}, Delivered, src);
    }
  }

  lemma ExpiryCoupled(s: Assets, now: nat)
    requires Coupled(s)
    ensures Coupled(Expiry(s, now))
  {
    hide WellFormed, Live, Fated, Sized, Flagged, HasFor, Reflagged, Mirror;
    var gone := s.items - Live(s.items, now);
    MirrorLeft(s.own, s.nodes, s.peers, gone, s.items - gone);
    SubsetKeepsShape(s.items, s.items - gone, s.nextOrder);
    FlaggedLeft(s.peers, s.items, gone);
  }

  lemma NodeOpCoupled(v: View, op: Op, io: Io, w: View)
    requires Coupled(v.assets) && v.ledger.asked != [] && (io.stored ==> v.assets.writable)
    requires op.NodeAdd? || op.NodeRemove? || op.NodeUpdate? || op.NodeRevealKey?
    requires HandlesNodeOp(v, op, io, w)
    ensures Coupled(w.assets)
  {
    hide Coupled, Added, Removed, Renamed;
    if w.assets != v.assets {
      match op
      case NodeAdd(a, key, name, flags, _) => AddedCoupled(v.assets, a, Record(key, flags, name));
      case NodeRemove(a) => RemovedCoupled(v.assets, a);
      case NodeUpdate(a, name, flags) => RenamedCoupled(v.assets, a, name, flags);
    }
  }

  lemma QueueOpCoupled(v: View, op: Op, io: Io, w: View)
    requires Coupled(v.assets) && v.ledger.asked != []
    requires op.QueuePush? || op.QueueList? || op.QueueDrop?
    requires HandlesQueueOp(v, op, io, w)
    ensures Coupled(w.assets)
  {
    hide Coupled, CountFor, Pushed, Refreshed, Gone, Ids;
    var s := v.assets;
    match op
    case QueuePush(n, ttl, data) =>
      if n in s.nodes && 0 < |data| <= MAX_ITEM && CountFor(s.items, n) < PER_NODE_CAP && |s.items| < QUEUE_CAP {
        var id: u16 :| id != 0 && id !in Ids(s.items)
          && Replies(v, Pushed(s, NewItem(s, id, n, ttl, data, io.now)), MGMT_OK, QueueId(id), w);
        PushedCoupled(s, NewItem(s, id, n, ttl, data, io.now));
      }
    case QueueList(_) =>
    case QueueDrop(n, item) =>
      GoneCoupled(s, Chosen(s.items, n, item), Dropped, n);
  }

  lemma HandlesCoupled(v: View, op: Op, io: Io, w: View)
    requires Coupled(v.assets) && v.ledger.asked != [] && (io.stored ==> v.assets.writable) && Handles(v, op, io, w)
    ensures Coupled(w.assets)
  {
    hide Coupled, Entries, HandlesQueueOp, HandlesNodeOp;
    if v.assets.writable || !(op.NodeAdd? || op.PairingOpen?) {
      if op.NodeAdd? || op.NodeRemove? || op.NodeUpdate? || op.NodeRevealKey? {
        NodeOpCoupled(v, op, io, w);
      } else if op.QueuePush? || op.QueueList? || op.QueueDrop? {
        QueueOpCoupled(v, op, io, w);
      }
    }
  }

  lemma SlicesCoupled(v: View, ended: bool, joined: Option<PairedPeer>, stored: bool, w: View)
    requires Coupled(v.assets) && Admitted(v.assets, joined) && (stored ==> v.assets.writable)
    requires Slices(v, ended, joined, stored, w)
    ensures Coupled(w.assets)
  {
  }

  lemma StepCoupled(v: View, e: Event, w: View)
    requires Coupled(v.assets) && StepBy(v, e, w)
    ensures Coupled(w.assets)
  {
    hide Coupled, Handles, Hears, Slices, Expiry;
    match e
    case Request(reqId, op, io) => HandlesCoupled(v.(ledger := Asked(v.ledger, reqId)), op, io, w);
    case Uplink(src, rssi, now, nowS, acked) => HearsCoupled(v.assets, src, rssi, now, nowS, acked, w.assets);
    case Housekeeping(now) => ExpiryCoupled(v.assets, now);
    case PairSlice(ended, joined, stored) => SlicesCoupled(v, ended, joined, stored, w);
  }

  // ---- conservation of requests and responses ----------------------------------------

  function Serials(answers: seq<Answer>): set<nat> {
    set a | a in answers :: a.request
  }

  /** Request `k` holds the pairing window open. */
  predicate Waits(l: Ledger, k: nat) {
    l.pairing.Some? && k == l.windowReq
  }

  /** The requests that must have been answered: all but the one holding the window open. */
  function Due(l: Ledger): set<nat> {
    set k | 0 <= k < |l.asked| && !Waits(l, k)
  }

  ghost predicate Conserved(l: Ledger) {
    && Serials(l.answers) == Due(l)
    && |l.answers| + (if l.pairing.Some? then 1 else 0) == |l.asked|
    && (forall a :: a in l.answers ==> a.request < |l.asked| && l.asked[a.request] == a.reqId)
    && (l.pairing.Some? ==> l.windowReq < |l.asked| && l.asked[l.windowReq] == l.pairing.value)
  }

  lemma SerialsSnoc(answers: seq<Answer>, a: Answer)
    ensures Serials(answers + [a]) == Serials(answers) + {a.request}
  {
  }

  lemma AnswerConserves(l: Ledger, reqId: u16, code: u8, body: Body)
    requires Conserved(l)
    ensures Conserved(Answered(Asked(l, reqId), code, body))
  {
    var w := Answered(Asked(l, reqId), code, body);
    SerialsSnoc(l.answers, w.answers[|l.answers|]);
    assert Due(w) == Due(l) + {|l.asked|};
  }

  lemma ResolveConserves(l: Ledger, code: u8, body: Body)
    requires Conserved(l) && l.pairing.Some?
    ensures Conserved(Resolved(l, code, body))
  {
    var w := Resolved(l, code, body);
    SerialsSnoc(l.answers, w.answers[|l.answers|]);
    assert Due(w) == Due(l) + {l.windowReq};
  }

  lemma OpenConserves(l: Ledger, reqId: u16)
    requires Conserved(l) && l.pairing.None?
    ensures Conserved(Opened(Asked(l, reqId)))
  {
  }

  /** A cancel resolves the open window and then answers itself. */
  lemma CancelConserves(l: Ledger, reqId: u16)
    requires Conserved(l) && l.pairing.Some?
    ensures Conserved(Answered(Resolved(Asked(l, reqId), MGMT_TIMEOUT, NoRecord), MGMT_OK, NoRecord))
  {
    ResolveConserves(l, MGMT_TIMEOUT, NoRecord);
    AnswerConserves(Resolved(l, MGMT_TIMEOUT, NoRecord), reqId, MGMT_OK, NoRecord);
    hide Conserved;
    assert Resolved(Asked(l, reqId), MGMT_TIMEOUT, NoRecord) == Asked(Resolved(l, MGMT_TIMEOUT, NoRecord), reqId);
  }

  /** What a handled request adds to the ledger. */
  lemma HandlesLedger(v: View, op: Op, io: Io, w: View)
    requires v.ledger.asked != [] && Handles(v, op, io, w)
    ensures (exists code, body :: w.ledger == Answered(v.ledger, code, body))
      || (op.PairingOpen? && v.ledger.pairing.None? && w.ledger == Opened(v.ledger))
      || (op.PairingCancel? && v.ledger.pairing.Some?
          && w.ledger == Answered(Resolved(v.ledger, MGMT_TIMEOUT, NoRecord), MGMT_OK, NoRecord))
  {
  }

  lemma StepConserves(v: View, e: Event, w: View)
    requires Conserved(v.ledger) && StepBy(v, e, w)
    ensures Conserved(w.ledger)
  {
    var l := v.ledger;
    match e
    case Request(reqId, op, io) =>
      hide Conserved, Handles;
      HandlesLedger(v.(ledger := Asked(l, reqId)), op, io, w);
      if op.PairingOpen? && l.pairing.None? && w.ledger == Opened(Asked(l, reqId)) {
        OpenConserves(l, reqId);
      } else if code, body :| w.ledger == Answered(Asked(l, reqId), code, body) {
        AnswerConserves(l, reqId, code, body);
      } else {
        CancelConserves(l, reqId);
      }
    case PairSlice(ended, joined, stored) =>
      hide Conserved, Added;
      if w.ledger != l {
        var a := w.ledger.answers[|l.answers|];
        ResolveConserves(l, a.code, a.body);
      }
    case Uplink(_, _, _, _, _) => hide Hears;
    case Housekeeping(_) =>
  }

  // ---- conservation of queued items --------------------------------------------------

  /** Item number `k` is still queued. */
  ghost predicate Queued(items: set<Item>, k: nat) {
    exists it :: it in items && it.order == k
  }

  /** Every item ever queued either waits or met its fate. */
  ghost predicate Accounted(items: set<Item>, nextOrder: nat, fates: map<nat, Fate>) {
    forall k: nat :: (k in fates <==> k < nextOrder && !Queued(items, k)) && (Queued(items, k) ==> k < nextOrder)
  }

  ghost predicate DistinctOrders(items: set<Item>) {
    forall a, b :: a in items && b in items && a.order == b.order ==> a == b
  }

  /** A fate once met never changes. */
  ghost predicate Extends(before: map<nat, Fate>, after: map<nat, Fate>) {
    forall k :: k in before ==> k in after && after[k] == before[k]
  }

  lemma FatedKeys(fates: map<nat, Fate>, gone: set<Item>, how: Fate, k: nat)
    ensures k in Fated(fates, gone, how) <==> k in fates || Queued(gone, k)
    ensures Queued(gone, k) ==> Fated(fates, gone, how)[k] == how
    ensures !Queued(gone, k) && k in fates ==> Fated(fates, gone, how)[k] == fates[k]
  {
    var m := map it | it in gone :: it.order := how;
    assert k in m <==> Queued(gone, k);
  }

  lemma QueuedLess(items: set<Item>, gone: set<Item>, k: nat)
    requires DistinctOrders(items) && gone <= items
    ensures Queued(items - gone, k) <==> Queued(items, k) && !Queued(gone, k)
  {
    if Queued(items, k) && !Queued(gone, k) {
      var it :| it in items && it.order == k;
      assert it in items - gone;
    }
  }

  lemma GoneAccounted(items: set<Item>, nextOrder: nat, fates: map<nat, Fate>, gone: set<Item>, how: Fate)
    requires Accounted(items, nextOrder, fates) && DistinctOrders(items) && gone <= items
    ensures Accounted(items - gone, nextOrder, Fated(fates, gone, how))
    ensures Extends(fates, Fated(fates, gone, how))
  {
    hide Queued, Fated, DistinctOrders;
    forall k: nat ensures k in Fated(fates, gone, how) <==> k < nextOrder && !Queued(items - gone, k)
      ensures Queued(items - gone, k) ==> k < nextOrder
      ensures k in fates ==> k in Fated(fates, gone, how) && Fated(fates, gone, how)[k] == fates[k]
    {
      FatedKeys(fates, gone, how, k);
      QueuedLess(items, gone, k);
      if Queued(gone, k) {
        QueuedSubset(items, gone, k);
      }
    }
  }

  lemma QueuedSubset(items: set<Item>, gone: set<Item>, k: nat)
    requires gone <= items && Queued(gone, k)
    ensures Queued(items, k)
  {
  }

  lemma PushedAccounted(items: set<Item>, nextOrder: nat, fates: map<nat, Fate>, it: Item)
    requires Accounted(items, nextOrder, fates) && it.order == nextOrder
    ensures Accounted(items + {it}, nextOrder + 1, fates)
  {
    var more := items + {it};
    assert it in more;
    forall k: nat | k != nextOrder ensures Queued(more, k) <==> Queued(items, k) {
      if Queued(items, k) {
        QueuedSubset(more, items, k);
      }
    }
  }

  /** What a step does to the queue's books. */
  ghost predicate Booked(s: Assets, t: Assets) {
    || (t.items == s.items && t.nextOrder == s.nextOrder && t.fates == s.fates)
    || (exists gone, how :: gone <= s.items && t.items == s.items - gone && t.nextOrder == s.nextOrder && t.fates == Fated(s.fates, gone, how))
    || (exists it: Item :: it.order == s.nextOrder && t.items == s.items + {it} && t.nextOrder == s.nextOrder + 1 && t.fates == s.fates)
  }

  lemma SameBooks(s: Assets, t: Assets)
    requires t.items == s.items && t.nextOrder == s.nextOrder && t.fates == s.fates
    ensures Booked(s, t)
  {
  }

  lemma BookedGone(s: Assets, t: Assets, gone: set<Item>, how: Fate)
    requires gone <= s.items && t.items == s.items - gone && t.nextOrder == s.nextOrder && t.fates == Fated(s.fates, gone, how)
    ensures Booked(s, t)
  {
  }

  lemma BookedAccounted(s: Assets, t: Assets)
    requires Accounted(s.items, s.nextOrder, s.fates) && DistinctOrders(s.items) && Booked(s, t)
    ensures Accounted(t.items, t.nextOrder, t.fates) && Extends(s.fates, t.fates)
  {
    hide Accounted, DistinctOrders, Fated;
    if t.items == s.items && t.nextOrder == s.nextOrder && t.fates == s.fates {
    } else if gone, how :| gone <= s.items && t.items == s.items - gone && t.nextOrder == s.nextOrder && t.fates == Fated(s.fates, gone, how) {
      GoneAccounted(s.items, s.nextOrder, s.fates, gone, how);
    } else {
      var it: Item :| it.order == s.nextOrder && t.items == s.items + {it} && t.nextOrder == s.nextOrder + 1 && t.fates == s.fates;
      PushedAccounted(s.items, s.nextOrder, s.fates, it);
    }
  }

  lemma HandlesBooked(v: View, op: Op, io: Io, w: View)
    requires v.ledger.asked != [] && Handles(v, op, io, w)
    ensures Booked(v.assets, w.assets)
  {
    var s, t := v.assets, w.assets;
    if op.QueuePush? {
      hide CountFor, Ids, WithPending;
    } else if op.NodeRemove? {
      hide Fated, Booked;
      if op.addr in s.nodes && io.stored {
        BookedGone(s, t, ForNode(s.items, op.addr), Dropped);
      } else {
        SameBooks(s, t);
      }
    } else if op.QueueDrop? {
      hide Fated, Booked;
      BookedGone(s, t, Chosen(s.items, op.node, op.item), Dropped);
    } else {
      hide Booked, Fated;
      assert t.items == s.items && t.nextOrder == s.nextOrder && t.fates == s.fates by {
        hide Entries, Named;
      }
      SameBooks(s, t);
    }
  }

  lemma StepBooked(v: View, e: Event, w: View)
    requires StepBy(v, e, w)
    ensures Booked(v.assets, w.assets)
  {
    var s, t := v.assets, w.assets;
    match e
    case Request(reqId, op, io) =>
      hide Handles, Booked;
      HandlesBooked(v.(ledger := Asked(v.ledger, reqId)), op, io, w);
    case Uplink(src, rssi, now, nowS, acked) =>
      hide Fated, Booked, IsHead, NoHead;
      if NoHead(s.items, src, now) || !acked {
        SameBooks(s, t);
      } else {
        var head :| IsHead(s.items, src, now, head) && t == Refreshed(Gone(Counted(s, src, rssi, nowS), {head}, Delivered), src);
        assert head in s.items by { HeadIsQueued(s.items, src, now, head); }
        BookedGone(s, t, {head}, Delivered);
      }
    case Housekeeping(now) =>
      hide Fated, Booked, Reflagged, Live;
      BookedGone(s, t, s.items - Live(s.items, now), TimedOut);
    case PairSlice(ended, joined, stored) =>
      hide Booked;
      SameBooks(s, t);
  }

  lemma HeadIsQueued(items: set<Item>, node: Addr, now: nat, head: Item)
    requires IsHead(items, node, now, head)
    ensures head in items && head.node == node
  {
  }

  // ---- boot and runs -----------------------------------------------------------------

  /** The boot mirror: every record the peer table accepts. */
  function Installed(own: Addr, nodes: map<Addr, Record>): map<Addr, Peer> {
    map a | a in nodes && PeerAddrValid(a, own) :: Peer(nodes[a].key, false)
  }

  function Boot(own: Addr, writable: bool, nodes: map<Addr, Record>, period: u32): View {
    View(Assets(own, writable, nodes, Installed(own, nodes), {}, 0, map[], map[]), Ledger(None, 0, [], []), period)
  }

  /** The exact condition for a sound start: the gateway's own address can be changed under a
      registry that holds a node of that address, and then that node is in no peer table. */
  lemma BootCoupledIff(own: Addr, writable: bool, nodes: map<Addr, Record>, period: u32)
    requires Sized(writable, nodes)
    ensures Coupled(Boot(own, writable, nodes, period).assets) <==> forall a :: a in nodes ==> PeerAddrValid(a, own)
  {
  }

  /** It happens: a registry that holds the gateway's own address. */
  lemma OwnAddressUncouples(own: Addr, r: Record, period: u32)
    ensures Sized(true, map[own := r]) && !Coupled(Boot(own, true, map[own := r], period).assets)
  {
    assert |map[own := r]| == 1;
    BootCoupledIff(own, true, map[own := r], period);
    assert own in map[own := r] && !PeerAddrValid(own, own);
  }

  ghost predicate Next(v: View, w: View) {
    exists e :: StepBy(v, e, w)
  }

  ghost predicate BootState(v: View) {
    var s := v.assets;
    && Sized(s.writable, s.nodes) && (forall a :: a in s.nodes ==> PeerAddrValid(a, s.own))
    && v == Boot(s.own, s.writable, s.nodes, v.period)
  }

  ghost predicate Run(views: seq<View>) {
    && |views| > 0
    && BootState(views[0])
    && forall i :: 0 <= i < |views| - 1 ==> Next(views[i], views[i + 1])
  }

  ghost predicate Sound(v: View) {
    Coupled(v.assets) && Conserved(v.ledger) && Accounted(v.assets.items, v.assets.nextOrder, v.assets.fates)
  }

  lemma StepSound(v: View, e: Event, w: View)
    requires Sound(v) && StepBy(v, e, w)
    ensures Sound(w)
  {
    assert DistinctOrders(v.assets.items);
    hide Coupled, Conserved, Accounted, StepBy, DistinctOrders;
    StepCoupled(v, e, w);
    StepConserves(v, e, w);
    StepBooked(v, e, w);
    BookedAccounted(v.assets, w.assets);
  }

  /** Every reachable state: registry, peers, flags, queue and statistics agree, every request but
      the one behind an open window is answered, every item is accounted for. */
  lemma {:induction false} RunSound(views: seq<View>, i: nat)
    requires Run(views) && i < |views|
    ensures Sound(views[i])
  {
    hide Sound, StepBy;
    if i == 0 {
      var s := views[0].assets;
      BootSound(s.own, s.writable, s.nodes, views[0].period);
    } else {
      RunSound(views, i - 1);
      assert Next(views[i - 1], views[i - 1 + 1]);
      var e :| StepBy(views[i - 1], e, views[i]);
      StepSound(views[i - 1], e, views[i]);
    }
  }

  lemma BootSound(own: Addr, writable: bool, nodes: map<Addr, Record>, period: u32)
    requires Sized(writable, nodes) && forall a :: a in nodes ==> PeerAddrValid(a, own)
    ensures Sound(Boot(own, writable, nodes, period))
  {
    hide Coupled;
    BootCoupledIff(own, writable, nodes, period);
    var l := Boot(own, writable, nodes, period).ledger;
    assert Serials(l.answers) == {} && Due(l) == {};
  }

  // ---- what follows ------------------------------------------------------------------

  predicate AnsweredOnce(answers: seq<Answer>, k: nat) {
    exists i :: 0 <= i < |answers| && answers[i].request == k && forall j :: 0 <= j < |answers| && answers[j].request == k ==> j == i
  }

  /** In every run each request has exactly one final response, carrying its own request id; only the
      request behind an open pairing window has none yet. */
  lemma EachRequestAnsweredOnce(views: seq<View>, i: nat, k: nat)
    requires Run(views) && i < |views| && k < |views[i].ledger.asked|
    ensures var l := views[i].ledger;
      && (Waits(l, k) ==> forall a :: a in l.answers ==> a.request != k)
      && (!Waits(l, k) ==> AnsweredOnce(l.answers, k))
      && (forall a :: a in l.answers && a.request == k ==> a.reqId == l.asked[k])
  {
    RunSound(views, i);
    hide Coupled, Accounted, Run;
    ConservedOnce(views[i].ledger, k);
  }

  lemma ConservedOnce(l: Ledger, k: nat)
    requires Conserved(l) && k < |l.asked|
    ensures Waits(l, k) ==> forall a :: a in l.answers ==> a.request != k
    ensures !Waits(l, k) ==> AnsweredOnce(l.answers, k)
    ensures forall a :: a in l.answers && a.request == k ==> a.reqId == l.asked[k]
  {
    DueSize(l);
    assert k in Due(l) <==> !Waits(l, k);
    hide Due, Waits;
    if k in Serials(l.answers) {
      OnlyAnswer(l.answers, k);
    }
  }

  lemma OnlyAnswer(answers: seq<Answer>, k: nat)
    requires |Serials(answers)| == |answers| && k in Serials(answers)
    ensures AnsweredOnce(answers, k)
  {
    DistinctSerials(answers);
    var a :| a in answers && a.request == k;
    var j :| 0 <= j < |answers| && answers[j] == a;
    hide Serials;
  }

  lemma DueSize(l: Ledger)
    requires l.pairing.Some? ==> l.windowReq < |l.asked|
    ensures |Due(l)| + (if l.pairing.Some? then 1 else 0) == |l.asked|
  {
    if l.pairing.Some? {
      assert Below(|l.asked|) == Due(l) + {l.windowReq};
    } else {
      assert Below(|l.asked|) == Due(l);
    }
  }

  function Below(n: nat): (all: set<nat>)
    ensures forall k: nat :: k in all <==> k < n
    ensures |all| == n
  {
    if n == 0 then {} else Below(n - 1) + {n - 1}
  }

  lemma {:induction false} SerialsAtMost(answers: seq<Answer>)
    ensures |Serials(answers)| <= |answers|
  {
    if answers != [] {
      var init, last := answers[..|answers| - 1], answers[|answers| - 1];
      SerialsAtMost(init);
      SerialsSnoc(init, last);
      assert answers == init + [last];
    }
  }

  /** As many numbers as answers: no request is answered twice. */
  lemma {:induction false} DistinctSerials(answers: seq<Answer>)
    requires |Serials(answers)| == |answers|
    ensures forall i, j :: 0 <= i < j < |answers| ==> answers[i].request != answers[j].request
  {
    if answers != [] {
      var init, last := answers[..|answers| - 1], answers[|answers| - 1];
      SerialsAtMost(init);
      SerialsSnoc(init, last);
      assert answers == init + [last];
      DistinctSerials(init);
      assert last.request !in Serials(init);
      forall i | 0 <= i < |init| ensures answers[i].request != last.request {
        assert init[i] in init;
      }
    }
  }

  /** Delivered, expired or dropped: in every run an item is still queued or met exactly one fate,
      and that fate is final. */
  lemma EachItemOneFate(views: seq<View>, i: nat, k: nat)
    requires Run(views) && i < |views|
    ensures var s := views[i].assets; k < s.nextOrder <==> Queued(s.items, k) || k in s.fates
    ensures var s := views[i].assets; !(Queued(s.items, k) && k in s.fates)
    ensures i + 1 < |views| ==> Extends(views[i].assets.fates, views[i + 1].assets.fates)
  {
    RunSound(views, i);
    assert DistinctOrders(views[i].assets.items);
    if i + 1 < |views| {
      hide StepBy, Accounted, DistinctOrders, Coupled;
      assert Next(views[i], views[i + 1]);
      var e :| StepBy(views[i], e, views[i + 1]);
      StepBooked(views[i], e, views[i + 1]);
      BookedAccounted(views[i].assets, views[i + 1].assets);
    }
  }

  /** The pigeonhole of the statistics: as many slots as nodes, and only nodes hold one, so the first
      uplink of a node always finds a free slot. */
  lemma FirstUplinkFindsSlot(s: Assets, src: Addr)
    requires Coupled(s) && src in s.peers && src !in s.stats
    ensures |s.stats| < CAPACITY
  {
    hide WellFormed, Flagged, Owned;
    assert s.stats.Keys <= s.nodes.Keys - {src};
    Cardinality(s.stats.Keys, s.nodes.Keys - {src});
    assert |s.stats.Keys| == |s.stats| && |s.nodes.Keys| == |s.nodes|;
  }

  /** A join the radio completed is never refused as known or for lack of room: only a failed write
      can still lose it. */
  lemma CommitOnlyFailsOnStorage(v: View, ended: bool, p: PairedPeer, stored: bool, w: View)
    requires Coupled(v.assets) && Admitted(v.assets, Some(p)) && Slices(v, ended, Some(p), stored, w)
    requires v.ledger.pairing.Some? && |v.assets.nodes| < CAPACITY && !ended
    ensures w.ledger == Resolved(v.ledger, if stored then MGMT_OK else MGMT_STORAGE, if stored then Paired(p.addr) else NoRecord)
    ensures p.addr in w.assets.nodes <==> stored
    ensures stored ==> w.assets.nodes[p.addr].key == p.key && w.assets.peers[p.addr] == Peer(p.key, false)
    ensures forall a :: a in v.assets.nodes ==> a in w.assets.nodes && w.assets.nodes[a] == v.assets.nodes[a]
  {
  }

  /** Between `l` and `m` request `k` was answered. */
  predicate Answers(l: Ledger, m: Ledger, k: nat) {
    exists i :: |l.answers| <= i < |m.answers| && m.answers[i].request == k
  }

  /** The window answers nothing while it stays open, and every way it closes answers it. */
  lemma WindowAnswersOnClose(v: View, e: Event, w: View)
    requires Conserved(v.ledger) && v.ledger.pairing.Some? && StepBy(v, e, w)
    ensures w.ledger.pairing.None? <==> Answers(v.ledger, w.ledger, v.ledger.windowReq)
    ensures w.ledger.pairing.Some? ==> w.ledger.pairing == v.ledger.pairing && w.ledger.windowReq == v.ledger.windowReq
  {
    var l, m := v.ledger, w.ledger;
    var n := |l.answers|;
    match e
    case Request(reqId, op, io) =>
      hide Handles;
      HandlesLedger(v.(ledger := Asked(l, reqId)), op, io, w);
      if m.pairing.None? {
        assert m.answers[n].request == l.windowReq;
      }
    case PairSlice(_, _, _) =>
      hide Added;
      if m.pairing.None? {
        assert m.answers[n].request == l.windowReq;
      }
    case Uplink(_, _, _, _, _) => hide Hears;
    case Housekeeping(_) => hide Expiry;
  }

  /** The requests that may touch the record of `a`. */
  predicate Operates(e: Event, a: Addr) {
    e.Request? && ((e.op.NodeAdd? && e.op.addr == a) || (e.op.NodeRemove? && e.op.addr == a))
  }

  /** A registered node keeps its key through everything but a cable request about that very node: no
      join over the air ever re-keys it. */
  lemma KeyStays(v: View, e: Event, w: View, a: Addr)
    requires Coupled(v.assets) && StepBy(v, e, w) && a in v.assets.nodes && !Operates(e, a)
    ensures a in w.assets.nodes && w.assets.nodes[a].key == v.assets.nodes[a].key
  {
    hide Coupled, Entries, Lists, Fated, CountFor, Expiry, Refreshed, Ids;
    if e.Housekeeping? {
      assert Expiry(v.assets, e.now).nodes == v.assets.nodes by { ExpiryKeepsNodes(v.assets, e.now); }
    } else if e.Uplink? {
      HearsKeepsNodes(v.assets, e.src, e.rssi, e.now, e.nowS, e.acked, w.assets);
    } else if e.Request? && e.op.QueueDrop? {
      DropKeepsNodes(v.assets, Chosen(v.assets.items, e.op.node, e.op.item), e.op.node);
    }
  }

  lemma ExpiryKeepsNodes(s: Assets, now: nat)
    ensures Expiry(s, now).nodes == s.nodes
  {
  }

  lemma DropKeepsNodes(s: Assets, gone: set<Item>, node: Addr)
    ensures Refreshed(Gone(s, gone, Dropped), node).nodes == s.nodes
  {
  }

  lemma HearsKeepsNodes(s: Assets, src: Addr, rssi: int, now: nat, nowS: u32, acked: bool, t: Assets)
    requires Hears(s, src, rssi, now, nowS, acked, t)
    ensures t.nodes == s.nodes
  {
  }
}
