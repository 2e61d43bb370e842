/** The gateway application: one loop that owns the registry, the radio's peer table, the downlink
    queue, the link statistics and the pairing window. Every handler is proved to be a step of
    `GatewaySpec`, so everything proved there of runs holds of this program. */
module Gateway {
  import opened Basics
  import opened SlotTable
  import opened Peers
  import opened DownlinkQueue
  import opened GatewaySpec

  // ---- the parts ---------------------------------------------------------------------

  /** Link statistics per node, in RAM only. */
  class LinkStats {
    const table: Slots<Stat>

    constructor ()
      ensures fresh(table) && fresh(table.slots) && table.Valid() && table.Map() == map[]
    {
      table := new Slots();
    }

    /** A node without a slot gets the first free one, if there is one. */
    method OnUplink(addr: Addr, rssi: int, nowS: u32)
      requires table.Valid()
      modifies table.slots
      ensures table.Valid()
      ensures var m := old(table.Map());
        table.Map() ==
        if addr in m then m[addr := Stat(nowS, Clamp8(rssi), if m[addr].uplinks == 0xFFFF then 0xFFFF else m[addr].uplinks + 1)]
        else if |m| < CAPACITY then m[addr := Stat(nowS, Clamp8(rssi), 1)]
        else m
    {
      var slot := table.Find(addr);
      if slot.Some? {
        var n := table.slots[slot.value].value.value.uplinks;
        table.Write(slot.value, addr, Stat(nowS, Clamp8(rssi), if n == 0xFFFF then n else n + 1));
        return;
      }
      slot := table.FreeSlot();
      FullIffNoFreeSlot(table.slots[..]);
      if slot.Some? {
        table.Write(slot.value, addr, Stat(nowS, Clamp8(rssi), 1));
      }
    }

    method Get(addr: Addr) returns (st: Option<Stat>)
      requires table.Valid()
      ensures st == if addr in table.Map() then Some(table.Map()[addr]) else None
    {
      var slot := table.Find(addr);
      if slot.None? {
        return None;
      }
      return Some(table.slots[slot.value].value.value);
    }

    method Remove(addr: Addr)
      requires table.Valid()
      modifies table.slots
      ensures table.Valid() && table.Map() == old(table.Map()) - {addr}
    {
      table.Remove(addr);
    }
  }

  datatype RegistryError = NoRoom | NotFound | BadName | Exists | Storage
  datatype RegistryResult = Done | Refused(error: RegistryError)

  /** The persistent registry, as a map. `stored` is whether the EEPROM takes the write; under the
      format guard it never does. */
  class Registry {
    const writable: bool
    var nodes: map<Addr, Record>

    constructor (writable: bool, nodes: map<Addr, Record>)
      ensures this.writable == writable && this.nodes == nodes
    {
      this.writable, this.nodes := writable, nodes;
    }

    method Add(addr: Addr, rec: Record, stored: bool) returns (r: RegistryResult)
      modifies this
      ensures r == Refused(NoRoom) <==> addr !in old(nodes) && |old(nodes)| >= CAPACITY
      ensures r == Refused(Storage) <==> !stored && (addr in old(nodes) || |old(nodes)| < CAPACITY)
      ensures r == Done || r == Refused(NoRoom) || r == Refused(Storage)
      ensures nodes == if r == Done then old(nodes)[addr := rec] else old(nodes)
    {
      if addr !in nodes && |nodes| >= CAPACITY {
        return Refused(NoRoom);
      }
      if !stored {
        return Refused(Storage);
      }
      nodes := nodes[addr := rec];
      return Done;
    }

    /** Insert only: a registered address is never overwritten. */
    method AddNew(addr: Addr, rec: Record, stored: bool) returns (r: RegistryResult)
      modifies this
      ensures r == Refused(Exists) <==> addr in old(nodes)
      ensures r == Refused(NoRoom) <==> addr !in old(nodes) && |old(nodes)| >= CAPACITY
      ensures r == Refused(Storage) <==> !stored && addr !in old(nodes) && |old(nodes)| < CAPACITY
      ensures r.Done? || r.error.Exists? || r.error.NoRoom? || r.error.Storage?
      ensures nodes == if r == Done then old(nodes)[addr := rec] else old(nodes)
    {
      if addr in nodes {
        return Refused(Exists);
      }
      r := Add(addr, rec, stored);
    }

    method Remove(addr: Addr, stored: bool) returns (r: RegistryResult)
      modifies this
      ensures r == if addr !in old(nodes) then Refused(NotFound) else if !stored then Refused(Storage) else Done
      ensures nodes == if r == Done then old(nodes) - {addr} else old(nodes)
    {
      if addr !in nodes {
        return Refused(NotFound);
      }
      if !stored {
        return Refused(Storage);
      }
      nodes := nodes - {addr};
      return Done;
    }

    method Update(addr: Addr, name: Option<bytes>, flags: Option<u8>, stored: bool) returns (r: RegistryResult)
      modifies this
      ensures r == if addr !in old(nodes) then Refused(NotFound)
        else if name.Some? && |name.value| > MAX_NAME then Refused(BadName)
        else if !stored then Refused(Storage) else Done
      ensures r.Refused? ==> nodes == old(nodes)
      ensures r.Done? ==> nodes == old(nodes)[addr := Named(old(nodes)[addr], name, flags)]
    {
      if addr !in nodes {
        return Refused(NotFound);
      }
      if name.Some? && |name.value| > MAX_NAME {
        return Refused(BadName);
      }
      if !stored {
        return Refused(Storage);
      }
      nodes := nodes[addr := Named(nodes[addr], name, flags)];
      return Done;
    }
  }

  /** The boot mirror while the records of `rest` are still to come. */
  function InstalledBut(own: Addr, nodes: map<Addr, Record>, rest: set<Addr>): map<Addr, Peer> {
    map a | a in nodes && a !in rest && PeerAddrValid(a, own) :: Peer(nodes[a].key, false)
  }

  lemma RoomForOne(own: Addr, nodes: map<Addr, Record>, rest: set<Addr>, a: Addr)
    requires |nodes| <= CAPACITY && a in rest && rest <= nodes.Keys
    ensures |InstalledBut(own, nodes, rest)| < CAPACITY && a !in InstalledBut(own, nodes, rest)
    ensures InstalledBut(own, nodes, rest - {a}) ==
      if PeerAddrValid(a, own) then InstalledBut(own, nodes, rest)[a := Peer(nodes[a].key, false)] else InstalledBut(own, nodes, rest)
  {
    var m := InstalledBut(own, nodes, rest);
    assert m.Keys <= nodes.Keys - {a};
    Cardinality(m.Keys, nodes.Keys - {a});
    assert |m.Keys| == |m| && |nodes.Keys| == |nodes|;
  }

  // ---- the loop's state --------------------------------------------------------------

  class Coordinator {
    const own: Addr
    const registry: Registry
    const net: Net
    const queue: Queue
    const stats: LinkStats
    var pairing: Option<u16>
    var period: u32
    // history
    ghost var windowReq: nat
    ghost var asked: seq<u16>
    ghost var answers: seq<Answer>
    ghost var fates: map<nat, Fate>

    ghost function Footprint(): set<object> {
      {this, registry, net.table.slots, queue, queue.slots, stats.table.slots}
    }

    ghost predicate Valid()
      reads net.table.slots, queue, queue.slots, stats.table.slots
    {
      && net.own == own
      && net.table.Valid() && stats.table.Valid() && queue.Valid()
    }

    ghost function TheAssets(): Assets
      requires Valid()
      reads this`fates, registry, net.table.slots, queue, queue.slots, stats.table.slots
    {
      Assets(own, registry.writable, registry.nodes, net.table.Map(), queue.Items(), queue.nextOrder, stats.table.Map(), fates)
    }

    ghost function TheLedger(): Ledger
      reads this`pairing, this`windowReq, this`asked, this`answers
    {
      Ledger(pairing, windowReq, asked, answers)
    }

    ghost function TheView(): View
      requires Valid()
      reads this, registry, net.table.slots, queue, queue.slots, stats.table.slots
    {
      View(TheAssets(), TheLedger(), period)
    }

    /** Boot: mirror the registry into the peer table. Every admissible record fits, because the two
        have the same size. */
    constructor (own: Addr, writable: bool, nodes: map<Addr, Record>, period: u32)
      requires Sized(writable, nodes)
      ensures Valid() && TheView() == Boot(own, writable, nodes, period)
    {
      this.own := own;
      registry := new Registry(writable, nodes);
      net := new Net(own);
      queue := new Queue();
      stats := new LinkStats();
      pairing, this.period := None, period;
      windowReq, asked, answers, fates := 0, [], [], map[];
      new;
      var rest := nodes.Keys;
      while rest != {}
        invariant rest <= nodes.Keys && Valid()
        invariant net.table.Map() == InstalledBut(own, nodes, rest)
        invariant TheAssets().(peers := map[]) == Boot(own, writable, nodes, period).assets.(peers := map[])
        invariant TheLedger() == Boot(own, writable, nodes, period).ledger && this.period == period
        decreases rest
      {
        var a :| a in rest;
        RoomForOne(own, nodes, rest, a);
        var ok := net.AddPeer(a, nodes[a].key);
        rest := rest - {a};
      }
    }

    /** The request being handled is the one asked last. */
    ghost predicate Handling(reqId: u16)
      reads this`asked
    {
      asked != [] && asked[|asked| - 1] == reqId
    }

    /** The final response to the request being handled. */
    method Respond(reqId: u16, code: u8, body: Body)
      requires Handling(reqId)
      modifies this`answers
      ensures TheLedger() == Answered(old(TheLedger()), code, body)
    {
      answers := answers + [Answer(|asked| - 1, reqId, code, body)];
    }

    /** The delayed response of the window, which closes. */
    method Resolve(code: u8, body: Body)
      requires pairing.Some?
      modifies this`answers, this`pairing
      ensures TheLedger() == Resolved(old(TheLedger()), code, body)
    {
      answers := answers + [Answer(windowReq, pairing.value, code, body)];
      pairing := None;
    }

    // ---- management requests ---------------------------------------------------------

    /** Persist a record and install the peer; a full registry or a failed write changes nothing. */
    method Enrol(addr: Addr, rec: Record, stored: bool) returns (r: RegistryResult)
      requires Valid() && Coupled(TheAssets()) && PeerAddrValid(addr, own)
      modifies registry, net.table.slots
      ensures Valid()
      ensures var s := old(TheAssets());
        && r == (if addr !in s.nodes && |s.nodes| >= CAPACITY then Refused(NoRoom) else if !stored then Refused(Storage) else Done)
        && TheAssets() == if r == Done then Added(s, addr, rec) else s
    {
      hide WellFormed, Flagged, Owned, Slots.Map, InSlots;
      assert net.table.Map().Keys == registry.nodes.Keys;
      assert |net.table.Map()| == |registry.nodes| by {
        assert |net.table.Map().Keys| == |net.table.Map()| && |registry.nodes.Keys| == |registry.nodes|;
      }
      hide Coupled;
      r := registry.Add(addr, rec, stored);
      if r == Done {
        var ok := net.AddPeer(addr, rec.key);
      }
    }

    method NodeAdd(reqId: u16, op: Op, io: Io)
      requires Valid() && Coupled(TheAssets()) && Handling(reqId) && op.NodeAdd?
      modifies Footprint()
      ensures Valid() && HandlesNodeOp(old(TheView()), op, io, TheView())
    {
      hide Coupled, Added, WellFormed, Slots.Map, InSlots;
      if !PeerAddrValid(op.addr, own) || |op.name| > MAX_NAME || op.txFloor == 0xFFFF_FFFF {
        Respond(reqId, MGMT_BAD_ARG, NoRecord);
        return;
      }
      if !io.raised {
        Respond(reqId, MGMT_STORAGE, NoRecord);
        return;
      }
      var r := Enrol(op.addr, Record(op.key, op.flags, op.name), io.stored);
      match r
      case Done => Respond(reqId, MGMT_OK, NoRecord);
      case Refused(e) => Respond(reqId, if e.NoRoom? then MGMT_FULL else MGMT_STORAGE, NoRecord);
    }

    method NodeRemove(reqId: u16, op: Op, io: Io)
      requires Valid() && Handling(reqId) && op.NodeRemove?
      modifies Footprint()
      ensures Valid() && HandlesNodeOp(old(TheView()), op, io, TheView())
    {
      hide WellFormed, Slots.Map, InSlots;
      var r := registry.Remove(op.addr, io.stored);
      match r
      case Done =>
        net.RemovePeer(op.addr);
        ghost var gone := ForNode(queue.Items(), op.addr);
        var n := queue.DropNode(op.addr);
        stats.Remove(op.addr);
        fates := Fated(fates, gone, Dropped);
        assert TheAssets() == Removed(old(TheAssets()), op.addr);
        hide Removed, TheAssets;
        Respond(reqId, MGMT_OK, NoRecord);
      case Refused(e) => Respond(reqId, if e.NotFound? then MGMT_NOT_FOUND else MGMT_STORAGE, NoRecord);
    }

    method NodeUpdate(reqId: u16, op: Op, io: Io)
      requires Valid() && Handling(reqId) && op.NodeUpdate?
      modifies Footprint()
      ensures Valid() && HandlesNodeOp(old(TheView()), op, io, TheView())
    {
      hide WellFormed, Slots.Map, InSlots;
      if op.newName.Some? && |op.newName.value| > MAX_NAME {
        Respond(reqId, MGMT_BAD_ARG, NoRecord);
        return;
      }
      var r := registry.Update(op.addr, op.newName, op.newFlags, io.stored);
      match r
      case Done => Respond(reqId, MGMT_OK, NoRecord);
      case Refused(e) =>
        Respond(reqId, if e.NotFound? then MGMT_NOT_FOUND else if e.BadName? then MGMT_BAD_ARG else MGMT_STORAGE, NoRecord);
    }

    method NodeRevealKey(reqId: u16, op: Op, io: Io)
      requires Valid() && Handling(reqId) && op.NodeRevealKey?
      modifies this`answers
      ensures Valid() && HandlesNodeOp(old(TheView()), op, io, TheView())
    {
      if op.addr in registry.nodes {
        Respond(reqId, MGMT_OK, Revealed(op.addr, registry.nodes[op.addr].key));
      } else {
        Respond(reqId, MGMT_NOT_FOUND, NoRecord);
      }
    }

    method PairingOpen(reqId: u16, op: Op, io: Io)
      requires Valid() && Handling(reqId) && op.PairingOpen?
      modifies this
      ensures Valid() && HandlesPairingOp(old(TheView()), op, io, TheView())
    {
      if pairing.Some? {
        Respond(reqId, MGMT_BUSY, NoRecord);
      } else if op.window == 0 {
        Respond(reqId, MGMT_BAD_ARG, NoRecord);
      } else if |registry.nodes| >= CAPACITY {
        Respond(reqId, MGMT_FULL, NoRecord);
      } else if !io.prepared {
        Respond(reqId, MGMT_UNSUPPORTED, NoRecord);
      } else {
        pairing, windowReq := Some(reqId), |asked| - 1;
      }
    }

    method PairingCancel(reqId: u16, op: Op, io: Io)
      requires Valid() && Handling(reqId) && op.PairingCancel?
      modifies this
      ensures Valid() && HandlesPairingOp(old(TheView()), op, io, TheView())
    {
      if pairing.Some? {
        Resolve(MGMT_TIMEOUT, NoRecord);
      }
      Respond(reqId, MGMT_OK, NoRecord);
    }

    method QueuePush(reqId: u16, op: Op, io: Io)
      requires Valid() && Handling(reqId) && op.QueuePush?
      modifies Footprint()
      ensures Valid() && HandlesQueueOp(old(TheView()), op, io, TheView())
    {
      hide WellFormed, Slots.Map, InSlots, CountFor, Ids;
      if op.node !in registry.nodes {
        Respond(reqId, MGMT_NOT_FOUND, NoRecord);
        return;
      }
      var ttl := if op.ttl == 0 then DEFAULT_TTL_S else op.ttl;
      var r := queue.Push(op.node, ttl, op.data, io.now);
      match r
      case Ok(id) =>
        net.SetPending(op.node, true);
        assert TheAssets() == Pushed(old(TheAssets()), NewItem(old(TheAssets()), id, op.node, op.ttl, op.data, io.now));
        hide TheAssets, Pushed;
        Respond(reqId, MGMT_OK, QueueId(id));
      case Err(e) => Respond(reqId, if e.BadPayload? then MGMT_BAD_ARG else MGMT_FULL, NoRecord);
    }

    method QueueList(reqId: u16, op: Op, io: Io)
      requires Valid() && Handling(reqId) && op.QueueList?
      modifies this`answers
      ensures Valid() && HandlesQueueOp(old(TheView()), op, io, TheView())
    {
      hide WellFormed;
      var listing := queue.ListFor(op.node);
      Respond(reqId, MGMT_OK, Items(listing));
    }

    /** One item of the node by id, or all of them; how many went. The id must be one of this node's:
        it is checked before anything is taken out. */
    method DropChosen(node: Addr, item: Option<u16>) returns (dropped: nat)
      requires queue.Valid()
      modifies queue.slots
      ensures queue.Valid() && queue.nextOrder == old(queue.nextOrder)
      ensures queue.Items() == old(queue.Items()) - Chosen(old(queue.Items()), node, item)
      ensures dropped == |Chosen(old(queue.Items()), node, item)|
    {
      ghost var items := queue.Items();
      assert forall a, b :: a in items && b in items && a.id == b.id ==> a == b;
      hide WellFormed, InSlots;
      match item
      case Some(id) =>
        var held := queue.Find(id);
        if held.Some? && held.value.node == node {
          var popped := queue.Pop(id);
          assert Chosen(items, node, item) == {held.value};
          return 1;
        }
        assert Chosen(items, node, item) == {};
        return 0;
      case None =>
        dropped := queue.DropNode(node);
        assert Chosen(items, node, item) == ForNode(items, node);
    }

    method QueueDrop(reqId: u16, op: Op, io: Io)
      requires Valid() && Handling(reqId) && op.QueueDrop?
      modifies Footprint()
      ensures Valid() && HandlesQueueOp(old(TheView()), op, io, TheView())
    {
      hide WellFormed, Slots.Map, InSlots, Fated, Chosen, CountFor, HasFor;
      ghost var gone := Chosen(queue.Items(), op.node, op.item);
      var dropped := DropChosen(op.node, op.item);
      fates := Fated(fates, gone, Dropped);
      var n := queue.Count(op.node);
      net.SetPending(op.node, n > 0);
      CountPositiveIffHas(queue.Items(), op.node);
      assert TheAssets() == Refreshed(Gone(old(TheAssets()), gone, Dropped), op.node);
      hide TheAssets, Refreshed, Gone;
      if dropped > 0 {
        Respond(reqId, MGMT_OK, NoRecord);
      } else {
        Respond(reqId, MGMT_NOT_FOUND, NoRecord);
      }
    }

    /** Every node once, with its link statistics and its queue depth. */
    method NodeEntries(nowS: u32) returns (entries: map<Addr, NodeEntry>)
      requires Valid()
      ensures entries == Entries(TheAssets(), nowS)
    {
      hide WellFormed, Slots.Map, InSlots, CountFor;
      entries := map[];
      var rest := registry.nodes.Keys;
      while rest != {}
        invariant rest <= registry.nodes.Keys
        invariant entries.Keys == registry.nodes.Keys - rest
        invariant forall a :: a in entries ==> entries[a] == EntryOf(TheAssets(), a, nowS)
        decreases rest
      {
        var a :| a in rest;
        var entry := OneEntry(a, nowS);
        entries := entries[a := entry];
        rest := rest - {a};
      }
    }

    method OneEntry(a: Addr, nowS: u32) returns (entry: NodeEntry)
      requires Valid() && a in registry.nodes
      ensures entry == EntryOf(TheAssets(), a, nowS)
    {
      hide WellFormed, Slots.Map, InSlots, CountFor;
      var r := registry.nodes[a];
      var st := stats.Get(a);
      var queued := queue.Count(a);
      match st
      case Some(s) => return NodeEntry(r.flags, r.name, if nowS <= s.seen then 0 else nowS - s.seen, s.rssi, s.uplinks, queued);
      case None => return NodeEntry(r.flags, r.name, NEVER, RSSI_NONE, 0, queued);
    }

    method Dispatch(reqId: u16, op: Op, io: Io)
      requires Valid() && Coupled(TheAssets()) && Handling(reqId)
      modifies Footprint()
      ensures Valid() && Handles(old(TheView()), op, io, TheView())
    {
      hide Coupled, HandlesNodeOp, HandlesQueueOp, HandlesPairingOp, Slots.Map, InSlots, WellFormed, Entries;
      if !registry.writable && (op.NodeAdd? || op.PairingOpen?) {
        Respond(reqId, MGMT_STORAGE, NoRecord);
        return;
      }
      match op
      case Describe => Respond(reqId, MGMT_OK, Device(own, |registry.nodes|));
      case NodeList =>
        var entries := NodeEntries(io.nowS);
        Respond(reqId, MGMT_OK, Nodes(entries));
      case NodeAdd(_, _, _, _, _) => NodeAdd(reqId, op, io);
      case NodeRemove(_) => NodeRemove(reqId, op, io);
      case NodeUpdate(_, _, _) => NodeUpdate(reqId, op, io);
      case NodeRevealKey(_) => NodeRevealKey(reqId, op, io);
      case PairingOpen(_) => PairingOpen(reqId, op, io);
      case PairingCancel => PairingCancel(reqId, op, io);
      case QueuePush(_, _, _) => QueuePush(reqId, op, io);
      case QueueList(_) => QueueList(reqId, op, io);
      case QueueDrop(_, _) => QueueDrop(reqId, op, io);
      case StatsConfig(p) =>
        period := p;
        Respond(reqId, MGMT_OK, NoRecord);
      case NodeSide => Respond(reqId, MGMT_UNSUPPORTED, NoRecord);
    }

    /** One decoded management request. */
    method HandleMgmt(reqId: u16, op: Op, io: Io)
      requires Valid() && Coupled(TheAssets()) && (io.stored ==> registry.writable)
      modifies Footprint()
      ensures Valid() && StepBy(old(TheView()), Request(reqId, op, io), TheView())
      ensures Coupled(TheAssets())
    {
      hide Coupled, Handles, WellFormed, Slots.Map, InSlots;
      asked := asked + [reqId];
      ghost var before := TheView();
      Dispatch(reqId, op, io);
      assert before == old(TheView()).(ledger := Asked(old(TheLedger()), reqId));
      StepCoupled(old(TheView()), Request(reqId, op, io), TheView());
    }

    // ---- the radio side --------------------------------------------------------------

    /** Count the uplink. The statistics never run out of slots, because only registered nodes have
        one. */
    method Account(src: Addr, rssi: int, nowS: u32)
      requires Valid() && Coupled(TheAssets()) && src in TheAssets().peers
      modifies stats.table.slots
      ensures Valid() && TheAssets() == Counted(old(TheAssets()), src, rssi, nowS)
    {
      hide Coupled, WellFormed, Slots.Map, InSlots;
      if src !in stats.table.Map() {
        FirstUplinkFindsSlot(TheAssets(), src);
      }
      stats.OnUplink(src, rssi, nowS);
    }

    /** Send the oldest live downlink of the node; it leaves the queue when it is delivered. */
    method DeliverHead(src: Addr, now: nat, acked: bool) returns (sent: Option<Item>)
      requires Valid()
      modifies queue.slots, this`fates
      ensures Valid()
      ensures if sent.Some? then IsHead(old(queue.Items()), src, now, sent.value) else NoHead(old(queue.Items()), src, now)
      ensures TheAssets() == if sent.Some? && acked then Gone(old(TheAssets()), {sent.value}, Delivered) else old(TheAssets())
      ensures queue.Items() == if acked && sent.Some? then old(queue.Items()) - {sent.value} else old(queue.Items())
    {
      assert forall a, b :: a in queue.Items() && b in queue.Items() && a.id == b.id ==> a == b;
      hide WellFormed, Slots.Map, InSlots, Fated, IsHead, NoHead;
      sent := queue.PeekFor(src, now);
      if sent.Some? && acked {
        HeadIsQueued(queue.Items(), src, now, sent.value);
        var popped := queue.Pop(sent.value.id);
        fates := Fated(fates, {sent.value}, Delivered);
      }
    }

    /** One authenticated uplink: account it, and answer it with the node's oldest live downlink.
        `acked` is whether the confirmed send got through. */
    method OnUplink(src: Addr, rssi: int, now: nat, nowS: u32, acked: bool) returns (sent: Option<Item>)
      requires Valid() && Coupled(TheAssets()) && src in TheAssets().peers
      modifies Footprint()
      ensures Valid() && StepBy(old(TheView()), Uplink(src, rssi, now, nowS, acked), TheView())
      ensures Coupled(TheAssets())
      ensures if sent.Some? then IsHead(old(queue.Items()), src, now, sent.value) else NoHead(old(queue.Items()), src, now)
      // Only an acknowledged downlink leaves the queue.
      ensures queue.Items() == if acked && sent.Some? then old(queue.Items()) - {sent.value} else old(queue.Items())
    {
      hide Coupled, WellFormed, Slots.Map, InSlots, Counted, Gone, Refreshed, IsHead, NoHead, Hears;
      Account(src, rssi, nowS);
      sent := DeliverHead(src, now, acked);
      Settle(src);
      HearsIs(old(TheAssets()), src, rssi, now, nowS, acked, sent);
      StepCoupled(old(TheView()), Uplink(src, rssi, now, nowS, acked), TheView());
    }

    /** The node's pending flag follows its queue. */
    method Settle(node: Addr)
      requires Valid()
      modifies net.table.slots
      ensures Valid() && TheAssets() == Refreshed(old(TheAssets()), node)
    {
      hide WellFormed, Slots.Map, InSlots;
      var n := queue.Count(node);
      CountPositiveIffHas(queue.Items(), node);
      net.SetPending(node, n > 0);
    }

    method DropExpired(now: nat) returns (reported: seq<Item>)
      requires Valid()
      modifies queue.slots, this`fates
      ensures Valid()
      ensures forall it :: it in reported <==> it in old(queue.Items()) && Expired(it, now)
      ensures forall i, j :: 0 <= i < j < |reported| ==> reported[i] != reported[j]
      ensures var s := old(TheAssets()); TheAssets() == Gone(s, s.items - Live(s.items, now), TimedOut)
    {
      hide WellFormed, Slots.Map, InSlots, Expired, Fated;
      ghost var gone := queue.Items() - Live(queue.Items(), now);
      reported := queue.Expire(now);
      assert queue.Items() == old(queue.Items()) - gone;
      fates := Fated(fates, gone, TimedOut);
    }

    /** Set the flags of the reported nodes from what is left. */
    method SettleAll(reported: seq<Item>)
      requires Valid()
      modifies net.table.slots
      ensures Valid()
      ensures var s := old(TheAssets()); TheAssets() == s.(peers := ReflaggedSome(s.peers, reported, s.items))
    {
      hide WellFormed, Slots.Map, InSlots, HasFor, ReflaggedSome;
      ghost var s := TheAssets();
      ReflagNone(s.peers, s.items);
      for i := 0 to |reported|
        invariant Valid() && TheAssets() == s.(peers := ReflaggedSome(s.peers, reported[..i], s.items))
      {
        assert reported[..i + 1] == reported[..i] + [reported[i]];
        ReflagOneMore(s.peers, reported[..i], reported[i], s.items);
        Settle(reported[i].node);
      }
      assert reported[..|reported|] == reported;
    }

    /** Drop what has expired and report each item; every node that lost one gets its flag set from
        what is left. */
    method Housekeep(now: nat) returns (reported: seq<Item>)
      requires Valid() && Coupled(TheAssets())
      modifies Footprint()
      ensures Valid() && StepBy(old(TheView()), Housekeeping(now), TheView())
      ensures Coupled(TheAssets())
      ensures forall it :: it in reported <==> it in old(queue.Items()) && Expired(it, now)
      ensures forall i, j :: 0 <= i < j < |reported| ==> reported[i] != reported[j]
    {
      hide Coupled, WellFormed, Slots.Map, InSlots, Expired, HasFor, Fated, Reflagged, ReflaggedSome;
      ghost var s := TheAssets();
      reported := DropExpired(now);
      SettleAll(reported);
      ReflaggedAll(s.peers, reported, s.items - Live(s.items, now), TheAssets().items);
      StepCoupled(old(TheView()), Housekeeping(now), TheView());
    }

    /** Commit a joined node and resolve the window with it; insert only. */
    method CommitPairing(p: PairedPeer, stored: bool)
      requires Valid() && Coupled(TheAssets()) && Admitted(TheAssets(), Some(p)) && pairing.Some?
      modifies Footprint()
      ensures Valid() && Commits(old(TheView()), p, stored, TheView())
    {
      var r := EnrolNew(p.addr, Record(p.key, FLAG_UNNAMED, []), stored);
      hide Coupled, Added, Valid, TheAssets;
      match r
      case Done => Resolve(MGMT_OK, Paired(p.addr));
      case Refused(e) =>
        Resolve(if e.Exists? then MGMT_BAD_ARG else if e.NoRoom? then MGMT_FULL else MGMT_STORAGE, NoRecord);
    }

    /** As `Enrol`, but a registered address is refused. */
    method EnrolNew(addr: Addr, rec: Record, stored: bool) returns (r: RegistryResult)
      requires Valid() && Coupled(TheAssets()) && PeerAddrValid(addr, own)
      modifies registry, net.table.slots
      ensures Valid()
      ensures var s := old(TheAssets());
        && r == (if addr in s.nodes then Refused(Exists) else if |s.nodes| >= CAPACITY then Refused(NoRoom)
                 else if !stored then Refused(Storage) else Done)
        && TheAssets() == if r == Done then Added(s, addr, rec) else s
    {
      hide WellFormed, Flagged, Owned, Slots.Map, InSlots;
      assert net.table.Map().Keys == registry.nodes.Keys;
      assert |net.table.Map()| == |registry.nodes| by {
        assert |net.table.Map().Keys| == |net.table.Map()| && |registry.nodes.Keys| == |registry.nodes|;
      }
      hide Coupled;
      r := registry.AddNew(addr, rec, stored);
      if r == Done {
        var ok := net.AddPeer(addr, rec.key);
      }
    }

    /** One slice of an open pairing window: closed early when the registry filled up, closed at its
        end, else the radio listens and may hand up a node that joined. */
    method PairingSlice(ended: bool, joined: Option<PairedPeer>, stored: bool)
      requires Valid() && Coupled(TheAssets()) && Admitted(TheAssets(), joined) && (stored ==> registry.writable)
      modifies Footprint()
      ensures Valid() && StepBy(old(TheView()), PairSlice(ended, joined, stored), TheView())
      ensures Coupled(TheAssets())
    {
      hide Coupled, WellFormed, Slots.Map, InSlots, Commits;
      if pairing.Some? {
        if |registry.nodes| >= CAPACITY {
          Resolve(MGMT_FULL, NoRecord);
        } else if ended {
          Resolve(MGMT_TIMEOUT, NoRecord);
        } else if joined.Some? {
          CommitPairing(joined.value, stored);
        }
      }
      StepCoupled(old(TheView()), PairSlice(ended, joined, stored), TheView());
    }

    /** One turn of the main loop: at most two management requests, then a pairing slice or one radio
        frame, then expiry. Frames of unregistered addresses and joins the rules refuse never get
        here. */
    method Turn(requests: seq<Arrival>, ended: bool, join: Option<PairedPeer>, stored: bool, rx: Option<Received>, now: nat, nowS: u32)
      requires Valid() && Sound(TheView()) && |requests| <= 2
      requires (stored ==> registry.writable) && forall r :: r in requests && r.io.stored ==> registry.writable
      modifies Footprint()
      ensures Valid() && Sound(TheView())
    {
      hide StepBy, Coupled, Conserved, Accounted, WellFormed, Slots.Map, InSlots;
      for i := 0 to |requests|
        invariant Valid() && Sound(TheView())
      {
        ghost var v := TheView();
        HandleMgmt(requests[i].reqId, requests[i].op, requests[i].io);
        StepSound(v, Request(requests[i].reqId, requests[i].op, requests[i].io), TheView());
      }
      ghost var v := TheView();
      if pairing.Some? {
        var joined := Listen(join);
        PairingSlice(ended, joined, stored);
        StepSound(v, PairSlice(ended, joined, stored), TheView());
      } else if rx.Some? {
        var known := net.table.Find(rx.value.src);
        if known.Some? {
          var sent := OnUplink(rx.value.src, rx.value.rssi, now, nowS, rx.value.acked);
          StepSound(v, Uplink(rx.value.src, rx.value.rssi, now, nowS, rx.value.acked), TheView());
        }
      }
      v := TheView();
      var reported := Housekeep(now);
      StepSound(v, Housekeeping(now), TheView());
    }

    /** The pairing host: a join from a reserved, own or registered address gets no answer. */
    method Listen(join: Option<PairedPeer>) returns (joined: Option<PairedPeer>)
      requires Valid()
      ensures Admitted(TheAssets(), joined)
    {
      if join.None? || !PeerAddrValid(join.value.addr, own) {
        return None;
      }
      var known := net.table.Find(join.value.addr);
      return if known.Some? then None else join;
    }
  }

  /** What the outside brings to one turn of the loop. */
  datatype Arrival = Arrival(reqId: u16, op: Op, io: Io)
  datatype Received = Received(src: Addr, rssi: int, acked: bool)

  /** The peers after the flags of some reported nodes were set. */
  function ReflaggedSome(peers: map<Addr, Peer>, reported: seq<Item>, left: set<Item>): map<Addr, Peer> {
    map a | a in peers :: if exists it :: it in reported && it.node == a then peers[a].(pending := HasFor(left, a)) else peers[a]
  }

  lemma ReflagNone(peers: map<Addr, Peer>, left: set<Item>)
    ensures ReflaggedSome(peers, [], left) == peers
  {
  }

  lemma ReflagOneMore(peers: map<Addr, Peer>, reported: seq<Item>, it: Item, left: set<Item>)
    ensures ReflaggedSome(peers, reported + [it], left)
      == WithPending(ReflaggedSome(peers, reported, left), it.node, HasFor(left, it.node))
  {
  }

  lemma ReflaggedAll(peers: map<Addr, Peer>, reported: seq<Item>, gone: set<Item>, left: set<Item>)
    requires forall it :: it in reported <==> it in gone
    ensures ReflaggedSome(peers, reported, left) == Reflagged(peers, gone, left)
  {
  }

  /** The assets between the delivery attempt and the flag update. */
  function AfterSend(s: Assets, src: Addr, rssi: int, nowS: u32, acked: bool, sent: Option<Item>): Assets {
    var u := Counted(s, src, rssi, nowS);
    if sent.Some? && acked then Gone(u, {sent.value}, Delivered) else u
  }

  lemma HearsIs(s: Assets, src: Addr, rssi: int, now: nat, nowS: u32, acked: bool, sent: Option<Item>)
    requires if sent.Some? then IsHead(s.items, src, now, sent.value) else NoHead(s.items, src, now)
    ensures Hears(s, src, rssi, now, nowS, acked, Refreshed(AfterSend(s, src, rssi, nowS, acked, sent), src))
  {
  }
}
