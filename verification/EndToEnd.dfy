/** The gateway program, the air, the node's remote shell and the host as one system. The coordinator of
    `GatewaySpec` owns the queue, `Delivery` carries its items, the exchanges of `RemoteShell` are what
    the node makes of them, and `HostView` says what the host makes of those. */
module EndToEnd {
  import opened Basics
  import opened DownlinkQueue
  import opened Delivery
  import G = GatewaySpec
  import R = RemoteShell
  import H = HostView
  import F = Frames

  // ---- the coordinator's steps --------------------------------------------------------

  /** The delivery state holds the coordinator's queue. */
  predicate Shares(s: State, a: G.Assets) {
    s.items == a.items && s.nextOrder == a.nextOrder
  }

  /** Requests are stamped with the clock of the system. */
  predicate OnClock(s: State, e: G.Event) {
    match e
    case Request(_, _, io) => io.now == s.now
    case Uplink(_, _, now, _, _) => now == s.now
    case Housekeeping(now) => now == s.now
    case PairSlice(_, _, _) => true
  }

  /** Every step of the coordinator can be followed by a push or a removal in the delivery system. */
  lemma GatewayStepIsDelivery(dec: Decoder, v: G.View, e: G.Event, w: G.View, s: State) returns (t: State, step: Step)
    requires G.StepBy(v, e, w) && Shares(s, v.assets) && OnClock(s, e)
    ensures NextBy(dec, s, t, step) && Shares(t, w.assets)
    ensures step.Push? || step.Remove?
  {
    var a, b := v.assets, w.assets;
    if b.nextOrder == a.nextOrder {
      hide G.StepBy, G.Fated;
      G.StepBooked(v, e, w);
      var gone := a.items - b.items;
      assert b.items == a.items - gone by { NoLessNoMore(a, b); }
      step := Remove(gone);
      t := s.(items := s.items - gone);
    } else {
      var it := PushedItem(v, e, w);
      hide G.StepBy;
      step := Push(it);
      t := s.(items := s.items + {it}, nextOrder := s.nextOrder + 1, pushed := s.pushed[Serial(s, it) := it]);
    }
  }

  lemma NoLessNoMore(a: G.Assets, b: G.Assets)
    requires G.Booked(a, b) && a.nextOrder == b.nextOrder
    ensures b.items <= a.items
  {
  }

  lemma NodeOpsQueueNothing(v: G.View, op: G.Op, io: G.Io, w: G.View)
    requires v.ledger.asked != [] && (op.NodeAdd? || op.NodeRemove? || op.NodeUpdate? || op.NodeRevealKey?)
    requires G.HandlesNodeOp(v, op, io, w)
    ensures w.assets.nextOrder == v.assets.nextOrder
  {
    hide G.Fated, ForNode;
  }

  /** Only a push queues something. */
  lemma OnlyPushQueues(v: G.View, e: G.Event, w: G.View)
    requires G.StepBy(v, e, w) && w.assets.nextOrder != v.assets.nextOrder
    ensures e.Request? && e.op.QueuePush?
  {
    hide CountFor, Ids, Live, IsHead, NoHead, G.Fated, G.Entries, G.Lists, G.Reflagged, G.Refreshed, G.HandlesNodeOp;
    if e.Request? && (e.op.NodeAdd? || e.op.NodeRemove? || e.op.NodeUpdate? || e.op.NodeRevealKey?) {
      if v.assets.writable || !e.op.NodeAdd? {
        NodeOpsQueueNothing(v.(ledger := G.Asked(v.ledger, e.reqId)), e.op, e.io, w);
      }
    } else if e.Uplink? {
      UplinkQueuesNothing(v.assets, e, w.assets);
    } else if e.Request? && e.op.QueueDrop? {
      DropQueuesNothing(v.assets, G.Chosen(v.assets.items, e.op.node, e.op.item), e.op.node);
    }
  }

  lemma UplinkQueuesNothing(a: G.Assets, e: G.Event, b: G.Assets)
    requires e.Uplink? && G.Hears(a, e.src, e.rssi, e.now, e.nowS, e.acked, b)
    ensures b.nextOrder == a.nextOrder
  {
    hide G.Fated, IsHead, NoHead, HasFor;
  }

  lemma DropQueuesNothing(a: G.Assets, gone: set<Item>, node: Addr)
    ensures G.Refreshed(G.Gone(a, gone, G.Dropped), node).nextOrder == a.nextOrder
  {
    hide G.Fated, HasFor;
  }

  lemma PushedItem(v: G.View, e: G.Event, w: G.View) returns (it: Item)
    requires G.StepBy(v, e, w) && w.assets.nextOrder != v.assets.nextOrder
    ensures e.Request? && it.id != 0 && it.id !in Ids(v.assets.items)
    ensures it.order == v.assets.nextOrder && it.at == e.io.now
    ensures w.assets.items == v.assets.items + {it} && w.assets.nextOrder == v.assets.nextOrder + 1
  {
    OnlyPushQueues(v, e, w);
    hide CountFor, Ids;
    var s := v.assets;
    var u := v.(ledger := G.Asked(v.ledger, e.reqId));
    var id: u16 :| id != 0 && id !in Ids(s.items)
      && G.Replies(u, G.Pushed(s, G.NewItem(s, id, e.op.node, e.op.ttl, e.op.data, e.io.now)), G.MGMT_OK, G.QueueId(id), w);
    it := G.NewItem(s, id, e.op.node, e.op.ttl, e.op.data, e.io.now);
  }

  /** The acknowledged uplink that takes item `k` off the queue. */
  ghost predicate Pops(a: G.Assets, e: G.Event, b: G.Assets, k: nat) {
    && e.Uplink? && e.acked
    && exists head :: PopsHead(a, e, b, head) && head.order == k
  }

  predicate PopsHead(a: G.Assets, e: G.Event, b: G.Assets, head: Item)
    requires e.Uplink?
  {
    IsHead(a.items, e.src, e.now, head) && b.items == a.items - {head} && b.nextOrder == a.nextOrder
  }

  /** An item is recorded as delivered only by an acknowledged uplink of its node, which takes it off. */
  lemma OnlyAckDelivers(v: G.View, e: G.Event, w: G.View, k: nat)
    requires G.StepBy(v, e, w) && k in w.assets.fates && w.assets.fates[k] == G.Delivered
    requires k in v.assets.fates ==> v.assets.fates[k] != G.Delivered
    ensures Pops(v.assets, e, w.assets, k)
  {
    var s, t := v.assets, w.assets;
    match e
    case Uplink(src, rssi, now, nowS, acked) =>
      hide G.StepBy, G.Fated, IsHead, NoHead, HasFor, Pops;
      UplinkDelivers(s, e, t, k);
    case Request(reqId, op, io) =>
      hide G.Handles, Pops;
      RequestsDeliverNothing(v.(ledger := G.Asked(v.ledger, reqId)), op, io, w, k);
    case Housekeeping(now) =>
      hide G.Fated, Pops;
      G.FatedKeys(s.fates, s.items - Live(s.items, now), G.TimedOut, k);
    case PairSlice(_, _, _) =>
  }

  lemma UplinkDelivers(s: G.Assets, e: G.Event, t: G.Assets, k: nat)
    requires e.Uplink? && G.Hears(s, e.src, e.rssi, e.now, e.nowS, e.acked, t)
    requires k in t.fates && t.fates[k] == G.Delivered && (k in s.fates ==> s.fates[k] != G.Delivered)
    ensures Pops(s, e, t, k)
  {
    hide G.Fated, IsHead, NoHead, HasFor;
    if !NoHead(s.items, e.src, e.now) && e.acked {
      var head :| IsHead(s.items, e.src, e.now, head) && t == G.Refreshed(G.Gone(G.Counted(s, e.src, e.rssi, e.nowS), {head}, G.Delivered), e.src);
      G.FatedKeys(s.fates, {head}, G.Delivered, k);
      assert PopsHead(s, e, t, head);
    }
  }

  lemma RequestsDeliverNothing(v: G.View, op: G.Op, io: G.Io, w: G.View, k: nat)
    requires v.ledger.asked != [] && G.Handles(v, op, io, w)
    requires k in w.assets.fates && w.assets.fates[k] == G.Delivered
    ensures k in v.assets.fates && v.assets.fates[k] == G.Delivered
  {
    var s, t := v.assets, w.assets;
    hide G.Fated, G.Entries, G.Named, CountFor, Ids, ForNode, HasFor;
    if op.NodeRemove? {
      if op.addr in s.nodes && io.stored {
        G.FatedKeys(s.fates, ForNode(s.items, op.addr), G.Dropped, k);
      }
    } else if op.QueueDrop? {
      G.FatedKeys(s.fates, G.Chosen(s.items, op.node, op.item), G.Dropped, k);
    } else {
      assert t.fates == s.fates;
    }
  }

  // ---- the system -----------------------------------------------------------------------

  /** `log` is what the node's remote shell did in this boot, `served` the number of the item behind
      each exchange. */
  datatype System = System(view: G.View, s: State, log: seq<R.Exchange>, served: seq<nat>)

  datatype Event =
    | Gateway(e: G.Event)
    | Acknowledged(e: G.Event, head: Item, ctr: nat)
    | Radio(step: Step)
    | Execute(x: R.Exchange)
    | NodeResets(lane: nat)
    | GatewayResets(ctr: nat)

  /** An uplink of the followed node whose downlink is acknowledged. */
  predicate Delivers(y: System, e: G.Event) {
    e.Uplink? && e.src == y.s.node && e.acked && !NoHead(y.view.assets.items, e.src, e.now)
  }

  /** What the air and the node's receiver do by themselves; a transmission is of the queue's head. */
  predicate OnAir(step: Step) {
    step.Send? || step.OtherTraffic? || step.Hear? || step.Tick?
  }

  /** The node's remote shell, given the frame on hand. */
  ghost predicate Shell(dec: Decoder, y: System, x: R.Exchange, z: System) {
    y.s.held.Some? &&
      match dec(y.s.held.value.data)
      case None => z.log == y.log && z.served == y.served
      case Some(c) =>
        && x.epoch == c.epoch && x.cmd == c.id && R.Fits(R.MemoryAfter(R.Nothing, y.log), x)
        && z.log == y.log + [x] && z.served == y.served + [y.s.held.value.serial]
  }

  ghost predicate Moves(dec: Decoder, y: System, ev: Event, step: Step, z: System) {
    && NextBy(dec, y.s, z.s, step)
    && match ev
      case Gateway(e) =>
        && G.StepBy(y.view, e, z.view) && OnClock(y.s, e) && !Delivers(y, e)
        && (step.Push? || step.Remove?) && Shares(z.s, z.view.assets)
        && z.log == y.log && z.served == y.served
      case Acknowledged(e, head, ctr) =>
        // The radio reports an acknowledgement only for a transmission of its own: `Confirm`.
        && G.StepBy(y.view, e, z.view) && OnClock(y.s, e) && Delivers(y, e)
        && IsHead(y.view.assets.items, e.src, e.now, head)
        && step == Confirm(head, ctr) && Shares(z.s, z.view.assets)
        && z.log == y.log && z.served == y.served
      case Radio(st) =>
        step == st && OnAir(st) && z.view == y.view && z.log == y.log && z.served == y.served
      case Execute(x) =>
        step == RunHeld && z.view == y.view && Shell(dec, y, x, z)
      case NodeResets(lane) =>
        step == NodeReboot(lane) && z.view == y.view && z.log == [] && z.served == []
      case GatewayResets(ctr) =>
        // The registry is persisted; everything else starts over.
        && step == GatewayReboot(ctr) && G.BootState(z.view)
        && z.view.assets.own == y.view.assets.own && z.view.assets.nodes == y.view.assets.nodes
        && z.log == y.log && z.served == y.served
  }

  ghost predicate SystemNext(dec: Decoder, y: System, z: System) {
    exists ev, step :: Moves(dec, y, ev, step, z)
  }

  ghost predicate SystemInit(y: System) {
    G.BootState(y.view) && Init(y.s) && y.log == [] && y.served == []
  }

  ghost predicate SystemRun(dec: Decoder, ys: seq<System>) {
    && |ys| > 0 && SystemInit(ys[0])
    && forall i :: 0 <= i < |ys| - 1 ==> SystemNext(dec, ys[i], ys[i + 1])
  }

  function States(ys: seq<System>): (ss: seq<State>)
    ensures |ss| == |ys| && forall i :: 0 <= i < |ys| ==> ss[i] == ys[i].s
  {
    seq(|ys|, i requires 0 <= i < |ys| => ys[i].s)
  }

  /** So every theorem about runs of the delivery system holds with this gateway and this node in it. */
  lemma RunIsDelivery(dec: Decoder, ys: seq<System>)
    requires SystemRun(dec, ys)
    ensures Run(dec, States(ys))
  {
    hide NextBy, Init, Moves, G.BootState;
    var ss := States(ys);
    assert Init(ss[0]);
    forall i | 0 <= i < |ss| - 1 ensures Delivery.Next(dec, ss[i], ss[i + 1]) {
      assert SystemNext(dec, ys[i], ys[i + 1]);
      var ev, step :| Moves(dec, ys[i], ev, step, ys[i + 1]);
      MovesDeliver(dec, ys[i], ev, step, ys[i + 1]);
    }
  }

  lemma MovesDeliver(dec: Decoder, y: System, ev: Event, step: Step, z: System)
    requires Moves(dec, y, ev, step, z)
    ensures NextBy(dec, y.s, z.s, step)
  {
    hide NextBy, G.StepBy, IsHead, NoHead, Shell, Delivers;
  }

  // ---- the gateway half: what a delivery report means --------------------------------------

  /** Item `k` is for the node followed. */
  predicate Recipient(s: State, k: nat) {
    k in s.pushed && s.pushed[k].node == s.node
  }

  /** What the coordinator calls delivered is confirmed. */
  ghost predicate Reported(fates: map<nat, G.Fate>, s: State) {
    forall k :: k in fates && fates[k] == G.Delivered && Recipient(s, s.base + k) ==> s.base + k in s.confirmed
  }

  ghost predicate Books(y: System) {
    Shares(y.s, y.view.assets) && G.Sound(y.view) && Reported(y.view.assets.fates, y.s)
  }

  lemma FateIsPast(v: G.View, k: nat)
    requires G.Sound(v) && k in v.assets.fates
    ensures k < v.assets.nextOrder
  {
  }

  /** The coordinator's step as the delivery system sees it. */
  lemma GatewayMoves(dec: Decoder, y: System, ev: Event, step: Step, z: System)
    requires Moves(dec, y, ev, step, z) && (ev.Gateway? || ev.Acknowledged?)
    ensures G.StepBy(y.view, ev.e, z.view) && Shares(z.s, z.view.assets)
    ensures z.s.base == y.s.base && z.s.node == y.s.node && y.s.confirmed <= z.s.confirmed
    ensures forall k :: k in z.s.pushed ==> k == y.s.base + y.s.nextOrder || (k in y.s.pushed && z.s.pushed[k] == y.s.pushed[k])
    ensures z.s.nextOrder == y.s.nextOrder ==> z.s.pushed == y.s.pushed
  {
    hide G.StepBy, IsHead, NoHead;
  }

  lemma HeadIsRecorded(s: State, node: Addr, now: nat, head: Item)
    requires QueueInv(s) && IsHead(s.items, node, now, head)
    ensures Serial(s, head) in s.pushed && s.pushed[Serial(s, head)] == head && head.node == node
    ensures !NoHead(s.items, node, now)
  {
    hide Expired;
  }

  lemma PoppedIsConfirmed(dec: Decoder, y: System, ev: Event, step: Step, z: System, k: nat)
    requires Shares(y.s, y.view.assets) && QueueInv(y.s) && Moves(dec, y, ev, step, z) && (ev.Gateway? || ev.Acknowledged?)
    requires Pops(y.view.assets, ev.e, z.view.assets, k) && Recipient(z.s, z.s.base + k)
    ensures z.s.base + k in z.s.confirmed
  {
    hide Moves, QueueInv, IsHead, NoHead, G.StepBy;
    GatewayMoves(dec, y, ev, step, z);
    var e := ev.e;
    var head :| PopsHead(y.view.assets, e, z.view.assets, head) && head.order == k;
    HeadIsRecorded(y.s, e.src, e.now, head);
    assert Delivers(y, e);
    AckedIsConfirmed(dec, y, ev, step, z, head);
  }

  lemma AckedIsConfirmed(dec: Decoder, y: System, ev: Event, step: Step, z: System, head: Item)
    requires Shares(y.s, y.view.assets) && Moves(dec, y, ev, step, z) && (ev.Gateway? || ev.Acknowledged?)
    requires Delivers(y, ev.e) && IsHead(y.view.assets.items, ev.e.src, ev.e.now, head)
    ensures Serial(y.s, head) in z.s.confirmed
  {
    hide Moves, IsHead, NextBy, NoHead;
    AckMove(dec, y, ev, step, z);
    HeadsAlike(y.s.items, ev.e.src, ev.e.now, ev.head, head);
    ConfirmAdds(dec, y.s, z.s, ev.head, ev.ctr);
  }

  lemma AckMove(dec: Decoder, y: System, ev: Event, step: Step, z: System)
    requires Moves(dec, y, ev, step, z) && (ev.Gateway? || ev.Acknowledged?) && Delivers(y, ev.e)
    ensures ev.Acknowledged? && IsHead(y.view.assets.items, ev.e.src, ev.e.now, ev.head)
    ensures NextBy(dec, y.s, z.s, Confirm(ev.head, ev.ctr))
  {
    hide G.StepBy, NoHead, IsHead, NextBy, Shell;
  }

  lemma HeadsAlike(items: set<Item>, node: Addr, now: nat, a: Item, b: Item)
    requires IsHead(items, node, now, a) && IsHead(items, node, now, b)
    ensures a.order == b.order
  {
    hide Expired;
  }

  lemma ConfirmAdds(dec: Decoder, s: State, t: State, it: Item, ctr: nat)
    requires NextBy(dec, s, t, Confirm(it, ctr))
    ensures Serial(s, it) in t.confirmed
  {
  }

  lemma BooksGateway(dec: Decoder, y: System, ev: Event, step: Step, z: System)
    requires Books(y) && QueueInv(y.s) && Moves(dec, y, ev, step, z) && (ev.Gateway? || ev.Acknowledged?)
    ensures Books(z)
  {
    hide G.Sound, G.StepBy, QueueInv, Moves, Pops;
    GatewayMoves(dec, y, ev, step, z);
    G.StepSound(y.view, ev.e, z.view);
    forall k | k in z.view.assets.fates && z.view.assets.fates[k] == G.Delivered && Recipient(z.s, z.s.base + k)
      ensures z.s.base + k in z.s.confirmed
    {
      if k in y.view.assets.fates && y.view.assets.fates[k] == G.Delivered {
        FateIsPast(y.view, k);
      } else {
        OnlyAckDelivers(y.view, ev.e, z.view, k);
        PoppedIsConfirmed(dec, y, ev, step, z, k);
      }
    }
  }

  lemma BooksReset(dec: Decoder, y: System, ctr: nat, step: Step, z: System)
    requires Moves(dec, y, GatewayResets(ctr), step, z)
    ensures Books(z)
  {
    hide Moves, NextBy, G.Sound;
    ResetMove(dec, y, ctr, step, z);
    var a := z.view.assets;
    G.BootSound(a.own, a.writable, a.nodes, z.view.period);
  }

  lemma ResetMove(dec: Decoder, y: System, ctr: nat, step: Step, z: System)
    requires Moves(dec, y, GatewayResets(ctr), step, z)
    ensures G.BootState(z.view) && z.s.items == {} && z.s.nextOrder == 0
  {
    hide G.BootState, G.StepBy, IsHead, NoHead, Expired, Ids;
  }

  lemma BooksStep(dec: Decoder, y: System, ev: Event, step: Step, z: System)
    requires Books(y) && QueueInv(y.s) && Moves(dec, y, ev, step, z)
    ensures Books(z)
  {
    hide G.StepBy, G.Sound, QueueInv, IsHead, NoHead, Shell, Delivers;
    match ev
    case Gateway(_) => BooksGateway(dec, y, ev, step, z);
    case Acknowledged(_, _, _) => BooksGateway(dec, y, ev, step, z);
    case GatewayResets(ctr) => BooksReset(dec, y, ctr, step, z);
    case _ =>
      assert z.view == y.view && z.s.pushed == y.s.pushed && z.s.confirmed == y.s.confirmed;
      assert z.s.node == y.s.node && z.s.base == y.s.base && z.s.items == y.s.items && z.s.nextOrder == y.s.nextOrder;
  }
}
