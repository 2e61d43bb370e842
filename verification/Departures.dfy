/** The law of the gateway's queue, told from outside: what puts an item in, what takes it out, and that
    nothing else does. It reads the states before and after a step and the event between them only. */
module Departures {
  import opened Basics
  import opened DownlinkQueue
  import opened GatewaySpec

  // ---- what takes an item out -------------------------------------------------------------

  /** The item's time to live, in seconds from its arrival on a millisecond clock, is over. */
  predicate Outlived(it: Item, now: nat) {
    it.ttl == 0 || now - it.at >= it.ttl * 1000
  }

  /** Of the items of its node that are not outlived, the oldest. */
  predicate OldestLive(items: set<Item>, it: Item, now: nat) {
    && it in items && !Outlived(it, now)
    && forall o :: o in items && o.node == it.node && !Outlived(o, now) ==> it.order <= o.order
  }

  datatype Cause = Acknowledged | TooOld | Cancelled | NodeGone

  /** Event `e` takes `it` off the queue for this reason. */
  predicate Takes(items: set<Item>, e: Event, it: Item, why: Cause) {
    match why
    case Acknowledged => e.Uplink? && e.acked && e.src == it.node && OldestLive(items, it, e.now)
    case TooOld => e.Housekeeping? && Outlived(it, e.now)
    case Cancelled => e.Request? && e.op.QueueDrop? && e.op.node == it.node && (e.op.item == None || e.op.item == Some(it.id))
    case NodeGone => e.Request? && e.op.NodeRemove? && e.op.addr == it.node && e.io.stored
  }

  function FateOf(why: Cause): Fate {
    match why
    case Acknowledged => Delivered
    case TooOld => TimedOut
    case Cancelled => Dropped
    case NodeGone => Dropped
  }

  predicate Taken(items: set<Item>, e: Event, it: Item) {
    exists why :: Takes(items, e, it, why)
  }

  /** An event has at most one reason to take an item. */
  lemma AtMostOneCause(items: set<Item>, e: Event, it: Item)
    ensures forall a, b :: Takes(items, e, it, a) && Takes(items, e, it, b) ==> a == b
  {
  }

  lemma OutlivedIsExpired(it: Item, now: nat)
    ensures Outlived(it, now) <==> Expired(it, now)
  {
  }

  lemma OldestIsHead(items: set<Item>, it: Item, now: nat)
    ensures OldestLive(items, it, now) <==> IsHead(items, it.node, now, it)
  {
    forall o ensures Outlived(o, now) <==> Expired(o, now) {
      OutlivedIsExpired(o, now);
    }
    hide Outlived, Expired;
  }

  /** What a step does to one queued item: it is gone exactly when it is taken, with the fate of the
      reason; otherwise it waits on. */
  ghost predicate Follows(s: Assets, e: Event, t: Assets, it: Item) {
    && (it !in t.items <==> Taken(s.items, e, it))
    && forall why :: Takes(s.items, e, it, why) ==> it.order in t.fates && t.fates[it.order] == FateOf(why)
  }

  lemma GoneFollows(s: Assets, gone: set<Item>, how: Fate, it: Item)
    requires it in gone
    ensures it.order in Fated(s.fates, gone, how) && Fated(s.fates, gone, how)[it.order] == how
  {
    FatedKeys(s.fates, gone, how, it.order);
  }

  lemma UplinkTakes(items: set<Item>, e: Event, it: Item)
    requires e.Uplink? && it in items
    ensures forall why :: Takes(items, e, it, why) ==> why.Acknowledged? && Taken(items, e, it)
    ensures Taken(items, e, it) <==> e.acked && IsHead(items, e.src, e.now, it)
  {
    OldestIsHead(items, it, e.now);
    assert IsHead(items, e.src, e.now, it) ==> it.node == e.src;
    hide OldestLive, IsHead;
    assert Taken(items, e, it) <==> Takes(items, e, it, Acknowledged);
  }

  lemma OneHead(items: set<Item>, nextOrder: nat, node: Addr, now: nat, head: Item)
    requires WellFormed(items, nextOrder) && IsHead(items, node, now, head)
    ensures forall it :: it in {head} <==> IsHead(items, node, now, it)
  {
  }

  lemma NoneIsHead(items: set<Item>, node: Addr, now: nat)
    requires NoHead(items, node, now)
    ensures forall it :: !IsHead(items, node, now, it)
  {
  }

  lemma UplinkLeaves(s: Assets, e: Event, t: Assets) returns (gone: set<Item>)
    requires e.Uplink? && Hears(s, e.src, e.rssi, e.now, e.nowS, e.acked, t) && WellFormed(s.items, s.nextOrder)
    ensures forall it :: it in gone <==> e.acked && IsHead(s.items, e.src, e.now, it)
    ensures t.items == s.items - gone && (gone != {} ==> t.fates == Fated(s.fates, gone, Delivered))
  {
    hide Fated, HasFor, IsHead, NoHead, WellFormed;
    if NoHead(s.items, e.src, e.now) || !e.acked {
      gone := {};
      if NoHead(s.items, e.src, e.now) {
        NoneIsHead(s.items, e.src, e.now);
      }
    } else {
      var head :| IsHead(s.items, e.src, e.now, head) && t == Refreshed(Gone(Counted(s, e.src, e.rssi, e.nowS), {head}, Delivered), e.src);
      gone := {head};
      OneHead(s.items, s.nextOrder, e.src, e.now, head);
    }
  }

  lemma UplinkFollows(s: Assets, e: Event, t: Assets, it: Item)
    requires e.Uplink? && Hears(s, e.src, e.rssi, e.now, e.nowS, e.acked, t)
    requires WellFormed(s.items, s.nextOrder) && it in s.items
    ensures Follows(s, e, t, it)
  {
    hide Fated, Takes, Taken, Hears, IsHead, WellFormed;
    UplinkTakes(s.items, e, it);
    var gone := UplinkLeaves(s, e, t);
    if it in gone {
      GoneFollows(s, gone, Delivered, it);
    }
  }

  lemma HousekeepingFollows(s: Assets, e: Event, t: Assets, it: Item)
    requires e.Housekeeping? && t == Expiry(s, e.now) && it in s.items
    ensures Follows(s, e, t, it)
  {
    hide Fated, Reflagged;
    var gone := s.items - Live(s.items, e.now);
    assert t.items == s.items - gone && t.fates == Fated(s.fates, gone, TimedOut);
    OutlivedIsExpired(it, e.now);
    assert it in gone <==> Takes(s.items, e, it, TooOld);
    if it in gone {
      GoneFollows(s, gone, TimedOut, it);
    }
  }

  lemma RequestFollows(v: View, e: Event, w: View, it: Item)
    requires e.Request? && v.ledger.asked != [] && Handles(v, e.op, e.io, w)
    requires Owned(v.assets.items, v.assets.nodes) && it in v.assets.items
    ensures Follows(v.assets, e, w.assets, it)
  {
    hide Fated, Entries, Named, CountFor, Ids, HasFor, Outlived;
    var s, t, op := v.assets, w.assets, e.op;
    if op.NodeRemove? {
      var gone := ForNode(s.items, op.addr);
      assert it in gone <==> it.node == op.addr;
      assert Taken(s.items, e, it) <==> Takes(s.items, e, it, NodeGone);
      if it in gone {
        GoneFollows(s, gone, Dropped, it);
      }
    } else if op.QueueDrop? {
      var gone := Chosen(s.items, op.node, op.item);
      assert it in gone <==> Takes(s.items, e, it, Cancelled);
      if it in gone {
        GoneFollows(s, gone, Dropped, it);
      }
    } else {
      assert it in t.items;
      assert forall why :: !Takes(s.items, e, it, why);
    }
  }

  /** The law of departures: in a sound gateway an item leaves the queue in exactly four ways. An
      acknowledged uplink of its node takes the oldest one that is not too old; housekeeping takes it
      once it is too old; a `QueueDrop` takes it by its node and, if given, its id; a stored
      `NodeRemove` takes all of the node. The way fixes the fate, and nothing else takes it. */
  lemma LeavesIff(v: View, e: Event, w: View, it: Item)
    requires Sound(v) && StepBy(v, e, w) && it in v.assets.items
    ensures it !in w.assets.items <==> Taken(v.assets.items, e, it)
    ensures forall a, b :: Takes(v.assets.items, e, it, a) && Takes(v.assets.items, e, it, b) ==> a == b
    ensures forall why :: Takes(v.assets.items, e, it, why) ==>
      it.order in w.assets.fates && w.assets.fates[it.order] == FateOf(why)
  {
    AtMostOneCause(v.assets.items, e, it);
    hide Conserved, Accounted, Mirror, Flagged, Sized, WellFormed;
    match e
    case Request(reqId, op, io) =>
      hide Handles, Taken;
      RequestFollows(v.(ledger := Asked(v.ledger, reqId)), e, w, it);
    case Uplink(_, _, _, _, _) =>
      hide Hears, Taken;
      UplinkFollows(v.assets, e, w.assets, it);
    case Housekeeping(now) =>
      hide Expiry, Taken;
      HousekeepingFollows(v.assets, e, w.assets, it);
    case PairSlice(_, _, _) =>
  }

  /** So an uplink that is not acknowledged leaves the queue as it was: one lost acknowledgement loses
      no command. */
  lemma UnacknowledgedKeeps(v: View, e: Event, w: View)
    requires Sound(v) && StepBy(v, e, w) && e.Uplink? && !e.acked
    ensures w.assets.items == v.assets.items
  {
    hide Sound;
    StepBooked(v, e, w);
    forall it | it in w.assets.items ensures it in v.assets.items {
      if it !in v.assets.items {
        ArrivesIff(v, e, w);
      }
    }
    forall it | it in v.assets.items ensures it in w.assets.items {
      LeavesIff(v, e, w, it);
    }
  }

  // ---- what puts an item in -----------------------------------------------------------------

  /** The gateway takes this push: a registered node, 1 to 74 bytes, fewer than four items in all and
      fewer than two of the node. */
  ghost predicate Admits(s: Assets, e: Event) {
    && e.Request? && e.op.QueuePush?
    && e.op.node in s.nodes && 1 <= |e.op.data| <= 74 && |s.items| < 4
    && |set it | it in s.items && it.node == e.op.node| < 2
  }

  /** What it makes of it: an hour to live if the host names no time. */
  predicate Makes(s: Assets, e: Event, it: Item)
    requires e.Request? && e.op.QueuePush?
  {
    && it.node == e.op.node && it.data == e.op.data && it.at == e.io.now && it.order == s.nextOrder
    && it.ttl == (if e.op.ttl == 0 then 3600 else e.op.ttl)
    && it.id != 0 && forall o :: o in s.items ==> o.id != it.id
  }

  lemma PushBrings(v: View, op: Op, io: Io, w: View, e: Event)
    requires e.Request? && e.op == op && e.io == io && op.QueuePush?
    requires v.ledger.asked != [] && HandlesQueueOp(v, op, io, w)
    ensures if Admits(v.assets, e) then exists it :: Makes(v.assets, e, it) && w.assets.items == v.assets.items + {it}
      else w.assets.items == v.assets.items
  {
    var s := v.assets;
    assert (set it | it in s.items && it.node == op.node) == ForNode(s.items, op.node);
    if Admits(s, e) {
      var id: u16 :| id != 0 && id !in Ids(s.items) && Replies(v, Pushed(s, NewItem(s, id, op.node, op.ttl, op.data, io.now)), MGMT_OK, QueueId(id), w);
      var it := NewItem(s, id, op.node, op.ttl, op.data, io.now);
      assert forall o :: o in s.items ==> o.id in Ids(s.items);
      assert Makes(s, e, it) && w.assets.items == s.items + {it};
    }
  }

  lemma OthersBringNothing(v: View, e: Event, w: View)
    requires StepBy(v, e, w) && !(e.Request? && e.op.QueuePush?)
    ensures w.assets.items <= v.assets.items
  {
    match e
    case Request(reqId, op, io) =>
      hide Fated, Entries, Named, CountFor, Ids, HasFor, Lists;
      assert Handles(v.(ledger := Asked(v.ledger, reqId)), op, io, w);
    case Uplink(src, rssi, now, nowS, acked) =>
      hide Fated, HasFor, IsHead, NoHead;
    case Housekeeping(now) =>
      hide Fated, Reflagged, Live;
    case PairSlice(_, _, _) =>
  }

  /** The law of arrivals: exactly an admitted push brings something, namely one item, made of the
      request. */
  lemma ArrivesIff(v: View, e: Event, w: View)
    requires StepBy(v, e, w)
    ensures (exists it :: it in w.assets.items && it !in v.assets.items) ==> Admits(v.assets, e)
    ensures Admits(v.assets, e) ==> exists it :: Makes(v.assets, e, it) && w.assets.items == v.assets.items + {it}
  {
    hide Admits, Makes, HandlesQueueOp;
    if e.Request? && e.op.QueuePush? {
      var u := v.(ledger := Asked(v.ledger, e.reqId));
      assert HandlesQueueOp(u, e.op, e.io, w);
      PushBrings(u, e.op, e.io, w, e);
      assert Admits(u.assets, e) <==> Admits(v.assets, e);
    } else {
      hide StepBy;
      OthersBringNothing(v, e, w);
      NotAPush(v.assets, e);
    }
  }

  lemma NotAPush(s: Assets, e: Event)
    requires !(e.Request? && e.op.QueuePush?)
    ensures !Admits(s, e)
  {
  }

  // ---- runs -----------------------------------------------------------------------------------

  /** A run of the gateway with its events. */
  ghost predicate Trace(views: seq<View>, events: seq<Event>) {
    && |views| == |events| + 1 && BootState(views[0])
    && forall k :: 0 <= k < |events| ==> StepBy(views[k], events[k], views[k + 1])
  }

  lemma TraceSound(views: seq<View>, events: seq<Event>, i: nat)
    requires Trace(views, events) && i < |views|
    ensures Sound(views[i])
  {
    hide StepBy, Sound;
    forall k | 0 <= k < |views| - 1 ensures GatewaySpec.Next(views[k], views[k + 1]) {
      assert StepBy(views[k], events[k], views[k + 1]);
    }
    RunSound(views, i);
  }

  /** Event `k` takes `it`, for this reason. */
  ghost predicate TakenAt(views: seq<View>, events: seq<Event>, it: Item, k: nat, why: Cause)
    requires |views| == |events| + 1 && k < |events|
  {
    it in views[k].assets.items && Takes(views[k].assets.items, events[k], it, why)
  }

  /** One step of the run, for an item that waits and for one that is gone. */
  lemma OneStep(v: View, e: Event, w: View, it: Item)
    requires Sound(v) && Sound(w) && StepBy(v, e, w)
    ensures it in v.assets.items ==> (it in w.assets.items <==> !Taken(v.assets.items, e, it))
    ensures it.order in v.assets.fates ==>
      it !in w.assets.items && it.order in w.assets.fates && w.assets.fates[it.order] == v.assets.fates[it.order]
  {
    hide StepBy, Taken, Takes;
    if it in v.assets.items {
      LeavesIff(v, e, w, it);
    }
    assert DistinctOrders(v.assets.items);
    StepBooked(v, e, w);
    BookedAccounted(v.assets, w.assets);
    hide Coupled, Conserved, Booked;
    assert it in w.assets.items ==> Queued(w.assets.items, it.order);
  }

  /** Between `i` and `j` something takes `it`, for this reason. */
  ghost predicate TakenIn(views: seq<View>, events: seq<Event>, it: Item, i: nat, j: nat, why: Cause)
    requires |views| == |events| + 1 && j <= |events|
  {
    exists k :: i <= k < j && TakenAt(views, events, it, k, why)
  }

  lemma TakenInMore(views: seq<View>, events: seq<Event>, it: Item, i: nat, j: nat, why: Cause)
    requires |views| == |events| + 1 && i <= j < |events|
    ensures TakenIn(views, events, it, i, j + 1, why) <==>
      TakenIn(views, events, it, i, j, why) || (it in views[j].assets.items && Takes(views[j].assets.items, events[j], it, why))
  {
    hide Takes;
    if TakenAt(views, events, it, j, why) {
      assert TakenIn(views, events, it, i, j + 1, why);
    }
  }

  lemma TraceStep(views: seq<View>, events: seq<Event>, k: nat)
    requires Trace(views, events) && k < |events|
    ensures StepBy(views[k], events[k], views[k + 1]) && Sound(views[k]) && Sound(views[k + 1])
  {
    hide StepBy, Sound;
    TraceSound(views, events, k);
    TraceSound(views, events, k + 1);
  }

  /** Over whole runs: a queued item is still queued later unless one of the four things happened to it
      in between; then it is gone for good and the books say how. */
  lemma {:induction false} WaitsUntilTaken(views: seq<View>, events: seq<Event>, i: nat, j: nat, it: Item)
    requires Trace(views, events) && i <= j < |views| && it in views[i].assets.items
    ensures it in views[j].assets.items <==> forall why :: !TakenIn(views, events, it, i, j, why)
    ensures forall why :: TakenIn(views, events, it, i, j, why) ==>
      it.order in views[j].assets.fates && views[j].assets.fates[it.order] == FateOf(why)
    decreases j - i
  {
    hide StepBy, Sound, Takes, FateOf;
    if i < j {
      var n := j - 1;
      WaitsUntilTaken(views, events, i, n, it);
      TraceStep(views, events, n);
      hide Trace, TakenIn;
      var v, e, w := views[n], events[n], views[n + 1];
      OneStep(v, e, w, it);
      if it in v.assets.items {
        LeavesIff(v, e, w, it);
      }
      forall why ensures TakenIn(views, events, it, i, j, why) <==>
        TakenIn(views, events, it, i, n, why) || (it in v.assets.items && Takes(v.assets.items, e, it, why))
      {
        TakenInMore(views, events, it, i, n, why);
      }
    }
  }
}
