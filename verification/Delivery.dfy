/** The whole path of a remote command as a step system: the host pushes, the gateway sends the head
    of the node's queue again and again, the air loses, delays and repeats frames, the node accepts
    and acknowledges by its replay lane, runs what it accepted, and remembers only its last command.
    Either end may reboot at any time, the node also between the acknowledgement and the run. */
module Delivery {
  import opened Basics
  import opened DownlinkQueue

  /** What a downlink decodes to: the host-process tag and the command number. */
  datatype Cmd = Cmd(epoch: u32, id: u16)
  type Decoder = bytes -> Option<Cmd>

  /** A downlink transmission: the gateway's counter, the item it carries (numbered over all gateway
      boots) and its payload. */
  datatype Downlink = Downlink(ctr: nat, serial: nat, data: bytes)

  /** `node` is the one node followed here; items of other nodes share the pool. `held` is the frame
      accepted and acknowledged but not run yet. The history numbers the acceptances over all boots
      of the node; `taken` are those a reboot dropped before they ran. */
  datatype State = State(
    node: Addr,
    now: nat,
    items: set<Item>,
    nextOrder: nat,
    base: nat,
    txCtr: nat,
    air: set<Downlink>,
    lastSeen: nat,
    held: Option<Downlink>,
    memory: Option<Cmd>,
    executed: seq<nat>,
    // history
    pushed: map<nat, Item>,
    accepted: seq<Downlink>,
    taken: set<nat>,
    everExecuted: set<nat>,
    confirmed: set<nat>)

  function Serial(s: State, it: Item): nat {
    s.base + it.order
  }

  ghost predicate Init(s: State) {
    && s.items == {} && s.nextOrder == 0 && s.air == {}
    && s.held == None && s.memory == None && s.executed == []
    && s.pushed == map[] && s.accepted == [] && s.taken == {} && s.everExecuted == {} && s.confirmed == {}
  }

  /** A frame fresh on the lane: the lane moves, the acknowledgement goes out, the frame is handed on. */
  function Accept(s: State, f: Downlink): State {
    s.(lastSeen := f.ctr, held := Some(f), accepted := s.accepted + [f])
  }

  /** The node's downlink window: the command is run and remembered, unless it is the remembered one. */
  function Dispatch(dec: Decoder, s: State, f: Downlink): State {
    var free := s.(held := None);
    match dec(f.data)
    case None => free
    case Some(c) =>
      if s.memory == Some(c) then free
      else free.(memory := Some(c), executed := s.executed + [f.serial], everExecuted := s.everExecuted + {f.serial})
  }

  /** All RAM is lost, the frame on hand included. The lane is persisted lazily: it may fall back. */
  function Restart(s: State, lane: nat): State {
    s.(held := None, memory := None, executed := [], lastSeen := lane,
       taken := if s.held.Some? && s.accepted != [] then s.taken + {|s.accepted| - 1} else s.taken)
  }

  /** Some frame was acknowledged under this counter. */
  predicate Acknowledged(s: State, ctr: nat) {
    exists j :: 0 <= j < |s.accepted| && s.accepted[j].ctr == ctr
  }

  datatype Step =
    | Push(item: Item)
    | Send(item: Item, ctr: nat)
    | OtherTraffic(ctr: nat)
    | Hear(frame: Downlink)
    | RunHeld
    | Confirm(item: Item, ctr: nat)
    | Remove(gone: set<Item>)
    | Tick(later: nat)
    | NodeReboot(lane: nat)
    | GatewayReboot(ctr: nat)

  ghost predicate NextBy(dec: Decoder, s: State, t: State, step: Step) {
    match step
    case Push(it) =>
      // The queue's contract: a fresh id, the next stamp.
      && it.id != 0 && it.id !in Ids(s.items) && it.order == s.nextOrder && it.at == s.now
      && t == s.(items := s.items + {it}, nextOrder := s.nextOrder + 1, pushed := s.pushed[Serial(s, it) := it])
    case Send(it, ctr) =>
      && IsHead(s.items, s.node, s.now, it) && ctr > s.txCtr
      && t == s.(txCtr := ctr, air := s.air + {Downlink(ctr, Serial(s, it), it.data)})
    case OtherTraffic(ctr) =>
      ctr >= s.txCtr && t == s.(txCtr := ctr)
    case Hear(f) =>
      // One frame at a time: what `recv` returned is handled before the next call.
      f in s.air && s.held == None && t == if f.ctr > s.lastSeen then Accept(s, f) else s
    case RunHeld =>
      s.held.Some? && t == Dispatch(dec, s, s.held.value)
    case Confirm(it, ctr) =>
      // An acknowledgement under the counter of a transmission of this very item.
      && it in s.items && it.node == s.node && Acknowledged(s, ctr)
      && Downlink(ctr, Serial(s, it), it.data) in s.air
      && t == s.(items := s.items - {it}, confirmed := s.confirmed + {Serial(s, it)})
    case Remove(gone) =>
      // Expiry, a host drop, a removed node.
      t == s.(items := s.items - gone)
    case Tick(later) =>
      later >= s.now && t == s.(now := later)
    case NodeReboot(lane) =>
      lane <= s.lastSeen && t == Restart(s, lane)
    case GatewayReboot(ctr) =>
      // The queue is RAM, the clock starts over, the counter resumes at its reserved watermark.
      ctr >= s.txCtr && t == s.(items := {}, base := s.base + s.nextOrder, nextOrder := 0, now := 0, txCtr := ctr)
  }

  ghost predicate Next(dec: Decoder, s: State, t: State) {
    exists step :: NextBy(dec, s, t, step)
  }

  ghost predicate Run(dec: Decoder, states: seq<State>) {
    && |states| > 0 && Init(states[0])
    && forall i :: 0 <= i < |states| - 1 ==> Next(dec, states[i], states[i + 1])
  }

  // ---- the invariant -----------------------------------------------------------------

  predicate Increasing(xs: seq<nat>) {
    forall i, j :: 0 <= i < j < |xs| ==> xs[i] < xs[j]
  }

  /** The record of pushes knows this number, as this node's, under this payload. */
  predicate Recorded(s: State, k: nat, data: bytes) {
    k in s.pushed && s.pushed[k].data == data && s.pushed[k].node == s.node
  }

  /** Counters order the transmissions as the queue ordered the items. */
  ghost predicate AirInv(s: State) {
    && (forall f, g :: f in s.air && g in s.air && f.ctr < g.ctr ==> f.serial <= g.serial)
    && (forall f, g :: f in s.air && g in s.air && f.ctr == g.ctr ==> f == g)
    && (forall f :: f in s.air ==> f.ctr <= s.txCtr && f.serial < s.base + s.nextOrder)
    && (forall f :: f in s.air ==> Recorded(s, f.serial, f.data))
  }

  /** Nothing that can still be sent is older than anything already sent. An expired item may be,
      until housekeeping drops it: it is never sent again. */
  ghost predicate QueueInv(s: State) {
    && (forall it :: it in s.items ==> it.order < s.nextOrder && Serial(s, it) in s.pushed && s.pushed[Serial(s, it)] == it)
    && (forall a, b :: a in s.items && b in s.items && a.order == b.order ==> a == b)
    && (forall k :: k in s.pushed ==> k < s.base + s.nextOrder)
    && (forall it, f :: it in s.items && it.node == s.node && !Expired(it, s.now) && f in s.air ==> f.serial <= Serial(s, it))
  }

  /** The number of the last command executed in this boot. */
  function LastRun(s: State): nat
    requires s.executed != []
  {
    s.executed[|s.executed| - 1]
  }

  /** The node: what it ran this boot, it ran in queue order, its memory is the last of it, and nothing
      it holds or may still accept is older. */
  ghost predicate NodeInv(dec: Decoder, s: State) {
    && Increasing(s.executed)
    && (forall k :: k in s.executed ==> k in s.everExecuted)
    && (s.executed == [] <==> s.memory == None)
    && (s.held.Some? ==> s.held.value in s.air && s.held.value.ctr <= s.lastSeen)
    && (s.executed != [] ==>
      && LastRun(s) in s.pushed && s.memory == dec(s.pushed[LastRun(s)].data)
      && (exists f :: f in s.air && f.serial == LastRun(s))
      && (s.held.Some? ==> LastRun(s) <= s.held.value.serial)
      && forall f :: f in s.air && f.ctr > s.lastSeen ==> LastRun(s) <= f.serial)
  }

  /** Acceptance `j` is the one not run yet. */
  predicate OnHand(s: State, j: nat) {
    s.held.Some? && j + 1 == |s.accepted|
  }

  /** Acceptance `j` came to its turn: neither dropped by a reboot nor still on hand. */
  predicate Handled(s: State, j: nat) {
    j < |s.accepted| && j !in s.taken && !OnHand(s, j)
  }

  /** A copy of item `k` came to its turn. */
  predicate CopyHandled(s: State, k: nat) {
    exists j :: 0 <= j < |s.accepted| && Handled(s, j) && s.accepted[j].serial == k
  }

  predicate CopyAccepted(s: State, k: nat) {
    exists j :: 0 <= j < |s.accepted| && s.accepted[j].serial == k
  }

  /** Item `k` is a command of the node followed. */
  predicate IsCommand(dec: Decoder, s: State, k: nat) {
    k in s.pushed && s.pushed[k].node == s.node && dec(s.pushed[k].data).Some?
  }

  ghost predicate HistoryInv(s: State) {
    && (forall j :: 0 <= j < |s.accepted| ==> s.accepted[j] in s.air)
    && (forall j :: j in s.taken ==> j < |s.accepted|)
    && (s.held.Some? ==> s.accepted != [] && s.accepted[|s.accepted| - 1] == s.held.value && |s.accepted| - 1 !in s.taken)
    && (forall k :: k in s.confirmed ==> CopyAccepted(s, k))
  }

  ghost predicate TurnInv(dec: Decoder, s: State) {
    && (forall k :: k in s.everExecuted ==> IsCommand(dec, s, k) && CopyHandled(s, k))
    && (DistinctCmds(dec, s) ==> forall j :: 0 <= j < |s.accepted| && Handled(s, j) && dec(s.accepted[j].data).Some? ==>
          s.accepted[j].serial in s.everExecuted)
  }

  ghost predicate Inv(dec: Decoder, s: State) {
    AirInv(s) && QueueInv(s) && NodeInv(dec, s) && HistoryInv(s) && TurnInv(dec, s)
  }

  /** The host never tags two pushes to the node alike. */
  ghost predicate DistinctCmds(dec: Decoder, s: State) {
    forall a, b :: IsCommand(dec, s, a) && IsCommand(dec, s, b) && dec(s.pushed[a].data) == dec(s.pushed[b].data) ==> a == b
  }

  lemma InitInv(dec: Decoder, s: State)
    requires Init(s)
    ensures Inv(dec, s)
  {
  }

  /** Pushing adds a number never used before, so what was recorded stays recorded. */
  lemma PushKeepsRecord(dec: Decoder, s: State, t: State, it: Item)
    requires QueueInv(s) && NextBy(dec, s, t, Push(it))
    ensures forall k :: k in s.pushed ==> k in t.pushed && t.pushed[k] == s.pushed[k]
    ensures Serial(s, it) !in s.pushed
  {
  }

  lemma AirStepPush(dec: Decoder, s: State, t: State, it: Item)
    requires AirInv(s) && QueueInv(s) && NextBy(dec, s, t, Push(it))
    ensures AirInv(t)
  {
  }

  lemma AirStepSend(dec: Decoder, s: State, t: State, it: Item, ctr: nat)
    requires AirInv(s) && QueueInv(s) && NextBy(dec, s, t, Send(it, ctr))
    ensures AirInv(t)
  {
    hide Expired;
    var d := Downlink(ctr, Serial(s, it), it.data);
    assert t.air == s.air + {d} && t.pushed == s.pushed && t.node == s.node && t.base + t.nextOrder == s.base + s.nextOrder && t.txCtr == d.ctr;
    assert forall f :: f in s.air ==> f.serial <= d.serial && f.ctr < d.ctr;
    assert Recorded(t, d.serial, d.data) && d.serial < t.base + t.nextOrder;
    assert forall f :: f in s.air ==> Recorded(t, f.serial, f.data);
    hide QueueInv, NextBy, Serial, Recorded;
  }

  lemma AirKept(s: State, t: State)
    requires AirInv(s) && t.air == s.air && t.pushed == s.pushed && t.node == s.node
    requires t.base + t.nextOrder == s.base + s.nextOrder && t.txCtr >= s.txCtr
    ensures AirInv(t)
  {
  }

  lemma AirStep(dec: Decoder, s: State, t: State, step: Step)
    requires AirInv(s) && QueueInv(s) && NextBy(dec, s, t, step)
    ensures AirInv(t)
  {
    hide Expired, IsHead, AirInv, QueueInv;
    match step
    case Push(it) => AirStepPush(dec, s, t, it);
    case Send(it, ctr) => AirStepSend(dec, s, t, it, ctr);
    case _ => AirKept(s, t);
  }

  lemma QueueStepPush(dec: Decoder, s: State, t: State, it: Item)
    requires AirInv(s) && QueueInv(s) && NextBy(dec, s, t, Push(it))
    ensures QueueInv(t)
  {
    hide Expired;
    PushKeepsRecord(dec, s, t, it);
  }

  lemma QueueStepSend(dec: Decoder, s: State, t: State, it: Item, ctr: nat)
    requires QueueInv(s) && NextBy(dec, s, t, Send(it, ctr))
    ensures QueueInv(t)
  {
    hide Expired;
    forall o, f | o in t.items && o.node == t.node && !Expired(o, t.now) && f in t.air ensures f.serial <= Serial(t, o) {
    }
  }

  /** Fewer items and a later clock leave less to send. */
  lemma QueueKept(s: State, t: State)
    requires QueueInv(s) && t.items <= s.items && t.now >= s.now && t.air == s.air && t.pushed == s.pushed
    requires t.node == s.node && t.base == s.base && t.nextOrder == s.nextOrder
    ensures QueueInv(t)
  {
    forall it | it in t.items && !Expired(it, t.now) ensures !Expired(it, s.now) {
      if Expired(it, s.now) {
        ExpiredStays(it, s.now, t.now);
      }
    }
    hide Expired;
  }

  lemma QueueStep(dec: Decoder, s: State, t: State, step: Step)
    requires AirInv(s) && QueueInv(s) && NextBy(dec, s, t, step)
    ensures QueueInv(t)
  {
    hide Expired, IsHead, AirInv;
    match step
    case Push(it) => QueueStepPush(dec, s, t, it);
    case Send(it, ctr) => QueueStepSend(dec, s, t, it, ctr);
    case GatewayReboot(ctr) =>
    case _ =>
      hide QueueInv;
      QueueKept(s, t);
  }

  lemma IncreasingSnoc(xs: seq<nat>, x: nat)
    requires Increasing(xs) && (xs != [] ==> xs[|xs| - 1] < x)
    ensures Increasing(xs + [x])
  {
  }

  /** The heart of it: the frame on hand carries the last executed command again, which the memory
      recognises, or a later one; and what the lane still accepts is not older than it. */
  lemma RunStep(dec: Decoder, s: State, t: State)
    requires AirInv(s) && NodeInv(dec, s) && NextBy(dec, s, t, RunHeld)
    ensures NodeInv(dec, t)
  {
    var f := s.held.value;
    if dec(f.data).Some? && s.memory != dec(f.data) {
      if s.executed != [] {
        assert LastRun(s) <= f.serial && LastRun(s) != f.serial;
      }
      IncreasingSnoc(s.executed, f.serial);
      assert LastRun(t) == f.serial && f in t.air && t.memory == dec(f.data);
    } else {
      assert t == s.(held := None);
    }
  }

  lemma NodeStepSend(dec: Decoder, s: State, t: State, it: Item, ctr: nat)
    requires AirInv(s) && QueueInv(s) && NodeInv(dec, s) && NextBy(dec, s, t, Send(it, ctr))
    ensures NodeInv(dec, t)
  {
    hide Expired, Recorded;
    if s.executed != [] {
      var g :| g in s.air && g.serial == LastRun(s);
      assert g in t.air && g.serial <= Serial(s, it);
    }
  }

  /** What the gateway does to its queue and clock is nothing to the node. */
  lemma NodeKept(dec: Decoder, s: State, t: State)
    requires NodeInv(dec, s) && t.air == s.air && t.lastSeen == s.lastSeen && t.held == s.held && t.memory == s.memory
    requires t.executed == s.executed && t.everExecuted == s.everExecuted
    requires forall k :: k in s.pushed ==> k in t.pushed && t.pushed[k] == s.pushed[k]
    ensures NodeInv(dec, t)
  {
  }

  lemma NodeStep(dec: Decoder, s: State, t: State, step: Step)
    requires AirInv(s) && QueueInv(s) && NodeInv(dec, s) && NextBy(dec, s, t, step)
    ensures NodeInv(dec, t)
  {
    hide Expired, IsHead, Recorded, QueueInv;
    match step
    case RunHeld => RunStep(dec, s, t);
    case Send(it, ctr) => NodeStepSend(dec, s, t, it, ctr);
    case Hear(f) =>
    case NodeReboot(lane) =>
    case Push(it) =>
      PushKeepsRecord(dec, s, t, it);
      NodeKept(dec, s, t);
    case _ =>
      hide NodeInv;
      NodeKept(dec, s, t);
  }

  lemma HistoryKept(s: State, t: State)
    requires HistoryInv(s) && s.air <= t.air && t.accepted == s.accepted && t.taken == s.taken && t.confirmed == s.confirmed
    requires t.held.Some? ==> t.held == s.held
    ensures HistoryInv(t)
  {
    assert forall k :: CopyAccepted(s, k) ==> CopyAccepted(t, k);
  }

  lemma HistoryStepHear(dec: Decoder, s: State, t: State, f: Downlink)
    requires HistoryInv(s) && NextBy(dec, s, t, Hear(f))
    ensures HistoryInv(t)
  {
    forall k | CopyAccepted(s, k) ensures CopyAccepted(t, k) {
      var j :| 0 <= j < |s.accepted| && s.accepted[j].serial == k;
      assert t.accepted[j] == s.accepted[j];
    }
  }

  lemma HistoryStepConfirm(dec: Decoder, s: State, t: State, it: Item, ctr: nat)
    requires AirInv(s) && HistoryInv(s) && NextBy(dec, s, t, Confirm(it, ctr))
    ensures HistoryInv(t)
  {
    hide Recorded, Serial;
    var j :| 0 <= j < |s.accepted| && s.accepted[j].ctr == ctr;
    assert s.accepted[j] == Downlink(ctr, Serial(s, it), it.data);
    assert CopyAccepted(t, Serial(s, it));
    assert forall k :: CopyAccepted(s, k) ==> CopyAccepted(t, k);
  }

  lemma HistoryStep(dec: Decoder, s: State, t: State, step: Step)
    requires AirInv(s) && HistoryInv(s) && NextBy(dec, s, t, step)
    ensures HistoryInv(t)
  {
    hide Expired, IsHead, AirInv;
    match step
    case Hear(f) => HistoryStepHear(dec, s, t, f);
    case Confirm(it, ctr) => HistoryStepConfirm(dec, s, t, it, ctr);
    case NodeReboot(lane) =>
      assert forall k :: CopyAccepted(s, k) ==> CopyAccepted(t, k);
    case _ =>
      hide HistoryInv;
      HistoryKept(s, t);
  }

  /** A step that runs nothing lets no copy come to its turn and takes none back. */
  lemma SameTurns(dec: Decoder, s: State, t: State, step: Step)
    requires HistoryInv(s) && NextBy(dec, s, t, step) && step != RunHeld
    ensures |s.accepted| <= |t.accepted| && t.everExecuted == s.everExecuted
    ensures forall j :: 0 <= j < |s.accepted| ==> t.accepted[j] == s.accepted[j]
    ensures forall j :: 0 <= j < |t.accepted| ==> (Handled(t, j) <==> j < |s.accepted| && Handled(s, j))
    ensures forall k :: CopyHandled(s, k) ==> CopyHandled(t, k)
  {
    hide Expired, IsHead;
    forall k | CopyHandled(s, k) ensures CopyHandled(t, k) {
      var j :| 0 <= j < |s.accepted| && Handled(s, j) && s.accepted[j].serial == k;
      assert Handled(t, j) && t.accepted[j].serial == k;
    }
  }

  lemma CommandsStay(dec: Decoder, s: State, t: State, step: Step)
    requires QueueInv(s) && NextBy(dec, s, t, step)
    ensures forall k :: IsCommand(dec, s, k) ==> IsCommand(dec, t, k) && t.pushed[k] == s.pushed[k]
    ensures DistinctCmds(dec, t) ==> DistinctCmds(dec, s)
  {
    hide Expired, IsHead;
    if step.Push? {
      PushKeepsRecord(dec, s, t, step.item);
    } else {
      assert t.pushed == s.pushed;
    }
  }

  lemma TurnStepRun(dec: Decoder, s: State, t: State)
    requires AirInv(s) && NodeInv(dec, s) && HistoryInv(s) && TurnInv(dec, s) && NextBy(dec, s, t, RunHeld)
    ensures TurnInv(dec, t)
  {
    hide Increasing;
    var f, n := s.held.value, |s.accepted| - 1;
    assert forall j :: 0 <= j < |s.accepted| ==> (Handled(t, j) <==> Handled(s, j) || j == n);
    assert forall k :: IsCommand(dec, t, k) <==> IsCommand(dec, s, k);
    assert DistinctCmds(dec, t) ==> DistinctCmds(dec, s);
    assert Handled(t, n) && t.accepted[n] == f && Recorded(s, f.serial, f.data);
    forall k | k in t.everExecuted ensures IsCommand(dec, t, k) && CopyHandled(t, k) {
      if k in s.everExecuted {
        var j :| 0 <= j < |s.accepted| && Handled(s, j) && s.accepted[j].serial == k;
        assert Handled(t, j) && t.accepted[j].serial == k;
      } else {
        assert k == f.serial;
      }
    }
    if DistinctCmds(dec, s) && dec(f.data).Some? {
      assert f.serial in t.everExecuted by {
        if s.memory == dec(f.data) {
          assert LastRun(s) in s.executed;
          assert IsCommand(dec, s, LastRun(s)) && IsCommand(dec, s, f.serial);
        }
      }
    }
  }

  lemma TurnStep(dec: Decoder, s: State, t: State, step: Step)
    requires AirInv(s) && QueueInv(s) && NodeInv(dec, s) && HistoryInv(s) && TurnInv(dec, s) && NextBy(dec, s, t, step)
    ensures TurnInv(dec, t)
  {
    if step == RunHeld {
      TurnStepRun(dec, s, t);
    } else {
      SameTurns(dec, s, t, step);
      CommandsStay(dec, s, t, step);
      hide NextBy, DistinctCmds, QueueInv, AirInv, NodeInv, HistoryInv, Handled, IsCommand, CopyHandled;
    }
  }

  lemma StepInv(dec: Decoder, s: State, t: State, step: Step)
    requires Inv(dec, s) && NextBy(dec, s, t, step)
    ensures Inv(dec, t)
  {
    hide AirInv, QueueInv, NodeInv, HistoryInv, TurnInv, NextBy;
    AirStep(dec, s, t, step);
    QueueStep(dec, s, t, step);
    NodeStep(dec, s, t, step);
    HistoryStep(dec, s, t, step);
    TurnStep(dec, s, t, step);
  }

  lemma {:induction false} RunInv(dec: Decoder, states: seq<State>, i: nat)
    requires Run(dec, states) && i < |states|
    ensures Inv(dec, states[i])
  {
    if i == 0 {
      InitInv(dec, states[0]);
    } else {
      RunInv(dec, states, i - 1);
      assert Next(dec, states[i - 1], states[i - 1 + 1]);
      var step :| NextBy(dec, states[i - 1], states[i], step);
      hide Inv, NextBy;
      StepInv(dec, states[i - 1], states[i], step);
    }
  }

  // ---- the theorems ------------------------------------------------------------------

  /** In every run, whatever the loss, delay, repetition, expiry, drops and reboots: within one boot
      the node executes commands in the order they were pushed, each at most once, although it
      remembers only the last one. No assumption on the tags is needed. */
  lemma AtMostOnceInOrder(dec: Decoder, states: seq<State>, i: nat)
    requires Run(dec, states) && i < |states|
    ensures Increasing(states[i].executed)
    ensures forall j, k :: 0 <= j < k < |states[i].executed| ==> states[i].executed[j] != states[i].executed[k]
  {
    RunInv(dec, states, i);
  }

  /** What the node executed was pushed, to this node, and is a command. */
  lemma ExecutedWasPushed(dec: Decoder, states: seq<State>, i: nat, k: nat)
    requires Run(dec, states) && i < |states|
    requires k in states[i].executed || k in states[i].everExecuted
    ensures IsCommand(dec, states[i], k)
  {
    RunInv(dec, states, i);
  }

  /** The dedup never swallows a command it should run: with distinct tags, the first copy of a
      command handled in a boot is executed. In general it is executed exactly when its tag differs
      from that of the last command executed in the boot. */
  lemma FreshCommandRuns(dec: Decoder, states: seq<State>, i: nat, t: State)
    requires Run(dec, states) && i < |states|
    requires var s := states[i];
      NextBy(dec, s, t, RunHeld) && dec(s.held.value.data).Some? && s.held.value.serial !in s.executed
    ensures var s := states[i]; var f := s.held.value;
      && (t.executed == s.executed + [f.serial] <==>
          s.executed == [] || (LastRun(s) in s.pushed && dec(s.pushed[LastRun(s)].data) != dec(f.data)))
      && (DistinctCmds(dec, s) ==> t.executed == s.executed + [f.serial])
  {
    RunInv(dec, states, i);
    var s := states[i];
    var f := s.held.value;
    assert Recorded(s, f.serial, f.data);
    if s.executed != [] {
      assert LastRun(s) in s.executed;
      assert IsCommand(dec, s, LastRun(s)) && IsCommand(dec, s, f.serial);
      if s.memory == dec(f.data) {
        assert t.executed == s.executed;
        assert |t.executed| != |s.executed + [f.serial]|;
      }
    }
  }

  /** What an execution takes: with distinct tags, a command has been executed (in this boot of the
      node or an earlier one) exactly when one of its accepted copies came to its turn. */
  lemma ExecutedIffHandled(dec: Decoder, states: seq<State>, i: nat, k: nat)
    requires Run(dec, states) && i < |states|
    requires DistinctCmds(dec, states[i])
    ensures k in states[i].everExecuted <==> IsCommand(dec, states[i], k) && CopyHandled(states[i], k)
  {
    RunInv(dec, states, i);
    var s := states[i];
    if IsCommand(dec, s, k) && CopyHandled(s, k) {
      var j :| 0 <= j < |s.accepted| && Handled(s, j) && s.accepted[j].serial == k;
      assert s.accepted[j] in s.air && Recorded(s, k, s.accepted[j].data);
    }
  }

  /** What a delivery report is worth. A command the gateway dropped from its queue as delivered was
      accepted by the node; with distinct tags it is still unexecuted if and only if every accepted
      copy was dropped by a reboot of the node before its turn or is still on hand. */
  lemma ConfirmedIsExecutedUnlessTaken(dec: Decoder, states: seq<State>, i: nat, k: nat)
    requires Run(dec, states) && i < |states| && k in states[i].confirmed
    requires DistinctCmds(dec, states[i]) && (k in states[i].pushed ==> dec(states[i].pushed[k].data).Some?)
    ensures CopyAccepted(states[i], k)
    ensures var s := states[i];
      k !in s.everExecuted <==>
        forall j :: 0 <= j < |s.accepted| && s.accepted[j].serial == k ==> j in s.taken || OnHand(s, j)
  {
    RunInv(dec, states, i);
    ExecutedIffHandled(dec, states, i, k);
    var s := states[i];
    hide Run, QueueInv, NodeInv, TurnInv, DistinctCmds;
    var a :| 0 <= a < |s.accepted| && s.accepted[a].serial == k;
    assert s.accepted[a] in s.air && Recorded(s, k, s.accepted[a].data);
    assert IsCommand(dec, s, k);
    hide AirInv, IsCommand;
  }

  /** The run that shows the exception is real: pushed, sent, accepted and acknowledged, reported as
      delivered and dropped from the queue; then the node resets before it runs the command. */
  lemma ConfirmedButLost(dec: Decoder, it: Item) returns (states: seq<State>)
    requires it.id != 0 && it.order == 0 && it.at == 0 && it.ttl > 0 && dec(it.data).Some?
    ensures Run(dec, states) && DistinctCmds(dec, states[|states| - 1])
    ensures var s := states[|states| - 1];
      0 in s.confirmed && 0 !in s.everExecuted && s.held == None && s.items == {} && IsCommand(dec, s, 0)
  {
    var f := Downlink(1, 0, it.data);
    var s0 := State(it.node, 0, {}, 0, 0, 0, {}, 0, None, None, [], map[], [], {}, {}, {});
    var s1 := s0.(items := {it}, nextOrder := 1, pushed := map[0 := it]);
    var s2 := s1.(txCtr := 1, air := {f});
    var s3 := Accept(s2, f);
    var s4 := s3.(items := {}, confirmed := {0});
    var s5 := Restart(s4, 0);
    states := [s0, s1, s2, s3, s4, s5];
    assert NextBy(dec, s0, s1, Push(it)) by {
      assert s0.items + {it} == {it} && s0.pushed[0 := it] == map[0 := it];
    }
    assert NextBy(dec, s1, s2, Send(it, 1));
    assert NextBy(dec, s2, s3, Hear(f));
    assert NextBy(dec, s3, s4, Confirm(it, 1)) by {
      assert s3.accepted[0].ctr == 1 && s3.items - {it} == {};
    }
    assert NextBy(dec, s4, s5, NodeReboot(0));
    hide NextBy, Accept, Restart;
    forall i | 0 <= i < |states| - 1 ensures Next(dec, states[i], states[i + 1]) {
    }
  }

  /** Why the memory of one command is enough: nothing that can still be sent is older than anything
      already sent, and what the lane still accepts is not older than what is held or was executed. */
  lemma QueueNeverGoesBack(dec: Decoder, states: seq<State>, i: nat, it: Item, f: Downlink)
    requires Run(dec, states) && i < |states|
    requires f in states[i].air
    requires it in states[i].items && it.node == states[i].node && !Expired(it, states[i].now)
    ensures f.serial <= Serial(states[i], it)
    ensures forall k :: k in states[i].executed && f.ctr > states[i].lastSeen ==> k <= f.serial
    ensures states[i].held.Some? && f.ctr > states[i].lastSeen ==> states[i].held.value.serial <= f.serial
  {
    RunInv(dec, states, i);
    var s := states[i];
    forall k | k in s.executed && f.ctr > s.lastSeen ensures k <= f.serial {
      var j :| 0 <= j < |s.executed| && s.executed[j] == k;
      assert k <= LastRun(s);
    }
  }

}
