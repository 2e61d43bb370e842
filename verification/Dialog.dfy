/** Runs of the whole system: what the node's remote shell does is what the delivery system executes, a
    delivery report means what it can mean, and the host's verdict on a reply holds for every command
    whose number no other command uses. */
module Dialog {
  import opened Basics
  import opened DownlinkQueue
  import opened Delivery
  import opened EndToEnd
  import G = GatewaySpec
  import R = RemoteShell
  import H = HostView
  import F = Frames

  // ---- the node half ----------------------------------------------------------------------

  /** What the remembered command is called in the delivery system. */
  function Tag(m: R.Memory): Option<Cmd> {
    if m.Last? then Some(Cmd(m.epoch, m.cmd)) else None
  }

  function TagOf(e: R.Exchange): Cmd {
    Cmd(e.epoch, e.cmd)
  }

  /** The items behind the executions. */
  function Runs(log: seq<R.Exchange>, served: seq<nat>): (ks: seq<nat>)
    requires |log| == |served|
  {
    if log == [] then []
    else
      var n := |log| - 1;
      Runs(log[..n], served[..n]) + (if log[n].Run? then [served[n]] else [])
  }

  /** Item `k` carries this command to the node. */
  predicate Carries(dec: Decoder, s: State, k: nat, c: Cmd) {
    Recipient(s, k) && dec(s.pushed[k].data) == Some(c)
  }

  /** The exchanges of this boot are the dialog the delivery system had with the node. */
  ghost predicate Linked(dec: Decoder, y: System) {
    && |y.served| == |y.log| && R.Legal(R.Nothing, y.log)
    && Tag(R.MemoryAfter(R.Nothing, y.log)) == y.s.memory
    && Runs(y.log, y.served) == y.s.executed
    && forall i :: 0 <= i < |y.log| ==> Carries(dec, y.s, y.served[i], TagOf(y.log[i]))
  }

  /** The remote shell's dedup is the delivery system's: it runs the command exactly when `Dispatch`
      executes it, and remembers the same one afterwards. */
  lemma OnShellIsDispatch(dec: Decoder, s: State, t: State, m: R.Memory, x: R.Exchange)
    requires s.held.Some? && dec(s.held.value.data) == Some(TagOf(x)) && t == Dispatch(dec, s, s.held.value)
    requires Tag(m) == s.memory && R.Fits(m, x)
    ensures t.executed == s.executed + (if x.Run? then [s.held.value.serial] else [])
    ensures Tag(R.After(m, x)) == t.memory
  {
    assert s.executed + [] == s.executed;
  }

  lemma ExecuteMoves(dec: Decoder, y: System, x: R.Exchange, step: Step, z: System)
    requires Moves(dec, y, Execute(x), step, z)
    ensures Shell(dec, y, x, z) && z.s == Dispatch(dec, y.s, y.s.held.value)
  {
    hide Shell, Dispatch, IsHead, Ids, Expired;
  }

  lemma HeldIsCarried(dec: Decoder, s: State, c: Cmd)
    requires AirInv(s) && NodeInv(dec, s) && s.held.Some? && dec(s.held.value.data) == Some(c)
    ensures Carries(dec, s, s.held.value.serial, c)
  {
    assert Recorded(s, s.held.value.serial, s.held.value.data);
  }

  lemma LinkedMore(dec: Decoder, y: System, x: R.Exchange, k: nat, z: System)
    requires Linked(dec, y) && R.Fits(R.MemoryAfter(R.Nothing, y.log), x)
    requires z.s.pushed == y.s.pushed && z.s.node == y.s.node && Carries(dec, y.s, k, TagOf(x))
    requires z.log == y.log + [x] && z.served == y.served + [k]
    requires Tag(R.After(R.MemoryAfter(R.Nothing, y.log), x)) == z.s.memory
    requires z.s.executed == y.s.executed + (if x.Run? then [k] else [])
    ensures Linked(dec, z)
  {
    hide R.Fits, R.Legal, R.MemoryAfter;
    R.LegalSnoc(R.Nothing, y.log, x);
    assert z.log[..|y.log|] == y.log && z.served[..|y.log|] == y.served;
  }

  lemma LinkedExecute(dec: Decoder, y: System, x: R.Exchange, step: Step, z: System)
    requires AirInv(y.s) && NodeInv(dec, y.s) && Linked(dec, y) && Moves(dec, y, Execute(x), step, z)
    ensures Linked(dec, z)
  {
    hide Moves, AirInv, NodeInv, R.Fits, R.Legal, R.MemoryAfter, Carries, Runs;
    ExecuteMoves(dec, y, x, step, z);
    if dec(y.s.held.value.data).Some? {
      HeldIsCarried(dec, y.s, TagOf(x));
      OnShellIsDispatch(dec, y.s, z.s, R.MemoryAfter(R.Nothing, y.log), x);
      LinkedMore(dec, y, x, y.s.held.value.serial, z);
    } else {
      StillLinked(dec, y, z);
    }
  }

  lemma StillLinked(dec: Decoder, y: System, z: System)
    requires Linked(dec, y) && z.log == y.log && z.served == y.served && z.s.memory == y.s.memory && z.s.executed == y.s.executed
    requires z.s.pushed == y.s.pushed && z.s.node == y.s.node
    ensures Linked(dec, z)
  {
  }

  lemma LinkedFresh(dec: Decoder, y: System)
    requires y.s.memory == None && y.s.executed == [] && y.log == [] && y.served == []
    ensures Linked(dec, y)
  {
    hide R.Fits, Carries;
  }

  lemma ResetMoves(dec: Decoder, y: System, lane: nat, step: Step, z: System)
    requires Moves(dec, y, NodeResets(lane), step, z)
    ensures z.s.memory == None && z.s.executed == [] && z.log == [] && z.served == []
  {
    hide IsHead, Ids, Expired, G.StepBy, G.BootState, Shell;
  }

  /** The exchanges still are the dialog when nothing of it changes and the commands stay on record. */
  lemma LinkedKept(dec: Decoder, y: System, z: System)
    requires Linked(dec, y) && z.log == y.log && z.served == y.served && z.s.memory == y.s.memory && z.s.executed == y.s.executed
    requires forall k :: IsCommand(dec, y.s, k) ==> IsCommand(dec, z.s, k) && z.s.pushed[k] == y.s.pushed[k]
    ensures Linked(dec, z)
  {
    hide R.Legal, R.MemoryAfter, Runs;
    forall i | 0 <= i < |z.log| ensures Carries(dec, z.s, z.served[i], TagOf(z.log[i])) {
      assert Carries(dec, y.s, y.served[i], TagOf(y.log[i]));
      assert IsCommand(dec, y.s, y.served[i]);
    }
  }

  lemma LinkedStep(dec: Decoder, y: System, ev: Event, step: Step, z: System)
    requires AirInv(y.s) && QueueInv(y.s) && NodeInv(dec, y.s) && Linked(dec, y) && Moves(dec, y, ev, step, z)
    ensures Linked(dec, z)
  {
    hide *;
    match ev
    case Execute(x) =>
      LinkedExecute(dec, y, x, step, z);
    case NodeResets(lane) =>
      ResetMoves(dec, y, lane, step, z);
      LinkedFresh(dec, z);
    case _ =>
      MovesDeliver(dec, y, ev, step, z);
      CommandsStay(dec, y.s, z.s, step);
      DialogStays(dec, y, ev, step, z);
      LinkedKept(dec, y, z);
  }

  lemma DialogStays(dec: Decoder, y: System, ev: Event, step: Step, z: System)
    requires Moves(dec, y, ev, step, z) && !ev.Execute? && !ev.NodeResets?
    ensures z.log == y.log && z.served == y.served && z.s.memory == y.s.memory && z.s.executed == y.s.executed
  {
    hide G.StepBy, IsHead, NoHead, Shell, Delivers;
  }

  ghost predicate SystemInv(dec: Decoder, y: System) {
    Inv(dec, y.s) && Books(y) && Linked(dec, y)
  }

  lemma {:induction false} SystemRunInv(dec: Decoder, ys: seq<System>, i: nat)
    requires SystemRun(dec, ys) && i < |ys|
    ensures SystemInv(dec, ys[i])
  {
    hide SystemInv, SystemInit, Moves;
    if i == 0 {
      SystemInitInv(dec, ys[0]);
    } else {
      SystemRunInv(dec, ys, i - 1);
      assert SystemNext(dec, ys[i - 1], ys[i - 1 + 1]);
      var ev, step :| Moves(dec, ys[i - 1], ev, step, ys[i]);
      SystemStepInv(dec, ys[i - 1], ev, step, ys[i]);
    }
  }

  lemma SystemInitInv(dec: Decoder, y: System)
    requires SystemInit(y)
    ensures SystemInv(dec, y)
  {
    hide G.BootState, Inv, Books, Linked;
    InitInv(dec, y.s);
    LinkedFresh(dec, y);
    InitBooks(y);
  }

  lemma InitBooks(y: System)
    requires Init(y.s) && G.BootState(y.view)
    ensures Books(y)
  {
    hide G.Sound;
    var a := y.view.assets;
    G.BootSound(a.own, a.writable, a.nodes, y.view.period);
  }

  lemma SystemStepInv(dec: Decoder, y: System, ev: Event, step: Step, z: System)
    requires SystemInv(dec, y) && Moves(dec, y, ev, step, z)
    ensures SystemInv(dec, z)
  {
    hide Books, Linked, Moves, AirInv, QueueInv, NodeInv, HistoryInv, TurnInv, NextBy;
    MovesDeliver(dec, y, ev, step, z);
    StepInv(dec, y.s, z.s, step);
    BooksStep(dec, y, ev, step, z);
    LinkedStep(dec, y, ev, step, z);
  }

  /** The part of the invariant the dialog needs. */
  lemma DialogInv(dec: Decoder, ys: seq<System>, i: nat)
    requires SystemRun(dec, ys) && i < |ys|
    ensures Linked(dec, ys[i]) && Increasing(ys[i].s.executed)
  {
    hide SystemRun, Books, Linked;
    SystemRunInv(dec, ys, i);
  }

  // ---- a delivery report --------------------------------------------------------------------

  /** What the coordinator's "delivered" means. The node accepted the command; and, as long as the host
      never tags two commands alike, the command is still unexecuted if and only if every accepted copy
      was dropped by a reboot of the node before its turn or is still on hand. */
  lemma DeliveredIsExecutedUnlessTaken(dec: Decoder, ys: seq<System>, i: nat, order: nat)
    requires SystemRun(dec, ys) && i < |ys|
    requires var y := ys[i];
      && order in y.view.assets.fates && y.view.assets.fates[order] == G.Delivered
      && IsCommand(dec, y.s, y.s.base + order) && DistinctCmds(dec, y.s)
    ensures var s := ys[i].s; var k := s.base + order;
      && CopyAccepted(s, k)
      && (k !in s.everExecuted <==>
          forall j :: 0 <= j < |s.accepted| && s.accepted[j].serial == k ==> j in s.taken || OnHand(s, j))
  {
    hide SystemRun, Run, DistinctCmds, G.Sound, Inv, Linked, Handled;
    SystemRunInv(dec, ys, i);
    RunIsDelivery(dec, ys);
    var s := ys[i].s;
    assert s.base + order in s.confirmed;
    hide SystemInv, CopyAccepted, OnHand;
    assert States(ys)[i] == s;
    ConfirmedIsExecutedUnlessTaken(dec, States(ys), i, s.base + order);
  }

  // ---- at most one run a command ----------------------------------------------------------------

  lemma {:induction false} RunsHas(log: seq<R.Exchange>, served: seq<nat>, i: nat)
    requires |log| == |served| && i < |log| && log[i].Run?
    ensures served[i] in Runs(log, served)
    decreases |log|
  {
    var n := |log| - 1;
    if i < n {
      RunsHas(log[..n], served[..n], i);
    }
  }

  /** The executions of a boot serve ever later items. */
  lemma {:induction false} RunsInOrder(log: seq<R.Exchange>, served: seq<nat>, i: nat, j: nat)
    requires |log| == |served| && Increasing(Runs(log, served))
    requires i < j < |log| && log[i].Run? && log[j].Run?
    ensures served[i] < served[j]
    decreases |log|
  {
    var n := |log| - 1;
    var init := Runs(log[..n], served[..n]);
    assert forall k :: 0 <= k < |init| ==> Runs(log, served)[k] == init[k];
    if j < n {
      RunsInOrder(log[..n], served[..n], i, j);
    } else {
      RunsHas(log[..n], served[..n], i);
      var k :| 0 <= k < |init| && init[k] == served[i];
      assert Runs(log, served)[k] == served[i] && Runs(log, served)[|init|] == served[n];
    }
  }

  /** Within one boot of the node a command is run at most once, by its tag; a second delivery is
      answered as a repeat. */
  lemma OneRunPerTag(dec: Decoder, ys: seq<System>, i: nat, a: nat, b: nat)
    requires SystemRun(dec, ys) && i < |ys| && DistinctCmds(dec, ys[i].s)
    requires a < b < |ys[i].log| && ys[i].log[a].Run? && ys[i].log[b].Run?
    ensures TagOf(ys[i].log[a]) != TagOf(ys[i].log[b])
  {
    hide SystemRun, Linked, DistinctCmds;
    DialogInv(dec, ys, i);
    SingleRun(dec, ys[i], a, b);
  }

  lemma SameTagSameItem(dec: Decoder, y: System, a: nat, k: nat)
    requires Linked(dec, y) && DistinctCmds(dec, y.s) && a < |y.log| && Carries(dec, y.s, k, TagOf(y.log[a]))
    ensures y.served[a] == k
  {
    hide R.Legal, R.MemoryAfter, Runs;
    assert Carries(dec, y.s, y.served[a], TagOf(y.log[a]));
    assert IsCommand(dec, y.s, y.served[a]) && IsCommand(dec, y.s, k);
  }

  lemma SingleRun(dec: Decoder, y: System, a: nat, b: nat)
    requires Linked(dec, y) && Increasing(y.s.executed) && DistinctCmds(dec, y.s) && a < b < |y.log| && y.log[a].Run? && y.log[b].Run?
    ensures TagOf(y.log[a]) != TagOf(y.log[b]) && y.served[a] < y.served[b]
  {
    hide DistinctCmds, R.Legal, R.MemoryAfter;
    RunsInOrder(y.log, y.served, a, b);
    assert Carries(dec, y.s, y.served[b], TagOf(y.log[b]));
    if TagOf(y.log[a]) == TagOf(y.log[b]) {
      SameTagSameItem(dec, y, a, y.served[b]);
    }
  }

  // ---- the host's verdict -----------------------------------------------------------------------

  /** Where the boot runs item `k`, counted from exchange `n` on. */
  ghost function OwnRun(log: seq<R.Exchange>, served: seq<nat>, n: nat, k: nat): (mine: Option<nat>)
    requires |log| == |served| && n <= |log|
    ensures mine.Some? ==> n + mine.value < |log| && log[n + mine.value].Run? && served[n + mine.value] == k
    ensures mine.None? ==> forall i :: n <= i < |log| && log[i].Run? ==> served[i] != k
  {
    if i :| n <= i < |log| && log[i].Run? && served[i] == k then Some(i - n) else None
  }

  /** The number of command `c` is not used under another tag. */
  predicate NumberIsFree(log: seq<R.Exchange>, c: Cmd) {
    forall i :: 0 <= i < |log| && log[i].cmd == c.id ==> log[i].epoch == c.epoch
  }

  /** What a node remembers is its memory from before, or what it ran since. */
  lemma {:induction false} MemoryIsOfARun(m: R.Memory, log: seq<R.Exchange>) returns (i: int)
    ensures -1 <= i < |log|
    ensures if i == -1 then R.MemoryAfter(m, log) == m
      else log[i].Run? && Tag(R.MemoryAfter(m, log)) == Some(TagOf(log[i]))
    decreases |log|
  {
    if log == [] {
      i := -1;
    } else {
      var k := MemoryIsOfARun(R.After(m, log[0]), log[1..]);
      i := if k >= 0 then k + 1 else if log[0].Run? then 0 else -1;
    }
  }

  /** Another execution under the number is of another tag: the command itself runs once. */
  lemma OtherRunIsForeign(dec: Decoder, y: System, n: nat, k: nat, c: Cmd, a: nat)
    requires Linked(dec, y) && Increasing(y.s.executed) && DistinctCmds(dec, y.s) && Carries(dec, y.s, k, c)
    requires n <= a < |y.log| == |y.served| && y.log[a].Run? && y.log[a].cmd == c.id
    requires OwnRun(y.log, y.served, n, k) != Some(a - n)
    ensures y.log[a].epoch != c.epoch
  {
    hide Linked, DistinctCmds, OwnRun;
    if y.log[a].epoch == c.epoch {
      SameTagSameItem(dec, y, a, k);
      var o := n + OwnRun(y.log, y.served, n, k).value;
      hide Carries;
      if o < a {
        SingleRun(dec, y, o, a);
      } else {
        SingleRun(dec, y, a, o);
      }
    }
  }

  /** A memory from before the listening is not of a command that was not served before. */
  lemma StaleIsForeign(dec: Decoder, y: System, n: nat, k: nat, c: Cmd)
    requires Linked(dec, y) && DistinctCmds(dec, y.s) && Carries(dec, y.s, k, c)
    requires n <= |y.log| == |y.served| && k !in y.served[..n]
    requires H.StaleRepeat(R.MemoryAfter(R.Nothing, y.log[..n]), y.log[n..], c.id)
    ensures !NumberIsFree(y.log, c)
  {
    hide Linked, DistinctCmds;
    var i := MemoryIsOfARun(R.Nothing, y.log[..n]);
    assert y.log[..n][i] == y.log[i] && y.served[..n][i] == y.served[i];
    if y.log[i].epoch == c.epoch {
      SameTagSameItem(dec, y, i, k);
    }
  }

  /** What `Collides` finds is a use of the number under another tag. */
  lemma CollisionIsForeign(dec: Decoder, y: System, n: nat, k: nat, c: Cmd)
    requires Linked(dec, y) && Increasing(y.s.executed) && DistinctCmds(dec, y.s) && Carries(dec, y.s, k, c)
    requires n <= |y.log| == |y.served| && k !in y.served[..n]
    requires H.Collides(R.MemoryAfter(R.Nothing, y.log[..n]), y.log[n..], OwnRun(y.log, y.served, n, k), c.id)
    ensures !NumberIsFree(y.log, c)
  {
    hide Linked, DistinctCmds, Carries, H.StaleRepeat, OwnRun;
    var mine := OwnRun(y.log, y.served, n, k);
    if H.OtherRun(y.log[n..], mine, c.id) {
      var j :| 0 <= j < |y.log[n..]| && y.log[n..][j].Run? && y.log[n..][j].cmd == c.id && mine != Some(j);
      assert y.log[n + j] == y.log[n..][j];
      OtherRunIsForeign(dec, y, n, k, c, n + j);
    } else {
      StaleIsForeign(dec, y, n, k, c);
    }
  }

  /** Exact reply or flagged reply, in every run of the whole system. A host process tags its commands
      apart and listens from some point of the node's boot on; command `k` was not served before that.
      As long as its number is not used under another tag in this boot, the first reply the host takes
      for complete is the exact reply of the one execution of `k`; if there is none, it takes no reply
      for complete. */
  lemma ReplyIsExactOrFlagged(dec: Decoder, ys: seq<System>, i: nat, n: nat, k: nat, c: Cmd, cap: nat)
    requires SystemRun(dec, ys) && i < |ys| && DistinctCmds(dec, ys[i].s) && Carries(dec, ys[i].s, k, c)
    requires n <= |ys[i].log| == |ys[i].served| && k !in ys[i].served[..n]
    requires H.HostLegReliable(ys[i].log[n..]) && NumberIsFree(ys[i].log, c)
    ensures var y := ys[i]; var mine := OwnRun(y.log, y.served, n, k);
      H.Own(y.log[n..], mine, c.id) && H.Kept(F.Start, y.log[n..], mine, c.id, cap)
  {
    hide *;
    DialogInv(dec, ys, i);
    var y := ys[i];
    var mine, m := OwnRun(y.log, y.served, n, k), R.MemoryAfter(R.Nothing, y.log[..n]);
    if H.Collides(m, y.log[n..], mine, c.id) {
      CollisionIsForeign(dec, y, n, k, c);
    }
    LegalFrom(dec, y, n);
    OwnIsOwn(dec, y, n, k, c);
    H.ExactOrFlagged(m, F.Start, y.log[n..], mine, c.id, cap);
  }

  lemma LegalFrom(dec: Decoder, y: System, n: nat)
    requires Linked(dec, y) && n <= |y.log|
    ensures var m := R.MemoryAfter(R.Nothing, y.log[..n]); R.Legal(m, y.log[n..]) && H.Held(m)
  {
    hide R.Legal, R.MemoryAfter, Runs, Carries;
    assert y.log[..n] + y.log[n..] == y.log;
    H.LegalSplit(R.Nothing, y.log[..n], y.log[n..]);
    H.HeldAfter(R.Nothing, y.log[..n]);
  }

  lemma OwnIsOwn(dec: Decoder, y: System, n: nat, k: nat, c: Cmd)
    requires Linked(dec, y) && Carries(dec, y.s, k, c) && n <= |y.log| == |y.served|
    ensures H.Own(y.log[n..], OwnRun(y.log, y.served, n, k), c.id)
  {
    hide R.Legal, R.MemoryAfter, Runs;
    var mine := OwnRun(y.log, y.served, n, k);
    if mine.Some? {
      var o := n + mine.value;
      assert y.log[n..][mine.value] == y.log[o];
      assert Carries(dec, y.s, y.served[o], TagOf(y.log[o]));
    }
  }
}
