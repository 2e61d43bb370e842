/** What the host's reassembler makes of a node's boot. The replies carry the command number only, so
    the promise "the exact reply or a reply flagged incomplete" depends on who else uses the number:
    it is kept over every air exactly when no other execution, and no whole remembered reply, does. */
module HostView {
  import opened Basics
  import opened Utf8
  import opened Frames
  import opened RadioSink
  import opened RemoteShell

  /** The frames of one exchange that reached the host. */
  function AtHost(air: seq<Sent>): (fs: seq<Frame>) {
    if air == [] then []
    else
      var s := air[|air| - 1];
      AtHost(air[..|air| - 1]) + (if s.atHost then [s.frame] else [])
  }

  function HostFrames(log: seq<Exchange>): (fs: seq<Frame>) {
    if log == [] then [] else AtHost(log[0].air) + HostFrames(log[1..])
  }

  predicate NoneAtHost(air: seq<Sent>) {
    forall i :: 0 <= i < |air| ==> !air[i].atHost
  }

  /** The first completion the host sees for `cmd`, whatever else the frames carry. */
  function Host(h: Assembly, cmd: u16, cap: nat, frames: seq<Frame>): Assembly {
    FeedAll(h, ShellResponse, cmd, cap, frames)
  }

  predicate Exact(h: Assembly, e: Exchange)
    requires e.Run?
  {
    h == Closed(e.result, e.text, false)
  }

  /** Every acknowledged chunk also made it from the gateway to the host. */
  predicate Reliable(air: seq<Sent>) {
    forall j :: 0 <= j < |air| && air[j].delivered ==> air[j].atHost
  }

  predicate HostLegReliable(log: seq<Exchange>) {
    forall i :: 0 <= i < |log| ==> Reliable(log[i].air)
  }

  lemma AtHostSnoc(air: seq<Sent>, k: nat)
    requires k < |air|
    ensures AtHost(air[..k + 1]) == AtHost(air[..k]) + (if air[k].atHost then [air[k].frame] else [])
  {
    assert air[..k + 1][..k] == air[..k];
  }

  lemma HostStep(h: Assembly, cmd: u16, cap: nat, fs: seq<Frame>, f: Frame)
    ensures Host(h, cmd, cap, fs + [f]) == Feed(Host(h, cmd, cap, fs), ShellResponse, cmd, cap, f)
  {
    FeedAllConcat(h, ShellResponse, cmd, cap, fs, [f]);
    var m := Host(h, cmd, cap, fs);
    assert [f] == [f] + [];
    FeedFirst(m, ShellResponse, cmd, cap, f, []);
  }

  lemma {:induction false} HostFramesConcat(a: seq<Exchange>, b: seq<Exchange>)
    ensures HostFrames(a + b) == HostFrames(a) + HostFrames(b)
  {
    if a == [] {
      assert a + b == b;
    } else {
      HostFramesConcat(a[1..], b);
      assert (a + b)[1..] == a[1..] + b;
    }
  }

  /** A host that listens through `a` and then through `b`. */
  lemma HostConcat(h: Assembly, cmd: u16, cap: nat, a: seq<Exchange>, b: seq<Exchange>)
    ensures Host(h, cmd, cap, HostFrames(a + b)) == Host(Host(h, cmd, cap, HostFrames(a)), cmd, cap, HostFrames(b))
  {
    HostFramesConcat(a, b);
    FeedAllConcat(h, ShellResponse, cmd, cap, HostFrames(a), HostFrames(b));
  }

  lemma HostOne(h: Assembly, cmd: u16, cap: nat, e: Exchange)
    ensures Host(h, cmd, cap, HostFrames([e])) == Host(h, cmd, cap, AtHost(e.air))
  {
    assert [e][1..] == [];
    assert HostFrames([e]) == AtHost(e.air) + [];
    assert AtHost(e.air) + [] == AtHost(e.air);
  }

  lemma {:induction false} LegalSplit(m: Memory, a: seq<Exchange>, b: seq<Exchange>)
    requires Legal(m, a + b)
    ensures Legal(m, a) && Legal(MemoryAfter(m, a), b)
    decreases |a|
  {
    hide Fits;
    if a == [] {
      assert a + b == b;
    } else {
      assert (a + b)[0] == a[0] && (a + b)[1..] == a[1..] + b;
      LegalSplit(After(m, a[0]), a[1..], b);
    }
  }

  /** Once flagged, always flagged. */
  lemma {:induction false} GapStays(h: Assembly, cmd: u16, cap: nat, frames: seq<Frame>)
    requires h.gap
    ensures Host(h, cmd, cap, frames).gap
    decreases |frames|
  {
    if frames != [] {
      GapStays(Feed(h, ShellResponse, cmd, cap, frames[0]), cmd, cap, frames[1..]);
    }
  }

  // ---- the run ---------------------------------------------------------------------

  /** The host has the first `n` entries of a run's air, or knows better. */
  predicate Holding(h: Assembly, air: seq<Sent>, n: nat)
    requires n <= |air|
  {
    h.gap || h ==
      if n > 0 && air[n - 1].frame.last then Closed(air[n - 1].frame.result, Text(air[..n]), false)
      else Open(n % WRAP, Text(air[..n]), false)
  }

  /** Feeding entry `i` to a host that has everything before it. */
  lemma NextHeld(h: Assembly, air: seq<Sent>, cmd: u16, cap: nat, i: nat)
    requires ReplyOnAir(air, cmd, 0) && i < |air| && Holding(h, air, i)
    ensures Holding(Feed(h, ShellResponse, cmd, cap, air[i].frame), air, i + 1)
  {
    var f := air[i].frame;
    assert FramesOf(air)[i] == f;
    assert f.kind == ShellResponse && f.id == cmd && f.chunk == i % WRAP;
    assert i > 0 ==> !air[i - 1].frame.last by {
      assert i > 0 ==> MiddleChunk(air[i - 1].frame);
    }
    assert Text(air[..i + 1]) == Text(air[..i]) + f.data by {
      assert air[..i + 1] == air[..i] + [air[i]];
      TextSnoc(air[..i], air[i]);
    }
    assert Next(f.chunk) == (i + 1) % WRAP;
    hide ReplyOnAir, MiddleChunk, FinalChunk, Text, Numbered, Next;
  }

  /** Over a reliable leg the host has all there is, but for a final chunk nobody acknowledged. */
  lemma {:induction false} HoldsRun(air: seq<Sent>, cmd: u16, cap: nat, k: nat)
    requires ReplyOnAir(air, cmd, 0) && Reliable(air) && k <= |air|
    ensures var h := Host(Start, cmd, cap, AtHost(air[..k]));
      Holding(h, air, k) || (k == |air| > 0 && !air[k - 1].delivered && Holding(h, air, k - 1))
    decreases k
  {
    if k == 0 {
      assert air[..0] == [] && Text([]) == [];
    } else {
      var i := k - 1;
      HoldsRun(air, cmd, cap, i);
      AtHostSnoc(air, i);
      var h, f := Host(Start, cmd, cap, AtHost(air[..i])), air[i].frame;
      if air[i].atHost {
        HostStep(Start, cmd, cap, AtHost(air[..i]), f);
        NextHeld(h, air, cmd, cap, i);
      } else {
        assert AtHost(air[..k]) == AtHost(air[..i]);
      }
    }
  }

  /** The host once the run is over: flagged, exact, or waiting for a number no repeat carries. */
  predicate RunOver(h: Assembly, e: Exchange)
    requires e.Run?
  {
    h.gap || Exact(h, e) || (h.Open? && e.lost > 0 && (h.next == (e.lost - 1) % WRAP || h.next == e.lost % WRAP))
  }

  lemma RunReachesHost(e: Exchange, cap: nat)
    requires e.Run? && RunAir(e.air, e.cmd, e.text, e.result, e.lost) && Reliable(e.air)
    ensures RunOver(Host(Start, e.cmd, cap, AtHost(e.air)), e)
  {
    var air, n := e.air, |e.air|;
    var h := Host(Start, e.cmd, cap, AtHost(air));
    assert air[..n] == air;
    HoldsRun(air, e.cmd, cap, n);
    assert n > 1 ==> !air[n - 2].frame.last by {
      assert n > 1 ==> MiddleChunk(air[n - 2].frame);
    }
    assert e.lost == 0 ==> n > 0 && air[n - 1].frame.last && air[n - 1].delivered;
    assert n > 0 && air[n - 1].frame.last ==> air[n - 1].frame.result == e.result && Text(air) == e.text;
    CutNumber(air, e.lost);
    hide RunAir, ReplyOnAir, Text, Host, AtHost, CutAt, MiddleChunk, Finished, Reliable;
  }

  /** Where a cut reply stopped, as the number the host expects next. */
  lemma CutNumber(air: seq<Sent>, lost: nat)
    requires 0 < lost <= WRAP ==> CutAt(air, 0, lost - 1)
    ensures 0 < lost <= WRAP ==>
      if air != [] && !air[|air| - 1].delivered then lost - 1 == (|air| - 1) % WRAP && lost % WRAP == |air| % WRAP
      else lost - 1 == |air| % WRAP && (air != [] ==> !air[|air| - 1].frame.last)
  {
    if air != [] && AllMiddle(air) {
      assert MiddleChunk(air[|air| - 1].frame);
    }
  }

  // ---- repeats and other commands --------------------------------------------------

  /** Frames of other commands do not touch this one. */
  lemma {:induction false} OthersIgnored(h: Assembly, cmd: u16, cap: nat, air: seq<Sent>)
    requires forall i :: 0 <= i < |air| ==> air[i].frame.id != cmd
    ensures Host(h, cmd, cap, AtHost(air)) == h
    decreases |air|
  {
    if air != [] {
      var k := |air| - 1;
      OthersIgnored(h, cmd, cap, air[..k]);
      if air[k].atHost {
        HostStep(h, cmd, cap, AtHost(air[..k]), air[k].frame);
      } else {
        assert AtHost(air) == AtHost(air[..k]);
      }
    }
  }

  lemma ExchangeId(m: Memory, e: Exchange)
    requires Fits(m, e)
    ensures forall i :: 0 <= i < |e.air| ==> e.air[i].frame.id == e.cmd
  {
    if e.Run? {
      assert forall i :: 0 <= i < |e.air| ==> FramesOf(e.air)[i] == e.air[i].frame;
    }
  }

  /** A repeat is at most one frame. */
  lemma RepeatFeeds(h: Assembly, cmd: u16, result: u8, lost: nat, air: seq<Sent>, cap: nat)
    requires RepeatAir(air, cmd, result, lost)
    ensures Host(h, cmd, cap, AtHost(air)) ==
      if NoneAtHost(air) then h else Feed(h, ShellResponse, cmd, cap, air[0].frame)
  {
    hide Note;
    if air != [] {
      assert air[..0] == [];
      if air[0].atHost {
        HostStep(h, cmd, cap, [], air[0].frame);
        assert [] + [air[0].frame] == [air[0].frame];
      }
    }
  }

  predicate NoRunOf(cmd: u16, log: seq<Exchange>) {
    forall i :: 0 <= i < |log| && log[i].Run? ==> log[i].cmd != cmd
  }

  /** Repeats of the run leave the verdict as it is. */
  lemma {:induction false} AfterTheRun(m: Memory, log: seq<Exchange>, run: Exchange, h: Assembly, cap: nat)
    requires Legal(m, log) && run.Run? && run.lost <= WRAP && NoRunOf(run.cmd, log)
    requires m.Last? && m.cmd == run.cmd ==> m == Last(run.epoch, run.cmd, run.result, run.lost)
    requires RunOver(h, run)
    ensures RunOver(Host(h, run.cmd, cap, HostFrames(log)), run)
    decreases |log|
  {
    hide RunAir, Note;
    if log != [] {
      var e := log[0];
      FeedAllConcat(h, ShellResponse, run.cmd, cap, AtHost(e.air), HostFrames(log[1..]));
      ExchangeId(m, e);
      if e.cmd == run.cmd {
        RepeatFeeds(h, run.cmd, run.result, run.lost, e.air, cap);
      } else {
        OthersIgnored(h, run.cmd, cap, e.air);
      }
      AfterTheRun(After(m, e), log[1..], run, Host(h, run.cmd, cap, AtHost(e.air)), cap);
    }
  }

  // ---- before the run ----------------------------------------------------------------

  predicate NoRun(log: seq<Exchange>) {
    forall i :: 0 <= i < |log| ==> log[i].Repeat?
  }

  /** The repeat of a reply cut there (or whole) is numbered 0, like a first chunk. */
  predicate RepeatsAtZero(lost: nat) {
    lost == 0 || lost == WRAP - 1
  }

  /** The memory from before the host listened is `cmd`'s, reads as a whole reply, and is repeated. */
  predicate StaleRepeat(m: Memory, log: seq<Exchange>, cmd: u16) {
    && m.Last? && m.cmd == cmd && RepeatsAtZero(m.lost)
    && exists i :: 0 <= i < |log| && log[i].Repeat? && log[i].cmd == cmd && NoRun(log[..i])
  }

  /** What a node's memory can hold. */
  predicate Held(m: Memory) {
    m.Last? ==> m.lost <= WRAP
  }

  lemma HeldStep(m: Memory, e: Exchange)
    requires Held(m) && Fits(m, e)
    ensures Held(After(m, e))
  {
  }

  lemma {:induction false} HeldAfter(m: Memory, log: seq<Exchange>)
    requires Held(m) && Legal(m, log)
    ensures Held(MemoryAfter(m, log))
    decreases |log|
  {
    if log != [] {
      HeldStep(m, log[0]);
      hide Fits;
      HeldAfter(After(m, log[0]), log[1..]);
    }
  }

  /** Nothing of `cmd` came down to the host. */
  predicate NothingOf(cmd: u16, log: seq<Exchange>) {
    forall i :: 0 <= i < |log| && log[i].cmd == cmd ==> NoneAtHost(log[i].air)
  }

  lemma StaleTail(m: Memory, log: seq<Exchange>, cmd: u16)
    requires log != [] && !StaleRepeat(m, log, cmd) && (log[0].Run? ==> log[0].cmd != cmd)
    ensures !StaleRepeat(After(m, log[0]), log[1..], cmd)
  {
    var rest := log[1..];
    if i :| 0 <= i < |rest| && rest[i].Repeat? && rest[i].cmd == cmd && NoRun(rest[..i]) {
      assert log[i + 1] == rest[i];
      if log[0].Repeat? {
        assert log[..i + 1] == [log[0]] + rest[..i];
        assert NoRun(log[..i + 1]);
      }
    }
  }

  /** Up to the run, a host that starts afresh (or has seen the tail of an older reply) is left fresh,
      or flagged because a repeat of something older came down. */
  lemma {:induction false} BeforeTheRun(m: Memory, log: seq<Exchange>, cmd: u16, h: Assembly, cap: nat)
    requires Legal(m, log) && Held(m) && NoRunOf(cmd, log) && !StaleRepeat(m, log, cmd)
    requires h == Start || h.gap
    ensures var g := Host(h, cmd, cap, HostFrames(log)); g.gap || (g == Start && NothingOf(cmd, log))
    decreases |log|
  {
    hide RunAir, Note;
    if log != [] {
      var e, rest := log[0], log[1..];
      FeedAllConcat(h, ShellResponse, cmd, cap, AtHost(e.air), HostFrames(rest));
      ExchangeId(m, e);
      HeldStep(m, e);
      StaleTail(m, log, cmd);
      if e.cmd == cmd {
        assert log[..0] == [] && NoRun([]);
        RepeatFeeds(h, cmd, m.result, m.lost, e.air, cap);
      } else {
        OthersIgnored(h, cmd, cap, e.air);
      }
      var g := Host(h, cmd, cap, AtHost(e.air));
      assert g.gap || (g == Start && (e.cmd == cmd ==> NoneAtHost(e.air)));
      if g.gap {
        GapStays(g, cmd, cap, HostFrames(rest));
      }
      BeforeTheRun(After(m, e), rest, cmd, g, cap);
    }
  }

  /** A host that begins to listen in the middle of an older reply under the same number is flagged by
      the first chunk it sees. */
  lemma {:induction false} TailIsFlagged(air: seq<Sent>, cmd: u16, cap: nat, lo: nat, hi: nat)
    requires ReplyOnAir(air, cmd, 0) && 0 < lo <= hi <= |air| <= WRAP
    ensures var g := Host(Start, cmd, cap, AtHost(air[lo..hi])); g == Start || g.gap
    decreases hi
  {
    if lo < hi {
      TailIsFlagged(air, cmd, cap, lo, hi - 1);
      var part, f := air[lo..hi], air[hi - 1].frame;
      assert part[..|part| - 1] == air[lo..hi - 1] && part[|part| - 1] == air[hi - 1];
      assert FramesOf(air)[hi - 1] == f;
      assert f.kind == ShellResponse && f.id == cmd && f.chunk == (hi - 1) % WRAP;
      hide ReplyOnAir, Numbered;
      if air[hi - 1].atHost {
        HostStep(Start, cmd, cap, AtHost(air[lo..hi - 1]), f);
      } else {
        var seen := AtHost(part[..|part| - 1]);
        assert part != [] && !part[|part| - 1].atHost;
        assert AtHost(part) == seen + [] && seen + [] == seen;
      }
    } else {
      assert air[lo..hi] == [];
    }
  }

  // ---- the promise and the collision -------------------------------------------------

  /** `mine` is the execution the host waits for, if the boot has one; `cmd` is its number. */
  predicate Own(log: seq<Exchange>, mine: Option<nat>, cmd: u16) {
    mine.Some? ==> mine.value < |log| && log[mine.value].Run? && log[mine.value].cmd == cmd
  }

  /** A reply taken for complete is the exact reply of that execution. */
  predicate Kept(h: Assembly, log: seq<Exchange>, mine: Option<nat>, cmd: u16, cap: nat)
    requires Own(log, mine, cmd)
  {
    var g := Host(h, cmd, cap, HostFrames(log));
    g.Closed? && !g.gap ==> mine.Some? && Exact(g, log[mine.value])
  }

  /** Another execution uses the number: another host process's, or an older one of this host's. */
  predicate OtherRun(log: seq<Exchange>, mine: Option<nat>, cmd: u16) {
    exists j :: 0 <= j < |log| && log[j].Run? && log[j].cmd == cmd && mine != Some(j)
  }

  predicate Collides(m: Memory, log: seq<Exchange>, mine: Option<nat>, cmd: u16) {
    OtherRun(log, mine, cmd) || StaleRepeat(m, log, cmd)
  }

  /** The log before, at and after the host's own execution. */
  lemma Parts(m: Memory, log: seq<Exchange>, k: nat, cmd: u16)
    requires Legal(m, log) && Held(m) && k < |log| && log[k].Run? && log[k].cmd == cmd && !Collides(m, log, Some(k), cmd)
    ensures log == log[..k] + ([log[k]] + log[k + 1..])
    ensures Legal(m, log[..k]) && NoRunOf(cmd, log[..k]) && !StaleRepeat(m, log[..k], cmd)
    ensures Fits(MemoryAfter(m, log[..k]), log[k]) && NoRunOf(cmd, log[k + 1..])
    ensures Legal(After(MemoryAfter(m, log[..k]), log[k]), log[k + 1..])
  {
    hide Fits;
    var before, rest := log[..k], [log[k]] + log[k + 1..];
    assert log == before + rest;
    LegalSplit(m, before, rest);
    assert rest[0] == log[k] && rest[1..] == log[k + 1..];
    assert forall i :: 0 <= i < k ==> before[..i] == log[..i];
    var after := log[k + 1..];
    forall i | 0 <= i < |after| && after[i].Run? ensures after[i].cmd != cmd {
      assert after[i] == log[k + 1 + i];
    }
  }

  /** Without a collision the promise is kept, over any pattern of lost chunks, lost acknowledgements
      and redeliveries, for a host that starts listening at any point of a boot. */
  lemma ExactOrFlagged(m: Memory, h: Assembly, log: seq<Exchange>, mine: Option<nat>, cmd: u16, cap: nat)
    requires Legal(m, log) && Held(m) && Own(log, mine, cmd) && HostLegReliable(log)
    requires h == Start || h.gap
    requires !Collides(m, log, mine, cmd)
    ensures Kept(h, log, mine, cmd, cap)
  {
    match mine
    case None =>
      assert NoRunOf(cmd, log);
      BeforeTheRun(m, log, cmd, h, cap);
    case Some(k) =>
      Parts(m, log, k, cmd);
      var before, run, after := log[..k], log[k], log[k + 1..];
      BeforeTheRun(m, before, cmd, h, cap);
      HostConcat(h, cmd, cap, before, [run] + after);
      var g := Host(h, cmd, cap, HostFrames(before));
      HostConcat(g, cmd, cap, [run], after);
      HostOne(g, cmd, cap, run);
      if g.gap {
        GapStays(g, cmd, cap, HostFrames([run] + after));
      } else {
        assert Reliable(run.air);
        RunReachesHost(run, cap);
        AfterTheRun(After(MemoryAfter(m, before), run), after, run, Host(Start, cmd, cap, AtHost(run.air)), cap);
      }
  }

  // ---- and only without one ------------------------------------------------------------

  /** The same commands in the same order, run or repeated alike; replies and air are free. */
  predicate SameDialog(a: seq<Exchange>, b: seq<Exchange>) {
    |a| == |b| && forall i :: 0 <= i < |a| ==> a[i].Run? == b[i].Run? && a[i].epoch == b[i].epoch && a[i].cmd == b[i].cmd
  }

  ghost predicate AlwaysKept(m: Memory, log: seq<Exchange>, mine: Option<nat>, cmd: u16, cap: nat)
    requires Own(log, mine, cmd)
  {
    forall other :: SameDialog(log, other) && Legal(m, other) && HostLegReliable(other) ==> Kept(Start, other, mine, cmd, cap)
  }

  lemma SameCollision(m: Memory, a: seq<Exchange>, b: seq<Exchange>, mine: Option<nat>, cmd: u16)
    requires SameDialog(a, b) && Collides(m, b, mine, cmd)
    ensures Collides(m, a, mine, cmd)
  {
    if OtherRun(b, mine, cmd) {
      var j :| 0 <= j < |b| && b[j].Run? && b[j].cmd == cmd && mine != Some(j);
      assert a[j].Run? && a[j].cmd == cmd;
    } else {
      var i :| 0 <= i < |b| && b[i].Repeat? && b[i].cmd == cmd && NoRun(b[..i]);
      assert a[i].Repeat? && a[i].cmd == cmd && NoRun(a[..i]) by {
        forall k | 0 <= k < i ensures a[..i][k].Repeat? {
          assert b[..i][k].Repeat?;
        }
      }
    }
  }

  /** An exchange none of whose frames gets out. */
  function Quiet(e: Exchange): Exchange {
    if e.Run? then Run(e.epoch, e.cmd, [0x42], 0, 1, []) else Repeat(e.epoch, e.cmd, [])
  }

  /** An exchange whose one frame gets all the way to the host. */
  function Loud(e: Exchange, result: u8, text: bytes): (r: Exchange)
    ensures r.air == [Sent(Frame(ShellResponse, e.cmd, result, 0, true, text), true, true)]
  {
    var air := [Sent(Frame(ShellResponse, e.cmd, result, 0, true, text), true, true)];
    if e.Run? then Run(e.epoch, e.cmd, text, result, 0, air) else Repeat(e.epoch, e.cmd, air)
  }

  /** The dialog of `log` with only entry `i` heard. */
  function Staged(log: seq<Exchange>, i: int, result: u8, text: bytes): (s: seq<Exchange>)
    ensures |s| == |log|
    ensures forall k :: 0 <= k < |log| ==> s[k] == if k == i then Loud(log[k], result, text) else Quiet(log[k])
  {
    if log == [] then []
    else [if i == 0 then Loud(log[0], result, text) else Quiet(log[0])] + Staged(log[1..], i - 1, result, text)
  }

  /** What entry `e` may answer in one frame: nothing in particular for a run, the memory for a repeat. */
  predicate Says(m: Memory, e: Exchange, result: u8, text: bytes) {
    if e.Run? then text == []
    else m.Last? && RepeatsAtZero(m.lost) && result == m.result && text == if m.lost == 0 then [] else Note()
  }

  lemma LoudFits(m: Memory, e: Exchange, result: u8, text: bytes)
    requires (Remembers(m, e.epoch, e.cmd) <==> e.Repeat?) && Says(m, e, result, text)
    ensures Fits(m, Loud(e, result, text))
  {
    hide Note;
    if e.Run? {
      var air := Loud(e, result, text).air;
      TextSnoc([], air[0]);
      assert [] + [air[0]] == air && Text([]) == [];
    }
  }

  lemma QuietFits(m: Memory, e: Exchange)
    requires Remembers(m, e.epoch, e.cmd) <==> e.Repeat?
    ensures Fits(m, Quiet(e))
  {
    hide Note, FinalChunk, MiddleChunk;
    assert Text([]) == [];
  }

  predicate SameTag(a: Memory, b: Memory) {
    a.Last? == b.Last? && (a.Last? ==> a.epoch == b.epoch && a.cmd == b.cmd)
  }

  lemma {:induction false} StagedLegal(k: Memory, log: seq<Exchange>, m: Memory, i: int, result: u8, text: bytes)
    requires Legal(k, log) && SameTag(k, m)
    requires 0 <= i < |log| ==> (log[i].Run? && text == []) || (NoRun(log[..i]) && Says(m, log[i], result, text))
    ensures Legal(m, Staged(log, i, result, text))
    decreases |log|
  {
    hide RunAir, RepeatAir, Quiet, Loud, Note;
    if log != [] {
      var e, rest := log[0], log[1..];
      var staged := if i == 0 then Loud(e, result, text) else Quiet(e);
      assert Remembers(m, e.epoch, e.cmd) <==> e.Repeat?;
      if i == 0 {
        LoudFits(m, e, result, text);
      } else {
        QuietFits(m, e);
      }
      SameShape(e, result, text);
      assert SameTag(After(k, e), After(m, staged));
      if 0 < i < |log| {
        assert log[..i][0] == e && rest[i - 1] == log[i];
        assert rest[..i - 1] == log[..i][1..];
      }
      StagedLegal(After(k, e), rest, After(m, staged), i - 1, result, text);
      assert Staged(log, i, result, text) == [staged] + Staged(rest, i - 1, result, text);
    }
  }

  lemma SameShape(e: Exchange, result: u8, text: bytes)
    ensures Quiet(e).Run? == e.Run? && Quiet(e).epoch == e.epoch && Quiet(e).cmd == e.cmd
    ensures var r := Loud(e, result, text); r.Run? == e.Run? && r.epoch == e.epoch && r.cmd == e.cmd
    ensures AtHost(Quiet(e).air) == [] && AtHost(Loud(e, result, text).air) == [Loud(e, result, text).air[0].frame]
    ensures Reliable(Quiet(e).air) && Reliable(Loud(e, result, text).air)
  {
    assert Loud(e, result, text).air[..0] == [];
  }

  lemma {:induction false} StagedFrames(log: seq<Exchange>, i: int, result: u8, text: bytes)
    ensures HostFrames(Staged(log, i, result, text)) ==
      if 0 <= i < |log| then [Frame(ShellResponse, log[i].cmd, result, 0, true, text)] else []
  {
    hide Quiet, Loud;
    if log != [] {
      SameShape(log[0], result, text);
      StagedFrames(log[1..], i - 1, result, text);
      var s := Staged(log, i, result, text);
      assert s[1..] == Staged(log[1..], i - 1, result, text);
      assert i > 0 && i < |log| ==> log[1..][i - 1] == log[i];
    }
  }

  /** Where the other exchange under the number is. */
  lemma Intruder(m: Memory, log: seq<Exchange>, mine: Option<nat>, cmd: u16) returns (i: nat)
    requires Collides(m, log, mine, cmd)
    ensures i < |log| && log[i].cmd == cmd && (log[i].Run? ==> mine != Some(i))
    ensures log[i].Repeat? ==> NoRun(log[..i]) && m.Last? && RepeatsAtZero(m.lost)
  {
    if OtherRun(log, mine, cmd) {
      i :| 0 <= i < |log| && log[i].Run? && log[i].cmd == cmd && mine != Some(i);
    } else {
      i :| 0 <= i < |log| && log[i].Repeat? && log[i].cmd == cmd && NoRun(log[..i]);
    }
  }

  lemma StagedDialog(log: seq<Exchange>, i: nat, result: u8, text: bytes)
    ensures SameDialog(log, Staged(log, i, result, text)) && HostLegReliable(Staged(log, i, result, text))
  {
    hide Loud, Quiet, Reliable;
    var other := Staged(log, i, result, text);
    forall k | 0 <= k < |log| ensures Reliable(other[k].air) && other[k].Run? == log[k].Run? && other[k].epoch == log[k].epoch && other[k].cmd == log[k].cmd {
      SameShape(log[k], result, text);
    }
  }

  lemma StagedHost(log: seq<Exchange>, i: nat, result: u8, text: bytes, cap: nat)
    requires i < |log| && |text| <= cap
    ensures Host(Start, log[i].cmd, cap, HostFrames(Staged(log, i, result, text))) == Closed(result, text, false)
  {
    StagedFrames(log, i, result, text);
    var f := Frame(ShellResponse, log[i].cmd, result, 0, true, text);
    HostStep(Start, log[i].cmd, cap, [], f);
    assert [] + [f] == [f] && [] + text == text;
  }

  /** What it says, in one frame. */
  lemma Intrusion(m: Memory, e: Exchange) returns (result: u8, text: bytes)
    requires e.Repeat? ==> m.Last? && RepeatsAtZero(m.lost)
    ensures Says(m, e, result, text) && |text| != 1 && |text| <= NOTE_BYTES
  {
    NoteIsOneChunk();
    hide Note;
    result := if e.Repeat? then m.result else 0;
    text := if e.Repeat? && m.lost != 0 then Note() else [];
  }

  lemma WrongOne(log: seq<Exchange>, i: nat, mine: Option<nat>, cmd: u16, result: u8, text: bytes, cap: nat)
    requires Own(log, mine, cmd) && i < |log| && log[i].cmd == cmd && (log[i].Run? ==> mine != Some(i))
    requires |text| != 1 && |text| <= cap
    ensures Own(Staged(log, i, result, text), mine, cmd)
    ensures !Kept(Start, Staged(log, i, result, text), mine, cmd, cap)
  {
    hide Host, HostFrames, Loud;
    StagedHost(log, i, result, text, cap);
    assert mine.Some? ==> Staged(log, i, result, text)[mine.value] == Quiet(log[mine.value]);
  }

  /** With a collision there is an air that breaks the promise: the host's own reply gets lost and the
      other one comes through. */
  lemma CollisionBreaks(m: Memory, log: seq<Exchange>, mine: Option<nat>, cmd: u16, cap: nat) returns (other: seq<Exchange>)
    requires Legal(m, log) && Own(log, mine, cmd) && Collides(m, log, mine, cmd) && NOTE_BYTES <= cap
    ensures SameDialog(log, other) && Legal(m, other) && HostLegReliable(other)
    ensures !Kept(Start, other, mine, cmd, cap)
  {
    hide *;
    var i := Intruder(m, log, mine, cmd);
    var result, text := Intrusion(m, log[i]);
    SaysOfRun(m, log[i], result, text);
    SameTagSelf(m);
    other := Staged(log, i, result, text);
    StagedLegal(m, log, m, i, result, text);
    StagedDialog(log, i, result, text);
    WrongOne(log, i, mine, cmd, result, text, cap);
  }

  lemma SaysOfRun(m: Memory, e: Exchange, result: u8, text: bytes)
    requires Says(m, e, result, text)
    ensures e.Run? ==> text == []
  {
    hide Note;
  }

  lemma SameTagSelf(m: Memory)
    ensures SameTag(m, m)
  {
  }

  /** The promise exactly: whatever the air does, the first reply the host takes for complete is the
      exact reply of its own command, if and only if no other execution under the number, and no whole
      remembered reply of it, falls within the listening. */
  lemma KeptIffNoCollision(m: Memory, log: seq<Exchange>, mine: Option<nat>, cmd: u16, cap: nat)
    requires Legal(m, log) && Held(m) && Own(log, mine, cmd) && NOTE_BYTES <= cap
    ensures AlwaysKept(m, log, mine, cmd, cap) <==> !Collides(m, log, mine, cmd)
  {
    if Collides(m, log, mine, cmd) {
      var other := CollisionBreaks(m, log, mine, cmd, cap);
    } else {
      forall other | SameDialog(log, other) && Legal(m, other) && HostLegReliable(other) ensures Kept(Start, other, mine, cmd, cap) {
        if Collides(m, other, mine, cmd) {
          SameCollision(m, log, other, mine, cmd);
        }
        ExactOrFlagged(m, Start, other, mine, cmd, cap);
      }
    }
  }

  /** The collision is real. The node still remembers command 5 of a gone host process, whose reply all
      went up; that command is delivered once more, then command 5 of the new process runs. The new
      process takes the old empty repeat for its reply. */
  lemma LateRepeatIsCredited(log: seq<Exchange>, cap: nat)
    requires log == [
      Repeat(1, 5, [Sent(Frame(ShellResponse, 5, 0, 0, true, []), true, true)]),
      Run(2, 5, [0x42], 0, 1, [])]
    ensures Legal(Last(1, 5, 0, 0), log) && HostLegReliable(log) && Own(log, Some(1), 5)
    ensures Host(Start, 5, cap, HostFrames(log)) == Closed(0, [], false)
    ensures !Kept(Start, log, Some(1), 5, cap)
  {
    var m, a, b := Last(1, 5, 0, 0), Repeat(1, 5, []), Run(2, 5, [], 0, 0, []);
    var dialog := [a, b];
    assert log == Staged(dialog, 0, 0, []);
    StagedDialog(dialog, 0, 0, []);
    StagedHost(dialog, 0, 0, [], cap);
    LoudFits(m, a, 0, []);
    QuietFits(m, b);
    hide Fits, Host, HostFrames, HostLegReliable, Staged;
    assert log[0] == Loud(a, 0, []) && log[1..] == [Quiet(b)] && log[1..][1..] == [];
    assert Legal(m, log[1..]);
  }
}
