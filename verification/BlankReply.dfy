/** The host without a reliable leg from the gateway down to it. The promise "exact or flagged" then
    fails in exactly one more case: a whole reply none of which came down, and its empty repeat that did. */
module BlankReply {
  import opened Basics
  import opened Utf8
  import opened Frames
  import opened RadioSink
  import opened RemoteShell
  import opened HostView

  /** Below this many chunks no chunk number comes round again. */
  const SHORT := WRAP - 2

  /** A reply of up to three and a half million bytes is short. */
  lemma ShortReply(e: Exchange)
    requires e.Run? && RunAir(e.air, e.cmd, e.text, e.result, e.lost)
    requires |e.text| < (SHORT - 1) * (CHUNK - 3)
    ensures |e.air| < SHORT
  {
    ChunkCount(e.air, e.cmd, 0);
  }

  /** The one way an unflagged completion can be wrong: the whole reply went up and none of it came
      down to the host, and then the empty repeat did. */
  predicate Blank(h: Assembly, e: Exchange)
    requires e.Run?
  {
    e.lost == 0 && NoneAtHost(e.air) && h == Closed(e.result, [], false)
  }

  predicate Verdict(h: Assembly, e: Exchange)
    requires e.Run?
  {
    h.Closed? && !h.gap ==> Exact(h, e) || Blank(h, e)
  }

  // ---- the run ---------------------------------------------------------------------

  /** The host after the first `k` entries of a run's air, any of which it may have missed. */
  predicate Following(h: Assembly, air: seq<Sent>, k: nat)
    requires k <= |air|
  {
    h.Open? && !h.gap ==>
      && h.next <= k
      && h.data == Text(air[..h.next])
      && (h.next == 0 ==> NoneAtHost(air[..k]) && h == Start)
  }

  lemma {:induction false} FollowsRun(air: seq<Sent>, cmd: u16, cap: nat, k: nat)
    requires ReplyOnAir(air, cmd, 0) && |air| < SHORT && k <= |air|
    ensures Following(Host(Start, cmd, cap, AtHost(air[..k])), air, k)
    ensures var h := Host(Start, cmd, cap, AtHost(air[..k]));
      h.Closed? && !h.gap ==>
        k == |air| > 0 && air[k - 1].frame.last && h == Closed(air[k - 1].frame.result, Text(air), false)
    decreases k
  {
    if k > 0 {
      var i := k - 1;
      FollowsRun(air, cmd, cap, i);
      AtHostSnoc(air, i);
      var h := Host(Start, cmd, cap, AtHost(air[..i]));
      var f := air[i].frame;
      assert FramesOf(air)[i] == f;
      if air[i].atHost {
        HostStep(Start, cmd, cap, AtHost(air[..i]), f);
        OnTime(h, air, cmd, cap, i);
      } else {
        assert AtHost(air[..k]) == AtHost(air[..i]);
        assert air[..k] == air[..i] + [air[i]];
      }
    } else {
      assert air[..0] == [];
      assert Text([]) == [];
    }
  }

  /** Feeding entry `i`: the host keeps following, falls behind for good, or completes. */
  lemma OnTime(h: Assembly, air: seq<Sent>, cmd: u16, cap: nat, i: nat)
    requires ReplyOnAir(air, cmd, 0) && |air| < SHORT && i < |air|
    requires Following(h, air, i)
    requires h.Closed? && !h.gap ==> i == |air| > 0
    ensures var g := Feed(h, ShellResponse, cmd, cap, air[i].frame);
      && Following(g, air, i + 1)
      && (g.Closed? && !g.gap ==> i + 1 == |air| && air[i].frame.last && g == Closed(air[i].frame.result, Text(air), false))
  {
    assert FramesOf(air)[i] == air[i].frame;
    assert air[..i + 1] == air[..i] + [air[i]];
    TextSnoc(air[..i], air[i]);
    if i + 1 == |air| {
      assert air[..i + 1] == air;
    } else {
      assert MiddleChunk(air[i].frame);
    }
  }

  /** The host once the whole run is over: what `lost` says bounds the number it expects. */
  predicate Seen(h: Assembly, e: Exchange)
    requires e.Run?
  {
    && (h.Closed? && !h.gap ==> Exact(h, e))
    && (h.Open? && !h.gap ==>
      && (e.lost > 0 ==> h.next <= e.lost)
      && (h.next == 0 ==> h == Start && NoneAtHost(e.air)))
  }

  lemma LostIsShort(air: seq<Sent>, id: u16, text: bytes, result: u8, lost: nat)
    requires RunAir(air, id, text, result, lost) && |air| < SHORT
    ensures lost <= |air| + 1 && (lost > 0 && air != [] && !air[|air| - 1].delivered ==> lost <= |air|)
    ensures lost > 0 ==> lost >= |air|
    ensures lost == 0 || (air != [] && air[|air| - 1].frame.last) ==> Finished(air, text, result)
  {
    CutNumber(air, lost);
    hide ReplyOnAir, Finished, CutAt, Text;
  }

  lemma RunSeen(e: Exchange, cap: nat)
    requires e.Run? && RunAir(e.air, e.cmd, e.text, e.result, e.lost) && |e.air| < SHORT
    ensures e.lost <= SHORT
    ensures var h := Host(Start, e.cmd, cap, AtHost(e.air)); Verdict(h, e) && (h.Open? ==> Seen(h, e))
  {
    LostIsShort(e.air, e.cmd, e.text, e.result, e.lost);
    hide RunAir, CutAt, Host, AtHost;
    FollowsRun(e.air, e.cmd, cap, |e.air|) by {
      assert ReplyOnAir(e.air, e.cmd, 0) by { Replies(e); }
    }
    assert e.air[..|e.air|] == e.air;
    hide ReplyOnAir, Text;
  }

  lemma Replies(e: Exchange)
    requires e.Run? && RunAir(e.air, e.cmd, e.text, e.result, e.lost)
    ensures ReplyOnAir(e.air, e.cmd, 0)
  {
    hide ReplyOnAir, CutAt, Text, Finished;
  }

  // ---- repeats ---------------------------------------------------------------------

  lemma {:induction false} AfterShortRun(m: Memory, log: seq<Exchange>, run: Exchange, h: Assembly, cap: nat)
    requires Legal(m, log) && run.Run? && run.lost <= SHORT && NoRunOf(run.cmd, log)
    requires m.Last? && m.cmd == run.cmd ==> m == Last(run.epoch, run.cmd, run.result, run.lost)
    requires Verdict(h, run) && (h.Open? ==> Seen(h, run))
    ensures Verdict(Host(h, run.cmd, cap, HostFrames(log)), run)
    decreases |log|
  {
    hide RunAir, Note;
    if log != [] {
      var e := log[0];
      var g := Host(h, run.cmd, cap, AtHost(e.air));
      FeedAllConcat(h, ShellResponse, run.cmd, cap, AtHost(e.air), HostFrames(log[1..]));
      ExchangeId(m, e);
      if e.cmd == run.cmd {
        RepeatFeeds(h, run.cmd, run.result, run.lost, e.air, cap);
      } else {
        OthersIgnored(h, run.cmd, cap, e.air);
      }
      AfterShortRun(After(m, e), log[1..], run, g, cap);
    }
  }

  /** Some repeat of `cmd` came down to the host. */
  predicate RepeatSeen(cmd: u16, log: seq<Exchange>) {
    exists i :: 0 <= i < |log| && log[i].Repeat? && log[i].cmd == cmd && !NoneAtHost(log[i].air)
  }

  lemma {:induction false} NothingSeen(air: seq<Sent>)
    requires NoneAtHost(air)
    ensures AtHost(air) == []
    decreases |air|
  {
    if air != [] {
      NothingSeen(air[..|air| - 1]);
    }
  }

  lemma {:induction false} HostSeesNothing(m: Memory, log: seq<Exchange>, cmd: u16, h: Assembly, cap: nat)
    requires Legal(m, log) && NothingOf(cmd, log)
    ensures Host(h, cmd, cap, HostFrames(log)) == h
    decreases |log|
  {
    hide RunAir, RepeatAir, NoneAtHost;
    if log != [] {
      var e := log[0];
      FeedAllConcat(h, ShellResponse, cmd, cap, AtHost(e.air), HostFrames(log[1..]));
      ExchangeId(m, e);
      if e.cmd == cmd {
        NothingSeen(e.air);
      } else {
        OthersIgnored(h, cmd, cap, e.air);
      }
      HostSeesNothing(After(m, e), log[1..], cmd, h, cap);
    }
  }

  /** The first repeat the host sees of a reply that all went up closes it, empty. */
  lemma {:induction false} BlankAfter(m: Memory, log: seq<Exchange>, run: Exchange, cap: nat)
    requires Legal(m, log) && run.Run? && run.lost == 0 && NoRunOf(run.cmd, log) && RepeatSeen(run.cmd, log)
    requires m.Last? && m.cmd == run.cmd ==> m == Last(run.epoch, run.cmd, run.result, run.lost)
    ensures Host(Start, run.cmd, cap, HostFrames(log)) == Closed(run.result, [], false)
    decreases |log|
  {
    hide RunAir, Note;
    var e, rest := log[0], log[1..];
    FeedAllConcat(Start, ShellResponse, run.cmd, cap, AtHost(e.air), HostFrames(rest));
    ExchangeId(m, e);
    if e.cmd == run.cmd && !NoneAtHost(e.air) {
      RepeatFeeds(Start, run.cmd, run.result, 0, e.air, cap);
      assert [] + e.air[0].frame.data == [];
      ClosedStays(Closed(run.result, [], false), ShellResponse, run.cmd, cap, HostFrames(rest));
    } else {
      if e.cmd == run.cmd {
        NothingSeen(e.air);
      } else {
        OthersIgnored(Start, run.cmd, cap, e.air);
      }
      var i :| 0 <= i < |log| && log[i].Repeat? && log[i].cmd == run.cmd && !NoneAtHost(log[i].air);
      assert rest[i - 1] == log[i];
      BlankAfter(After(m, e), rest, run, cap);
    }
  }

  /** Every exchange of `cmd` after its run is a repeat. */
  lemma OnlyRepeats(log: seq<Exchange>, cmd: u16)
    requires NoRunOf(cmd, log) && !RepeatSeen(cmd, log)
    ensures NothingOf(cmd, log)
  {
  }

  // ---- the exact exception -----------------------------------------------------------

  /** The host's own reply all went up and was not empty, nothing under its number came down until it
      was over, and then a repeat did. */
  predicate TakenBlank(log: seq<Exchange>, mine: Option<nat>, cmd: u16)
    requires Own(log, mine, cmd)
  {
    mine.Some? &&
      var k := mine.value;
      && log[k].lost == 0 && log[k].text != []
      && NothingOf(cmd, log[..k]) && NoneAtHost(log[k].air) && RepeatSeen(cmd, log[k + 1..])
  }

  /** What the host makes of the boot when the leg down to it may lose anything: without a collision
      of numbers, the promise is broken if and only if the reply is taken blank. */
  lemma BrokenExactlyWhenBlank(m: Memory, h: Assembly, log: seq<Exchange>, mine: Option<nat>, cmd: u16, cap: nat)
    requires Legal(m, log) && Held(m) && Own(log, mine, cmd) && !Collides(m, log, mine, cmd)
    requires mine.Some? ==> |log[mine.value].air| < SHORT
    requires h == Start || h.gap
    ensures !Kept(h, log, mine, cmd, cap) <==> h == Start && TakenBlank(log, mine, cmd)
  {
    match mine
    case None =>
      assert NoRunOf(cmd, log);
      BeforeTheRun(m, log, cmd, h, cap);
    case Some(k) =>
      Parts(m, log, k, cmd);
      var before, run, after := log[..k], log[k], log[k + 1..];
      BeforeTheRun(m, before, cmd, h, cap);
      HostConcat(h, cmd, cap, before, [run] + after);
      var g := Host(h, cmd, cap, HostFrames(before));
      if g.gap {
        GapStays(g, cmd, cap, HostFrames([run] + after));
        if h == Start && NothingOf(cmd, before) {
          HostSeesNothing(m, before, cmd, h, cap);
        } else if h.gap {
          assert h != Start;
        }
      } else {
        if h.gap {
          GapStays(h, cmd, cap, HostFrames(before));
        }
        FromTheRun(MemoryAfter(m, before), run, after, cap);
      }
  }

  /** From a fresh host on. */
  lemma FromTheRun(m: Memory, run: Exchange, after: seq<Exchange>, cap: nat)
    requires run.Run? && Fits(m, run) && |run.air| < SHORT && Legal(After(m, run), after) && NoRunOf(run.cmd, after)
    ensures var g := Host(Start, run.cmd, cap, HostFrames([run] + after));
      g.Closed? && !g.gap && !Exact(g, run) <==> run.lost == 0 && run.text != [] && NoneAtHost(run.air) && RepeatSeen(run.cmd, after)
  {
    hide Verdict, Seen, RepeatSeen, NothingOf;
    var cmd := run.cmd;
    HostConcat(Start, cmd, cap, [run], after);
    HostOne(Start, cmd, cap, run);
    RunSeen(run, cap);
    var h := Host(Start, cmd, cap, AtHost(run.air));
    AfterShortRun(After(m, run), after, run, h, cap);
    var g := Host(h, cmd, cap, HostFrames(after));
    VerdictSays(g, run);
    if run.lost == 0 && NoneAtHost(run.air) {
      NothingSeen(run.air);
      if RepeatSeen(cmd, after) {
        BlankAfter(After(m, run), after, run, cap);
      } else {
        OnlyRepeats(after, cmd);
        HostSeesNothing(After(m, run), after, cmd, Start, cap);
      }
    }
  }

  lemma VerdictSays(g: Assembly, run: Exchange)
    requires run.Run? && Verdict(g, run)
    ensures g.Closed? && !g.gap && !Exact(g, run) ==> run.lost == 0 && run.text != [] && NoneAtHost(run.air)
  {
  }

  /** One chunk up, whether or not it comes down. */
  lemma OneChunkRun(e: Exchange, down: bool)
    requires e.Run? && e.lost == 0 && |e.text| <= CHUNK && Utf8.Valid(e.text)
    requires e.air == [Sent(Frame(ShellResponse, e.cmd, e.result, 0, true, e.text), true, down)]
    ensures RunAir(e.air, e.cmd, e.text, e.result, 0)
  {
    TextSnoc([], e.air[0]);
    assert [] + [e.air[0]] == e.air && Text([]) == [] && [] + e.text == e.text;
  }

  /** The exception is real: a one-chunk reply, acknowledged and lost on the cable, and its repeat. */
  lemma BlankOccurs() returns (log: seq<Exchange>)
    ensures Legal(Nothing, log) && Own(log, Some(0), 5) && !Collides(Nothing, log, Some(0), 5)
    ensures TakenBlank(log, Some(0), 5) && !Kept(Start, log, Some(0), 5, NOTE_BYTES)
  {
    var run := Run(1, 5, [0x42], 0, 0, [Sent(Frame(ShellResponse, 5, 0, 0, true, [0x42]), true, false)]);
    var again := Repeat(1, 5, [Sent(Frame(ShellResponse, 5, 0, 0, true, []), true, true)]);
    log := [run, again];
    OneChunkRun(run, false);
    hide RunAir, Note, Kept;
    assert log[0] == run && log[1..] == [again] && [again][1..] == [] && log[..0] == [];
    assert Fits(After(Nothing, run), again);
    assert Legal(After(Nothing, run), [again]);
    assert again.air[0].atHost && log[1..][0] == again;
    BrokenExactlyWhenBlank(Nothing, Start, log, Some(0), 5, NOTE_BYTES);
  }
}
