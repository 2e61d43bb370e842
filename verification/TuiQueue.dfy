/** The terminal UI's in-flight commands: a queue in send order whose answers are matched anywhere
    but closed in order, next to the scrollback they stream into. */
module TuiQueue {
  import opened Basics
  import opened Frames
  import opened Scrollback
  import opened TuiLines

  const MAX_IN_FLIGHT := 8
  const PENDING_IDLE := 7000
  const HELLO_RACE := 250

  /** One in-flight command. */
  datatype PendingCmd = PendingCmd(cmdId: u16, line: bytes, nextChunk: u16, received: nat, sent: nat, idleSince: nat)

  /** How a command left the queue: with its answer (`gap` if a chunk was missing), with a marker, or
      cut off for its length. */
  datatype How = Answered(result: u8, gap: bool) | Marked(started: bool) | Truncated

  /** `since` and `until` delimit the frames heard while the command was in flight, `top` and `end` the
      lines put on the screen while it was the oldest. */
  datatype Closure = Closure(cmdId: u16, line: bytes, how: How, since: nat, until: nat, top: nat, end: nat)

  /** `saturating_duration_since`. */
  function Elapsed(now: nat, t: nat): nat {
    if now <= t then 0 else now - t
  }

  /** Ids count from 1 and wrap. */
  function IdOf(n: nat): u16 {
    (n + 1) % 0x1_0000
  }

  // ---- what the screen shows ---------------------------------------------------------

  function WithLine(s: Screen, line: bytes): Screen {
    Screen(s.lines + [line], false)
  }

  /** Commands closed with a marker each, oldest first. */
  function WithMarkers(s: Screen, gone: seq<PendingCmd>, why: bytes): Screen {
    if gone == [] then s
    else
      var p := gone[|gone| - 1];
      WithLine(WithMarkers(s, gone[..|gone| - 1], why), Marker(p.nextChunk != 0, p.line, why))
  }

  /** A chunk of the front command `p`. */
  function WithChunk(s: Screen, p: PendingCmd, f: Frame): Screen
    requires s.isOpen ==> s.lines != []
  {
    var t := if f.chunk != p.nextChunk then WithLine(s, GapNote(p.nextChunk, f.chunk)) else s;
    if p.received + |f.data| > MAX_RESPONSE_BYTES then WithLine(t, CutNote(p.line))
    else
      var u := PutAll(t, Shown(f.data));
      if !f.last then u else if f.result != 0 then WithLine(u, ResultTag(f.result)) else u.(isOpen := false)
  }

  // ---- the queue ---------------------------------------------------------------------

  predicate Sorted(pending: seq<PendingCmd>, clock: nat) {
    && (forall i, j :: 0 <= i < j < |pending| ==> pending[i].sent <= pending[j].sent && pending[i].idleSince <= pending[j].idleSince)
    && (forall i :: 0 <= i < |pending| ==> pending[i].sent <= clock && pending[i].idleSince <= clock)
  }

  /** The host rule for one command over the frames heard since it was sent. */
  function Heard(heard: seq<Frame>, since: nat, until: nat, id: u16): Assembly
    requires since <= until <= |heard|
  {
    FeedAll(Start, ShellResponse, id, MAX_RESPONSE_BYTES, heard[since..until])
  }

  /** An entry's counters are what the host rule makes of the frames heard since it was sent. */
  predicate Tracks(p: PendingCmd, heard: seq<Frame>, since: nat) {
    && since <= |heard|
    && var a := Heard(heard, since, |heard|, p.cmdId);
      a.Open? && a.next == p.nextChunk && |a.data| == p.received
  }

  /** The frame heard last is the one that ended the answer. */
  predicate EndedNow(c: Closure, heard: seq<Frame>) {
    c.since < c.until <= |heard| && Heard(heard, c.since, c.until - 1, c.cmdId).Open?
  }

  /** A closed command was closed for the reason on record. */
  predicate Justified(c: Closure, heard: seq<Frame>) {
    && c.since <= c.until <= |heard|
    && var a := Heard(heard, c.since, c.until, c.cmdId);
      match c.how
      case Answered(result, gap) =>
        a.Closed? && a.result == result && a.gap == gap && EndedNow(c, heard) && |Data(Own(heard, c.since, c.until, c.cmdId))| <= MAX_RESPONSE_BYTES
      case Truncated =>
        a.Closed? && a.gap && EndedNow(c, heard) && |Data(Own(heard, c.since, c.until, c.cmdId))| > MAX_RESPONSE_BYTES
      case Marked(started) => a.Open? && (started <==> a.next != 0)
  }

  /** Every sent command is either closed or in flight, both in send order, and the ids follow the
      order: so each is closed at most once, and the ids in flight are consecutive. */
  predicate Ordered(pending: seq<PendingCmd>, closures: seq<Closure>, sentLines: seq<bytes>) {
    && |closures| + |pending| == |sentLines| && |pending| <= MAX_IN_FLIGHT
    && (forall i :: 0 <= i < |pending| ==>
      pending[i].cmdId == IdOf(|closures| + i) && pending[i].line == sentLines[|closures| + i])
    && (forall k :: 0 <= k < |closures| ==> closures[k].cmdId == IdOf(k) && closures[k].line == sentLines[k])
  }

  /** The frames heard for one command. */
  function Own(heard: seq<Frame>, since: nat, until: nat, id: u16): seq<Frame>
    requires since <= until <= |heard|
  {
    Mine(heard[since..until], ShellResponse, id)
  }

  /** The number the next chunk should have. */
  function Expected(own: seq<Frame>): u16 {
    if own == [] then 0 else Next(own[|own| - 1].chunk)
  }

  /** What stands on the screen of a command that is over: a gap note if and only if a chunk came out
      of order, and at the end, and only there, its result if it is not zero, the note that it was cut
      off, or the marker of its end. */
  predicate Told(c: Closure, kinds: seq<LineKind>, heard: seq<Frame>) {
    && c.since <= c.until <= |heard| && c.top <= c.end <= |kinds|
    && var span := kinds[c.top..c.end];
      && (HasGap(span) <==> !InOrder(Own(heard, c.since, c.until, c.cmdId)))
      && match c.how
        case Answered(result, _) => if result != 0 then EndsWith(span, Result(result)) else Running(span)
        case Truncated => EndsWith(span, Cut(c.line))
        case Marked(started) =>
          && span != [] && span[|span| - 1].End? && EndsWith(span, span[|span| - 1])
          && span[|span| - 1].line == c.line && span[|span| - 1].started == started
  }

  /** ... and of the command being answered: the same, but for the end. */
  predicate Telling(id: u16, since: nat, top: nat, kinds: seq<LineKind>, heard: seq<Frame>) {
    && since <= |heard| && top <= |kinds|
    && Running(kinds[top..]) && (HasGap(kinds[top..]) <==> !InOrder(Own(heard, since, |heard|, id)))
  }

  /** The screen tells the truth about every command: the closed ones, the oldest in flight, of which
      alone frames have been heard. */
  predicate Truthful(pending: seq<PendingCmd>, since: seq<nat>, closures: seq<Closure>, heard: seq<Frame>, kinds: seq<LineKind>, top: nat) {
    && |since| == |pending|
    && (forall k :: 0 <= k < |closures| ==> Told(closures[k], kinds, heard))
    && (pending != [] ==> Telling(pending[0].cmdId, since[0], top, kinds, heard))
    && (forall i :: 1 <= i < |pending| ==> since[i] <= |heard| && Own(heard, since[i], |heard|, pending[i].cmdId) == [])
  }

  predicate Recorded(pending: seq<PendingCmd>, since: seq<nat>, closures: seq<Closure>, heard: seq<Frame>) {
    && |since| == |pending|
    && (forall i :: 0 <= i < |pending| ==> Tracks(pending[i], heard, since[i]))
    && (forall k :: 0 <= k < |closures| ==> Justified(closures[k], heard))
  }

  class App {
    var pending: seq<PendingCmd>
    var cmdId: u16
    var connected: bool
    const responses: Responses
    // history
    ghost var clock: nat
    ghost var sentLines: seq<bytes>
    ghost var closures: seq<Closure>
    ghost var heard: seq<Frame>
    ghost var since: seq<nat>
    /** The kind of every line of the screen, and where the lines of the oldest command begin. */
    ghost var kinds: seq<LineKind>
    ghost var top: nat

    ghost predicate InQueue()
      reads this`pending, this`closures, this`cmdId, this`sentLines
    {
      Ordered(pending, closures, sentLines) && cmdId == IdOf(|sentLines|)
    }

    ghost predicate OnScreen()
      reads this`pending, this`closures, this`heard, this`since, this`kinds, this`top
    {
      Truthful(pending, since, closures, heard, kinds, top)
    }

    ghost predicate OnRecord()
      reads this`pending, this`closures, this`heard, this`since
    {
      Recorded(pending, since, closures, heard)
    }

    ghost predicate Valid()
      reads this, responses
    {
      && responses.Valid() && InQueue() && Sorted(pending, clock) && OnRecord()
      && Matched(kinds, responses.screen) && OnScreen()
      && (!connected ==> pending == [])
    }

    constructor ()
      ensures Valid() && fresh(responses) && pending == [] && connected
    {
      pending, cmdId, connected := [], 1, true;
      responses := new Responses();
      clock, sentLines, closures, heard, since, kinds, top := 0, [], [], [], [], [], 0;
    }

    /** Close the oldest command without the rest of its answer, leaving a marker. */
    method AbandonFront(why: bytes)
      requires Valid()
      modifies this`pending, this`closures, this`since, this`kinds, this`top, responses
      ensures Valid() && old(kinds) <= kinds
      ensures old(pending) == [] ==>
        pending == [] && closures == old(closures) && responses.screen == old(responses.screen) && kinds == old(kinds)
      ensures old(pending) != [] ==>
        && pending == old(pending)[1..]
        && |closures| == |old(closures)| + 1 && old(closures) <= closures && closures[|old(closures)|].how.Marked?
        && responses.screen == WithMarkers(old(responses.screen), old(pending)[..1], why)
        && kinds == old(kinds) + [End(old(pending)[0].nextChunk != 0, old(pending)[0].line, why)]
    {
      hide Marker, Recorded, Truthful, Matched, Ordered, Sorted;
      if pending == [] {
        return;
      }
      var p := pending[0];
      ghost var k := End(p.nextChunk != 0, p.line, why);
      ghost var c := FrontAbandoned(pending, since, closures, sentLines, clock, heard, kinds, top, k);
      MatchedLine(kinds, responses.screen, k);
      closures, kinds := closures + [c], kinds + [k];
      pending, since, top := pending[1..], since[1..], |kinds|;
      responses.PushLine(Marker(p.nextChunk != 0, p.line, why));
      assert old(pending)[..1][..0] == [];
    }

    /** A `Hello`: the commands of the old device session died with it; those younger than the race
        window may already belong to the new one. */
    method OnHello(now: nat)
      requires Valid()
      modifies this`pending, this`closures, this`since, this`kinds, this`top, responses
      ensures Valid() && Peeled(old(pending), pending) && old(closures) <= closures
      ensures forall p :: p in pending ==> Elapsed(now, p.sent) <= HELLO_RACE
      ensures var n := |old(pending)| - |pending|;
        && (forall i :: 0 <= i < n ==> Elapsed(now, old(pending)[i].sent) > HELLO_RACE)
        && responses.screen == WithMarkers(old(responses.screen), old(pending)[..n], Ascii(" (device restarted)"))
    {
      hide OnRecord, OnScreen, Matched, Marker, Ascii;
      ghost var n := 0;
      while pending != [] && Elapsed(now, pending[0].sent) > HELLO_RACE
        invariant Valid() && n <= |old(pending)| && pending == old(pending)[n..] && old(closures) <= closures
        invariant forall i :: 0 <= i < n ==> Elapsed(now, old(pending)[i].sent) > HELLO_RACE
        invariant responses.screen == WithMarkers(old(responses.screen), old(pending)[..n], Ascii(" (device restarted)"))
        decreases |pending|
      {
        OneMoreMarker(old(responses.screen), old(pending), n, Ascii(" (device restarted)"));
        AbandonFront(Ascii(" (device restarted)"));
        n := n + 1;
      }
    }

    /** Write off the commands idle for too long. Activity restarts every clock at once, so the queue
        is ordered by idle time and peeling from the front leaves no expired entry anywhere. */
    method ExpirePending(now: nat)
      requires Valid()
      modifies this`pending, this`closures, this`since, this`kinds, this`top, responses
      ensures Valid() && Peeled(old(pending), pending) && old(closures) <= closures
      ensures forall p :: p in pending ==> Elapsed(now, p.idleSince) < PENDING_IDLE
      ensures var n := |old(pending)| - |pending|;
        && (forall i :: 0 <= i < n ==> Elapsed(now, old(pending)[i].idleSince) >= PENDING_IDLE)
        && responses.screen == WithMarkers(old(responses.screen), old(pending)[..n], Ascii(" (timed out)"))
    {
      hide OnRecord, OnScreen, Matched, Marker, Ascii;
      ghost var n := 0;
      while pending != [] && Elapsed(now, pending[0].idleSince) >= PENDING_IDLE
        invariant Valid() && n <= |old(pending)| && pending == old(pending)[n..] && old(closures) <= closures
        invariant forall i :: 0 <= i < n ==> Elapsed(now, old(pending)[i].idleSince) >= PENDING_IDLE
        invariant responses.screen == WithMarkers(old(responses.screen), old(pending)[..n], Ascii(" (timed out)"))
        decreases |pending|
      {
        OneMoreMarker(old(responses.screen), old(pending), n, Ascii(" (timed out)"));
        AbandonFront(Ascii(" (timed out)"));
        n := n + 1;
      }
    }

    method AbandonAll(why: bytes)
      requires Valid()
      modifies this`pending, this`closures, this`since, this`kinds, this`top, responses
      ensures Valid() && pending == [] && old(closures) <= closures
      ensures responses.screen == WithMarkers(old(responses.screen), old(pending), why)
    {
      hide OnRecord, OnScreen, Matched, Marker;
      ghost var n := 0;
      while pending != []
        invariant Valid() && n <= |old(pending)| && pending == old(pending)[n..] && old(closures) <= closures
        invariant responses.screen == WithMarkers(old(responses.screen), old(pending)[..n], why)
        decreases |pending|
      {
        OneMoreMarker(old(responses.screen), old(pending), n, why);
        AbandonFront(why);
        n := n + 1;
      }
      assert old(pending)[..n] == old(pending);
    }

    /** The port failed: nothing in flight can be answered any more. */
    method DropLink()
      requires Valid()
      modifies this`pending, this`closures, this`since, this`connected, this`kinds, this`top, responses
      ensures Valid() && !connected && pending == [] && old(closures) <= closures
      ensures responses.screen == WithMarkers(old(responses.screen), old(pending), Ascii(" (link lost)"))
    {
      hide OnRecord, OnScreen, Matched, Marker, Ascii, WithMarkers;
      AbandonAll(Ascii(" (link lost)"));
      connected := false;
    }

    /** The port opened again; `cmdId` keeps counting. */
    method Reconnect()
      requires Valid() && !connected
      modifies this`pending, this`closures, this`since, this`connected, this`kinds, this`top, responses
      ensures Valid() && connected && pending == [] && cmdId == old(cmdId)
    {
      hide OnRecord, OnScreen, Matched, Marker, Ascii, WithMarkers;
      connected := true;
      AbandonAll(Ascii(" (link lost)"));
      MatchedClosed(kinds, responses.screen);
      responses.CloseLine();
    }

    /** A command goes out: only when its frame is encoded and written does anything change, a failed
        write drops the link. A full queue gives up its oldest entry. */
    method SendCommand(line: bytes, encoded: bool, written: bool, now: nat) returns (ok: bool)
      requires Valid() && clock <= now
      modifies this`pending, this`closures, this`since, this`connected, this`cmdId, this`clock, this`sentLines, this`kinds, this`top, responses
      ensures Valid() && old(closures) <= closures
      ensures ok <==> line != [] && old(connected) && encoded && written
      ensures ok ==> sentLines == old(sentLines) + [line] && pending != [] && heard == old(heard)
      ensures ok ==> pending[|pending| - 1] == PendingCmd(old(cmdId), line, 0, 0, now, now) && since != [] && since[|since| - 1] == |heard|
      ensures ok ==> pending[..|pending| - 1] == if |old(pending)| < MAX_IN_FLIGHT then old(pending) else old(pending)[1..]
      ensures ok ==> kinds == old(kinds) + GivenUp(old(pending)) + [Echo(line)]
      ensures !ok ==> sentLines == old(sentLines) && cmdId == old(cmdId)
      ensures !ok ==> pending == if line != [] && old(connected) && encoded then [] else old(pending)
    {
      hide OnRecord, OnScreen, Matched, Marker, Ascii, WithMarkers;
      if line == [] || !connected || !encoded {
        return false;
      }
      if !written {
        DropLink();
        return false;
      }
      if |pending| >= MAX_IN_FLIGHT {
        AbandonFront(Ascii(" (too many in flight)"));
      }
      EchoLine(line);
      Enqueue(line, now);
      return true;
    }

    /** The command as the user typed it. */
    method EchoLine(line: bytes)
      requires Valid()
      modifies this`kinds, responses
      ensures Valid() && kinds == old(kinds) + [Echo(line)]
      ensures responses.screen == WithLine(old(responses.screen), Ascii("> ") + line)
    {
      EchoTruthful(pending, since, closures, heard, kinds, top, Echo(line));
      MatchedLine(kinds, responses.screen, Echo(line));
      hide OnRecord, InQueue, Truthful, Matched, Ascii;
      responses.PushLine(Ascii("> ") + line);
      kinds := kinds + [Echo(line)];
    }

    /** A new entry at the back, under the next id. */
    method Enqueue(line: bytes, now: nat)
      requires Valid() && connected && |pending| < MAX_IN_FLIGHT && clock <= now
      modifies this`pending, this`since, this`cmdId, this`clock, this`sentLines, this`top
      ensures Valid()
      ensures pending == old(pending) + [PendingCmd(old(cmdId), line, 0, 0, now, now)]
      ensures since == old(since) + [|heard|] && sentLines == old(sentLines) + [line]
    {
      var p := PendingCmd(cmdId, line, 0, 0, now, now);
      hide Recorded, Truthful, Matched, Ordered, Sorted, IdOf;
      OneMoreSent(pending, since, closures, sentLines, clock, now, heard, kinds, top, p);
      if pending == [] {
        top := |kinds|;
      }
      pending, since := pending + [p], since + [|heard|];
      cmdId := (cmdId + 1) % 0x1_0000;
      sentLines, clock := sentLines + [line], now;
    }

    /** Where the command with this id waits, if it does. */
    method Position(id: u16) returns (idx: Option<nat>)
      ensures idx.Some? ==> idx.value < |pending| && pending[idx.value].cmdId == id
      ensures idx.None? ==> forall p :: p in pending ==> p.cmdId != id
    {
      for i := 0 to |pending|
        invariant forall j :: 0 <= j < i ==> pending[j].cmdId != id
      {
        if pending[i].cmdId == id {
          return Some(i);
        }
      }
      return None;
    }

    /** Close the entries an answer has overtaken. */
    method CloseOvertaken(idx: nat)
      requires Valid() && idx < |pending|
      modifies this`pending, this`closures, this`since, this`kinds, this`top, responses
      ensures Valid() && pending == old(pending)[idx..] && old(closures) <= closures
      ensures responses.screen == WithMarkers(old(responses.screen), old(pending)[..idx], [])
    {
      hide OnRecord, OnScreen, Matched, Marker;
      for n := 0 to idx
        invariant Valid() && pending == old(pending)[n..] && old(closures) <= closures
        invariant responses.screen == WithMarkers(old(responses.screen), old(pending)[..n], [])
      {
        OneMoreMarker(old(responses.screen), old(pending), n, []);
        AbandonFront([]);
      }
    }

    /** The device is working through the queue: every waiter's idle clock starts again. */
    method RestartClocks(now: nat)
      requires Valid() && clock <= now
      modifies this`pending, this`clock
      ensures Valid() && clock == now && pending == Restarted(old(pending), now)
    {
      hide Recorded, Ordered, Truthful, Sorted, Matched;
      ClocksRestarted(pending, since, closures, sentLines, clock, now, heard, kinds, top);
      var fresh_ := [];
      for i := 0 to |pending|
        invariant fresh_ == Restarted(pending[..i], now)
      {
        fresh_ := fresh_ + [pending[i].(idleSince := now)];
        assert pending[..i + 1] == pending[..i] + [pending[i]];
      }
      assert pending[..|pending|] == pending;
      pending, clock := fresh_, now;
    }

    /** The front command's last chunk, or one too many, ends it; `ks` are the lines as they are now. */
    method EndFront(f: Frame, ghost ks: seq<LineKind>)
      requires InQueue() && Sorted(pending, clock) && OnRecord() && OnScreen() && pending != []
      requires f.kind == ShellResponse && f.id == pending[0].cmdId && Ends(pending[0], f)
      requires LinesOfChunk(kinds, ks, heard, since, pending[0], f)
      modifies this`pending, this`closures, this`since, this`heard, this`kinds, this`top
      ensures InQueue() && Sorted(pending, clock) && OnRecord() && OnScreen() && old(closures) <= closures
      ensures heard == old(heard) + [f] && pending == old(pending)[1..] && kinds == ks
    {
      hide Recorded, Ordered, Sorted, IdOf, Next, Feed, Truthful, LinesOfChunk;
      ghost var c := ChunkEnds(pending, since, closures, sentLines, clock, heard, kinds, top, f, ks);
      heard, closures, kinds := heard + [f], closures + [c], ks;
      pending, since, top := pending[1..], since[1..], |ks|;
    }

    /** Its counters take any other chunk. */
    method ExtendFront(f: Frame, ghost ks: seq<LineKind>)
      requires InQueue() && Sorted(pending, clock) && OnRecord() && OnScreen() && pending != []
      requires f.kind == ShellResponse && f.id == pending[0].cmdId && !Ends(pending[0], f)
      requires LinesOfChunk(kinds, ks, heard, since, pending[0], f)
      modifies this`pending, this`heard, this`kinds
      ensures InQueue() && Sorted(pending, clock) && OnRecord() && OnScreen()
      ensures heard == old(heard) + [f] && pending == Advanced(old(pending), f) && kinds == ks
    {
      hide Recorded, Ordered, Sorted, IdOf, Next, Feed, Truthful, LinesOfChunk;
      ChunkExtends(pending, since, closures, sentLines, clock, heard, kinds, top, f, ks);
      var p := pending[0];
      heard, kinds := heard + [f], ks;
      pending := [p.(nextChunk := Next(f.chunk), received := p.received + |f.data|)] + pending[1..];
    }

    /** The chunk on the screen. */
    method ShowChunk(p: PendingCmd, f: Frame) returns (ghost ks: seq<LineKind>)
      requires responses.Valid() && Matched(kinds, responses.screen)
      modifies responses
      ensures responses.Valid() && Matched(ks, responses.screen)
      ensures responses.screen == WithChunk(old(responses.screen), p, f)
      ensures ChunkLines(kinds, ks, p.nextChunk, p, f)
    {
      hide GapNote, CutNote, ResultTag, PutAll, Shown, Matched;
      ks := kinds;
      if f.chunk != p.nextChunk {
        MatchedLine(ks, responses.screen, Gap(p.nextChunk, f.chunk));
        responses.PushLine(GapNote(p.nextChunk, f.chunk));
        ks := ks + [Gap(p.nextChunk, f.chunk)];
      }
      assert ks == kinds + GapLine(p.nextChunk, f);
      if p.received + |f.data| > MAX_RESPONSE_BYTES {
        MatchedLine(ks, responses.screen, Cut(p.line));
        responses.PushLine(CutNote(p.line));
        ks := ks + [Cut(p.line)];
        return;
      }
      MatchedText(ks, responses.screen, Shown(f.data));
      ghost var n := |PutAll(responses.screen, Shown(f.data)).lines| - |ks|;
      responses.AppendResponseText(f.data);
      ks := ks + Texts(n);
      if f.last {
        MatchedClosed(ks, responses.screen);
        responses.CloseLine();
        if f.result != 0 {
          MatchedLine(ks, responses.screen, Result(f.result));
          responses.PushLine(ResultTag(f.result));
          ks := ks + [Result(f.result)];
        }
      }
      assert ks == kinds + GapLine(p.nextChunk, f) + Texts(n) + ResultLine(f);
    }

    /** A chunk of the front command, on the queue and on the screen: a gap note first if and only if its
        number is not the expected one; then its text and, with the last chunk, a result that is not
        zero; or the note that the answer is too long. */
    method TakeChunk(f: Frame)
      requires Valid() && pending != [] && f.kind == ShellResponse && f.id == pending[0].cmdId
      modifies this`pending, this`closures, this`since, this`heard, this`kinds, this`top, responses
      ensures Valid() && heard == old(heard) + [f] && old(closures) <= closures
      ensures pending == Advanced(old(pending), f)
      ensures responses.screen == WithChunk(old(responses.screen), old(pending)[0], f)
      ensures LinesOfChunk(old(kinds), kinds, old(heard), old(since), old(pending)[0], f)
    {
      var p := pending[0];
      FrontExpects(p, heard, since);
      hide Recorded, Ordered, Truthful, Sorted, Tracks, Matched, Own, Expected, ChunkLines, WithChunk;
      ghost var ks := ShowChunk(p, f);
      if Ends(p, f) {
        EndFront(f, ks);
      } else {
        ExtendFront(f, ks);
      }
    }

    /** Route one response chunk: to the command with its id wherever that waits. An unknown id is
        ignored, the entries it has overtaken are closed. */
    method OnShellResponse(f: Frame, now: nat)
      requires Valid() && clock <= now && f.kind == ShellResponse
      modifies this`pending, this`closures, this`since, this`heard, this`clock, this`kinds, this`top, responses
      ensures Valid() && old(closures) <= closures && heard == old(heard) + [f]
      ensures (forall p :: p in old(pending) ==> p.cmdId != f.id) ==>
        pending == old(pending) && responses.screen == old(responses.screen)
      ensures forall i :: 0 <= i < |old(pending)| && old(pending)[i].cmdId == f.id ==>
        && pending == Advanced(Restarted(old(pending)[i..], now), f)
        && responses.screen == WithChunk(WithMarkers(old(responses.screen), old(pending)[..i], []), old(pending)[i].(idleSince := now), f)
    {
      DistinctIds(pending, |closures|);
      hide OnRecord, OnScreen, Matched, LinesOfChunk, InQueue, WithChunk, WithMarkers, Advanced;
      var idx := Position(f.id);
      if idx.None? {
        Ignore(f);
        return;
      }
      CloseOvertaken(idx.value);
      RestartClocks(now);
      TakeChunk(f);
    }

    /** A frame for nobody in flight. */
    ghost method Ignore(f: Frame)
      requires InQueue() && OnRecord() && OnScreen() && f.kind == ShellResponse
      requires forall p :: p in pending ==> p.cmdId != f.id
      modifies this`heard
      ensures OnRecord() && OnScreen() && heard == old(heard) + [f]
    {
      IgnoredTruthful(pending, since, closures, heard, kinds, top, f);
      StillJustified(closures, heard, f);
      forall i | 0 <= i < |pending| ensures Tracks(pending[i], heard + [f], since[i]) {
        HeardOne(pending[i], heard, since[i], f);
      }
      hide Tracks, Justified, Truthful;
      heard := heard + [f];
    }
  }

  /** The marker of the command a full queue gives up. */
  function GivenUp(pending: seq<PendingCmd>): seq<LineKind> {
    if |pending| < MAX_IN_FLIGHT then [] else [End(pending[0].nextChunk != 0, pending[0].line, Ascii(" (too many in flight)"))]
  }

  /** The queue after a chunk of its front command. */
  function Advanced(pending: seq<PendingCmd>, f: Frame): seq<PendingCmd>
    requires pending != []
  {
    var p := pending[0];
    if p.received + |f.data| > MAX_RESPONSE_BYTES || f.last then pending[1..]
    else [p.(nextChunk := Next(f.chunk), received := p.received + |f.data|)] + pending[1..]
  }

  /** One more frame heard. */
  lemma HeardOne(p: PendingCmd, heard: seq<Frame>, since: nat, f: Frame)
    requires Tracks(p, heard, since)
    ensures Heard(heard + [f], since, |heard| + 1, p.cmdId)
      == Feed(Heard(heard, since, |heard|, p.cmdId), ShellResponse, p.cmdId, MAX_RESPONSE_BYTES, f)
    ensures f.kind != ShellResponse || f.id != p.cmdId ==> Tracks(p, heard + [f], since)
  {
    hide Feed;
    var a := Heard(heard, since, |heard|, p.cmdId);
    assert (heard + [f])[since..|heard| + 1] == heard[since..|heard|] + [f];
    FeedAllConcat(Start, ShellResponse, p.cmdId, MAX_RESPONSE_BYTES, heard[since..|heard|], [f]);
    assert [f] + [] == [f];
    FeedFirst(a, ShellResponse, p.cmdId, MAX_RESPONSE_BYTES, f, []);
    ForeignFrame(a, p.cmdId, f);
  }

  /** What a chunk of its own does to a command: it ends it, justly, or leaves it on track. */
  lemma EndedBy(p: PendingCmd, heard: seq<Frame>, since: nat, f: Frame, top: nat, end: nat) returns (how: How)
    requires Tracks(p, heard, since) && f.kind == ShellResponse && f.id == p.cmdId
    ensures p.received + |f.data| > MAX_RESPONSE_BYTES || f.last ==>
      Justified(Closure(p.cmdId, p.line, how, since, |heard| + 1, top, end), heard + [f])
    ensures how == if p.received + |f.data| > MAX_RESPONSE_BYTES then Truncated
      else Answered(f.result, Heard(heard, since, |heard|, p.cmdId).gap || f.chunk != p.nextChunk)
    ensures how.Truncated? <==> p.received + |f.data| > MAX_RESPONSE_BYTES
    ensures !(p.received + |f.data| > MAX_RESPONSE_BYTES || f.last) ==>
      Tracks(p.(nextChunk := Next(f.chunk), received := p.received + |f.data|), heard + [f], since)
  {
    HeardOne(p, heard, since, f);
    CountersAre(p, heard, since);
    OwnMore(heard, since, p.cmdId, f);
    DataSnoc(Own(heard, since, |heard|, p.cmdId), f);
    HeardBefore(heard, since, p.cmdId, f);
    var a := Heard(heard, since, |heard|, p.cmdId);
    hide Heard, Own;
    how := if p.received + |f.data| > MAX_RESPONSE_BYTES then Truncated else Answered(f.result, a.gap || f.chunk != a.next);
  }

  lemma HeardBefore(heard: seq<Frame>, since: nat, id: u16, f: Frame)
    requires since <= |heard|
    ensures Heard(heard + [f], since, |heard|, id) == Heard(heard, since, |heard|, id)
  {
    assert (heard + [f])[since..|heard|] == heard[since..|heard|];
  }

  predicate Ends(p: PendingCmd, f: Frame) {
    p.received + |f.data| > MAX_RESPONSE_BYTES || f.last
  }

  lemma AdvancedOrdered(pending: seq<PendingCmd>, closures: seq<Closure>, sentLines: seq<bytes>, f: Frame, c: Closure)
    requires Ordered(pending, closures, sentLines) && pending != [] && c.cmdId == pending[0].cmdId && c.line == pending[0].line
    ensures Ordered(Advanced(pending, f), if Ends(pending[0], f) then closures + [c] else closures, sentLines)
  {
  }

  lemma AdvancedSorted(pending: seq<PendingCmd>, clock: nat, f: Frame)
    requires Sorted(pending, clock) && pending != []
    ensures Sorted(Advanced(pending, f), clock)
  {
  }

  /** A chunk of the front command keeps the record. */
  lemma ChunkRecorded(pending: seq<PendingCmd>, since: seq<nat>, closures: seq<Closure>, sentLines: seq<bytes>, heard: seq<Frame>, f: Frame, top: nat, end: nat)
    returns (how: How)
    requires Ordered(pending, closures, sentLines) && Recorded(pending, since, closures, heard)
    requires pending != [] && f.kind == ShellResponse && f.id == pending[0].cmdId
    ensures since != []
    ensures how.Truncated? <==> pending[0].received + |f.data| > MAX_RESPONSE_BYTES
    ensures how.Answered? ==> how.result == f.result
    ensures !how.Marked?
    ensures var c := Closure(pending[0].cmdId, pending[0].line, how, since[0], |heard| + 1, top, end);
      if Ends(pending[0], f) then Recorded(pending[1..], since[1..], closures + [c], heard + [f])
      else Recorded(Advanced(pending, f), since, closures, heard + [f])
  {
    StillJustified(closures, heard, f);
    OthersTrack(pending, since, heard, f, |closures|);
    how := EndedBy(pending[0], heard, since[0], f, top, end);
    hide Tracks, Justified, IdOf;
  }

  lemma ForeignFrame(a: Assembly, id: u16, f: Frame)
    ensures f.kind != ShellResponse || f.id != id ==> Feed(a, ShellResponse, id, MAX_RESPONSE_BYTES, f) == a
  {
  }

  lemma StillJustified(closures: seq<Closure>, heard: seq<Frame>, f: Frame)
    requires forall k :: 0 <= k < |closures| ==> Justified(closures[k], heard)
    ensures forall k :: 0 <= k < |closures| ==> Justified(closures[k], heard + [f])
  {
    hide Justified;
    forall k | 0 <= k < |closures| ensures Justified(closures[k], heard + [f]) {
      OneStillJustified(closures[k], heard, f);
    }
  }

  lemma OneStillJustified(c: Closure, heard: seq<Frame>, f: Frame)
    requires Justified(c, heard)
    ensures Justified(c, heard + [f])
  {
    assert (heard + [f])[c.since..c.until] == heard[c.since..c.until];
    if c.since < c.until {
      assert (heard + [f])[c.since..c.until - 1] == heard[c.since..c.until - 1];
    }
    hide FeedAll, Mine, Data;
  }

  /** A marker that ends the front command keeps every record. */
  lemma FrontAbandoned(pending: seq<PendingCmd>, since: seq<nat>, closures: seq<Closure>, sentLines: seq<bytes>, clock: nat,
      heard: seq<Frame>, kinds: seq<LineKind>, top: nat, k: LineKind) returns (c: Closure)
    requires Ordered(pending, closures, sentLines) && Recorded(pending, since, closures, heard) && Sorted(pending, clock)
    requires Truthful(pending, since, closures, heard, kinds, top) && pending != []
    requires k.End? && k.line == pending[0].line && k.started == (pending[0].nextChunk != 0)
    ensures c.how == Marked(k.started) && since != []
    ensures Ordered(pending[1..], closures + [c], sentLines) && Recorded(pending[1..], since[1..], closures + [c], heard)
    ensures Sorted(pending[1..], clock) && Truthful(pending[1..], since[1..], closures + [c], heard, kinds + [k], |kinds| + 1)
  {
    c := Closure(pending[0].cmdId, k.line, Marked(k.started), since[0], |heard|, top, |kinds| + 1);
    hide Truthful, IdOf, Justified, Tracks;
    assert Tracks(pending[0], heard, since[0]);
    MarkedJustified(pending[0], heard, since[0], c);
    AbandonedTruthful(pending, since, closures, heard, kinds, top, k, c);
  }

  lemma MarkedJustified(p: PendingCmd, heard: seq<Frame>, since: nat, c: Closure)
    requires Tracks(p, heard, since)
    requires c == Closure(p.cmdId, p.line, Marked(p.nextChunk != 0), since, |heard|, c.top, c.end)
    ensures Justified(c, heard)
  {
    hide Heard;
  }

  /** The records do not depend on the idle clocks. */
  lemma ClocksRestarted(pending: seq<PendingCmd>, since: seq<nat>, closures: seq<Closure>, sentLines: seq<bytes>, clock: nat, now: nat,
      heard: seq<Frame>, kinds: seq<LineKind>, top: nat)
    requires Ordered(pending, closures, sentLines) && Recorded(pending, since, closures, heard) && Sorted(pending, clock)
    requires Truthful(pending, since, closures, heard, kinds, top) && clock <= now
    ensures Ordered(Restarted(pending, now), closures, sentLines) && Recorded(Restarted(pending, now), since, closures, heard)
    ensures Sorted(Restarted(pending, now), now) && Truthful(Restarted(pending, now), since, closures, heard, kinds, top)
  {
    RestartedTruthful(pending, since, closures, heard, kinds, top, now);
    hide Truthful, Justified, Heard, IdOf;
    var r := Restarted(pending, now);
    forall i | 0 <= i < |r| ensures Tracks(r[i], heard, since[i]) {
      assert Tracks(pending[i], heard, since[i]);
    }
  }

  /** A new command at the back keeps every record. */
  lemma OneMoreSent(pending: seq<PendingCmd>, since: seq<nat>, closures: seq<Closure>, sentLines: seq<bytes>, clock: nat, now: nat,
      heard: seq<Frame>, kinds: seq<LineKind>, top: nat, p: PendingCmd)
    requires Ordered(pending, closures, sentLines) && Recorded(pending, since, closures, heard) && Sorted(pending, clock)
    requires Truthful(pending, since, closures, heard, kinds, top) && |pending| < MAX_IN_FLIGHT && clock <= now
    requires p == PendingCmd(IdOf(|sentLines|), p.line, 0, 0, now, now)
    ensures Ordered(pending + [p], closures, sentLines + [p.line]) && Recorded(pending + [p], since + [|heard|], closures, heard)
    ensures Sorted(pending + [p], now) && IdOf(|sentLines| + 1) == (IdOf(|sentLines|) + 1) % 0x1_0000
    ensures Truthful(pending + [p], since + [|heard|], closures, heard, kinds, if pending == [] then |kinds| else top)
  {
    NothingHeard(p, heard);
    IdStep(|sentLines|);
    EnqueuedTruthful(pending, since, closures, heard, kinds, top, p);
    hide Justified, Tracks, IdOf, Truthful;
  }

  /** A chunk that ends the front command keeps every record. */
  lemma ChunkEnds(pending: seq<PendingCmd>, since: seq<nat>, closures: seq<Closure>, sentLines: seq<bytes>, clock: nat,
      heard: seq<Frame>, kinds: seq<LineKind>, top: nat, f: Frame, ks: seq<LineKind>) returns (c: Closure)
    requires Ordered(pending, closures, sentLines) && Recorded(pending, since, closures, heard) && Sorted(pending, clock)
    requires Truthful(pending, since, closures, heard, kinds, top) && pending != [] && Ends(pending[0], f)
    requires f.kind == ShellResponse && f.id == pending[0].cmdId && LinesOfChunk(kinds, ks, heard, since, pending[0], f)
    ensures since != []
    ensures Ordered(pending[1..], closures + [c], sentLines) && Recorded(pending[1..], since[1..], closures + [c], heard + [f])
    ensures Sorted(pending[1..], clock) && Truthful(pending[1..], since[1..], closures + [c], heard + [f], ks, |ks|)
  {
    var how := ChunkRecorded(pending, since, closures, sentLines, heard, f, top, |ks|);
    c := Closure(pending[0].cmdId, pending[0].line, how, since[0], |heard| + 1, top, |ks|);
    OtherIds(pending, closures, sentLines);
    AdvancedOrdered(pending, closures, sentLines, f, c);
    AdvancedSorted(pending, clock, f);
    hide Ordered, Recorded, Sorted, Truthful, LinesOfChunk;
    EndedTruthful(pending, since, closures, heard, kinds, top, f, ks, c);
  }

  lemma ChunkExtends(pending: seq<PendingCmd>, since: seq<nat>, closures: seq<Closure>, sentLines: seq<bytes>, clock: nat,
      heard: seq<Frame>, kinds: seq<LineKind>, top: nat, f: Frame, ks: seq<LineKind>)
    requires Ordered(pending, closures, sentLines) && Recorded(pending, since, closures, heard) && Sorted(pending, clock)
    requires Truthful(pending, since, closures, heard, kinds, top) && pending != [] && !Ends(pending[0], f)
    requires f.kind == ShellResponse && f.id == pending[0].cmdId && LinesOfChunk(kinds, ks, heard, since, pending[0], f)
    ensures Ordered(Advanced(pending, f), closures, sentLines) && Recorded(Advanced(pending, f), since, closures, heard + [f])
    ensures Sorted(Advanced(pending, f), clock) && Truthful(Advanced(pending, f), since, closures, heard + [f], ks, top)
  {
    var p := pending[0];
    var how := ChunkRecorded(pending, since, closures, sentLines, heard, f, 0, 0);
    OtherIds(pending, closures, sentLines);
    AdvancedOrdered(pending, closures, sentLines, f, Closure(p.cmdId, p.line, how, 0, 0, 0, 0));
    AdvancedSorted(pending, clock, f);
    hide Ordered, Recorded, Sorted, Truthful, LinesOfChunk;
    ExtendedTruthful(pending, since, closures, heard, kinds, top, f, ks);
  }

  lemma OtherIds(pending: seq<PendingCmd>, closures: seq<Closure>, sentLines: seq<bytes>)
    requires Ordered(pending, closures, sentLines)
    ensures forall i :: 1 <= i < |pending| ==> pending[i].cmdId != pending[0].cmdId
  {
    DistinctIds(pending, |closures|);
  }

  /** At most eight consecutive ids are in flight: all different, the wrap included. */
  lemma DistinctIds(pending: seq<PendingCmd>, first: nat)
    requires |pending| <= MAX_IN_FLIGHT && forall i :: 0 <= i < |pending| ==> pending[i].cmdId == IdOf(first + i)
    ensures forall i, j :: 0 <= i < j < |pending| ==> pending[i].cmdId != pending[j].cmdId
  {
  }

  lemma OthersTrack(pending: seq<PendingCmd>, since: seq<nat>, heard: seq<Frame>, f: Frame, first: nat)
    requires 0 < |pending| <= MAX_IN_FLIGHT && |since| == |pending| && f.id == pending[0].cmdId
    requires forall i :: 0 <= i < |pending| ==> pending[i].cmdId == IdOf(first + i)
    requires forall i :: 0 <= i < |pending| ==> Tracks(pending[i], heard, since[i])
    ensures forall i :: 1 <= i < |pending| ==> Tracks(pending[i], heard + [f], since[i])
  {
    DistinctIds(pending, first);
    hide IdOf, Heard;
    forall i | 1 <= i < |pending| ensures Tracks(pending[i], heard + [f], since[i]) {
      HeardOne(pending[i], heard, since[i], f);
    }
  }

  function Restarted(pending: seq<PendingCmd>, now: nat): (r: seq<PendingCmd>)
    ensures |r| == |pending|
    ensures forall i :: 0 <= i < |r| ==> r[i] == pending[i].(idleSince := now)
  {
    seq(|pending|, i requires 0 <= i < |pending| => pending[i].(idleSince := now))
  }

  lemma IdStep(n: nat)
    ensures IdOf(n + 1) == (IdOf(n) + 1) % 0x1_0000
  {
  }

  lemma NothingHeard(p: PendingCmd, heard: seq<Frame>)
    requires p.nextChunk == 0 && p.received == 0
    ensures Tracks(p, heard, |heard|)
  {
  }

  /** Entries leave only at the front. */
  predicate Peeled(before: seq<PendingCmd>, after: seq<PendingCmd>) {
    |after| <= |before| && after == before[|before| - |after|..]
  }

  lemma OneMoreMarker(s: Screen, pending: seq<PendingCmd>, n: nat, why: bytes)
    requires n < |pending|
    ensures WithMarkers(s, pending[..n + 1], why) == WithMarkers(WithMarkers(s, pending[..n], why), pending[n..][..1], why)
  {
    assert pending[..n + 1][..n] == pending[..n];
    assert pending[n..][..1] == [pending[n]];
    assert [pending[n]][..0] == [];
  }

  // ---- the screen tells the truth -------------------------------------------------------------

  function GapLine(want: u16, f: Frame): seq<LineKind> {
    if f.chunk != want then [Gap(want, f.chunk)] else []
  }

  function ResultLine(f: Frame): seq<LineKind> {
    if f.last && f.result != 0 then [Result(f.result)] else []
  }

  /** The lines a chunk adds when number `want` is expected. */
  ghost predicate ChunkLines(before: seq<LineKind>, after: seq<LineKind>, want: u16, p: PendingCmd, f: Frame) {
    if p.received + |f.data| > MAX_RESPONSE_BYTES then after == before + GapLine(want, f) + [Cut(p.line)]
    else exists n: nat :: after == before + GapLine(want, f) + Texts(n) + ResultLine(f)
  }

  /** ... and a chunk of the front command expects what the frames heard call for. */
  ghost predicate LinesOfChunk(before: seq<LineKind>, after: seq<LineKind>, heard: seq<Frame>, since: seq<nat>, p: PendingCmd, f: Frame) {
    && since != [] && since[0] <= |heard|
    && ChunkLines(before, after, Expected(Own(heard, since[0], |heard|, p.cmdId)), p, f)
  }

  /** The counters on record are those the frames heard call for. */
  lemma CountersAre(p: PendingCmd, heard: seq<Frame>, since: nat)
    requires Tracks(p, heard, since)
    ensures var own := Own(heard, since, |heard|, p.cmdId);
      p.nextChunk == Expected(own) && p.received == |Data(own)| && Heard(heard, since, |heard|, p.cmdId).gap == !InOrder(own)
  {
    var own := Own(heard, since, |heard|, p.cmdId);
    FeedAllIs(ShellResponse, p.cmdId, MAX_RESPONSE_BYTES, heard[since..|heard|]);
    hide Mine, FeedAll, InOrder, Reassembled;
    OpenIs(own, MAX_RESPONSE_BYTES, Heard(heard, since, |heard|, p.cmdId));
  }

  lemma FrontExpects(p: PendingCmd, heard: seq<Frame>, since: seq<nat>)
    requires since != [] && Tracks(p, heard, since[0])
    ensures p.nextChunk == Expected(Own(heard, since[0], |heard|, p.cmdId))
  {
    hide Tracks;
    CountersAre(p, heard, since[0]);
  }

  lemma OwnMore(heard: seq<Frame>, since: nat, id: u16, f: Frame)
    requires since <= |heard|
    ensures Own(heard + [f], since, |heard| + 1, id) ==
      Own(heard, since, |heard|, id) + (if f.kind == ShellResponse && f.id == id then [f] else [])
  {
    var all := (heard + [f])[since..|heard| + 1];
    assert all == heard[since..|heard|] + [f];
    assert all[..|all| - 1] == heard[since..|heard|];
  }

  /** The past of the screen and of the frames stays. */
  lemma ToldStays(c: Closure, kinds: seq<LineKind>, ks: seq<LineKind>, heard: seq<Frame>, hs: seq<Frame>)
    requires Told(c, kinds, heard) && kinds <= ks && heard <= hs
    ensures Told(c, ks, hs)
  {
    assert ks[c.top..c.end] == kinds[c.top..c.end];
    assert hs[c.since..c.until] == heard[c.since..c.until];
    hide HasGap, EndsWith, Running, InOrder, Mine;
  }

  lemma AllToldStay(closures: seq<Closure>, kinds: seq<LineKind>, ks: seq<LineKind>, heard: seq<Frame>, hs: seq<Frame>)
    requires (forall k :: 0 <= k < |closures| ==> Told(closures[k], kinds, heard)) && kinds <= ks && heard <= hs
    ensures forall k :: 0 <= k < |closures| ==> Told(closures[k], ks, hs)
  {
    hide Told;
    forall k | 0 <= k < |closures| ensures Told(closures[k], ks, hs) {
      ToldStays(closures[k], kinds, ks, heard, hs);
    }
  }

  /** A command of which nothing has been heard has nothing to tell yet. */
  lemma FreshTelling(id: u16, since: nat, kinds: seq<LineKind>, heard: seq<Frame>)
    requires since <= |heard| && Own(heard, since, |heard|, id) == []
    ensures Telling(id, since, |kinds|, kinds, heard)
  {
    assert kinds[|kinds|..] == [];
  }

  /** The next command becomes the oldest. */
  lemma NextTelling(pending: seq<PendingCmd>, since: seq<nat>, heard: seq<Frame>, kinds: seq<LineKind>)
    requires |since| == |pending| > 0
    requires forall i :: 1 <= i < |pending| ==> since[i] <= |heard| && Own(heard, since[i], |heard|, pending[i].cmdId) == []
    ensures pending[1..] != [] ==> Telling(pending[1..][0].cmdId, since[1..][0], |kinds|, kinds, heard)
    ensures forall i :: 1 <= i < |pending[1..]| ==>
      since[1..][i] <= |heard| && Own(heard, since[1..][i], |heard|, pending[1..][i].cmdId) == []
  {
    hide Own, Telling;
    if |pending| > 1 {
      FreshTelling(pending[1].cmdId, since[1], kinds, heard);
    }
  }

  lemma AbandonedTruthful(pending: seq<PendingCmd>, since: seq<nat>, closures: seq<Closure>, heard: seq<Frame>, kinds: seq<LineKind>, top: nat, k: LineKind, c: Closure)
    requires Truthful(pending, since, closures, heard, kinds, top) && pending != []
    requires k.End? && k.line == pending[0].line
    requires c == Closure(pending[0].cmdId, k.line, Marked(k.started), since[0], |heard|, top, |kinds| + 1)
    ensures Truthful(pending[1..], since[1..], closures + [c], heard, kinds + [k], |kinds| + 1)
  {
    var ks := kinds + [k];
    AllToldStay(closures, kinds, ks, heard, heard);
    NextTelling(pending, since, heard, ks);
    assert ks[top..|ks|] == kinds[top..] + [k];
    SpanMore(kinds[top..], k);
    hide HasGap, Running, EndsWith, InOrder, Own;
    assert Told(c, ks, heard);
    hide Told, Telling;
  }

  lemma EchoTruthful(pending: seq<PendingCmd>, since: seq<nat>, closures: seq<Closure>, heard: seq<Frame>, kinds: seq<LineKind>, top: nat, k: LineKind)
    requires Truthful(pending, since, closures, heard, kinds, top) && k.Echo?
    ensures Truthful(pending, since, closures, heard, kinds + [k], top)
  {
    AllToldStay(closures, kinds, kinds + [k], heard, heard);
    if pending != [] {
      assert (kinds + [k])[top..] == kinds[top..] + [k];
      SpanMore(kinds[top..], k);
    }
    hide HasGap, Running, InOrder, Own, Told;
  }

  lemma EnqueuedTruthful(pending: seq<PendingCmd>, since: seq<nat>, closures: seq<Closure>, heard: seq<Frame>, kinds: seq<LineKind>, top: nat, p: PendingCmd)
    requires Truthful(pending, since, closures, heard, kinds, top)
    ensures Truthful(pending + [p], since + [|heard|], closures, heard, kinds, if pending == [] then |kinds| else top)
  {
    assert heard[|heard|..|heard|] == [];
    assert Own(heard, |heard|, |heard|, p.cmdId) == [];
    if pending == [] {
      FreshTelling(p.cmdId, |heard|, kinds, heard);
    }
    hide Own, Told, Telling;
  }

  lemma RestartedTruthful(pending: seq<PendingCmd>, since: seq<nat>, closures: seq<Closure>, heard: seq<Frame>, kinds: seq<LineKind>, top: nat, now: nat)
    requires Truthful(pending, since, closures, heard, kinds, top)
    ensures Truthful(Restarted(pending, now), since, closures, heard, kinds, top)
  {
    hide Own, Told, Telling;
  }

  /** A frame of the front command is of none of the others. */
  lemma OthersStaySilent(pending: seq<PendingCmd>, since: seq<nat>, heard: seq<Frame>, f: Frame, from: nat)
    requires |since| == |pending|
    requires forall i :: from <= i < |pending| ==> since[i] <= |heard| && Own(heard, since[i], |heard|, pending[i].cmdId) == []
    requires forall i :: from <= i < |pending| ==> pending[i].cmdId != f.id
    ensures forall i :: from <= i < |pending| ==> since[i] <= |heard| + 1 && Own(heard + [f], since[i], |heard| + 1, pending[i].cmdId) == []
  {
    hide Own;
    forall i | from <= i < |pending| ensures Own(heard + [f], since[i], |heard| + 1, pending[i].cmdId) == [] {
      OwnMore(heard, since[i], pending[i].cmdId, f);
    }
  }

  lemma IgnoredTruthful(pending: seq<PendingCmd>, since: seq<nat>, closures: seq<Closure>, heard: seq<Frame>, kinds: seq<LineKind>, top: nat, f: Frame)
    requires Truthful(pending, since, closures, heard, kinds, top)
    requires forall p :: p in pending ==> p.cmdId != f.id
    ensures Truthful(pending, since, closures, heard + [f], kinds, top)
  {
    AllToldStay(closures, kinds, kinds, heard, heard + [f]);
    assert forall i :: 0 <= i < |pending| ==> pending[i] in pending;
    OthersStaySilent(pending, since, heard, f, 1);
    if pending != [] {
      OwnMore(heard, since[0], pending[0].cmdId, f);
      var own := Own(heard, since[0], |heard|, pending[0].cmdId);
      assert own + [] == own;
    }
    hide Own, Told, HasGap, Running, InOrder;
  }

  /** What a chunk makes of the lines of its command. */
  lemma ChunkSpan(span: seq<LineKind>, more: seq<LineKind>, want: u16, p: PendingCmd, f: Frame)
    requires Running(span) && ChunkLines(span, more, want, p, f)
    ensures HasGap(more) <==> HasGap(span) || f.chunk != want
    ensures if p.received + |f.data| > MAX_RESPONSE_BYTES then EndsWith(more, Cut(p.line))
      else if f.last && f.result != 0 then EndsWith(more, Result(f.result))
      else Running(more)
  {
    hide HasGap, Running, EndsWith;
    var start := span + GapLine(want, f);
    SpanMore(span, Gap(want, f.chunk));
    assert span + [] == span;
    if p.received + |f.data| > MAX_RESPONSE_BYTES {
      SpanMore(start, Cut(p.line));
    } else {
      var n: nat :| more == start + Texts(n) + ResultLine(f);
      SpanTexts(start, n);
      SpanMore(start + Texts(n), Result(f.result));
      assert start + Texts(n) + [] == start + Texts(n);
    }
  }

  /** The lines of one command are what was added since it became the oldest. */
  lemma ChunkLinesFrom(kinds: seq<LineKind>, ks: seq<LineKind>, top: nat, want: u16, p: PendingCmd, f: Frame)
    requires top <= |kinds| && ChunkLines(kinds, ks, want, p, f)
    ensures kinds <= ks && ChunkLines(kinds[top..], ks[top..], want, p, f)
  {
    var g := GapLine(want, f);
    if p.received + |f.data| > MAX_RESPONSE_BYTES {
      assert ks[top..] == kinds[top..] + g + [Cut(p.line)];
    } else {
      var n: nat :| ks == kinds + g + Texts(n) + ResultLine(f);
      assert ks[top..] == kinds[top..] + g + Texts(n) + ResultLine(f);
    }
  }

  lemma ChunkTelling(p: PendingCmd, since: seq<nat>, heard: seq<Frame>, kinds: seq<LineKind>, top: nat, f: Frame, ks: seq<LineKind>)
    requires since != [] && Telling(p.cmdId, since[0], top, kinds, heard) && f.kind == ShellResponse && f.id == p.cmdId
    requires LinesOfChunk(kinds, ks, heard, since, p, f)
    ensures kinds <= ks
    ensures HasGap(ks[top..]) <==> !InOrder(Own(heard + [f], since[0], |heard| + 1, p.cmdId))
    ensures if p.received + |f.data| > MAX_RESPONSE_BYTES then EndsWith(ks[top..], Cut(p.line))
      else if f.last && f.result != 0 then EndsWith(ks[top..], Result(f.result))
      else Running(ks[top..])
  {
    var own := Own(heard, since[0], |heard|, p.cmdId);
    OwnMore(heard, since[0], p.cmdId, f);
    OneMoreInOrder(own, f);
    hide HasGap, Running, EndsWith, InOrder, Own, ChunkLines;
    ChunkLinesFrom(kinds, ks, top, Expected(own), p, f);
    ChunkSpan(kinds[top..], ks[top..], Expected(own), p, f);
  }

  lemma EndedTruthful(pending: seq<PendingCmd>, since: seq<nat>, closures: seq<Closure>, heard: seq<Frame>, kinds: seq<LineKind>, top: nat, f: Frame, ks: seq<LineKind>, c: Closure)
    requires Truthful(pending, since, closures, heard, kinds, top) && pending != [] && Ends(pending[0], f)
    requires f.kind == ShellResponse && f.id == pending[0].cmdId && LinesOfChunk(kinds, ks, heard, since, pending[0], f)
    requires forall i :: 1 <= i < |pending| ==> pending[i].cmdId != f.id
    requires c == Closure(f.id, pending[0].line, c.how, since[0], |heard| + 1, top, |ks|) && !c.how.Marked?
    requires c.how.Truncated? <==> pending[0].received + |f.data| > MAX_RESPONSE_BYTES
    requires c.how.Answered? ==> c.how.result == f.result
    ensures Truthful(pending[1..], since[1..], closures + [c], heard + [f], ks, |ks|)
  {
    ChunkTelling(pending[0], since, heard, kinds, top, f, ks);
    AllToldStay(closures, kinds, ks, heard, heard + [f]);
    OthersStaySilent(pending, since, heard, f, 1);
    NextTelling(pending, since, heard + [f], ks);
    hide HasGap, Running, EndsWith, InOrder, Own, LinesOfChunk;
    assert ks[top..|ks|] == ks[top..];
    assert Told(c, ks, heard + [f]);
    hide Told, Telling;
  }

  lemma StillTelling(p: PendingCmd, since: seq<nat>, heard: seq<Frame>, kinds: seq<LineKind>, top: nat, f: Frame, ks: seq<LineKind>)
    requires since != [] && Telling(p.cmdId, since[0], top, kinds, heard) && f.kind == ShellResponse && f.id == p.cmdId
    requires LinesOfChunk(kinds, ks, heard, since, p, f) && !Ends(p, f)
    ensures Telling(f.id, since[0], top, ks, heard + [f])
  {
    ChunkTelling(p, since, heard, kinds, top, f, ks);
    hide HasGap, Running, EndsWith, InOrder, Own, LinesOfChunk;
    assert |heard + [f]| == |heard| + 1;
  }

  lemma ExtendedTruthful(pending: seq<PendingCmd>, since: seq<nat>, closures: seq<Closure>, heard: seq<Frame>, kinds: seq<LineKind>, top: nat, f: Frame, ks: seq<LineKind>)
    requires Truthful(pending, since, closures, heard, kinds, top) && pending != [] && !Ends(pending[0], f)
    requires f.kind == ShellResponse && f.id == pending[0].cmdId && LinesOfChunk(kinds, ks, heard, since, pending[0], f)
    requires forall i :: 1 <= i < |pending| ==> pending[i].cmdId != f.id
    ensures Truthful(Advanced(pending, f), since, closures, heard + [f], ks, top)
  {
    hide HasGap, Running, EndsWith, InOrder, Own, LinesOfChunk, Told;
    assert kinds <= ks by { ChunkTelling(pending[0], since, heard, kinds, top, f, ks); }
    AllToldStay(closures, kinds, ks, heard, heard + [f]);
    OthersStaySilent(pending, since, heard, f, 1);
    var next := Advanced(pending, f);
    assert |next| == |pending| && next[0].cmdId == f.id;
    assert forall i :: 1 <= i < |pending| ==> next[i] == pending[i];
    StillTelling(pending[0], since, heard, kinds, top, f, ks);
    hide Telling, Advanced;
  }

  lemma SpanInit(heard: seq<Frame>, since: nat, until: nat)
    requires since < until <= |heard|
    ensures var span := heard[since..until]; span != [] && heard[since..until - 1] == span[..|span| - 1]
  {
  }

  /** What the user can rely on: the lines of an answered command hold a gap note if and only if the
      record says that a chunk was missing. So an answer without one is complete (`AnsweredIsExact`). */
  lemma ScreenTellsGaps(c: Closure, kinds: seq<LineKind>, heard: seq<Frame>)
    requires Justified(c, heard) && Told(c, kinds, heard) && c.how.Answered?
    ensures HasGap(kinds[c.top..c.end]) <==> c.how.gap
  {
    var frames, init := heard[c.since..c.until], heard[c.since..c.until - 1];
    var own := Own(heard, c.since, c.until, c.cmdId);
    SpanInit(heard, c.since, c.until);
    FeedAllIs(ShellResponse, c.cmdId, MAX_RESPONSE_BYTES, frames);
    FeedAllIs(ShellResponse, c.cmdId, MAX_RESPONSE_BYTES, init);
    hide HasGap, InOrder, Mine, FeedAll, EndsWith, Running, Reassembled, FirstEnd, Data;
    EndIsLast(frames, init, c.cmdId, Heard(heard, c.since, c.until, c.cmdId), Heard(heard, c.since, c.until - 1, c.cmdId));
    ClosedIs(own, MAX_RESPONSE_BYTES, Heard(heard, c.since, c.until, c.cmdId));
  }

  /** A marker says that the response was incomplete, rather than missing, if and only if a chunk of it was
      heard; it goes by the next number expected, so a chunk numbered 65535 counts as none. */
  lemma MarkerTells(c: Closure, kinds: seq<LineKind>, heard: seq<Frame>)
    requires Justified(c, heard) && Told(c, kinds, heard) && c.how.Marked?
    ensures var own := Own(heard, c.since, c.until, c.cmdId);
      c.how.started <==> own != [] && own[|own| - 1].chunk != 65535
    ensures c.top < c.end && kinds[c.end - 1].End? && kinds[c.end - 1].line == c.line && kinds[c.end - 1].started == c.how.started
  {
    FeedAllIs(ShellResponse, c.cmdId, MAX_RESPONSE_BYTES, heard[c.since..c.until]);
    hide HasGap, InOrder, Mine, FeedAll, Reassembled;
    OpenIs(Own(heard, c.since, c.until, c.cmdId), MAX_RESPONSE_BYTES, Heard(heard, c.since, c.until, c.cmdId));
  }

  /** That case exists: a first chunk numbered 65535 is noted as out of order, and when the command is
      given up its marker says that there was no response. */
  lemma MarkerMisses() returns (c: Closure, kinds: seq<LineKind>, heard: seq<Frame>)
    ensures Justified(c, heard) && Told(c, kinds, heard) && c.how == Marked(false)
    ensures Own(heard, c.since, c.until, c.cmdId) != [] && HasGap(kinds[c.top..c.end])
  {
    var f := Frame(ShellResponse, 5, 0, 65535, false, [72]);
    var line := [100];
    heard, kinds := [f], [Gap(0, 65535), End(false, line, [])];
    c := Closure(5, line, Marked(false), 0, 1, 0, 2);
    assert heard[0..1] == [] + [f];
    FeedSnoc(Start, ShellResponse, 5, MAX_RESPONSE_BYTES, [], f);
    assert [f][..0] == [];
    assert Own(heard, 0, 1, 5) == Mine([], ShellResponse, 5) + [f] == [f];
    assert [f][0].chunk != 0 % WRAP;
    assert kinds[0..2] == kinds && kinds[0].Gap?;
    assert kinds[..1] == [Gap(0, 65535)];
  }

  lemma EndIsLast(frames: seq<Frame>, init: seq<Frame>, id: u16, r: Assembly, before: Assembly)
    requires frames != [] && init == frames[..|frames| - 1]
    requires Reassembled(Mine(frames, ShellResponse, id), MAX_RESPONSE_BYTES, r) && r.Closed?
    requires Reassembled(Mine(init, ShellResponse, id), MAX_RESPONSE_BYTES, before) && before.Open?
    ensures var own := Mine(frames, ShellResponse, id); own != [] && FirstEnd(own, MAX_RESPONSE_BYTES, |own| - 1)
  {
    var own, less := Mine(frames, ShellResponse, id), Mine(init, ShellResponse, id);
    OpenIs(less, MAX_RESPONSE_BYTES, before);
    var n := FirstEndExists(own, MAX_RESPONSE_BYTES);
    if own != less {
      EndsStay(less, frames[|frames| - 1], MAX_RESPONSE_BYTES);
    }
  }

  /** What a closed command's record is worth: an answer without a gap note is the device's reply,
      every chunk of it, with its result code. */
  lemma AnsweredIsExact(c: Closure, heard: seq<Frame>, sent: seq<Frame>, events: seq<Frames.Event>)
    requires Justified(c, heard) && c.how.Answered? && !c.how.gap
    requires heard[c.since..c.until] == Transmit(sent, events)
    requires WholeReply(sent, ShellResponse, c.cmdId, 0) && |sent| <= WRAP && OthersOnly(events, ShellResponse, c.cmdId)
    ensures NoneDropped(|sent|, events) && |Data(sent)| <= MAX_RESPONSE_BYTES
    ensures Heard(heard, c.since, c.until, c.cmdId).data == Data(sent)
    ensures c.how.result == sent[|sent| - 1].result
  {
    UnflaggedIffAllArrived(sent, events, ShellResponse, c.cmdId, MAX_RESPONSE_BYTES);
  }
}
