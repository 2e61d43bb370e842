/** The node's remote shell: at-least-once downlinks, one remembered command, and the chunks it puts on
    the air for a run and for a repeat. */
module RemoteShell {
  import opened Basics
  import opened Utf8
  import opened Frames
  import opened RadioSink

  // ---- the remembered command ------------------------------------------------------

  /** `LAST_REMOTE_CMD`: bit 24 = valid, bits 23..16 = result, bits 15..0 = cmd_id. The fields do not
      overlap, so the word is their sum. */
  function Pack(result: u8, cmd: u16): (w: u32)
    ensures w < 0x0200_0000
  {
    0x0100_0000 + result * 0x1_0000 + cmd
  }

  predicate WordValid(w: u32) { (w / 0x0100_0000) % 2 == 1 }
  function WordCmd(w: u32): u16 { w % 0x1_0000 }
  function WordResult(w: u32): u8 { (w / 0x1_0000) % 0x100 }

  lemma UnpackPack(result: u8, cmd: u16)
    ensures WordValid(Pack(result, cmd)) && !WordValid(0)
    ensures WordCmd(Pack(result, cmd)) == cmd
    ensures WordResult(Pack(result, cmd)) == result
  {
  }

  // ---- what goes on the air for one delivered command --------------------------------

  /** The text that explains a reply cut short: 50 bytes, one chunk. */
  function Note(): bytes {
    Ascii("(reply lost on the air: ran once, not run again)\r\n")
  }

  const NOTE_BYTES := 50

  /** The air of a first execution, of any length: chunk numbers wrap. `lost` is 0 when every chunk was
      acknowledged, else the number of the cut chunk plus one. */
  predicate RunAir(air: seq<Sent>, id: u16, text: bytes, result: u8, lost: nat) {
    && ReplyOnAir(air, id, 0) && Text(air) <= text
    && (air != [] && air[|air| - 1].frame.last ==> Finished(air, text, result))
    && (lost == 0 ==> AllDelivered(air) && Finished(air, text, result))
    && (lost > 0 ==> lost <= WRAP && CutAt(air, 0, lost - 1))
  }

  /** The air of a repeat: one final frame at most, empty when the reply all went up, else the note
      numbered past the lost chunk and past the one after it. */
  predicate RepeatAir(air: seq<Sent>, id: u16, result: u8, lost: nat) {
    || air == []
    || (|air| == 1 && air[0].frame ==
        if lost == 0 then Frame(ShellResponse, id, result, 0, true, [])
        else Frame(ShellResponse, id, result, (lost + 1) % WRAP, true, Note()))
  }

  datatype Memory = Nothing | Last(epoch: u32, cmd: u16, result: u8, lost: nat)

  /** One delivered command and its air. */
  datatype Exchange =
    | Run(epoch: u32, cmd: u16, text: bytes, result: u8, lost: nat, air: seq<Sent>)
    | Repeat(epoch: u32, cmd: u16, air: seq<Sent>)

  predicate Remembers(m: Memory, epoch: u32, cmd: u16) {
    m.Last? && m.epoch == epoch && m.cmd == cmd
  }

  function After(m: Memory, e: Exchange): Memory {
    if e.Run? then Last(e.epoch, e.cmd, e.result, e.lost) else m
  }

  predicate Fits(m: Memory, e: Exchange) {
    if e.Run? then !Remembers(m, e.epoch, e.cmd) && RunAir(e.air, e.cmd, e.text, e.result, e.lost)
    else Remembers(m, e.epoch, e.cmd) && RepeatAir(e.air, e.cmd, m.result, m.lost)
  }

  /** A boot's exchanges follow the dedup rule. */
  predicate Legal(m: Memory, log: seq<Exchange>)
    decreases |log|
  {
    log == [] || (Fits(m, log[0]) && Legal(After(m, log[0]), log[1..]))
  }

  function MemoryAfter(m: Memory, log: seq<Exchange>): Memory
    decreases |log|
  {
    if log == [] then m else MemoryAfter(After(m, log[0]), log[1..])
  }

  lemma {:induction false} LegalSnoc(m: Memory, log: seq<Exchange>, e: Exchange)
    requires Legal(m, log) && Fits(MemoryAfter(m, log), e)
    ensures Legal(m, log + [e]) && MemoryAfter(m, log + [e]) == After(MemoryAfter(m, log), e)
    decreases |log|
  {
    hide Fits;
    if log == [] {
      assert log + [e] == [e] && [e][1..] == [];
    } else {
      LegalSnoc(After(m, log[0]), log[1..], e);
      assert (log + [e])[1..] == log[1..] + [e];
    }
  }

  /** A freshly booted node. */
  lemma NothingYet()
    ensures !WordValid(0) && Legal(Nothing, []) && MemoryAfter(Nothing, []) == Nothing
  {
    hide Fits;
  }

  // ---- the node --------------------------------------------------------------------

  /** The three statics and the dispatch of a received shell command. */
  class Node {
    var lastCmd: u32
    var lastEpoch: u32
    var lastLost: nat
    /** Every exchange since boot. */
    ghost var log: seq<Exchange>

    /** What the statics say. */
    function Memory(): Memory
      reads this
    {
      if WordValid(lastCmd) then Last(lastEpoch, WordCmd(lastCmd), WordResult(lastCmd), lastLost) else Nothing
    }

    ghost predicate Valid()
      reads this
    {
      && Legal(Nothing, log)
      && Memory() == MemoryAfter(Nothing, log)
      && lastLost <= WRAP
    }

    constructor ()
      ensures Valid() && log == [] && Memory() == Nothing
    {
      hide WordValid, WordCmd, WordResult, Fits, Legal, MemoryAfter;
      lastCmd, lastEpoch, lastLost, log := 0, 0, 0, [];
      new;
      NothingYet();
    }

    /** Run a command (`pieces` is what the dispatcher emits, `result` what it returns) or answer a
        repeat of the remembered one without running it. */
    method OnShell(epoch: u32, cmd: u16, pieces: seq<bytes>, result: u8, radio: Radio) returns (ran: bool)
      requires Valid()
      requires forall p :: p in pieces ==> Utf8.Valid(p)
      modifies this
      ensures Valid()
      ensures ran <==> !Remembers(old(Memory()), epoch, cmd)
      ensures |log| == |old(log)| + 1 && log[..|old(log)|] == old(log) && Fits(old(Memory()), log[|old(log)|])
      ensures ran ==> log[|old(log)|].Run? && log[|old(log)|].text == Joined(pieces) && log[|old(log)|].result == result
      ensures ran ==> Memory() == Last(epoch, cmd, result, log[|old(log)|].lost)
      ensures ran ==> log[|old(log)|].epoch == epoch && log[|old(log)|].cmd == cmd
      ensures !ran ==> log[|old(log)|] == Repeat(epoch, cmd, log[|old(log)|].air) && Memory() == old(Memory())
      // The radio alone decides how much of it gets up and what the node remembers as lost.
      ensures ran ==> Streamed(log[|old(log)|].air, radio, log[|old(log)|].lost == 0)
      ensures !ran ==> OneTry(log[|old(log)|].air, radio)
    {
      hide RunAir, RepeatAir, Tried, OneTry;
      ghost var before := log;
      if WordValid(lastCmd) && WordCmd(lastCmd) == cmd && lastEpoch == epoch {
        var air := AnswerRepeat(cmd, WordResult(lastCmd), lastLost, radio);
        ghost var e := Repeat(epoch, cmd, air);
        assert Fits(Memory(), e);
        LegalSnoc(Nothing, before, e);
        log := log + [e];
        return false;
      }
      var air, lost, tries := Stream(cmd, pieces, result, radio);
      assert Streamed(air, radio, lost == 0);
      ghost var e := Run(epoch, cmd, Joined(pieces), result, lost, air);
      assert Fits(Memory(), e);
      LegalSnoc(Nothing, before, e);
      lastEpoch := epoch;
      lastLost := lost;
      lastCmd := Pack(result, cmd);
      UnpackPack(result, cmd);
      log := log + [e];
      return true;
    }
  }

  lemma JoinedPrefix(pieces: seq<bytes>, k: nat)
    requires k < |pieces|
    ensures Joined(pieces[..k + 1]) == Joined(pieces[..k]) + pieces[k]
  {
    assert pieces[..k + 1][..k] == pieces[..k];
  }

  lemma {:induction false} JoinedGrows(pieces: seq<bytes>, k: nat)
    requires k <= |pieces|
    ensures Joined(pieces[..k]) <= Joined(pieces)
    decreases |pieces| - k
  {
    if k == |pieces| {
      assert pieces[..k] == pieces;
    } else {
      JoinedPrefix(pieces, k);
      JoinedGrows(pieces, k + 1);
    }
  }

  /** One attempt: its frame is up if and only if it was encoded, with the fate the radio gave it. */
  predicate OneTry(air: seq<Sent>, radio: Radio) {
    match radio(0)
    case NotEncoded => air == []
    case OnAir(acked, atHost) => |air| == 1 && air[0].delivered == acked && air[0].atHost == atHost
  }

  ghost predicate Streamed(air: seq<Sent>, radio: Radio, whole: bool) {
    exists tries: nat :: Tried(air, radio, tries, whole)
  }

  /** First execution: stream the pieces until one is refused, then close the reply. Nothing is lost if
      every attempt is acknowledged; else the first one that is not ends the air. */
  method Stream(cmd: u16, pieces: seq<bytes>, result: u8, radio: Radio) returns (air: seq<Sent>, lost: nat, ghost tries: nat)
    requires forall p :: p in pieces ==> Utf8.Valid(p)
    ensures Tried(air, radio, tries, lost == 0)
    ensures (forall i :: Acked(radio(i))) ==> lost == 0 && AllDelivered(air) && Finished(air, Joined(pieces), result)
    ensures RunAir(air, cmd, Joined(pieces), result, lost)
    ensures lost <= WRAP
  {
    hide Text, ReplyOnAir, CutAt, Tried, Acked;
    var sink := new RadioSink(cmd, 0, radio);
    var k := 0;
    var going := true;
    while going && k < |pieces|
      invariant 0 <= k <= |pieces|
      invariant sink.Valid() && fresh(sink) && sink.first == 0 && sink.cmdId == cmd && sink.radio == radio
      invariant sink.offered == Joined(pieces[..k])
      invariant going <==> sink.ok
    {
      JoinedPrefix(pieces, k);
      going := sink.Push(pieces[k]);
      k := k + 1;
    }
    if going {
      assert pieces[..k] == pieces;
      var _ := sink.Done(result);
    }
    JoinedGrows(pieces, k);
    assert Text(sink.air) <= Joined(pieces);
    air, tries := sink.air, sink.tries;
    Perfect(air, radio, tries, sink.ok);
    match sink.lost
    case None =>
      lost := 0;
    case Some(c) =>
      lost := c + 1;
  }

  lemma Perfect(air: seq<Sent>, radio: Radio, tries: nat, ok: bool)
    requires Tried(air, radio, tries, ok)
    ensures (forall i :: Acked(radio(i))) ==> ok
  {
  }

  lemma NoteIsOneChunk()
    ensures |Note()| == NOTE_BYTES < CHUNK && Utf8.Valid(Note())
  {
    AsciiValid(Note());
  }

  lemma {:induction false} AsciiValid(s: bytes)
    requires forall i :: 0 <= i < |s| ==> s[i] < 0x80
    ensures Utf8.Valid(s)
  {
    if s != [] {
      AsciiValid(s[1..]);
    }
  }

  /** One final frame, as far as the radio lets it. */
  predicate OneFinal(air: seq<Sent>, radio: Radio, cmd: u16, result: u8, number: u16, text: bytes) {
    match radio(0)
    case NotEncoded => air == []
    case OnAir(acked, atHost) => air == [Sent(Frame(ShellResponse, cmd, result, number, true, text), acked, atHost)]
  }

  method CloseEmpty(cmd: u16, result: u8, radio: Radio) returns (air: seq<Sent>)
    ensures OneFinal(air, radio, cmd, result, 0, [])
  {
    hide Tried, Acked, ReplyOnAir, AllMiddle, AllDelivered, CutAt, Text, Finished, Utf8.Valid;
    var sink := new RadioSink(cmd, 0, radio);
    var _ := sink.Done(result);
    return sink.air;
  }

  /** A short text and the result, in one frame. */
  method CloseWith(cmd: u16, result: u8, number: u16, text: bytes, radio: Radio) returns (air: seq<Sent>)
    requires Utf8.Valid(text) && |text| < CHUNK
    ensures OneFinal(air, radio, cmd, result, number, text)
  {
    hide Tried, Acked, ReplyOnAir, AllMiddle, AllDelivered, CutAt, Text, Finished, Utf8.Valid;
    var sink := new RadioSink(cmd, number, radio);
    var _ := sink.Push(text);
    assert sink.buf == [] + text && [] + text == text && sink.air == [];
    var _ := sink.Done(result);
    return sink.air;
  }

  /** A repeat: close the protocol again with the cached result. */
  method AnswerRepeat(cmd: u16, result: u8, lost: nat, radio: Radio) returns (air: seq<Sent>)
    requires lost <= WRAP
    ensures OneTry(air, radio)
    ensures RepeatAir(air, cmd, result, lost)
  {
    hide OneTry, RepeatAir, OneFinal, Note;
    if lost == 0 {
      air := CloseEmpty(cmd, result, radio);
      EmptyIsRepeat(air, radio, cmd, result);
      return;
    }
    NoteIsOneChunk();
    var number := Next(lost % WRAP);
    air := CloseWith(cmd, result, number, Note(), radio);
    NoteIsRepeat(air, radio, cmd, result, lost);
  }

  lemma EmptyIsRepeat(air: seq<Sent>, radio: Radio, cmd: u16, result: u8)
    requires OneFinal(air, radio, cmd, result, 0, [])
    ensures OneTry(air, radio) && RepeatAir(air, cmd, result, 0)
  {
    hide Note;
  }

  lemma NoteIsRepeat(air: seq<Sent>, radio: Radio, cmd: u16, result: u8, lost: nat)
    requires 0 < lost <= WRAP && OneFinal(air, radio, cmd, result, Next(lost % WRAP), Note())
    ensures OneTry(air, radio) && RepeatAir(air, cmd, result, lost)
  {
    hide Note;
  }

}
