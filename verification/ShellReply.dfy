/** Shell replies over the console: the firmware's console sink and the host's capped reader. */
module ShellReply {
  import opened Basics
  import opened Utf8
  import opened Frames

  /** Text bytes per console frame. */
  const SHELL_CHUNK := 192
  const R_OK: u8 := 0

  function ShellFrame(cmdId: u16, result: u8, chunk: u16, last: bool, text: bytes): (f: Frame) {
    Frame(ShellResponse, cmdId, result, chunk, last, text)
  }

  /** A piece of text of at most `size` bytes, whole characters only. */
  predicate TextChunk(text: bytes, size: nat) {
    |text| <= size && Valid(text)
  }

  /** The console transport of a shell reply: every pushed piece goes out at once. */
  class ConsoleSink {
    const cmdId: u16
    var chunk: u16
    var out: seq<Frame>
    ghost var pushed: bytes

    ghost predicate Valid()
      reads this
    {
      && Numbered(out, ShellResponse, cmdId, 0)
      && chunk == |out| % WRAP
      && (forall i :: 0 <= i < |out| ==> !out[i].last && TextChunk(out[i].data, SHELL_CHUNK))
      && Data(out) == pushed
    }

    constructor (cmdId: u16)
      ensures Valid() && this.cmdId == cmdId && out == [] && pushed == []
    {
      this.cmdId := cmdId;
      chunk, out, pushed := 0, [], [];
    }

    method Emit(piece: bytes)
      requires Valid() && TextChunk(piece, SHELL_CHUNK)
      modifies this
      ensures Valid()
      ensures pushed == old(pushed) + piece && old(out) <= out
    {
      var f := ShellFrame(cmdId, R_OK, chunk, false, piece);
      DataSnoc(out, f);
      out := out + [f];
      chunk := Next(chunk);
      pushed := pushed + piece;
    }

    /** Splits at character boundaries; every turn of the loop takes at least one character. */
    method Push(text: bytes)
      requires Valid() && Utf8.Valid(text)
      modifies this
      ensures Valid()
      ensures pushed == old(pushed) + text && old(out) <= out
    {
      var rest := text;
      while rest != []
        invariant Valid() && Utf8.Valid(rest)
        invariant pushed + rest == old(pushed) + text && old(out) <= out
        decreases |rest|
      {
        var limit := if |rest| < SHELL_CHUNK then |rest| else SHELL_CHUNK;
        var take := StepDown(rest, limit);
        SplitAtFloor(rest, limit);
        Regroup(old(pushed) + text, pushed, rest, take);
        Emit(rest[..take]);
        rest := rest[take..];
      }
    }

    method Done(result: u8)
      requires Valid()
      modifies this
      ensures WholeReply(out, ShellResponse, cmdId, 0)
      ensures Data(out) == old(pushed) && out[|out| - 1].result == result
      ensures forall i :: 0 <= i < |out| ==> TextChunk(out[i].data, SHELL_CHUNK)
    {
      var f := ShellFrame(cmdId, result, chunk, true, []);
      DataSnoc(out, f);
      out := out + [f];
    }
  }

  datatype Outcome = Response(result: u8, text: bytes, incomplete: bool) | Timeout

  function AsOutcome(a: Assembly): (o: Outcome) {
    if a.Closed? then Response(a.result, a.data, a.gap) else Timeout
  }

  function Assembled(cmdId: u16, frames: seq<Frame>): (a: Assembly) {
    FeedAll(Start, ShellResponse, cmdId, MAX_RESPONSE_BYTES, frames)
  }

  /** The reader's loop over the frames its decoder yields before the idle deadline. */
  method ReadResponse(cmdId: u16, frames: seq<Frame>) returns (o: Outcome)
    ensures o == AsOutcome(Assembled(cmdId, frames))
    ensures o.Response? ==> |o.text| <= MAX_RESPONSE_BYTES
  {
    var text: bytes := [];
    var nextChunk: u16 := 0;
    var incomplete := false;
    assert frames[0..] == frames;
    for k := 0 to |frames|
      invariant FeedAll(Open(nextChunk, text, incomplete), ShellResponse, cmdId, MAX_RESPONSE_BYTES, frames[k..])
        == Assembled(cmdId, frames)
      invariant |text| <= MAX_RESPONSE_BYTES
    {
      var r := frames[k];
      assert frames[k..] == [r] + frames[k + 1..];
      FeedFirst(Open(nextChunk, text, incomplete), ShellResponse, cmdId, MAX_RESPONSE_BYTES, r, frames[k + 1..]);
      if r.kind != ShellResponse || r.id != cmdId {
        continue;
      }
      if r.chunk != nextChunk {
        incomplete := true;
      }
      nextChunk := Next(r.chunk);
      if |text| + |r.data| > MAX_RESPONSE_BYTES {
        ClosedStays(Closed(r.result, text, true), ShellResponse, cmdId, MAX_RESPONSE_BYTES, frames[k + 1..]);
        return Response(r.result, text, true);
      }
      text := text + r.data;
      if r.last {
        ClosedStays(Closed(r.result, text, incomplete), ShellResponse, cmdId, MAX_RESPONSE_BYTES, frames[k + 1..]);
        return Response(r.result, text, incomplete);
      }
    }
    assert frames[|frames|..] == [];
    return Timeout;
  }

  /** End to end over a console that drops frames: the reader vouches for a text (not incomplete)
      exactly when every frame of the reply came through and the text fits the cap, and then the
      text and the result are the device's own. */
  lemma ReplyIsExactOrIncomplete(sent: seq<Frame>, events: seq<Event>, cmdId: u16, text: bytes, result: u8)
    requires WholeReply(sent, ShellResponse, cmdId, 0) && |sent| <= WRAP
    requires Data(sent) == text && sent[|sent| - 1].result == result
    requires OthersOnly(events, ShellResponse, cmdId)
    ensures var o := AsOutcome(Assembled(cmdId, Transmit(sent, events)));
      && (o.Response? && !o.incomplete ==> o == Response(result, text, false))
      && (o.Response? && !o.incomplete <==> NoneDropped(|sent|, events) && |text| <= MAX_RESPONSE_BYTES)
      && (o.Response? ==> |o.text| <= MAX_RESPONSE_BYTES)
  {
    UnflaggedIffAllArrived(sent, events, ShellResponse, cmdId, MAX_RESPONSE_BYTES);
    DataWithinCap(Start, ShellResponse, cmdId, MAX_RESPONSE_BYTES, Transmit(sent, events));
  }

}
