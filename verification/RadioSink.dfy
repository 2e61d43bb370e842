/** The node's remote-shell writer: a reply of any length leaves as confirmed radio chunks through one
    chunk-sized buffer. The first chunk that is not acknowledged cuts the reply. */
module RadioSink {
  import opened Basics
  import opened Utf8
  import opened Frames

  /** Text bytes per radio chunk. */
  const CHUNK := 56

  /** A frame on the air: whether its ACK came back, and whether it reached the host. An ACK can be
      lost after the frame got through, so neither implies the other here. */
  datatype Sent = Sent(frame: Frame, delivered: bool, atHost: bool)

  /** What a transmission attempt turns out to be. */
  datatype Outcome = NotEncoded | OnAir(delivered: bool, atHost: bool)

  /** What the world does to the attempts of one reply, in their order. */
  type Radio = nat -> Outcome

  predicate Acked(o: Outcome) {
    o.OnAir? && o.delivered
  }

  /** The air is what the radio made of `tries` attempts: every encoded attempt put its frame up with
      the fate the world gave it, all but the last were acknowledged, and `ok` says if the last was. */
  predicate Tried(air: seq<Sent>, radio: Radio, tries: nat, ok: bool) {
    && (forall i :: 0 <= i < |air| ==> radio(i) == OnAir(air[i].delivered, air[i].atHost))
    && (forall i :: 0 <= i < tries - 1 ==> Acked(radio(i)))
    && |air| == (if tries > 0 && radio(tries - 1).NotEncoded? then tries - 1 else tries)
    && (ok <==> tries == 0 || Acked(radio(tries - 1)))
  }

  lemma TriedMore(air: seq<Sent>, radio: Radio, tries: nat, f: Frame)
    requires Tried(air, radio, tries, true)
    ensures match radio(tries)
      case NotEncoded => Tried(air, radio, tries + 1, false)
      case OnAir(acked, atHost) => Tried(air + [Sent(f, acked, atHost)], radio, tries + 1, acked)
  {
  }

  function FramesOf(air: seq<Sent>): (fs: seq<Frame>)
    ensures |fs| == |air|
    ensures forall i :: 0 <= i < |air| ==> fs[i] == air[i].frame
  {
    seq(|air|, i requires 0 <= i < |air| => air[i].frame)
  }

  function Text(air: seq<Sent>): bytes {
    Data(FramesOf(air))
  }

  lemma TextSnoc(air: seq<Sent>, s: Sent)
    ensures Text(air + [s]) == Text(air) + s.frame.data
  {
    assert FramesOf(air + [s]) == FramesOf(air) + [s.frame];
    DataSnoc(FramesOf(air), s.frame);
  }

  /** A chunk in the middle of a reply: whole characters, no room wasted but for a character that
      did not fit. */
  predicate MiddleChunk(f: Frame) {
    !f.last && f.result == 0 && Utf8.Valid(f.data) && CHUNK - 3 <= |f.data| <= CHUNK
  }

  predicate FinalChunk(f: Frame) {
    f.last && Utf8.Valid(f.data) && |f.data| <= CHUNK
  }

  /** The air so far of a reply numbered from `first`: only the final entry may be unacknowledged,
      and only it may be the final chunk. */
  predicate ReplyOnAir(air: seq<Sent>, id: u16, first: nat) {
    && Numbered(FramesOf(air), ShellResponse, id, first)
    && (forall i :: 0 <= i < |air| - 1 ==> air[i].delivered && MiddleChunk(air[i].frame))
    && (air != [] ==> MiddleChunk(air[|air| - 1].frame) || FinalChunk(air[|air| - 1].frame))
  }

  predicate AllDelivered(air: seq<Sent>) {
    forall i :: 0 <= i < |air| ==> air[i].delivered
  }

  predicate AllMiddle(air: seq<Sent>) {
    forall i :: 0 <= i < |air| ==> MiddleChunk(air[i].frame)
  }

  /** Where the reply was cut: the number of the first chunk that was not delivered. */
  predicate CutAt(air: seq<Sent>, first: nat, lost: u16) {
    || (air != [] && AllDelivered(air[..|air| - 1]) && !air[|air| - 1].delivered && lost == (first + |air| - 1) % WRAP)
    || (AllDelivered(air) && AllMiddle(air) && lost == (first + |air|) % WRAP)
  }

  lemma Longer(a: bytes, b: bytes, c: bytes)
    requires a <= b
    ensures a <= b + c
  {
  }

  /** One more frame on the air behind delivered middle chunks. */
  lemma OneMore(air: seq<Sent>, s: Sent, id: u16, first: nat)
    requires ReplyOnAir(air, id, first) && AllMiddle(air) && AllDelivered(air)
    requires s.frame.kind == ShellResponse && s.frame.id == id && s.frame.chunk == (first + |air|) % WRAP
    requires MiddleChunk(s.frame) || FinalChunk(s.frame)
    ensures ReplyOnAir(air + [s], id, first)
    ensures Text(air + [s]) == Text(air) + s.frame.data
    ensures (air + [s])[..|air|] == air
    ensures s.delivered ==> AllDelivered(air + [s])
  {
    TextSnoc(air, s);
    assert FramesOf(air + [s]) == FramesOf(air) + [s.frame];
  }

  lemma ChunkKind(f: Frame)
    requires Utf8.Valid(f.data) && |f.data| <= CHUNK
    ensures f.last ==> FinalChunk(f)
    ensures !f.last && f.result == 0 && CHUNK - 3 <= |f.data| ==> MiddleChunk(f)
  {
  }

  /** A reply that stops here is cut at the next number, whether or not the frame got up. */
  lemma CutHere(air: seq<Sent>, f: Frame, first: nat)
    requires AllDelivered(air) && AllMiddle(air)
    ensures CutAt(air, first, (first + |air|) % WRAP)
    ensures forall atHost :: CutAt(air + [Sent(f, false, atHost)], first, (first + |air|) % WRAP)
    ensures MiddleChunk(f) ==> forall acked, atHost :: AllMiddle(air + [Sent(f, acked, atHost)])
    ensures AllDelivered([]) && Utf8.Valid([])
  {
    forall atHost ensures CutAt(air + [Sent(f, false, atHost)], first, (first + |air|) % WRAP) {
      var more := air + [Sent(f, false, atHost)];
      assert more[..|more| - 1] == air;
    }
  }

  class RadioSink {
    const cmdId: u16
    const radio: Radio
    var chunk: u16
    var buf: bytes
    var ok: bool
    var lost: Option<u16>
    var air: seq<Sent>
    /** Attempts so far. */
    var tries: nat
    /** The number of the first chunk. */
    ghost var first: u16
    /** All the text offered so far, sent or not. */
    ghost var offered: bytes

    ghost predicate Valid()
      reads this
    {
      && ReplyOnAir(air, cmdId, first) && AllMiddle(air) && Tried(air, radio, tries, ok)
      && Utf8.Valid(buf) && |buf| <= CHUNK
      && (ok <==> lost == None)
      && (ok ==> AllDelivered(air) && chunk == (first + |air|) % WRAP && Text(air) + buf == offered)
      && (!ok ==> CutAt(air, first, lost.value) && Text(air) <= offered)
    }

    constructor (cmdId: u16, first: u16, radio: Radio)
      ensures Valid() && ok && air == [] && buf == [] && offered == [] && chunk == first
      ensures this.cmdId == cmdId && this.first == first && this.radio == radio
    {
      this.cmdId := cmdId;
      this.radio := radio;
      tries := 0;
      this.first := first;
      chunk, buf, ok, lost, air, offered := first, [], true, None, [], [];
    }

    /** Transmit the buffer as one chunk: an encoded attempt puts exactly this frame on the air, and the
        sink goes on if and only if it is acknowledged. */
    method Flush(last: bool, result: u8) returns (delivered: bool)
      requires Valid() && ok
      requires last || CHUNK - 3 <= |buf|
      requires !last ==> result == 0
      modifies this
      ensures first == old(first) && offered == old(offered)
      ensures delivered <==> ok
      ensures !last ==> Valid() && (ok ==> buf == [] && |air| == |old(air)| + 1)
      ensures ok <==> lost == None
      ensures ReplyOnAir(air, cmdId, first)
      ensures tries == old(tries) + 1 && Tried(air, radio, tries, ok)
      ensures match radio(old(tries))
        case NotEncoded => air == old(air)
        case OnAir(acked, atHost) =>
          air == old(air) + [Sent(Frame(ShellResponse, cmdId, result, old(chunk), last, old(buf)), acked, atHost)]
      ensures ok <==> Acked(radio(old(tries)))
      ensures !ok ==> lost == Some(old(chunk))
      ensures ok ==> AllDelivered(air) && |air| == |old(air)| + 1 && Text(air) == offered
      ensures !ok ==> CutAt(air, first, lost.value) && Text(air) <= offered
      ensures !ok && air != old(air) ==> Text(air) == offered
    {
      var f := Frame(ShellResponse, cmdId, result, chunk, last, buf);
      hide Tried, Acked, ReplyOnAir, AllMiddle, AllDelivered, CutAt, Text, Numbered, MiddleChunk, FinalChunk, Utf8.Valid;
      ChunkKind(f);
      TriedMore(air, radio, tries, f);
      CutHere(air, f, first);
      Longer(Text(air), Text(air), buf);
      var outcome := radio(tries);
      if outcome.OnAir? {
        OneMore(air, Sent(f, outcome.delivered, outcome.atHost), cmdId, first);
      }
      tries := tries + 1;
      match outcome
      case NotEncoded =>
        ok := false;
        lost := Some(chunk);
        delivered := false;
      case OnAir(acked, atHost) =>
        air := air + [Sent(f, acked, atHost)];
        buf := [];
        chunk := Next(chunk);
        if !acked {
          ok := false;
          lost := Some(if chunk == 0 then WRAP - 1 else chunk - 1);
        }
        delivered := acked;
    }

    /** Put a piece that fits behind the buffered text; a full buffer goes out. */
    method Fill(piece: bytes)
      requires Valid() && ok && piece != []
      requires Utf8.Valid(piece) && |buf| + |piece| <= CHUNK
      modifies this
      ensures Valid() && first == old(first) && old(air) <= air
      ensures offered == old(offered) + piece
      ensures |old(buf)| + |piece| < CHUNK ==> ok && air == old(air) && tries == old(tries) && buf == old(buf) + piece && chunk == old(chunk)
    {
      ConcatValid(buf, piece);
      Associate(Text(air), buf, piece);
      hide Tried, Acked, ReplyOnAir, AllMiddle, AllDelivered, CutAt, Text, Utf8.Valid;
      buf := buf + piece;
      offered := offered + piece;
      if |buf| == CHUNK {
        var _ := Flush(false, 0);
      }
    }

    /** One turn of the push loop: take what fits, up to a character boundary, or make room. */
    method PushSome(rest: bytes) returns (left: bytes)
      requires Valid() && ok && Utf8.Valid(rest) && rest != []
      modifies this
      ensures Valid() && Utf8.Valid(left)
      ensures first == old(first) && old(air) <= air
      ensures offered + left == old(offered) + rest
      ensures ok ==> |left| < |rest| || (left == rest && |buf| < |old(buf)|)
      ensures |old(buf)| + |rest| < CHUNK ==>
        ok && left == [] && air == old(air) && tries == old(tries) && buf == old(buf) + rest && chunk == old(chunk)
    {
      var space := CHUNK - |buf|;
      var limit := if |rest| < space then |rest| else space;
      var take := StepDown(rest, limit);
      SplitAtFloor(rest, limit);
      assert |buf| + |rest| < CHUNK ==> take == |rest| && rest[..take] == rest;
      if take == 0 {
        var _ := Flush(false, 0);
        left := rest;
      } else {
        Regroup(offered + rest, offered, rest, take);
        Fill(rest[..take]);
        left := rest[take..];
      }
    }

    /** The loop ends because a flush empties the buffer, and an empty buffer always takes at least
        one character. */
    method Push(text: bytes) returns (sent: bool)
      requires Valid() && Utf8.Valid(text)
      modifies this
      ensures Valid() && first == old(first)
      ensures sent <==> ok
      ensures offered == old(offered) + text
      ensures old(air) <= air
      ensures !old(ok) ==> air == old(air) && lost == old(lost) && !ok
      ensures old(ok) && |old(buf)| + |text| < CHUNK ==>
        ok && air == old(air) && tries == old(tries) && buf == old(buf) + text && chunk == old(chunk)
    {
      hide Tried, Acked;
      ghost var whole := offered + text;
      if !ok {
        Longer(Text(air), offered, text);
        offered := whole;
        return false;
      }
      var rest := text;
      while rest != []
        invariant Valid() && ok && Utf8.Valid(rest)
        invariant offered + rest == whole
        invariant first == old(first) && old(air) <= air
        invariant |old(buf)| + |text| < CHUNK ==> air == old(air) && tries == old(tries) && buf + rest == old(buf) + text && chunk == old(chunk)
        decreases |rest|, |buf|
      {
        rest := PushSome(rest);
        if !ok {
          Longer(Text(air), offered, rest);
          offered := whole;
          return false;
        }
      }
      assert offered + [] == offered;
      return true;
    }

    /** The final frame, carrying the rest of the text and the result. */
    method Done(result: u8) returns (sent: bool)
      requires Valid()
      modifies this
      ensures first == old(first) && offered == old(offered)
      ensures sent <==> ok
      ensures ok <==> lost == None
      ensures ReplyOnAir(air, cmdId, first)
      ensures ok ==> AllDelivered(air) && Finished(air, offered, result)
      ensures !ok ==> CutAt(air, first, lost.value) && Text(air) <= offered
      ensures air != [] && air[|air| - 1].frame.last ==> Finished(air, offered, result)
      ensures old(ok) && old(air) == [] ==>
        match radio(old(tries))
        case NotEncoded => air == []
        case OnAir(acked, atHost) => air == [Sent(Frame(ShellResponse, cmdId, result, old(chunk), true, old(buf)), acked, atHost)]
      ensures Tried(air, radio, tries, ok)
    {
      if !ok {
        return false;
      }
      sent := Flush(true, result);
    }
  }

  /** The reply on the air is complete: its final chunk is there, with the result, and the chunks
      hold exactly `text`. */
  predicate Finished(air: seq<Sent>, text: bytes, result: u8) {
    && air != []
    && FinalChunk(air[|air| - 1].frame)
    && air[|air| - 1].frame.result == result
    && Text(air) == text
  }

  /** A finished reply is a whole reply in the reader's sense. */
  lemma FinishedIsWhole(air: seq<Sent>, id: u16, first: nat, text: bytes, result: u8)
    requires ReplyOnAir(air, id, first) && Finished(air, text, result)
    ensures WholeReply(FramesOf(air), ShellResponse, id, first)
    ensures Data(FramesOf(air)) == text && FramesOf(air)[|air| - 1].result == result
  {
  }

  /** Chunks in the middle are nearly full, so a text of `n` bytes needs at most `n / 53 + 1`
      chunks: a bound on the text is a bound on the chunk numbers. */
  lemma {:induction false} ChunkCount(air: seq<Sent>, id: u16, first: nat)
    requires ReplyOnAir(air, id, first)
    ensures air != [] ==> (|air| - 1) * (CHUNK - 3) <= |Text(air)|
    decreases |air|
  {
    if air != [] {
      var init, s := air[..|air| - 1], air[|air| - 1];
      assert air == init + [s];
      TextSnoc(init, s);
      if init != [] {
        assert ReplyOnAir(init, id, first) by {
          assert forall i :: 0 <= i < |init| ==> FramesOf(init)[i] == FramesOf(air)[i];
          assert MiddleChunk(air[|init| - 1].frame);
        }
        MiddleTextLength(init);
      }
    }
  }

  lemma {:induction false} MiddleTextLength(air: seq<Sent>)
    requires AllMiddle(air)
    ensures |air| * (CHUNK - 3) <= |Text(air)|
    decreases |air|
  {
    if air != [] {
      var init, s := air[..|air| - 1], air[|air| - 1];
      assert air == init + [s];
      TextSnoc(init, s);
      MiddleTextLength(init);
      assert MiddleChunk(s.frame);
    }
  }

}
