/** Management replies: the gateway's chunked writer, the host's reader, and the record stream the
    chunks carry. */
module MgmtReply {
  import opened Basics
  import opened Frames

  const MGMT_OK: u8 := 0
  const BUF := 128


  function MgmtFrame(reqId: u16, result: u8, chunk: u16, last: bool, data: bytes): (f: Frame) {
    Frame(MgmtResponse, reqId, result, chunk, last, data)
  }

  /** The gateway's chunked response: record bytes collect in a fixed buffer and leave as frames. */
  class ChunkStream {
    const reqId: u16
    var chunk: u16
    var len: nat
    const buf: array<byte>
    /** The frames handed to the console so far. */
    var out: seq<Frame>
    /** Everything pushed so far. */
    ghost var pushed: bytes

    ghost predicate Valid()
      reads this, buf
    {
      && buf.Length == BUF && len <= BUF
      && Numbered(out, MgmtResponse, reqId, 0)
      && chunk == |out| % WRAP
      && (forall i :: 0 <= i < |out| ==> !out[i].last && out[i].result == MGMT_OK && |out[i].data| == BUF)
      && Data(out) + buf[..len] == pushed
      && (out != [] ==> len > 0)
    }

    constructor (reqId: u16)
      ensures Valid() && fresh(buf)
      ensures this.reqId == reqId && out == [] && pushed == []
    {
      this.reqId := reqId;
      chunk, len, out, pushed := 0, 0, [], [];
      buf := new byte[BUF](_ => 0);
    }

    /** The buffer is full: it leaves as one chunk. */
    method Flush()
      requires Valid() && len == BUF
      modifies this`out, this`chunk, this`len
      ensures len == 0 && old(out) < out
      ensures Numbered(out, MgmtResponse, reqId, 0) && chunk == |out| % WRAP
      ensures forall i :: 0 <= i < |out| ==> !out[i].last && out[i].result == MGMT_OK && |out[i].data| == BUF
      ensures Data(out) == pushed
    {
      var f := MgmtFrame(reqId, MGMT_OK, chunk, false, buf[..len]);
      DataSnoc(out, f);
      out := out + [f];
      chunk := Next(chunk);
      len := 0;
    }

    /** Copy `piece` behind what the buffer holds. */
    method Append(piece: bytes)
      requires Numbered(out, MgmtResponse, reqId, 0) && chunk == |out| % WRAP
      requires forall i :: 0 <= i < |out| ==> !out[i].last && out[i].result == MGMT_OK && |out[i].data| == BUF
      requires len + |piece| <= BUF == buf.Length && piece != []
      requires Data(out) + buf[..len] == pushed
      modifies this`len, this`pushed, buf
      ensures Valid()
      ensures pushed == old(pushed) + piece
    {
      ghost var before := buf[..len];
      forall k | 0 <= k < |piece| {
        buf[len + k] := piece[k];
      }
      len := len + |piece|;
      pushed := pushed + piece;
      assert buf[..len] == before + piece;
      assert Data(out) + (before + piece) == (Data(out) + before) + piece;
    }

    method Push(bytes: bytes)
      requires Valid()
      modifies this, buf
      ensures Valid()
      ensures pushed == old(pushed) + bytes
      ensures old(out) <= out
    {
      var rest := bytes;
      while rest != []
        invariant Valid()
        invariant pushed + rest == old(pushed) + bytes
        invariant old(out) <= out
        decreases |rest|
      {
        if len == BUF {
          Flush();
          assert buf[..0] == [];
        }
        var take := if |rest| < BUF - len then |rest| else BUF - len;
        Regroup(old(pushed) + bytes, pushed, rest, take);
        Append(rest[..take]);
        rest := rest[take..];
      }
    }

    /** The final frame; the whole reply then carries exactly what was pushed. */
    method Finish()
      requires Valid()
      modifies this
      ensures WholeReply(out, MgmtResponse, reqId, 0)
      ensures Data(out) == old(pushed)
      ensures out[|out| - 1].result == MGMT_OK
      ensures |out| == 1 + (if old(pushed) == [] then 0 else (|old(pushed)| - 1) / BUF)
      ensures old(out) <= out
    {
      var f := MgmtFrame(reqId, MGMT_OK, chunk, true, buf[..len]);
      DataSnoc(out, f);
      FullFrames(out);
      out := out + [f];
    }
  }

  /** Full frames carry `BUF` bytes each. */
  lemma {:induction false} FullFrames(frames: seq<Frame>)
    requires forall i :: 0 <= i < |frames| ==> |frames[i].data| == BUF
    ensures |Data(frames)| == |frames| * BUF
  {
    if frames != [] {
      FullFrames(frames[1..]);
    }
  }

  /** How waiting for a management reply ends, transport failures aside. */
  datatype Outcome = Reply(result: u8, data: bytes, truncated: bool) | Timeout

  function AsOutcome(a: Assembly): (o: Outcome) {
    if a.Closed? then Reply(a.result, a.data, a.gap) else Timeout
  }

  /** The management reader keeps everything: its cap is whatever the frames carry. */
  function Uncapped(reqId: u16, frames: seq<Frame>): (a: Assembly) {
    FeedAll(Start, MgmtResponse, reqId, |Data(frames)|, frames)
  }

  /** The reader's loop over the frames its decoder yields before the idle deadline. */
  method MgmtRoundtrip(reqId: u16, frames: seq<Frame>) returns (o: Outcome)
    ensures o == AsOutcome(Uncapped(reqId, frames))
  {
    var data: bytes := [];
    var nextChunk: u16 := 0;
    var truncated := false;
    ghost var cap := |Data(frames)|;
    assert frames[0..] == frames;
    for k := 0 to |frames|
      invariant FeedAll(Open(nextChunk, data, truncated), MgmtResponse, reqId, cap, frames[k..])
        == Uncapped(reqId, frames)
      invariant |data| + |Data(frames[k..])| <= cap
    {
      var r := frames[k];
      assert frames[k..] == [r] + frames[k + 1..];
      FeedFirst(Open(nextChunk, data, truncated), MgmtResponse, reqId, cap, r, frames[k + 1..]);
      if r.kind != MgmtResponse || r.id != reqId {
        continue;
      }
      if r.chunk != nextChunk {
        truncated := true;
      }
      nextChunk := Next(r.chunk);
      data := data + r.data;
      if r.last {
        ClosedStays(Closed(r.result, data, truncated), MgmtResponse, reqId, cap, frames[k + 1..]);
        return Reply(r.result, data, truncated);
      }
    }
    assert frames[|frames|..] == [];
    return Timeout;
  }

  // ---- the record stream ----------------------------------------------------------

  /** Records decoded off the front until the data ends or does not decode. */
  ghost function Records<T>(take: bytes -> Option<(T, bytes)>, data: bytes): (rs: seq<T>)
    requires forall d: bytes :: take(d).Some? ==> |take(d).value.1| < |d|
    decreases |data|
  {
    if data == [] || take(data).None? then []
    else [take(data).value.0] + Records(take, take(data).value.1)
  }

  method ParseRecords<T>(take: bytes -> Option<(T, bytes)>, data: bytes) returns (out: seq<T>)
    requires forall d: bytes :: take(d).Some? ==> |take(d).value.1| < |d|
    ensures out == Records(take, data)
  {
    out := [];
    var rest := data;
    while rest != []
      invariant out + Records(take, rest) == Records(take, data)
      decreases |rest|
    {
      match take(rest)
      case Some(p) =>
        assert out + ([p.0] + Records(take, p.1)) == (out + [p.0]) + Records(take, p.1);
        out := out + [p.0];
        rest := p.1;
      case None =>
        break;
    }
  }

  ghost function Encoded<T>(enc: T -> bytes, records: seq<T>): (d: bytes) {
    if records == [] then [] else enc(records[0]) + Encoded(enc, records[1..])
  }

  /** A prefix decoder reads back every list of records whatever the chunk boundaries were: only
      the concatenation matters. */
  lemma {:induction false} RecordsRoundTrip<T>(enc: T -> bytes, take: bytes -> Option<(T, bytes)>, records: seq<T>)
    requires forall d: bytes :: take(d).Some? ==> |take(d).value.1| < |d|
    requires forall r: T, rest: bytes :: r in records ==> take(enc(r) + rest) == Some((r, rest))
    ensures Records(take, Encoded(enc, records)) == records
  {
    if records != [] {
      var r, tail := records[0], Encoded(enc, records[1..]);
      assert r in records;
      assert take(enc(r) + tail) == Some((r, tail));
      forall x: T, rest: bytes | x in records[1..] ensures take(enc(x) + rest) == Some((x, rest)) {
        assert x in records;
      }
      RecordsRoundTrip(enc, take, records[1..]);
    }
  }

  /** End to end: a reply of at most 65536 chunks that the host accepts as complete (not truncated)
      holds exactly the pushed bytes; it is accepted as complete exactly when no chunk of it was lost. */
  lemma ReplyIsExactOrTruncated(sent: seq<Frame>, events: seq<Event>, reqId: u16, pushed: bytes)
    requires WholeReply(sent, MgmtResponse, reqId, 0) && |sent| <= WRAP
    requires Data(sent) == pushed && sent[|sent| - 1].result == MGMT_OK
    requires OthersOnly(events, MgmtResponse, reqId)
    ensures var o := AsOutcome(Uncapped(reqId, Transmit(sent, events)));
      && (o.Reply? && !o.truncated ==> o == Reply(MGMT_OK, pushed, false))
      && (o.Reply? && !o.truncated <==> NoneDropped(|sent|, events))
  {
    if NoneDropped(|sent|, events) {
      TransmitKeeps(sent, events);
    }
    UnflaggedIffAllArrived(sent, events, MgmtResponse, reqId, |Data(Transmit(sent, events))|);
  }

  lemma {:induction false} TransmitKeeps(sent: seq<Frame>, events: seq<Event>)
    requires NoneDropped(|sent|, events)
    ensures |Data(Transmit(sent, events))| >= |Data(sent)|
    decreases |events|
  {
    if sent == [] || events == [] { return; }
    var rest := events[1..];
    match events[0]
    case Foreign(f) =>
      TransmitKeeps(sent, rest);
      assert Transmit(sent, events)[1..] == Transmit(sent, rest);
    case Deliver =>
      TransmitKeeps(sent[1..], rest);
      assert Transmit(sent, events)[1..] == Transmit(sent[1..], rest);
    case Drop =>
      assert false;
  }

}
