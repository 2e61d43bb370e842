/** Numbered reply frames and the host rule that puts a reply together again: a chunk number other
    than the expected one marks the reply as incomplete, `last` completes it. The shell replies
    (radio and console), the management replies and the TUI all follow this rule. */
module Frames {
  import opened Basics

  const WRAP := 0x1_0000

  /** What a reader on the cable buffers of one response. */
  const MAX_RESPONSE_BYTES := 256 * 1024

  datatype Kind = ShellResponse | MgmtResponse | OtherKind

  /** One decoded frame: `id` is the `cmd_id` or `req_id` it answers. */
  datatype Frame = Frame(kind: Kind, id: u16, result: u8, chunk: u16, last: bool, data: bytes)

  /** `wrapping_add(1)` on a 16-bit chunk number. */
  function Next(chunk: u16): (r: u16)
    ensures r == if chunk == WRAP - 1 then 0 else chunk + 1
  {
    (chunk + 1) % WRAP
  }

  /** The texts of a run of frames, concatenated. */
  function Data(frames: seq<Frame>): (d: bytes) {
    if frames == [] then [] else frames[0].data + Data(frames[1..])
  }

  lemma Associate(x: bytes, y: bytes, z: bytes)
    ensures x + (y + z) == (x + y) + z
  {
  }

  lemma {:induction false} DataConcat(a: seq<Frame>, b: seq<Frame>)
    ensures Data(a + b) == Data(a) + Data(b)
  {
    if a == [] {
      assert a + b == b;
    } else {
      DataConcat(a[1..], b);
      assert (a + b)[1..] == a[1..] + b;
      Associate(a[0].data, Data(a[1..]), Data(b));
    }
  }

  lemma DataSnoc(a: seq<Frame>, f: Frame)
    ensures Data(a + [f]) == Data(a) + f.data
  {
    DataConcat(a, [f]);
    assert Data([f]) == f.data;
  }

  /** The step of every loop that hands `rest` on piece by piece. */
  lemma Regroup(whole: bytes, done: bytes, rest: bytes, take: nat)
    requires take <= |rest| && done + rest == whole
    ensures (done + rest[..take]) + rest[take..] == whole
  {
  }

  // ---- what a sender produces ----------------------------------------------------

  /** Frames of one reply, numbered on from `first`. */
  predicate Numbered(frames: seq<Frame>, kind: Kind, id: u16, first: nat) {
    forall i :: 0 <= i < |frames| ==>
      && frames[i].kind == kind && frames[i].id == id
      && frames[i].chunk == (first + i) % WRAP
  }

  /** A whole reply: numbered, and the final frame is the only one that says `last`. */
  predicate WholeReply(frames: seq<Frame>, kind: Kind, id: u16, first: nat) {
    && Numbered(frames, kind, id, first)
    && |frames| > 0
    && forall i :: 0 <= i < |frames| ==> (frames[i].last <==> i == |frames| - 1)
  }

  // ---- the reassembly rule -------------------------------------------------------

  /** The reply being put together, or the reply handed to the caller. */
  datatype Assembly =
    | Open(next: u16, data: bytes, gap: bool)
    | Closed(result: u8, data: bytes, gap: bool)

  const Start := Open(0, [], false)

  /** One frame: foreign frames and frames after the reply are ignored; over `cap` bytes the
      reply is handed back at once, without the frame's text and flagged. */
  function Feed(a: Assembly, kind: Kind, id: u16, cap: nat, f: Frame): (r: Assembly) {
    if a.Closed? || f.kind != kind || f.id != id then a
    else
      var gap := a.gap || f.chunk != a.next;
      if |a.data| + |f.data| > cap then Closed(f.result, a.data, true)
      else if f.last then Closed(f.result, a.data + f.data, gap)
      else Open(Next(f.chunk), a.data + f.data, gap)
  }

  function FeedAll(a: Assembly, kind: Kind, id: u16, cap: nat, frames: seq<Frame>): (r: Assembly)
    decreases |frames|
  {
    if frames == [] then a
    else FeedAll(Feed(a, kind, id, cap, frames[0]), kind, id, cap, frames[1..])
  }

  lemma {:induction false} FeedAllConcat(a: Assembly, kind: Kind, id: u16, cap: nat, x: seq<Frame>, y: seq<Frame>)
    ensures FeedAll(a, kind, id, cap, x + y)
         == FeedAll(FeedAll(a, kind, id, cap, x), kind, id, cap, y)
    decreases |x|
  {
    if x == [] {
      assert x + y == y;
    } else {
      FeedAllConcat(Feed(a, kind, id, cap, x[0]), kind, id, cap, x[1..], y);
      assert (x + y)[1..] == x[1..] + y;
    }
  }

  lemma FeedFirst(a: Assembly, kind: Kind, id: u16, cap: nat, f: Frame, rest: seq<Frame>)
    ensures FeedAll(a, kind, id, cap, [f] + rest) == FeedAll(Feed(a, kind, id, cap, f), kind, id, cap, rest)
  {
  }

  lemma {:induction false} ClosedStays(a: Assembly, kind: Kind, id: u16, cap: nat, frames: seq<Frame>)
    requires a.Closed?
    ensures FeedAll(a, kind, id, cap, frames) == a
    decreases |frames|
  {
    if frames != [] {
      ClosedStays(a, kind, id, cap, frames[1..]);
    }
  }

  /** The bound that makes the buffer of a reader safe against an endless stream. */
  lemma {:induction false} DataWithinCap(a: Assembly, kind: Kind, id: u16, cap: nat, frames: seq<Frame>)
    requires |a.data| <= cap
    ensures |FeedAll(a, kind, id, cap, frames).data| <= cap
    decreases |frames|
  {
    if frames != [] {
      DataWithinCap(Feed(a, kind, id, cap, frames[0]), kind, id, cap, frames[1..]);
    }
  }

  // ---- a channel that drops frames and carries other traffic ----------------------

  /** What the link does next: carry somebody else's frame, deliver the sender's next frame, or
      drop it. */
  datatype Event = Foreign(frame: Frame) | Deliver | Drop

  function Transmit(sent: seq<Frame>, events: seq<Event>): (got: seq<Frame>)
    decreases |events|
  {
    if events == [] then []
    else match events[0]
      case Foreign(f) => [f] + Transmit(sent, events[1..])
      case Deliver => if sent == [] then Transmit(sent, events[1..]) else [sent[0]] + Transmit(sent[1..], events[1..])
      case Drop => if sent == [] then Transmit(sent, events[1..]) else Transmit(sent[1..], events[1..])
  }

  /** The foreign frames among `events` do not answer `id`. */
  predicate OthersOnly(events: seq<Event>, kind: Kind, id: u16) {
    forall i :: 0 <= i < |events| && events[i].Foreign? ==>
      events[i].frame.kind != kind || events[i].frame.id != id
  }

  /** The first `n` of the sender's frames all got through. */
  predicate NoneDropped(n: nat, events: seq<Event>)
    decreases |events|
  {
    n == 0 || (events != [] && match events[0]
      case Foreign(_) => NoneDropped(n, events[1..])
      case Deliver => NoneDropped(n - 1, events[1..])
      case Drop => false)
  }

  /** The general step: `sent` is what is still to come of a reply of which `arrived` got through
      up to the frame expected next, `behind` frames of it are already known to be lost. */
  lemma {:induction false} ReassemblySound(
      sent: seq<Frame>, events: seq<Event>, kind: Kind, id: u16, cap: nat,
      first: nat, behind: nat, a: Assembly)
    requires WholeReply(sent, kind, id, first + behind) && behind + |sent| <= WRAP
    requires OthersOnly(events, kind, id)
    requires a.Open? && a.next == first % WRAP
    ensures var r := FeedAll(a, kind, id, cap, Transmit(sent, events));
      r.Closed? && !r.gap ==>
        !a.gap && behind == 0 && NoneDropped(|sent|, events)
        && r.data == a.data + Data(sent) && r.result == sent[|sent| - 1].result
    decreases |events|
  {
    if events == [] { return; }
    var rest := events[1..];
    assert OthersOnly(rest, kind, id);
    match events[0]
    case Foreign(f) =>
      ReassemblySound(sent, rest, kind, id, cap, first, behind, a);
      FeedFirst(a, kind, id, cap, f, Transmit(sent, rest));
    case Drop =>
      if |sent| > 1 {
        assert WholeReply(sent[1..], kind, id, first + behind + 1);
        ReassemblySound(sent[1..], rest, kind, id, cap, first, behind + 1, a);
      } else {
        assert sent[1..] == [];
        NothingLeft(rest, kind, id, cap, a);
      }
    case Deliver =>
      var more := Transmit(sent[1..], rest);
      var b := Feed(a, kind, id, cap, sent[0]);
      FeedFirst(a, kind, id, cap, sent[0], more);
      assert a.next != sent[0].chunk || behind == 0 by { ModDistance(first, behind); }
      if b.Closed? {
        ClosedStays(b, kind, id, cap, more);
        if |sent| == 1 {
          assert sent[1..] == [];
        }
      } else {
        assert WholeReply(sent[1..], kind, id, first + behind + 1);
        assert Next(sent[0].chunk) == (first + behind + 1) % WRAP;
        ReassemblySound(sent[1..], rest, kind, id, cap, first + behind + 1, 0, b);
        assert a.data + sent[0].data + Data(sent[1..]) == a.data + Data(sent);
      }
  }

  lemma ModDistance(first: nat, behind: nat)
    requires behind < WRAP
    ensures first % WRAP == (first + behind) % WRAP <==> behind == 0
  {
  }

  /** With nothing more of the reply to come, an open reply stays open. */
  lemma {:induction false} NothingLeft(events: seq<Event>, kind: Kind, id: u16, cap: nat, a: Assembly)
    requires OthersOnly(events, kind, id)
    ensures FeedAll(a, kind, id, cap, Transmit([], events)) == a
    decreases |events|
  {
    if events != [] {
      assert OthersOnly(events[1..], kind, id);
      NothingLeft(events[1..], kind, id, cap, a);
      if events[0].Foreign? {
        assert Transmit([], events)[1..] == Transmit([], events[1..]);
      }
    }
  }

  /** Completeness: when nothing is dropped and the text fits, the reply closes, exact. */
  lemma {:induction false} ReassemblyComplete(
      sent: seq<Frame>, events: seq<Event>, kind: Kind, id: u16, cap: nat, first: nat, a: Assembly)
    requires WholeReply(sent, kind, id, first)
    requires OthersOnly(events, kind, id) && NoneDropped(|sent|, events)
    requires a.Open? && a.next == first % WRAP
    requires |a.data| + |Data(sent)| <= cap
    ensures FeedAll(a, kind, id, cap, Transmit(sent, events))
         == Closed(sent[|sent| - 1].result, a.data + Data(sent), a.gap)
    decreases |events|
  {
    var rest := events[1..];
    assert OthersOnly(rest, kind, id);
    if events[0].Foreign? {
      ReassemblyComplete(sent, rest, kind, id, cap, first, a);
      FeedFirst(a, kind, id, cap, events[0].frame, Transmit(sent, rest));
    } else {
      var more := Transmit(sent[1..], rest);
      FeedFirst(a, kind, id, cap, sent[0], more);
      var b := Feed(a, kind, id, cap, sent[0]);
      assert Data(sent) == sent[0].data + Data(sent[1..]);
      if |sent| == 1 {
        assert sent[1..] == [];
        ClosedStays(b, kind, id, cap, more);
      } else {
        assert WholeReply(sent[1..], kind, id, first + 1);
        assert b == Open(Next(sent[0].chunk), a.data + sent[0].data, a.gap);
        assert |b.data| + |Data(sent[1..])| <= cap;
        ReassemblyComplete(sent[1..], rest, kind, id, cap, first + 1, b);
        assert a.data + sent[0].data + Data(sent[1..]) == a.data + Data(sent);
      }
    }
  }

  /** The host's verdict is right both ways: a reply that fits comes back unflagged exactly when
      every frame of it got through, and an unflagged reply is exactly what was sent. */
  lemma UnflaggedIffAllArrived(sent: seq<Frame>, events: seq<Event>, kind: Kind, id: u16, cap: nat)
    requires WholeReply(sent, kind, id, 0) && |sent| <= WRAP
    requires OthersOnly(events, kind, id)
    ensures var r := FeedAll(Start, kind, id, cap, Transmit(sent, events));
      && (r.Closed? && !r.gap <==> NoneDropped(|sent|, events) && |Data(sent)| <= cap)
      && (r.Closed? && !r.gap ==> r == Closed(sent[|sent| - 1].result, Data(sent), false))
  {
    var r := FeedAll(Start, kind, id, cap, Transmit(sent, events));
    ReassemblySound(sent, events, kind, id, cap, 0, 0, Start);
    DataWithinCap(Start, kind, id, cap, Transmit(sent, events));
    assert [] + Data(sent) == Data(sent);
    if NoneDropped(|sent|, events) && |Data(sent)| <= cap {
      ReassemblyComplete(sent, events, kind, id, cap, 0, Start);
    }
  }

  // ---- the rule in closed form ----------------------------------------------------

  /** The frames that answer `id`, in order of arrival. */
  function Mine(frames: seq<Frame>, kind: Kind, id: u16): (ms: seq<Frame>)
    ensures forall i :: 0 <= i < |ms| ==> ms[i].kind == kind && ms[i].id == id
  {
    if frames == [] then []
    else
      var f := frames[|frames| - 1];
      Mine(frames[..|frames| - 1], kind, id) + (if f.kind == kind && f.id == id then [f] else [])
  }

  /** Numbered 0, 1, 2 and so on. */
  predicate InOrder(ms: seq<Frame>) {
    forall i :: 0 <= i < |ms| ==> ms[i].chunk == i % WRAP
  }

  /** The reply ends with frame `k`: it is the last one, or with it the text is too long. */
  predicate EndsAt(ms: seq<Frame>, cap: nat, k: nat) {
    k < |ms| && (ms[k].last || |Data(ms[..k + 1])| > cap)
  }

  predicate NoEnd(ms: seq<Frame>, cap: nat) {
    forall k :: 0 <= k < |ms| ==> !EndsAt(ms, cap, k)
  }

  predicate FirstEnd(ms: seq<Frame>, cap: nat, k: nat) {
    EndsAt(ms, cap, k) && forall j :: 0 <= j < k ==> !EndsAt(ms, cap, j)
  }

  /** The reply so far, while it has not ended. */
  function StillOpen(ms: seq<Frame>): (r: Assembly)
    ensures r.Open?
  {
    Open(if ms == [] then 0 else Next(ms[|ms| - 1].chunk), Data(ms), !InOrder(ms))
  }

  /** The reply that ended with frame `k`. */
  function ClosedAt(ms: seq<Frame>, cap: nat, k: nat): (r: Assembly)
    requires k < |ms|
    ensures r.Closed?
  {
    if |Data(ms[..k + 1])| > cap then Closed(ms[k].result, Data(ms[..k]), true)
    else Closed(ms[k].result, Data(ms[..k + 1]), !InOrder(ms[..k + 1]))
  }

  /** What the rule makes of the frames of one reply. */
  ghost predicate Reassembled(ms: seq<Frame>, cap: nat, r: Assembly) {
    && (NoEnd(ms, cap) ==> r == StillOpen(ms))
    && forall k: nat :: FirstEnd(ms, cap, k) ==> r == ClosedAt(ms, cap, k)
  }

  lemma FeedSnoc(a: Assembly, kind: Kind, id: u16, cap: nat, frames: seq<Frame>, f: Frame)
    ensures FeedAll(a, kind, id, cap, frames + [f]) == Feed(FeedAll(a, kind, id, cap, frames), kind, id, cap, f)
  {
    hide Feed;
    FeedAllConcat(a, kind, id, cap, frames, [f]);
    assert [f] + [] == [f];
    FeedFirst(FeedAll(a, kind, id, cap, frames), kind, id, cap, f, []);
  }

  lemma EndsStay(ms: seq<Frame>, f: Frame, cap: nat)
    ensures forall k :: 0 <= k < |ms| ==> (EndsAt(ms + [f], cap, k) <==> EndsAt(ms, cap, k))
    ensures EndsAt(ms + [f], cap, |ms|) <==> f.last || |Data(ms)| + |f.data| > cap
  {
    forall k | 0 <= k < |ms| ensures EndsAt(ms + [f], cap, k) <==> EndsAt(ms, cap, k) {
      assert (ms + [f])[..k + 1] == ms[..k + 1];
    }
    assert (ms + [f])[..|ms| + 1] == ms + [f];
    DataSnoc(ms, f);
  }

  lemma FirstEndExists(ms: seq<Frame>, cap: nat) returns (k: nat)
    ensures NoEnd(ms, cap) || FirstEnd(ms, cap, k)
  {
    k := 0;
    while k < |ms| && !EndsAt(ms, cap, k)
      invariant k <= |ms| && forall j :: 0 <= j < k ==> !EndsAt(ms, cap, j)
    {
      k := k + 1;
    }
  }

  /** One more frame of the reply. */
  lemma ReassembledSnoc(ms: seq<Frame>, f: Frame, kind: Kind, id: u16, cap: nat, r: Assembly)
    requires Reassembled(ms, cap, r) && f.kind == kind && f.id == id
    ensures Reassembled(ms + [f], cap, Feed(r, kind, id, cap, f))
  {
    var more, n := ms + [f], |ms|;
    EndsStay(ms, f, cap);
    var k := FirstEndExists(ms, cap);
    if NoEnd(ms, cap) {
      DataSnoc(ms, f);
      assert more[..n + 1] == more && more[..n] == ms;
      OneMoreInOrder(ms, f);
      assert forall j: nat :: FirstEnd(more, cap, j) ==> j == n;
      hide EndsAt, InOrder, Data;
    } else {
      assert forall j: nat :: FirstEnd(more, cap, j) ==> j == k;
      assert more[..k + 1] == ms[..k + 1] && more[..k] == ms[..k] && more[k] == ms[k];
      assert EndsAt(more, cap, k) && !NoEnd(more, cap);
      hide EndsAt, InOrder, Data;
      assert r.Closed?;
    }
  }

  lemma OneMoreInOrder(ms: seq<Frame>, f: Frame)
    ensures InOrder(ms + [f]) <==> InOrder(ms) && f.chunk == |ms| % WRAP
    ensures InOrder(ms) ==> (if ms == [] then 0 else Next(ms[|ms| - 1].chunk)) == |ms| % WRAP
  {
    if InOrder(ms + [f]) {
      forall i | 0 <= i < |ms| ensures ms[i].chunk == i % WRAP {
        assert (ms + [f])[i] == ms[i];
      }
      assert (ms + [f])[|ms|] == f;
    }
  }

  /** The rule over any stream, in closed form: other frames do not matter; the reply ends with the
      first of its frames that says `last` or makes the text too long; its text is the texts of its
      frames, its result that of the ending frame; and it is flagged exactly when a number is out of
      order or the text was too long. */
  lemma {:induction false} FeedAllIs(kind: Kind, id: u16, cap: nat, frames: seq<Frame>)
    ensures Reassembled(Mine(frames, kind, id), cap, FeedAll(Start, kind, id, cap, frames))
    decreases |frames|
  {
    hide Feed, Reassembled;
    if frames == [] {
      NothingMine(cap);
    } else {
      var init, f := frames[..|frames| - 1], frames[|frames| - 1];
      FeedAllIs(kind, id, cap, init);
      assert frames == init + [f];
      FeedSnoc(Start, kind, id, cap, init, f);
      var r := FeedAll(Start, kind, id, cap, init);
      if f.kind == kind && f.id == id {
        ReassembledSnoc(Mine(init, kind, id), f, kind, id, cap, r);
      } else {
        NotFed(r, kind, id, cap, f);
        assert Mine(frames, kind, id) == Mine(init, kind, id);
      }
    }
  }

  /** An open reply has not ended. */
  lemma OpenIs(ms: seq<Frame>, cap: nat, r: Assembly)
    requires Reassembled(ms, cap, r) && r.Open?
    ensures NoEnd(ms, cap) && r == StillOpen(ms)
  {
    var k := FirstEndExists(ms, cap);
    hide EndsAt, StillOpen, ClosedAt, NoEnd;
  }

  /** A reply that ended with its newest frame, within the cap. */
  lemma ClosedIs(ms: seq<Frame>, cap: nat, r: Assembly)
    requires Reassembled(ms, cap, r) && ms != [] && FirstEnd(ms, cap, |ms| - 1) && |Data(ms)| <= cap
    ensures r == Closed(ms[|ms| - 1].result, Data(ms), !InOrder(ms))
  {
    hide EndsAt, StillOpen, NoEnd, Data, InOrder;
    var k: nat := |ms| - 1;
    assert ms[..k + 1] == ms;
    assert r == ClosedAt(ms, cap, k);
  }

  lemma NotFed(r: Assembly, kind: Kind, id: u16, cap: nat, f: Frame)
    requires f.kind != kind || f.id != id
    ensures Feed(r, kind, id, cap, f) == r
  {
  }

  lemma NothingMine(cap: nat)
    ensures Reassembled([], cap, Start)
  {
    assert Data([]) == [];
  }
}
