/** The terminal UI's shell scrollback: response text streams in chunk by chunk, the last line stays
    open until its newline arrives, and only the newest lines are kept. */
module Scrollback {
  import opened Basics

  const CAP := 5000
  const LF: byte := 10
  const CR: byte := 13

  // ---- what a stream should look like ------------------------------------------------

  /** Everything shown so far, without the cap; `isOpen` when the last line awaits its newline. */
  datatype Screen = Screen(lines: seq<bytes>, isOpen: bool)

  /** One byte on the screen. */
  function Put(s: Screen, b: byte): (r: Screen)
    requires s.isOpen ==> s.lines != []
    ensures r.isOpen ==> r.lines != []
  {
    if b == LF then (if s.isOpen then Screen(s.lines, false) else Screen(s.lines + [[]], false))
    else if s.isOpen then
      var k := |s.lines| - 1;
      Screen(s.lines[..k] + [s.lines[k] + [b]], true)
    else Screen(s.lines + [[b]], true)
  }

  function PutAll(s: Screen, text: bytes): (r: Screen)
    requires s.isOpen ==> s.lines != []
    ensures r.isOpen ==> r.lines != []
    decreases |text|
  {
    if text == [] then s else PutAll(Put(s, text[0]), text[1..])
  }

  lemma {:induction false} PutAllConcat(s: Screen, a: bytes, b: bytes)
    requires s.isOpen ==> s.lines != []
    ensures PutAll(s, a + b) == PutAll(PutAll(s, a), b)
    decreases |a|
  {
    hide Put;
    if a == [] {
      assert a + b == b;
    } else {
      PutAllConcat(Put(s, a[0]), a[1..], b);
      assert (a + b)[1..] == a[1..] + b;
    }
  }

  // ---- what stands on the screen -----------------------------------------------------

  /** The text on the screen: a newline behind every line but an open one. */
  function Written(s: Screen): bytes
    decreases |s.lines|
  {
    if s.lines == [] then []
    else
      var k := |s.lines| - 1;
      Written(Screen(s.lines[..k], false)) + (s.lines[k] + (if s.isOpen then [] else [LF]))
  }

  lemma WrittenSnoc(lines: seq<bytes>, line: bytes, isOpen: bool)
    ensures Written(Screen(lines + [line], isOpen)) == Written(Screen(lines, false)) + (line + (if isOpen then [] else [LF]))
  {
    assert (lines + [line])[..|lines|] == lines;
  }

  lemma PutWrites(s: Screen, b: byte)
    requires s.isOpen ==> s.lines != []
    ensures Written(Put(s, b)) == Written(s) + [b]
  {
    hide Written;
    if s.isOpen {
      var k := |s.lines| - 1;
      var before, line := s.lines[..k], s.lines[k];
      assert s == Screen(before + [line], true);
      WrittenSnoc(before, line, true);
      WrittenSnoc(before, line, false);
      WrittenSnoc(before, line + [b], true);
      var w := Written(Screen(before, false));
      Joins(w, line, [b]);
      assert line + [] == line && line + [b] + [] == line + [b];
    } else {
      WrittenSnoc(s.lines, [], false);
      WrittenSnoc(s.lines, [b], true);
      assert [] + [LF] == [LF] && [b] + [] == [b];
    }
  }

  /** The lines that are complete. */
  function Complete(s: Screen): seq<bytes> {
    if s.isOpen && s.lines != [] then s.lines[..|s.lines| - 1] else s.lines
  }

  /** A line holds no newline. */
  predicate OneLine(line: bytes) {
    forall i :: 0 <= i < |line| ==> line[i] != LF
  }

  predicate OneLiners(lines: seq<bytes>) {
    forall i :: 0 <= i < |lines| ==> OneLine(lines[i])
  }

  /** Streamed text is written behind what stands there, byte for byte. */
  lemma {:induction false} PutAllWrites(s: Screen, text: bytes)
    requires s.isOpen ==> s.lines != []
    ensures Written(PutAll(s, text)) == Written(s) + text
    decreases |text|
  {
    hide Put, Written;
    if text == [] {
      assert Written(s) + [] == Written(s);
    } else {
      PutWrites(s, text[0]);
      PutAllWrites(Put(s, text[0]), text[1..]);
      Joins(Written(s), [text[0]], text[1..]);
      assert text == [text[0]] + text[1..];
    }
  }

  /** It is broken exactly at its newlines: complete lines stay as they are, no line holds a newline, and
      the last line is left open exactly if the text does not end with one. */
  lemma {:induction false} PutAllBreaks(s: Screen, text: bytes)
    requires s.isOpen ==> s.lines != []
    ensures Complete(s) <= Complete(PutAll(s, text)) && (OneLiners(s.lines) ==> OneLiners(PutAll(s, text).lines))
    ensures PutAll(s, text).isOpen == if text == [] then s.isOpen else text[|text| - 1] != LF
    decreases |text|
  {
    hide Put, OneLiners, Complete;
    if text != [] {
      PutKeeps(s, text[0]);
      PutAllBreaks(Put(s, text[0]), text[1..]);
      Prefixes(Complete(s), Complete(Put(s, text[0])), Complete(PutAll(s, text)));
    }
  }

  lemma Prefixes(x: seq<bytes>, y: seq<bytes>, z: seq<bytes>)
    requires x <= y <= z
    ensures x <= z
  {
  }

  lemma Joins(x: bytes, y: bytes, z: bytes)
    ensures (x + y) + z == x + (y + z)
  {
  }

  lemma PutKeeps(s: Screen, b: byte)
    requires s.isOpen ==> s.lines != []
    ensures Complete(s) <= Complete(Put(s, b)) && Put(s, b).isOpen == (b != LF)
    ensures OneLiners(s.lines) ==> OneLiners(Put(s, b).lines)
  {
    if s.isOpen {
      var k := |s.lines| - 1;
      assert OneLiners(s.lines) ==> OneLine(s.lines[k]);
    }
  }

  // ---- carriage returns --------------------------------------------------------------

  /** A run of CRs here runs into a newline or the end of the text. */
  predicate Fades(text: bytes) {
    text == [] || text[0] == LF || (text[0] == CR && Fades(text[1..]))
  }

  lemma {:induction false} FadesIff(text: bytes)
    ensures Fades(text) <==> exists j :: 0 <= j <= |text| && AllCr(text[..j]) && (j == |text| || text[j] == LF)
  {
    if Fades(text) {
      if text == [] || text[0] == LF {
        assert AllCr(text[..0]);
      } else {
        FadesIff(text[1..]);
        var rest := text[1..];
        var j :| 0 <= j <= |rest| && AllCr(rest[..j]) && (j == |rest| || rest[j] == LF);
        assert text[..j + 1] == [CR] + rest[..j];
        assert AllCr(text[..j + 1]);
      }
    }
    if j :| 0 <= j <= |text| && AllCr(text[..j]) && (j == |text| || text[j] == LF) {
      if j > 0 {
        assert text[..j][0] == CR;
        var rest := text[1..];
        assert rest[..j - 1] == text[..j][1..];
        assert AllCr(rest[..j - 1]);
        FadesIff(rest);
      }
    }
  }

  /** What is shown of one text: a CR at the end of a line, or of the text, is dropped. */
  function Shown(text: bytes): (r: bytes)
    ensures |r| <= |text|
  {
    if text == [] then []
    else if text[0] == CR && Fades(text[1..]) then Shown(text[1..])
    else [text[0]] + Shown(text[1..])
  }

  /** CRs only at line ends: right before a newline, or at the very end. */
  predicate CrsEndLines(text: bytes) {
    forall i :: 0 <= i < |text| && text[i] == CR ==> Fades(text[i + 1..])
  }

  /** `trim_end_matches('\r')`. */
  function Trim(piece: bytes): (r: bytes)
    ensures r <= piece && (r != [] ==> r[|r| - 1] != CR)
  {
    if piece != [] && piece[|piece| - 1] == CR then Trim(piece[..|piece| - 1]) else piece
  }

  predicate AllCr(text: bytes) {
    forall i :: 0 <= i < |text| ==> text[i] == CR
  }

  lemma {:induction false} FadesConcat(a: bytes, b: bytes)
    ensures Fades(a + b) <==> if AllCr(a) then Fades(b) else Fades(a)
  {
    if a == [] {
      assert a + b == b;
    } else {
      assert (a + b)[1..] == a[1..] + b;
      if a[0] == CR {
        FadesConcat(a[1..], b);
        assert AllCr(a) <==> AllCr(a[1..]) by {
          if AllCr(a[1..]) {
            forall i | 0 <= i < |a| ensures a[i] == CR {
              if i > 0 {
                assert a[i] == a[1..][i - 1];
              }
            }
          }
        }
      }
    }
  }

  lemma {:induction false} AllCrFades(a: bytes)
    requires AllCr(a)
    ensures Fades(a) && Shown(a) == []
  {
    if a != [] {
      AllCrFades(a[1..]);
    }
  }

  /** Two chunks show what their text shows in one piece, unless the cut separates a CR from text on
      the same line. */
  lemma {:induction false} ShownConcat(a: bytes, b: bytes)
    requires a == [] || a[|a| - 1] != CR || Fades(b)
    ensures Shown(a + b) == Shown(a) + Shown(b)
    decreases |a|
  {
    if a == [] {
      assert a + b == b;
    } else {
      var rest := a[1..];
      assert (a + b)[1..] == rest + b;
      assert rest != [] ==> rest[|rest| - 1] == a[|a| - 1];
      ShownConcat(rest, b);
      if a[0] == CR {
        FadesConcat(rest, b);
        if AllCr(rest) {
          AllCrFades(rest);
          assert a[|a| - 1] == CR;
        }
      }
      assert [a[0]] + (Shown(rest) + Shown(b)) == [a[0]] + Shown(rest) + Shown(b);
    }
  }

  function Crs(text: bytes): nat {
    if text == [] then 0 else (if text[0] == CR then 1 else 0) + Crs(text[1..])
  }

  lemma {:induction false} CrsConcat(a: bytes, b: bytes)
    ensures Crs(a + b) == Crs(a) + Crs(b)
  {
    if a == [] {
      assert a + b == b;
    } else {
      assert (a + b)[1..] == a[1..] + b;
      CrsConcat(a[1..], b);
    }
  }

  /** A cut right behind a CR in the middle of a line loses that CR. */
  lemma {:induction false} ShownLoses(a: bytes, b: bytes)
    requires a != [] && a[|a| - 1] == CR && !Fades(b)
    ensures Crs(Shown(a + b)) > Crs(Shown(a)) + Crs(Shown(b))
    decreases |a|
  {
    var rest := a[1..];
    assert (a + b)[1..] == rest + b;
    if rest == [] {
      assert rest + b == b;
      AllCrFades(rest);
    } else {
      assert rest[|rest| - 1] == CR;
      ShownLoses(rest, b);
      if a[0] == CR {
        FadesConcat(rest, b);
      }
    }
  }

  // ---- chunking ----------------------------------------------------------------------

  /** The screen after the chunks arrived one after another. */
  function Stream(s: Screen, chunks: seq<bytes>): (r: Screen)
    requires s.isOpen ==> s.lines != []
    ensures r.isOpen ==> r.lines != []
  {
    if chunks == [] then s else PutAll(Stream(s, chunks[..|chunks| - 1]), Shown(chunks[|chunks| - 1]))
  }

  lemma CleanPrefix(a: bytes, b: bytes)
    requires CrsEndLines(a + b)
    ensures CrsEndLines(a)
    ensures a == [] || a[|a| - 1] != CR || Fades(b)
  {
    forall i | 0 <= i < |a| && a[i] == CR ensures Fades(a[i + 1..]) {
      assert (a + b)[i] == CR && (a + b)[i + 1..] == a[i + 1..] + b;
      FadesConcat(a[i + 1..], b);
      if AllCr(a[i + 1..]) {
        AllCrFades(a[i + 1..]);
      }
    }
    if a != [] && a[|a| - 1] == CR {
      assert (a + b)[|a| - 1] == CR && (a + b)[|a|..] == b;
    }
  }

  /** Text whose CRs end lines looks the same in any chunking, the chunk ends falling anywhere (inside
      a line, between CR and LF, in empty chunks). */
  lemma {:induction false} AnyChunkingSame(s: Screen, chunks: seq<bytes>)
    requires s.isOpen ==> s.lines != []
    requires CrsEndLines(Joined(chunks))
    ensures Stream(s, chunks) == PutAll(s, Shown(Joined(chunks)))
  {
    if chunks != [] {
      var init, last := chunks[..|chunks| - 1], chunks[|chunks| - 1];
      CleanPrefix(Joined(init), last);
      AnyChunkingSame(s, init);
      ShownConcat(Joined(init), last);
      PutAllConcat(s, Shown(Joined(init)), Shown(last));
    }
  }

  function ScreenCrs(lines: seq<bytes>): nat {
    if lines == [] then 0 else ScreenCrs(lines[..|lines| - 1]) + Crs(lines[|lines| - 1])
  }

  lemma PutCrs(s: Screen, b: byte)
    requires s.isOpen ==> s.lines != []
    ensures ScreenCrs(Put(s, b).lines) == ScreenCrs(s.lines) + Crs([b])
  {
    var t := Put(s, b).lines;
    if s.isOpen && b != LF {
      var k := |s.lines| - 1;
      assert t[..k] == s.lines[..k];
      CrsConcat(s.lines[k], [b]);
    } else if b == LF && s.isOpen {
    } else {
      assert t[..|t| - 1] == s.lines;
    }
  }

  lemma {:induction false} PutAllCrs(s: Screen, text: bytes)
    requires s.isOpen ==> s.lines != []
    ensures ScreenCrs(PutAll(s, text).lines) == ScreenCrs(s.lines) + Crs(text)
    decreases |text|
  {
    hide Put;
    if text != [] {
      PutCrs(s, text[0]);
      PutAllCrs(Put(s, text[0]), text[1..]);
      assert Crs([text[0]]) == if text[0] == CR then 1 else 0;
    }
  }

  /** The condition is exact: any other text has a cut that changes what is shown. */
  lemma ChunkingMattersOtherwise(s: Screen, text: bytes) returns (cut: nat)
    requires s.isOpen ==> s.lines != []
    requires !CrsEndLines(text)
    ensures 0 < cut < |text|
    ensures Stream(s, [text[..cut], text[cut..]]) != PutAll(s, Shown(text))
  {
    var i :| 0 <= i < |text| && text[i] == CR && !Fades(text[i + 1..]);
    cut := i + 1;
    var a, b := text[..cut], text[cut..];
    assert a + b == text;
    ShownLoses(a, b);
    TwoChunks(s, a, b);
    hide Put, PutAll, Shown, Stream;
    PutAllCrs(s, Shown(a));
    PutAllCrs(PutAll(s, Shown(a)), Shown(b));
    PutAllCrs(s, Shown(text));
  }

  lemma TwoChunks(s: Screen, a: bytes, b: bytes)
    requires s.isOpen ==> s.lines != []
    ensures Stream(s, [a, b]) == PutAll(PutAll(s, Shown(a)), Shown(b))
  {
    hide Put, PutAll, Shown;
    assert [a, b][..1] == [a] && [a][..0] == [];
    assert Stream(s, [a]) == PutAll(Stream(s, []), Shown(a));
  }

  /** Together: the chunking is irrelevant exactly when CRs only end lines. */
  lemma ChunkingIrrelevantIff(s: Screen, text: bytes)
    requires s.isOpen ==> s.lines != []
    ensures CrsEndLines(text) <==>
      forall chunks :: Joined(chunks) == text ==> Stream(s, chunks) == PutAll(s, Shown(text))
  {
    hide Put, PutAll, Shown, Stream, Joined;
    if CrsEndLines(text) {
      forall chunks | Joined(chunks) == text ensures Stream(s, chunks) == PutAll(s, Shown(text)) {
        AnyChunkingSame(s, chunks);
      }
    } else {
      var cut := ChunkingMattersOtherwise(s, text);
      JoinedTwo(text[..cut], text[cut..]);
      assert text[..cut] + text[cut..] == text;
    }
  }

  lemma JoinedTwo(a: bytes, b: bytes)
    ensures Joined([a, b]) == a + b
  {
    var one := [a, b][..1];
    assert one == [a] && one[..0] == [];
    assert Joined(one) == [] + a;
  }

  // ---- the capped scrollback ---------------------------------------------------------

  function Last<T>(n: nat, lines: seq<T>): seq<T> {
    if |lines| <= n then lines else lines[|lines| - n..]
  }

  /** The screen with `cur` still in hand, not pushed yet. */
  function InHand(lines: seq<bytes>, cur: bytes): (s: Screen)
    ensures s.isOpen ==> s.lines != []
  {
    if cur == [] then Screen(lines, false) else Screen(lines + [cur], true)
  }

  predicate NoLf(text: bytes) {
    forall i :: 0 <= i < |text| ==> text[i] != LF
  }

  lemma {:induction false} PutPiece(lines: seq<bytes>, cur: bytes, piece: bytes)
    requires NoLf(piece)
    ensures PutAll(InHand(lines, cur), piece) == InHand(lines, cur + piece)
    decreases |piece|
  {
    if piece == [] {
      assert cur + piece == cur;
    } else {
      var b := piece[0];
      assert Put(InHand(lines, cur), b) == InHand(lines, cur + [b]) by {
        if cur == [] {
          assert cur + [b] == [b];
        } else {
          assert (lines + [cur])[..|lines|] == lines;
        }
      }
      PutPiece(lines, cur + [b], piece[1..]);
      assert cur + [b] + piece[1..] == cur + piece;
    }
  }

  lemma {:induction false} TrimNoLf(piece: bytes)
    requires NoLf(piece)
    ensures Shown(piece) == Trim(piece) && NoLf(Trim(piece))
    decreases |piece|
  {
    if piece != [] && piece[|piece| - 1] == CR {
      var init := piece[..|piece| - 1];
      TrimNoLf(init);
      assert init + [CR] == piece;
      if init != [] && init[|init| - 1] == CR {
        assert Fades([CR]) by { AllCrFades([CR]); }
      }
      ShownConcat(init, [CR]) by { AllCrFades([CR]); }
      AllCrFades([CR]);
    } else {
      NothingFades(piece);
    }
  }

  lemma {:induction false} NothingFades(piece: bytes)
    requires NoLf(piece) && (piece == [] || piece[|piece| - 1] != CR)
    ensures Shown(piece) == piece && (piece == [] || !Fades(piece))
  {
    if piece != [] {
      var rest := piece[1..];
      assert rest != [] ==> rest[|rest| - 1] == piece[|piece| - 1];
      NothingFades(rest);
      assert [piece[0]] + rest == piece;
    }
  }

  /** The pieces of a text at its newlines show what the text shows. */
  lemma ShownPiece(piece: bytes, rest: bytes)
    requires NoLf(piece)
    ensures Shown(piece + [LF] + rest) == Trim(piece) + [LF] + Shown(rest)
  {
    TrimNoLf(piece);
    assert piece + [LF] + rest == piece + ([LF] + rest);
    assert ([LF] + rest)[1..] == rest;
    ShownConcat(piece, [LF] + rest);
    assert Trim(piece) + ([LF] + Shown(rest)) == Trim(piece) + [LF] + Shown(rest);
  }

  /** One piece and its newline. */
  lemma PutLine(lines: seq<bytes>, cur: bytes, piece: bytes, rest: bytes)
    requires NoLf(piece)
    ensures PutAll(InHand(lines, cur), Shown(piece + [LF] + rest)) == PutAll(InHand(lines + [cur + Trim(piece)], []), Shown(rest))
  {
    TrimNoLf(piece);
    ShownPiece(piece, rest);
    var whole := cur + Trim(piece);
    hide Shown, Trim;
    PutAllConcat(InHand(lines, cur), Trim(piece) + [LF], Shown(rest));
    PutAllConcat(InHand(lines, cur), Trim(piece), [LF]);
    PutPiece(lines, cur, Trim(piece));
    assert PutAll(InHand(lines, whole), [LF]) == Put(InHand(lines, whole), LF);
    assert Put(InHand(lines, whole), LF) == InHand(lines + [whole], []);
  }

  lemma LastPush(room: nat, done: seq<bytes>, line: bytes)
    requires room == CAP || room == CAP - 1
    ensures Last(CAP, Last(CAP, Last(room, done) + [line])) == Last(CAP, Last(room, done) + [line])
    ensures Last(CAP, Last(room, done) + [line]) == Last(CAP, done + [line])
  {
  }

  class Responses {
    var lines: seq<bytes>
    /** The last line is an incomplete piece of the response being streamed. */
    var partial: bool
    /** The same without the cap, since the last clear. */
    ghost var screen: Screen

    ghost predicate Valid()
      reads this
    {
      && lines == Last(CAP, screen.lines)
      && (screen.isOpen <==> partial && lines != [])
      && (screen.isOpen ==> screen.lines[|screen.lines| - 1] != [])
    }

    constructor ()
      ensures Valid() && screen == Screen([], false)
    {
      lines, partial, screen := [], false, Screen([], false);
    }

    /** Append a line; beyond the cap the oldest goes. */
    method PushCap(line: bytes)
      modifies this`lines
      ensures lines == Last(CAP, old(lines) + [line])
    {
      if |lines| >= CAP {
        lines := lines[|lines| - CAP + 1..];
      }
      lines := lines + [line];
    }

    /** A complete line of the UI's own (an echo, a marker, a result tag); it closes an open line. */
    method PushLine(line: bytes)
      requires Valid()
      modifies this
      ensures Valid() && !partial
      ensures screen == Screen(old(screen).lines + [line], false)
    {
      partial := false;
      PushCap(line);
      screen := Screen(screen.lines + [line], false);
    }

    method CloseLine()
      requires Valid()
      modifies this
      ensures Valid() && !partial && screen == old(screen).(isOpen := false) && lines == old(lines)
    {
      partial := false;
      screen := screen.(isOpen := false);
    }

    /** F8: the view is emptied; a response that was streaming goes on below. */
    method Clear()
      modifies this
      ensures Valid() && lines == [] && screen == Screen([], false)
    {
      lines := [];
      screen := Screen([], false);
    }

    /** The next newline at or behind `from`, or the end of the text. */
    method NextLf(text: bytes, from: nat) returns (at: nat)
      requires from <= |text|
      ensures from <= at <= |text| && NoLf(text[from..at])
      ensures at < |text| ==> text[at] == LF
    {
      at := from;
      while at < |text| && text[at] != LF
        invariant from <= at <= |text| && NoLf(text[from..at])
      {
        assert text[from..at + 1] == text[from..at] + [text[at]];
        at := at + 1;
      }
    }

    /** Stream a chunk's text: the open line continues in place, each newline ends a line, and a last
        piece without one stays open. */
    method AppendResponseText(text: bytes)
      requires Valid()
      modifies this
      ensures Valid() && screen == PutAll(old(screen), Shown(text))
      ensures partial ==> lines != []
    {
      hide Put, PutAll, Shown, Trim, NoLf;
      ghost var done := screen.lines;
      ghost var room: nat := CAP;
      var cur := [];
      if partial && lines != [] {
        cur := lines[|lines| - 1];
        lines := lines[..|lines| - 1];
        done := done[..|done| - 1];
        room := CAP - 1;
      }
      partial := false;
      assert InHand(done, cur) == screen;
      var from := 0;
      var at := NextLf(text, from);
      while at < |text|
        invariant from <= at <= |text| && NoLf(text[from..at]) && (at < |text| ==> text[at] == LF)
        invariant PutAll(InHand(done, cur), Shown(text[from..])) == PutAll(old(screen), Shown(text))
        invariant room == CAP || (room == CAP - 1 && cur != [])
        invariant lines == Last(room, done) && !partial
        decreases |text| - from
      {
        assert text[from..] == text[from..at] + [LF] + text[at + 1..];
        PutLine(done, cur, text[from..at], text[at + 1..]);
        cur := cur + Trim(text[from..at]);
        LastPush(room, done, cur);
        PushCap(cur);
        done, room := done + [cur], CAP;
        cur := [];
        from := at + 1;
        at := NextLf(text, from);
      }
      assert text[from..at] == text[from..];
      TrimNoLf(text[from..]);
      PutPiece(done, cur, Trim(text[from..]));
      cur := cur + Trim(text[from..]);
      if cur != [] {
        LastPush(room, done, cur);
        PushCap(cur);
        partial := true;
      }
      screen := InHand(done, cur);
    }
  }
}
