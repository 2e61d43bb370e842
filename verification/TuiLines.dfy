/** What the lines of the shell pane are: echoed commands, response text and the UI's own notes, and what
    the notes of a command must say about the frames heard for it. */
module TuiLines {
  import opened Basics
  import opened Frames
  import opened Scrollback

  // ---- the texts of the UI's own lines --------------------------------------------------

  function Dec(n: nat): (d: bytes)
    ensures d != []
  {
    if n < 10 then [48 + n] else Dec(n / 10) + [48 + n % 10]
  }

  function Marker(started: bool, line: bytes, why: bytes): bytes {
    Ascii(if started then "[tower] incomplete response to `" else "[tower] no response to `") + line + Ascii("`") + why
  }

  function GapNote(expected: u16, got: u16): bytes {
    Ascii("[tower] response chunk dropped (expected #") + Dec(expected) + Ascii(", got #") + Dec(got) + Ascii("); output truncated")
  }

  function CutNote(line: bytes): bytes {
    Ascii("[tower] response to `") + line + Ascii("` exceeded 256 KiB; truncated")
  }

  function ResultTag(code: u8): bytes {
    var name := match code
      case 1 => ": not found"
      case 2 => ": bad argument"
      case 3 => ": storage error"
      case 5 => ": denied (console-only command)"
      case _ => "";
    Ascii("[result ") + Dec(code) + Ascii(name) + Ascii("]")
  }

  /** The number a string of digits stands for. */
  function Number(d: bytes): nat {
    if d == [] then 0 else Number(d[..|d| - 1]) * 10 + (if d[|d| - 1] < 48 then 0 else d[|d| - 1] - 48)
  }

  /** Numbers are shown in decimal, without leading zeros. */
  lemma {:induction false} DecIsDecimal(n: nat)
    ensures Number(Dec(n)) == n && (forall i :: 0 <= i < |Dec(n)| ==> 48 <= Dec(n)[i] <= 57)
    ensures n > 0 ==> Dec(n)[0] != 48
  {
    if n < 10 {
      assert [48 + n][..0] == [];
    } else {
      DecIsDecimal(n / 10);
      assert Dec(n)[..|Dec(n)| - 1] == Dec(n / 10);
    }
  }

  // ---- lines and their kinds --------------------------------------------------------------

  datatype LineKind =
    | Echo(line: bytes)
    | Text
    | Gap(expected: u16, got: u16)
    | Cut(line: bytes)
    | Result(code: u8)
    | End(started: bool, line: bytes, why: bytes)

  function TextOf(k: LineKind): bytes {
    match k
    case Echo(line) => Ascii("> ") + line
    case Text => []
    case Gap(expected, got) => GapNote(expected, got)
    case Cut(line) => CutNote(line)
    case Result(code) => ResultTag(code)
    case End(started, line, why) => Marker(started, line, why)
  }

  /** Every line on the screen is of its kind; only response text can be left open. */
  predicate Matched(kinds: seq<LineKind>, s: Screen) {
    && |kinds| == |s.lines|
    && (forall i :: 0 <= i < |kinds| ==> kinds[i].Text? || s.lines[i] == TextOf(kinds[i]))
    && (s.isOpen ==> kinds != [] && kinds[|kinds| - 1].Text?)
  }

  function Texts(n: nat): (ks: seq<LineKind>)
    ensures |ks| == n && forall i :: 0 <= i < n ==> ks[i] == Text
  {
    seq(n, i => Text)
  }

  lemma MatchedLine(kinds: seq<LineKind>, s: Screen, k: LineKind)
    requires Matched(kinds, s)
    ensures Matched(kinds + [k], Screen(s.lines + [TextOf(k)], false))
  {
    hide TextOf;
  }

  lemma MatchedClosed(kinds: seq<LineKind>, s: Screen)
    requires Matched(kinds, s)
    ensures Matched(kinds, s.(isOpen := false))
  {
    hide TextOf;
  }

  /** Response text fills the open line and adds lines of its own kind. */
  lemma MatchedText(kinds: seq<LineKind>, s: Screen, text: bytes)
    requires Matched(kinds, s)
    ensures s.isOpen ==> s.lines != []
    ensures var r := PutAll(s, text); |r.lines| >= |kinds| && Matched(kinds + Texts(|r.lines| - |kinds|), r)
  {
    hide TextOf;
    PutAllBreaks(s, text);
    OpenLast(s, text);
    var r := PutAll(s, text);
    hide PutAll, OneLiners;
    MoreLines(s, r);
    var more := kinds + Texts(|r.lines| - |kinds|);
    forall i | 0 <= i < |more| ensures more[i].Text? || r.lines[i] == TextOf(more[i]) {
      if i < |Complete(s)| {
        assert r.lines[i] == Complete(r)[i] == Complete(s)[i] == s.lines[i];
      }
    }
  }

  lemma {:induction false} OpenLast(s: Screen, text: bytes)
    requires s.isOpen ==> s.lines != []
    ensures var r := PutAll(s, text); |r.lines| >= |s.lines| && (r.isOpen ==> r.lines != [])
    ensures var r := PutAll(s, text); r.isOpen && |r.lines| == |s.lines| ==> s.isOpen
    decreases |text|
  {
    if text != [] {
      OpenLast(Put(s, text[0]), text[1..]);
    }
  }

  lemma MoreLines(s: Screen, r: Screen)
    requires Complete(s) <= Complete(r)
    ensures |Complete(s)| <= |r.lines|
    ensures forall i :: 0 <= i < |Complete(s)| ==> s.lines[i] == r.lines[i]
    ensures forall i :: 0 <= i < |Complete(s)| ==> Complete(s)[i] == s.lines[i] && Complete(r)[i] == r.lines[i]
    ensures |Complete(s)| == |s.lines| - (if s.isOpen && s.lines != [] then 1 else 0)
  {
    assert forall i :: 0 <= i < |Complete(s)| ==> Complete(s)[i] == Complete(r)[i];
  }

  // ---- the lines of one command --------------------------------------------------------------

  predicate HasGap(span: seq<LineKind>) {
    exists i :: 0 <= i < |span| && span[i].Gap?
  }

  /** Nothing in here ends a response. */
  predicate Running(span: seq<LineKind>) {
    forall i :: 0 <= i < |span| ==> span[i].Echo? || span[i].Text? || span[i].Gap?
  }

  /** The lines of a command that is over end with `last`, and only there. */
  predicate EndsWith(span: seq<LineKind>, last: LineKind) {
    span != [] && span[|span| - 1] == last && Running(span[..|span| - 1])
  }

  lemma SpanMore(span: seq<LineKind>, k: LineKind)
    ensures HasGap(span + [k]) <==> HasGap(span) || k.Gap?
    ensures Running(span + [k]) <==> Running(span) && (k.Echo? || k.Text? || k.Gap?)
    ensures Running(span) ==> EndsWith(span + [k], k)
  {
    var more := span + [k];
    assert more[|span|] == k;
    if HasGap(span) {
      var i :| 0 <= i < |span| && span[i].Gap?;
      assert more[i].Gap?;
    }
    if Running(more) {
      forall i | 0 <= i < |span| ensures span[i].Echo? || span[i].Text? || span[i].Gap? {
        assert more[i] == span[i];
      }
    }
    assert more[..|more| - 1] == span;
  }

  lemma {:induction false} SpanTexts(span: seq<LineKind>, n: nat)
    ensures HasGap(span + Texts(n)) <==> HasGap(span)
    ensures Running(span) ==> Running(span + Texts(n))
    decreases n
  {
    hide HasGap, Running;
    if n == 0 {
      assert span + Texts(0) == span;
    } else {
      SpanTexts(span, n - 1);
      assert span + Texts(n) == (span + Texts(n - 1)) + [Text];
      SpanMore(span + Texts(n - 1), Text);
    }
  }
}
