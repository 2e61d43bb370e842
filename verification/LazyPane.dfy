/** The bottom-anchored scrollback panes: only the lines that can be seen are handed to the drawing,
    from the back, and the rest is trimmed by rows. The pane counts a line as `ceil(cells / width)`
    rows; the drawing wraps at words and may take more rows, or fewer. The picture is the one of the
    whole buffer exactly as far as the two agree. */
module LazyPane {
  import opened Division

  /** A line as the cells it occupies. */
  type Line = seq<char>

  /** How many rows the drawing gives a line at the width in force. */
  type Drawing = Line -> nat

  /** The scroll offset handed to the drawing has 16 bits. */
  const OFFSETS := 0x1_0000

  /** `as u16`. */
  function Offset(top: nat): nat {
    top % OFFSETS
  }

  /** The row count the pane works with: `div_ceil`, at least one. */
  function WrappedRows(cells: nat, width: nat): (n: nat)
    ensures n >= 1
  {
    if width == 0 then 1
    else
      var n := (cells + width - 1) / width;
      if n < 1 then 1 else n
  }

  function Counted(lines: seq<Line>, width: nat): nat {
    if lines == [] then 0 else Counted(lines[..|lines| - 1], width) + WrappedRows(|lines[|lines| - 1]|, width)
  }

  function Drawn(lines: seq<Line>, draw: Drawing): nat {
    if lines == [] then 0 else Drawn(lines[..|lines| - 1], draw) + draw(lines[|lines| - 1])
  }

  function Over(rows: nat, want: nat): nat {
    if rows < want then 0 else rows - want
  }

  // ---- the pane ----------------------------------------------------------------------

  /** Where the walk from the back stops: enough rows counted, or nothing left. */
  function Start(lines: seq<Line>, width: nat, want: nat): (i: nat)
    ensures i <= |lines|
  {
    if lines == [] || want == 0 then |lines|
    else
      var n := |lines| - 1;
      var rows := WrappedRows(|lines[n]|, width);
      if rows >= want then n else Start(lines[..n], width, want - rows)
  }

  function TopRow(lines: seq<Line>, width: nat, want: nat): nat {
    Offset(Over(Counted(lines[Start(lines, width, want)..], width), want))
  }

  lemma CountedFirst(lines: seq<Line>, i: nat, width: nat)
    requires i < |lines|
    ensures Counted(lines[i..], width) == WrappedRows(|lines[i]|, width) + Counted(lines[i + 1..], width)
    decreases |lines|
  {
    hide WrappedRows;
    var n := |lines| - 1;
    assert lines[i..][..n - i] == lines[..n][i..];
    if i < n {
      assert lines[i + 1..][..n - i - 1] == lines[..n][i + 1..];
      CountedFirst(lines[..n], i, width);
    }
  }

  /** Stopping and going on, seen from the loop. */
  lemma {:induction false} StartAt(lines: seq<Line>, i: nat, width: nat, want: nat)
    requires i <= |lines| && (i < |lines| ==> Counted(lines[i + 1..], width) < want)
    requires i == 0 || Counted(lines[i..], width) >= want
    ensures Start(lines, width, want) == i
    decreases |lines|
  {
    hide WrappedRows;
    if i < |lines| {
      var n := |lines| - 1;
      var rows := WrappedRows(|lines[n]|, width);
      assert lines[i..][..n - i] == lines[..n][i..];
      if i < n {
        assert lines[i + 1..][..n - i - 1] == lines[..n][i + 1..];
        StartAt(lines[..n], i, width, want - rows);
      } else {
        assert lines[..n][i..] == [];
      }
    }
  }

  /** The lines handed to the drawing and the rows to skip at their top. */
  method RenderTextPane(items: seq<Line>, width: nat, height: nat, scrollback: nat)
    returns (collected: seq<Line>, topRow: nat)
    requires height > 0
    ensures collected == items[Start(items, width, height + scrollback)..]
    ensures topRow == TopRow(items, width, height + scrollback)
    ensures collected != [] ==> Counted(collected[1..], width) < height + scrollback
  {
    hide WrappedRows, Start, Counted;
    var want := height + scrollback;
    collected := [];
    var totalRows: nat := 0;
    var i := |items|;
    NothingCounted(width);
    while i > 0 && totalRows < want
      invariant 0 <= i <= |items| && collected == items[i..]
      invariant totalRows == Counted(collected, width)
      invariant i < |items| ==> Counted(items[i + 1..], width) < want
    {
      i := i - 1;
      CountedFirst(items, i, width);
      var rows := WrappedRows(|items[i]|, width);
      totalRows := totalRows + rows;
      collected := [items[i]] + collected;
    }
    StartAt(items, i, width, want);
    assert collected != [] ==> collected[1..] == items[i + 1..];
    topRow := Offset(if totalRows < want then 0 else totalRows - want);
  }

  lemma NothingCounted(width: nat)
    ensures Counted([], width) == 0
  {
  }

  // ---- the picture -------------------------------------------------------------------

  /** The rows of the whole buffer are numbered from the top; drawing some of its last lines gives its
      last rows. What a window of `height` rows then shows, from the `top`-th of the rows given on. */
  function Window(first: nat, rows: nat, top: nat, height: nat): (picture: seq<nat>)
  {
    var from := if top < rows then top else rows;
    var upto := if top + height < rows then top + height else rows;
    seq(upto - from, i requires 0 <= i => first + from + i)
  }

  /** The bottom-anchored window, scrolled up by `scrollback` rows, of the whole buffer. */
  function FullPane(items: seq<Line>, draw: Drawing, height: nat, scrollback: nat): seq<nat> {
    var rows := Drawn(items, draw);
    Window(0, rows, Over(rows, height + scrollback), height)
  }

  /** What `RenderTextPane` puts on the screen. */
  function LazyPane(items: seq<Line>, draw: Drawing, width: nat, height: nat, scrollback: nat): seq<nat> {
    var collected := items[Start(items, width, height + scrollback)..];
    var rows, all := Drawn(collected, draw), Drawn(items, draw);
    Window(if all < rows then 0 else all - rows, rows, TopRow(items, width, height + scrollback), height)
  }

  ghost predicate Draws(draw: Drawing) {
    forall line :: draw(line) >= 1
  }

  lemma {:induction false} DrawnParts(lines: seq<Line>, i: nat, draw: Drawing)
    requires i <= |lines| && Draws(draw)
    ensures Drawn(lines, draw) == Drawn(lines[..i], draw) + Drawn(lines[i..], draw)
    ensures Drawn(lines[..i], draw) >= i
    decreases |lines|
  {
    hide Draws;
    if i == |lines| {
      assert lines[..i] == lines && lines[i..] == [];
      DrawnAtLeast(lines, draw);
    } else {
      var n := |lines| - 1;
      DrawnParts(lines[..n], i, draw);
      assert lines[..n][..i] == lines[..i] && lines[i..][..n - i] == lines[..n][i..];
    }
  }

  lemma {:induction false} DrawnAtLeast(lines: seq<Line>, draw: Drawing)
    requires Draws(draw)
    ensures Drawn(lines, draw) >= |lines|
  {
    if lines != [] {
      DrawnAtLeast(lines[..|lines| - 1], draw);
    }
  }

  /** Two windows on the rows of one buffer, the first of them not empty. */
  lemma SameWindow(a: nat, rowsA: nat, topA: nat, b: nat, rowsB: nat, topB: nat, height: nat)
    requires topA < rowsA && height > 0
    ensures Window(a, rowsA, topA, height) == Window(b, rowsB, topB, height) <==>
      && topB < rowsB && a + topA == b + topB
      && (if rowsA < topA + height then rowsA - topA else height) == (if rowsB < topB + height then rowsB - topB else height)
  {
    var p, q := Window(a, rowsA, topA, height), Window(b, rowsB, topB, height);
    assert p[0] == a + topA;
    if topB < rowsB {
      assert q[0] == b + topB;
    }
    if |p| == |q| && topB < rowsB && a + topA == b + topB {
      assert p == q;
    }
  }

  /** Where the two windows start, in numbers. */
  lemma SameTrim(all: nat, rows: nat, want: nat, height: nat, top: nat)
    requires 0 < height <= want && 0 < all && rows <= all
    ensures
      && top < rows && Over(all, want) == all - rows + top
      && (if all < Over(all, want) + height then all - Over(all, want) else height) == (if rows < top + height then rows - top else height)
      <==> top == Over(rows, want) && (rows >= want || rows == all)
  {
  }

  /** The picture exactly: the lazy pane shows the rows the whole buffer would show if and only if its
      trim is the one the drawn rows of the collected lines call for, and these cover the window or are
      all there is. */
  lemma SamePictureIff(items: seq<Line>, draw: Drawing, width: nat, height: nat, scrollback: nat)
    requires Draws(draw) && height > 0 && items != []
    ensures var want := height + scrollback;
      var rows := Drawn(items[Start(items, width, want)..], draw);
      LazyPane(items, draw, width, height, scrollback) == FullPane(items, draw, height, scrollback) <==>
        TopRow(items, width, want) == Over(rows, want) && (rows >= want || Start(items, width, want) == 0)
  {
    hide Start, TopRow, Drawn, Window, Draws;
    var want := height + scrollback;
    var start, top := Start(items, width, want), TopRow(items, width, want);
    var all, rows := Drawn(items, draw), Drawn(items[start..], draw);
    DrawnParts(items, start, draw);
    DrawnAtLeast(items, draw);
    assert start == 0 ==> rows == all by {
      assert items[0..] == items;
    }
    SameTrim(all, rows, want, height, top);
    SameWindow(0, all, Over(all, want), all - rows, rows, top, height);
    hide Over;
  }

  // ---- when it is right ----------------------------------------------------------------

  /** The drawing gives the line the rows the pane counts, and not more than an offset can skip. */
  predicate CountsRight(line: Line, draw: Drawing, width: nat) {
    draw(line) == WrappedRows(|line|, width) <= OFFSETS
  }

  lemma {:induction false} DrawnAsCounted(lines: seq<Line>, draw: Drawing, width: nat)
    requires forall line :: line in lines ==> CountsRight(line, draw, width)
    ensures Drawn(lines, draw) == Counted(lines, width)
  {
    hide WrappedRows;
    if lines != [] {
      var n := |lines| - 1;
      assert lines[n] in lines;
      DrawnAsCounted(lines[..n], draw, width);
    }
  }

  /** The walk covers the window or takes all, and stops at the first line that does. */
  lemma {:induction false} StartCovers(lines: seq<Line>, width: nat, want: nat)
    requires want > 0
    ensures var i := Start(lines, width, want);
      && (i == 0 || Counted(lines[i..], width) >= want)
      && (i < |lines| ==> Counted(lines[i + 1..], width) < want)
    decreases |lines|
  {
    hide WrappedRows;
    if lines != [] {
      var n := |lines| - 1;
      var rows := WrappedRows(|lines[n]|, width);
      if rows >= want {
        CountedFirst(lines, n, width);
        assert lines[n + 1..] == [];
      } else {
        StartCovers(lines[..n], width, want - rows);
        var i := Start(lines[..n], width, want - rows);
        assert lines[i..][..n - i] == lines[..n][i..];
        if i < n {
          assert lines[i + 1..][..n - i - 1] == lines[..n][i + 1..];
        } else {
          assert lines[i + 1..] == [] || i == n;
          assert lines[n + 1..] == [];
        }
      }
    }
  }

  ghost predicate AlwaysRight(items: seq<Line>, draw: Drawing, width: nat) {
    forall height: nat, scrollback: nat :: height > 0 ==>
      LazyPane(items, draw, width, height, scrollback) == FullPane(items, draw, height, scrollback)
  }

  /** A sufficient check on the collected lines alone. */
  lemma RightWhenCounted(items: seq<Line>, draw: Drawing, width: nat, height: nat, scrollback: nat)
    requires Draws(draw) && height > 0 && items != []
    requires forall line :: line in items[Start(items, width, height + scrollback)..] ==> CountsRight(line, draw, width)
    ensures LazyPane(items, draw, width, height, scrollback) == FullPane(items, draw, height, scrollback)
  {
    var want := height + scrollback;
    var i := Start(items, width, want);
    hide Draws, FullPane, LazyPane, Start;
    StartCovers(items, width, want);
    DrawnAsCounted(items[i..], draw, width);
    if i < |items| {
      CountedFirst(items, i, width);
      assert items[i..][0] == items[i];
      assert CountsRight(items[i], draw, width);
    }
    SamePictureIff(items, draw, width, height, scrollback);
  }

  /** A line drawn in another number of rows shows, at some height. */
  lemma WrongAtSomeHeight(items: seq<Line>, draw: Drawing, width: nat, i: nat) returns (height: nat)
    requires Draws(draw) && i < |items| && !CountsRight(items[i], draw, width)
    requires forall line :: line in items[i + 1..] ==> CountsRight(line, draw, width)
    ensures height > 0 && LazyPane(items, draw, width, height, 0) != FullPane(items, draw, height, 0)
  {
    hide *;
    var after := Counted(items[i + 1..], width);
    DrawnAsCounted(items[i + 1..], draw, width);
    Miscounted(items[i], draw, width);
    height := TellingHeight(after, WrappedRows(|items[i]|, width), draw(items[i]));
    CountedFirst(items, i, width);
    StartAt(items, i, width, height);
    DrawnFirst(items, i, draw);
    TopAt(items, i, width, height);
    SamePictureIff(items, draw, width, height, 0);
  }

  lemma TopAt(items: seq<Line>, i: nat, width: nat, want: nat)
    requires Start(items, width, want) == i
    ensures TopRow(items, width, want) == Offset(Over(Counted(items[i..], width), want))
  {
    hide Start, Counted, Offset;
  }

  lemma Miscounted(line: Line, draw: Drawing, width: nat)
    requires Draws(draw) && !CountsRight(line, draw, width)
    ensures draw(line) >= 1 && (draw(line) != WrappedRows(|line|, width) || WrappedRows(|line|, width) > OFFSETS)
  {
    hide WrappedRows;
  }

  lemma TellingHeight(after: nat, counted: nat, drawn: nat) returns (height: nat)
    requires counted >= 1 && drawn >= 1 && (drawn != counted || counted > OFFSETS)
    ensures after < height <= after + counted
    ensures Offset(Over(after + counted, height)) != Over(after + drawn, height)
  {
    height := if drawn > counted then after + counted else if drawn < counted then after + counted - 1 else after + 1;
  }

  lemma DrawnFirst(items: seq<Line>, i: nat, draw: Drawing)
    requires i < |items| && Draws(draw)
    ensures Drawn(items[i..], draw) == draw(items[i]) + Drawn(items[i + 1..], draw)
  {
    DrawnParts(items[i..], 1, draw);
    assert items[i..][..1] == [items[i]] && items[i..][1..] == items[i + 1..];
    DrawnOne(items[i], draw);
  }

  lemma DrawnOne(line: Line, draw: Drawing)
    ensures Drawn([line], draw) == draw(line)
  {
    assert [line][..0] == [];
    assert Drawn([], draw) == 0;
  }

  /** The pane is right at every height and scroll position if and only if every line is drawn in the
      rows it is counted for. */
  lemma RightExactlyWhenCounted(items: seq<Line>, draw: Drawing, width: nat)
    requires Draws(draw)
    ensures AlwaysRight(items, draw, width) <==> forall line :: line in items ==> CountsRight(line, draw, width)
  {
    hide Draws, CountsRight, LazyPane, FullPane;
    if forall line :: line in items ==> CountsRight(line, draw, width) {
      forall height: nat, scrollback: nat | height > 0
        ensures LazyPane(items, draw, width, height, scrollback) == FullPane(items, draw, height, scrollback)
      {
        if items == [] {
          EmptyPane(draw, width, height, scrollback);
        } else {
          RightWhenCounted(items, draw, width, height, scrollback);
        }
      }
    } else {
      var i := LastMiscounted(items, draw, width);
      var height := WrongAtSomeHeight(items, draw, width, i);
    }
  }

  lemma EmptyPane(draw: Drawing, width: nat, height: nat, scrollback: nat)
    ensures LazyPane([], draw, width, height, scrollback) == FullPane([], draw, height, scrollback)
  {
  }

  lemma {:induction false} LastMiscounted(items: seq<Line>, draw: Drawing, width: nat) returns (i: nat)
    requires exists line :: line in items && !CountsRight(line, draw, width)
    ensures i < |items| && !CountsRight(items[i], draw, width)
    ensures forall line :: line in items[i + 1..] ==> CountsRight(line, draw, width)
  {
    hide CountsRight;
    var n := |items| - 1;
    if CountsRight(items[n], draw, width) {
      var line :| line in items && !CountsRight(line, draw, width);
      assert line in items[..n];
      i := LastMiscounted(items[..n], draw, width);
      assert items[i + 1..] == items[..n][i + 1..] + [items[n]];
    } else {
      i := n;
    }
  }

  // ---- wrapping at words -----------------------------------------------------------------

  /** The last space a row of `width` cells can end at, or 0. */
  function BreakAt(line: Line, width: nat): (p: nat)
    requires width < |line|
    ensures p <= width && (p > 0 ==> line[p] == ' ')
    ensures p == 0 <==> forall q :: 0 < q <= width ==> line[q] != ' '
    decreases width
  {
    if width == 0 then 0 else if line[width] == ' ' then width else BreakAt(line, width - 1)
  }

  /** Rows of a wrapper that fills each row with as many words as fit, drops the space it breaks at and
      cuts a word only when it is longer than a row. */
  function WordRows(line: Line, width: nat): (n: nat)
    ensures n >= 1
    decreases |line|
  {
    if width == 0 || |line| <= width then 1
    else
      var p := BreakAt(line, width);
      1 + WordRows(if p > 0 then line[p + 1..] else line[width..], width)
  }

  /** The count, row by row. */
  lemma OneRowLess(n: nat, width: nat)
    requires width > 0
    ensures WrappedRows(n, width) == if n <= width then 1 else 1 + WrappedRows(n - width, width)
  {
    if n <= width {
      DivUnique(n + width - 1, width, if n == 0 then 0 else 1, if n == 0 then width - 1 else n - 1);
    } else {
      var x := n - 1;
      assert x == (x / width) * width + x % width;
      DivUnique(x + width, width, x / width + 1, x % width);
      assert n - width + width - 1 == x && n + width - 1 == x + width;
      MulMonotone(1, x / width, width);
      DivUnique(width, width, 1, 0);
      DivMonotone(width, x, width);
    }
  }

  /** A line without a space in it, however long, is counted right. */
  lemma {:induction false} NoBreakCountsRight(line: Line, width: nat)
    requires ' ' !in line
    ensures WordRows(line, width) == WrappedRows(|line|, width)
    decreases |line|
  {
    if width > 0 {
      OneRowLess(|line|, width);
      if |line| > width {
        hide WrappedRows;
        assert BreakAt(line, width) == 0 by {
          assert forall q :: 0 < q <= width ==> line[q] in line;
        }
        NoBreakCountsRight(line[width..], width);
      }
    }
  }

  /** So is a line that fits a row. */
  lemma FittingLineCountsRight(line: Line, width: nat)
    requires |line| <= width
    ensures WordRows(line, width) == WrappedRows(|line|, width)
  {
    if width > 0 {
      OneRowLess(|line|, width);
    }
  }

  /** That wrapper at six columns. */
  function SixWide(line: Line): nat {
    WordRows(line, 6)
  }

  lemma ThreeRows()
    ensures SixWide("aaa bbb ccc") == 3 && WrappedRows(|"aaa bbb ccc"|, 6) == 2
  {
    assert BreakAt("aaa bbb ccc", 6) == 3 && "aaa bbb ccc"[4..] == "bbb ccc";
    assert BreakAt("bbb ccc", 6) == 3 && "bbb ccc"[4..] == "ccc";
  }

  /** Three words of three cells, six cells wide: no two words share a row, so the line takes three rows
      and is counted for two. In a pane of two rows the newest row is cut off. */
  lemma ShortWordsAreCutOff()
    ensures LazyPane(["aaa bbb ccc"], SixWide, 6, 2, 0) == [0, 1]
    ensures FullPane(["aaa bbb ccc"], SixWide, 2, 0) == [1, 2]
  {
    hide SixWide, WrappedRows;
    ThreeRows();
    OneLine("aaa bbb ccc", 2, 0);
  }

  lemma TwoRows()
    ensures SixWide("aaaaaa bbbbbb") == 2 && WrappedRows(|"aaaaaa bbbbbb"|, 6) == 3
  {
    assert BreakAt("aaaaaa bbbbbb", 6) == 6 && "aaaaaa bbbbbb"[7..] == "bbbbbb";
  }

  /** The other way round: two words that just fill their rows are counted for three, and a pane of two
      rows shows only the second. */
  lemma DroppedSpaceLeavesABlank()
    ensures LazyPane(["aaaaaa bbbbbb"], SixWide, 6, 2, 0) == [1]
    ensures FullPane(["aaaaaa bbbbbb"], SixWide, 2, 0) == [0, 1]
  {
    hide SixWide, WrappedRows;
    TwoRows();
    OneLine("aaaaaa bbbbbb", 2, 1);
  }

  /** A pane of one line. */
  lemma OneLine(line: Line, height: nat, top: nat)
    requires height > 0 && top == Over(WrappedRows(|line|, 6), height) < OFFSETS && WrappedRows(|line|, 6) >= height
    ensures LazyPane([line], SixWide, 6, height, 0) == Window(0, SixWide(line), top, height)
    ensures FullPane([line], SixWide, height, 0) == Window(0, SixWide(line), Over(SixWide(line), height), height)
  {
    hide WrappedRows, SixWide, Window;
    DrawnOne(line, SixWide);
    assert [line][..0] == [] && [line][0..] == [line];
    assert Counted([line], 6) == WrappedRows(|line|, 6);
    assert Start([line], 6, height) == 0;
  }
}
