/** The UI's command line: UTF-8 text with a byte cursor, edited by keys, history moves, the outcome
    of a search and completions whose position the device chooses. */
module LineEditor {
  import opened Basics
  import opened Utf8
  import opened Text

  // ---- string operations and where they panic ----------------------------------------

  /** `replace_range`; it panics off a boundary or out of order. */
  function Splice(s: bytes, start: nat, end: nat, repl: bytes): bytes
    requires start <= end <= |s| && Boundary(s, start) && Boundary(s, end)
  {
    s[..start] + repl + s[end..]
  }

  lemma SpliceValid(s: bytes, start: nat, end: nat, repl: bytes)
    requires Valid(s) && Valid(repl) && start <= end <= |s| && Boundary(s, start) && Boundary(s, end)
    ensures Valid(Splice(s, start, end, repl)) && Boundary(Splice(s, start, end, repl), start + |repl|)
    ensures start + |repl| <= |Splice(s, start, end, repl)|
  {
    SplitValid(s, start);
    SplitValid(s, end);
    var t := Splice(s, start, end, repl);
    ConcatValid(s[..start], repl);
    ConcatValid(s[..start] + repl, s[end..]);
    SplitValid(t, start + |repl|);
    assert t[..start + |repl|] == s[..start] + repl && t[start + |repl|..] == s[end..];
  }

  /** Length of the character before `cur`; 0 at the start. */
  function PrevLen(s: bytes, cur: nat): (n: nat)
    requires cur <= |s|
    ensures n <= cur && (cur > 0 ==> n > 0) && Boundary(s, cur - n)
    ensures forall j :: cur - n < j < cur ==> !Boundary(s, j)
  {
    if cur == 0 then 0 else cur - FloorBoundary(s, cur - 1)
  }

  method PrevChar(s: bytes, cur: nat) returns (n: nat)
    requires cur <= |s|
    ensures n == PrevLen(s, cur)
  {
    if cur == 0 {
      return 0;
    }
    var at := StepDown(s, cur - 1);
    return cur - at;
  }

  /** Length of the character at `cur`; 0 at the end. */
  function NextLen(s: bytes, cur: nat): nat
    requires cur <= |s|
  {
    if cur == |s| then 0 else LeadLen(s[cur])
  }

  lemma FirstScalar(t: bytes)
    requires Valid(t) && t != []
    ensures 0 < LeadLen(t[0]) <= |t| && Boundary(t, LeadLen(t[0])) && Valid(t[..LeadLen(t[0])])
    ensures forall j :: 0 < j < LeadLen(t[0]) ==> !Boundary(t, j)
  {
    var n := LeadLen(t[0]);
    assert n < |t| ==> ScalarAt(t[n..]) && t[n..][0] == t[n];
    assert t[..n][n..] == [];
  }

  /** Boundaries behind `cur` are those of the rest of the text. */
  lemma BoundaryBehind(s: bytes, cur: nat, j: nat)
    requires cur <= |s| && 0 < j <= |s| - cur
    ensures Boundary(s[cur..], j) <==> Boundary(s, cur + j)
  {
  }

  lemma NextLenIsBoundary(s: bytes, cur: nat)
    requires Valid(s) && cur < |s| && Boundary(s, cur)
    ensures 0 < NextLen(s, cur) && cur + NextLen(s, cur) <= |s| && Boundary(s, cur + NextLen(s, cur))
    ensures forall j :: cur < j < cur + NextLen(s, cur) ==> !Boundary(s, j)
    ensures Valid(s[cur..cur + NextLen(s, cur)])
  {
    SplitValid(s, cur);
    var rest := s[cur..];
    FirstScalar(rest);
    hide Valid, LeadLen, Boundary;
    var n := NextLen(s, cur);
    assert n == LeadLen(rest[0]);
    BoundaryBehind(s, cur, n);
    forall j | cur < j < cur + n ensures !Boundary(s, j) {
      BoundaryBehind(s, cur, j - cur);
    }
    assert s[cur..cur + n] == rest[..n];
  }

  /** Right after Left comes back. */
  lemma NextAfterPrev(s: bytes, cur: nat)
    requires Valid(s) && 0 < cur <= |s| && Boundary(s, cur)
    ensures NextLen(s, cur - PrevLen(s, cur)) == PrevLen(s, cur)
    ensures Valid(s[cur - PrevLen(s, cur)..cur])
  {
    hide Valid, Boundary, LeadLen;
    NextLenIsBoundary(s, cur - PrevLen(s, cur));
  }

  /** Left after Right comes back. */
  lemma PrevAfterNext(s: bytes, cur: nat)
    requires Valid(s) && cur < |s| && Boundary(s, cur)
    ensures cur + NextLen(s, cur) <= |s| && PrevLen(s, cur + NextLen(s, cur)) == NextLen(s, cur)
  {
    hide Valid, Boundary, LeadLen;
    NextLenIsBoundary(s, cur);
  }

  predicate OnBoundary(line: bytes, cursor: nat) {
    Valid(line) && cursor <= |line| && Boundary(line, cursor)
  }

  // ---- the word before the cursor ----------------------------------------------------

  /** The text ends with a white-space character. */
  predicate EndsInSpace(t: bytes) {
    t != [] && SpaceLen(t[|t| - PrevLen(t, |t|)..]) > 0
  }

  /** `at..cursor` is the word before the cursor with the white space behind it: `mid` is where the
      white space starts. */
  predicate WordBefore(line: bytes, at: nat, mid: nat, cursor: nat) {
    && at <= mid <= cursor <= |line|
    && AllSpace(line[mid..cursor]) && !EndsInSpace(line[..mid])
    && Valid(line[at..mid]) && NoSpace(line[at..mid])
    && (at == 0 || EndsInSpace(line[..at]))
  }

  lemma FloorOfPrefix(s: bytes, cur: nat, limit: nat)
    requires Valid(s) && limit < cur <= |s|
    ensures FloorBoundary(s[..cur], limit) == FloorBoundary(s, limit)
    decreases limit
  {
  }

  /** The last character of the text before `cur`. */
  lemma EndsInSpaceAt(s: bytes, cur: nat)
    requires Valid(s) && 0 < cur <= |s| && Boundary(s, cur)
    ensures EndsInSpace(s[..cur]) <==> SpaceLen(s[cur - PrevLen(s, cur)..cur]) > 0
  {
    var t := s[..cur];
    assert PrevLen(t, |t|) == PrevLen(s, cur) by {
      FloorOfPrefix(s, cur, cur - 1);
      hide FloorBoundary;
    }
    hide Valid, Boundary, SpaceLen, PrevLen, FloorBoundary;
    assert t[cur - PrevLen(s, cur)..] == s[cur - PrevLen(s, cur)..cur];
  }

  /** One more character in front of a run. */
  lemma RunGrows(s: bytes, at: nat, to: nat)
    requires Valid(s) && 0 < at <= to <= |s| && Boundary(s, at) && Boundary(s, to)
    requires Valid(s[at..to])
    ensures var p := at - PrevLen(s, at);
      && Valid(s[p..to])
      && (SpaceLen(s[p..at]) > 0 && AllSpace(s[at..to]) ==> AllSpace(s[p..to]))
      && (SpaceLen(s[p..at]) == 0 && NoSpace(s[at..to]) ==> NoSpace(s[p..to]))
  {
    var p := at - PrevLen(s, at);
    NextAfterPrev(s, at);
    var c, run := s[p..at], s[at..to];
    assert s[p..to] == c + run;
    SpaceLenOfFirst(c, run);
    ConcatValid(c, run);
    assert (c + run)[|c|..] == run;
    assert c[0] == s[p] && LeadLen(c[0]) == |c|;
  }

  /** White space has white space at each of its boundaries, a word nowhere. */
  lemma {:induction false} InsideRun(t: bytes, k: nat)
    requires Valid(t) && k < |t| && Boundary(t, k)
    ensures AllSpace(t) ==> SpaceLen(t[k..]) > 0
    ensures NoSpace(t) ==> SpaceLen(t[k..]) == 0
    decreases |t|
  {
    if k == 0 {
      assert t[0..] == t;
    } else {
      FirstScalar(t);
      var n := LeadLen(t[0]);
      assert k >= n;
      if k > n {
        BoundaryBehind(t, n, k - n);
      }
      InsideRun(t[n..], k - n);
      assert t[n..][k - n..] == t[k..];
    }
  }

  lemma Piece(line: bytes, lo: nat, p: nat, hi: nat)
    requires OnBoundary(line, lo) && OnBoundary(line, hi) && lo <= p < hi && Boundary(line, p)
    ensures Valid(line[lo..hi]) && Boundary(line[lo..hi], p - lo)
  {
    SplitValid(line, hi);
    SplitValid(line[..hi], lo);
    hide Valid;
    assert line[..hi][lo..] == line[lo..hi];
    assert p > lo ==> line[lo..hi][p - lo] == line[p];
  }

  /** The character in front of a boundary, with whatever follows it. */
  lemma CharBefore(line: bytes, at: nat, rest: bytes)
    requires OnBoundary(line, at) && at > 0
    ensures EndsInSpace(line[..at]) <==> SpaceLen(line[at - PrevLen(line, at)..at] + rest) > 0
  {
    var p := at - PrevLen(line, at);
    NextAfterPrev(line, at);
    EndsInSpaceAt(line, at);
    assert line[p..at][0] == line[p];
    hide EndsInSpace, PrevLen, Boundary;
    SpaceLenOfFirst(line[p..at], rest);
  }

  /** What stands in front of a boundary inside a run. */
  lemma RunBefore(line: bytes, lo: nat, at: nat, hi: nat)
    requires OnBoundary(line, lo) && OnBoundary(line, at) && OnBoundary(line, hi) && lo < at <= hi
    ensures AllSpace(line[lo..hi]) ==> EndsInSpace(line[..at])
    ensures NoSpaceIn(line, lo, hi) ==> !EndsInSpace(line[..at])
  {
    hide Valid, Boundary, AllSpace, NoSpace, EndsInSpace, SpaceLen, LeadLen, PrevLen;
    var p := at - PrevLen(line, at);
    assert lo <= p;
    Piece(line, lo, p, hi);
    CharBefore(line, at, line[at..hi]);
    InsideRun(line[lo..hi], p - lo);
    assert line[lo..hi][p - lo..] == line[p..at] + line[at..hi];
  }

  predicate NoSpaceIn(line: bytes, lo: nat, hi: nat)
    requires lo <= hi <= |line|
  {
    Valid(line[lo..hi]) && NoSpace(line[lo..hi])
  }

  /** A run of white space that is not empty starts on a boundary, and so does a valid piece. */
  lemma RunStarts(line: bytes, lo: nat, hi: nat)
    requires OnBoundary(line, hi) && lo <= hi && (AllSpace(line[lo..hi]) || Valid(line[lo..hi]))
    ensures OnBoundary(line, lo)
  {
    if lo < hi {
      assert line[lo..hi][0] == line[lo];
    }
  }

  /** There is only one word before the cursor. */
  lemma WordIsUnique(line: bytes, at: nat, mid: nat, other: nat, otherMid: nat, cursor: nat)
    requires OnBoundary(line, cursor) && WordBefore(line, at, mid, cursor) && WordBefore(line, other, otherMid, cursor)
    ensures at == other && mid == otherMid
  {
    hide Valid, Boundary, AllSpace, NoSpace, EndsInSpace;
    RunStarts(line, mid, cursor);
    RunStarts(line, otherMid, cursor);
    if mid < otherMid {
      RunBefore(line, mid, otherMid, cursor);
    } else if otherMid < mid {
      RunBefore(line, otherMid, mid, cursor);
    }
    RunStarts(line, at, mid);
    RunStarts(line, other, mid);
    if at < other {
      RunBefore(line, at, other, mid);
    } else if other < at {
      RunBefore(line, other, at, mid);
    }
  }

  // ---- completions -------------------------------------------------------------------

  datatype CandidateKind = Menu | Command | Arg | Value
  datatype Candidate = Candidate(text: bytes, kind: CandidateKind)

  function Separator(kind: CandidateKind): bytes {
    match kind
    case Arg => [0x3D]
    case Value => []
    case _ => [0x20]
  }

  /** Cutting at the position and at the cursor leaves three valid texts. */
  predicate CutsClean(line: bytes, cursor: nat, tokenStart: nat) {
    tokenStart <= cursor <= |line| && Valid(line[..tokenStart]) && Valid(line[tokenStart..cursor]) && Valid(line[cursor..])
  }

  lemma CleanAtBoundary(line: bytes, cursor: nat, tokenStart: nat)
    ensures Valid(line) && tokenStart <= cursor <= |line| && Boundary(line, cursor) ==>
      (CutsClean(line, cursor, tokenStart) <==> Boundary(line, tokenStart))
  {
    if Valid(line) && tokenStart <= cursor <= |line| && Boundary(line, cursor) {
      SplitValid(line, cursor);
      SplitValid(line[..cursor], tokenStart);
      assert line[..cursor][..tokenStart] == line[..tokenStart] && line[..cursor][tokenStart..] == line[tokenStart..cursor];
    }
  }

  /** Where a completion's replacement starts: the device's position, and exactly when replacing the
      text from there to the cursor cuts no character of the line. */
  function CompletionStart(line: bytes, cursor: nat, tokenStart: nat): (start: Option<nat>)
    ensures Valid(line) && cursor <= |line| && Boundary(line, cursor) ==>
      start == if CutsClean(line, cursor, tokenStart) then Some(tokenStart) else None
  {
    CleanAtBoundary(line, cursor, tokenStart);
    if tokenStart <= cursor && cursor <= |line| && Boundary(line, tokenStart) then Some(tokenStart) else None
  }

  // ---- what a key does, in boundaries ----------------------------------------------------

  /** `p` is the greatest char boundary below `cur`. */
  predicate BoundaryBelow(s: bytes, p: nat, cur: nat) {
    p < cur <= |s| && Boundary(s, p) && forall j :: p < j < cur ==> !Boundary(s, j)
  }

  /** `q` is the least char boundary above `cur`. */
  predicate BoundaryAbove(s: bytes, cur: nat, q: nat) {
    cur < q <= |s| && Boundary(s, q) && forall j :: cur < j < q ==> !Boundary(s, j)
  }

  /** The text from `start` to `cur` is replaced and the cursor stands behind the new text. */
  predicate Replaced(before: Saved, start: nat, repl: bytes, after: Saved) {
    && start <= before.cursor <= |before.line|
    && after == Saved(before.line[..start] + repl + before.line[before.cursor..], start + |repl|)
  }

  ghost predicate WordKilled(before: Saved, after: Saved) {
    exists mid :: WordBefore(before.line, after.cursor, mid, before.cursor) && Replaced(before, after.cursor, [], after)
  }

  /** What the key makes of line and cursor. */
  ghost predicate Does(k: Key, before: Saved, after: Saved, searching: Option<Saved>)
    requires before.cursor <= |before.line|
  {
    match k
    case Char(c) => Replaced(before, before.cursor, c, after)
    case Backspace =>
      if before.cursor == 0 then after == before
      else BoundaryBelow(before.line, after.cursor, before.cursor) && Replaced(before, after.cursor, [], after)
    case Left =>
      after.line == before.line && if before.cursor == 0 then after.cursor == 0 else BoundaryBelow(before.line, after.cursor, before.cursor)
    case Right =>
      after.line == before.line &&
        if before.cursor == |before.line| then after.cursor == before.cursor else BoundaryAbove(before.line, before.cursor, after.cursor)
    case Home => after == Saved(before.line, 0)
    case End => after == Saved(before.line, |before.line|)
    case KillToStart => after == Saved(before.line[before.cursor..], 0)
    case KillWord => WordKilled(before, after)
    case Recall(line) => after == Saved(line, |line|)
    case Sent => after == Saved([], 0)
    case StartSearch => after == before
    case SearchTakes(hit) => after == Saved(hit, |hit|)
    case SearchCancels => after == if searching.Some? then searching.value else before
    case Completion(start, candidates, prefix) =>
      if !CutsClean(before.line, before.cursor, start) || candidates == [] then after == before
      else if |candidates| == 1 then
        Replaced(before, start, candidates[0].text + Separator(candidates[0].kind), after)
      else if prefix == [] then after == before else Replaced(before, start, prefix, after)
  }

  // ---- the editor --------------------------------------------------------------------

  datatype Key =
    | Char(c: bytes)
    | Backspace | Left | Right | Home | End
    | KillToStart | KillWord
    | Recall(line: bytes)
    | Sent
    | StartSearch
    | SearchTakes(hit: bytes)
    | SearchCancels
    | Completion(tokenStart: nat, candidates: seq<Candidate>, prefix: bytes)

  /** Texts from outside are Rust strings: valid UTF-8; a typed character is one scalar. */
  predicate WellTyped(k: Key) {
    match k
    case Char(c) => Valid(c) && c != [] && LeadLen(c[0]) == |c|
    case Recall(line) => Valid(line)
    case SearchTakes(hit) => Valid(hit)
    case Completion(_, candidates, prefix) => Valid(prefix) && forall i :: 0 <= i < |candidates| ==> Valid(candidates[i].text)
    case _ => true
  }

  datatype Saved = Saved(line: bytes, cursor: nat)

  class Editor {
    var input: bytes
    var cursor: nat
    /** The line and cursor a running search gives back when it is cancelled. */
    var saved: Option<Saved>

    ghost predicate Sane()
      reads this
    {
      OnBoundary(input, cursor) && (saved.Some? ==> OnBoundary(saved.value.line, saved.value.cursor))
    }

    constructor ()
      ensures Sane() && input == [] && cursor == 0
    {
      input, cursor, saved := [], 0, None;
    }

    method Replace(start: nat, repl: bytes)
      requires Sane() && start <= cursor && Boundary(input, start) && Valid(repl)
      modifies this`input, this`cursor
      ensures Sane() && input == old(input[..start] + repl + input[cursor..]) && cursor == start + |repl|
    {
      SpliceValid(input, start, cursor, repl);
      hide Valid, Boundary;
      input := Splice(input, start, cursor, repl);
      cursor := start + |repl|;
    }

    method Insert(c: bytes)
      requires Sane() && Valid(c)
      modifies this`input, this`cursor
      ensures Sane() && input == old(input[..cursor] + c + input[cursor..]) && cursor == old(cursor) + |c|
    {
      Replace(cursor, c);
    }

    /** The character before the cursor goes, whole. */
    method DeleteBack()
      requires Sane()
      modifies this`input, this`cursor
      ensures Sane()
      ensures if old(cursor) == 0 then cursor == 0 else BoundaryBelow(old(input), cursor, old(cursor))
      ensures var n := old(PrevLen(input, cursor));
        cursor == old(cursor) - n && input == old(input)[..cursor] + old(input)[old(cursor)..]
    {
      var n := PrevChar(input, cursor);
      Replace(cursor - n, []);
      assert old(input)[..cursor] + [] == old(input)[..cursor];
    }

    method MoveLeft()
      requires Sane()
      modifies this`cursor
      ensures Sane() && cursor == old(cursor) - PrevLen(input, old(cursor))
      ensures if old(cursor) == 0 then cursor == 0 else BoundaryBelow(input, cursor, old(cursor))
    {
      var n := PrevChar(input, cursor);
      cursor := cursor - n;
    }

    method MoveRight()
      requires Sane()
      modifies this`cursor
      ensures Sane() && cursor == old(cursor) + NextLen(input, old(cursor))
      ensures if old(cursor) == |input| then cursor == old(cursor) else BoundaryAbove(input, old(cursor), cursor)
    {
      if cursor < |input| {
        NextLenIsBoundary(input, cursor);
        cursor := cursor + NextLen(input, cursor);
      }
    }

    /** A typed character can be taken back: the line and the cursor are as before. */
    method InsertThenDelete(c: bytes)
      requires Sane() && WellTyped(Char(c))
      modifies this`input, this`cursor
      ensures input == old(input) && cursor == old(cursor)
    {
      var line, at := input, cursor;
      Insert(c);
      InsertedIsNext(line, at, c);
      hide Valid, Boundary, LeadLen, NextLen, PrevLen;
      DeleteBack();
      assert (line[..at] + c + line[at..])[..at] == line[..at] && (line[..at] + c + line[at..])[at + |c|..] == line[at..];
      assert line == line[..at] + line[at..];
    }

    /** Where the white space before `to` starts. */
    method SkipSpace(to: nat) returns (at: nat)
      requires OnBoundary(input, to)
      ensures at <= to && Boundary(input, at) && AllSpace(input[at..to]) && !EndsInSpace(input[..at])
    {
      EmptyRun(input, to);
      EmptyEnd(input);
      hide Valid, Boundary, AllSpace, EndsInSpace, SpaceLen, PrevLen, NoSpace;
      at := to;
      while at > 0
        invariant at <= to && Boundary(input, at) && Valid(input[at..to]) && AllSpace(input[at..to])
        decreases at
      {
        var p := PrevChar(input, at);
        EndsInSpaceAt(input, at);
        if SpaceLen(input[at - p..at]) == 0 {
          return;
        }
        RunGrows(input, at, to);
        at := at - p;
      }
    }

    /** Where the word before `to` starts. */
    method SkipWord(to: nat) returns (at: nat)
      requires OnBoundary(input, to)
      ensures at <= to && Boundary(input, at) && Valid(input[at..to]) && NoSpace(input[at..to])
      ensures at == 0 || EndsInSpace(input[..at])
    {
      EmptyRun(input, to);
      hide Valid, Boundary, AllSpace, EndsInSpace, SpaceLen, PrevLen, NoSpace;
      at := to;
      while at > 0
        invariant at <= to && Boundary(input, at) && Valid(input[at..to]) && NoSpace(input[at..to])
        decreases at
      {
        var p := PrevChar(input, at);
        EndsInSpaceAt(input, at);
        if SpaceLen(input[at - p..at]) > 0 {
          return;
        }
        RunGrows(input, at, to);
        at := at - p;
      }
    }

    /** The white space before the cursor, then the word before that. */
    method FindWord() returns (at: nat, ghost mid: nat)
      requires Sane()
      ensures WordBefore(input, at, mid, cursor) && Boundary(input, at)
    {
      hide Valid, Boundary, AllSpace, EndsInSpace, SpaceLen, PrevLen, NoSpace;
      at := SkipSpace(cursor);
      mid := at;
      at := SkipWord(at);
    }

    /** Ctrl+W. */
    method KillWord() returns (ghost at: nat, ghost mid: nat)
      requires Sane()
      modifies this`input, this`cursor
      ensures Sane() && WordBefore(old(input), at, mid, old(cursor))
      ensures input == old(input)[..at] + old(input)[old(cursor)..] && cursor == at
    {
      var start;
      start, mid := FindWord();
      at := start;
      Replace(start, []);
      assert old(input)[..at] + [] == old(input)[..at];
    }

    method Set(line: bytes, at: nat)
      requires Sane() && OnBoundary(line, at)
      modifies this`input, this`cursor
      ensures Sane() && input == line && cursor == at
    {
      input, cursor := line, at;
    }

    /** A completion for the line: one candidate is put in with its separator, several only with their
        common prefix; a position that cannot be used changes nothing. */
    method ApplyCompletion(tokenStart: nat, candidates: seq<Candidate>, prefix: bytes)
      requires Sane() && WellTyped(Completion(tokenStart, candidates, prefix))
      modifies this`input, this`cursor
      ensures Sane()
      ensures var repl := if |candidates| == 1 then candidates[0].text + Separator(candidates[0].kind) else prefix;
        if tokenStart <= old(cursor) && Boundary(old(input), tokenStart) && candidates != [] && (|candidates| == 1 || prefix != [])
        then input == old(input)[..tokenStart] + repl + old(input)[old(cursor)..] && cursor == tokenStart + |repl|
        else input == old(input) && cursor == old(cursor)
    {
      var start := CompletionStart(input, cursor, tokenStart);
      if start.None? {
        return;
      }
      if |candidates| == 1 {
        ConcatValid(candidates[0].text, Separator(candidates[0].kind));
        Replace(start.value, candidates[0].text + Separator(candidates[0].kind));
      } else if candidates != [] && prefix != [] {
        Replace(start.value, prefix);
      }
    }

    /** Every key, history move, search outcome and completion does its work, and keeps the cursor in the
        line and on a character boundary. */
    method Handle(k: Key)
      requires Sane() && WellTyped(k)
      modifies this
      ensures Sane()
      ensures Does(k, old(Saved(input, cursor)), Saved(input, cursor), old(saved))
      ensures k.Home? || k.End? || k.Left? || k.Right? || k.StartSearch? ==> input == old(input)
      ensures k.Home? ==> cursor == 0
      ensures k.End? ==> cursor == |input|
      ensures k.KillToStart? ==> input == old(input)[old(cursor)..] && cursor == 0
      ensures k.Recall? ==> input == k.line && cursor == |k.line|
      ensures k.Sent? ==> input == [] && cursor == 0
      ensures k.StartSearch? ==> cursor == old(cursor) && saved == Some(Saved(input, cursor))
      ensures k.SearchTakes? ==> input == k.hit && cursor == |k.hit| && saved == None
      // A cancelled search gives back the line and the cursor it started from, whatever came between.
      ensures k.SearchCancels? && old(saved).Some? ==> Saved(input, cursor) == old(saved).value && saved == None
      ensures !(k.StartSearch? || k.SearchTakes? || k.SearchCancels?) ==> saved == old(saved)
    {
      hide Valid, Boundary, WordBefore, CutsClean;
      match k
      case Char(c) => Insert(c);
      case Backspace =>
        DeleteBack();
        assert old(input)[..cursor] + [] == old(input)[..cursor];
      case Left => MoveLeft();
      case Right => MoveRight();
      case Home => cursor := 0; EdgesAreBoundaries(input);
      case End => cursor := |input|; EdgesAreBoundaries(input);
      case KillToStart => EdgesAreBoundaries(input); EmptyIsValid(); Replace(0, []);
      case KillWord =>
        ghost var at, mid := KillWord();
        assert old(input)[..at] + [] == old(input)[..at];
      case Recall(line) => EdgesAreBoundaries(line); Set(line, |line|);
      case Sent => EdgesAreBoundaries([]); EmptyIsValid(); Set([], 0);
      case StartSearch => saved := Some(Saved(input, cursor));
      case SearchTakes(hit) =>
        EdgesAreBoundaries(hit);
        Set(hit, |hit|);
        saved := None;
      case SearchCancels =>
        if saved.Some? {
          Set(saved.value.line, saved.value.cursor);
          saved := None;
        }
      case Completion(tokenStart, candidates, prefix) =>
        CleanAtBoundary(input, cursor, tokenStart);
        if tokenStart > cursor {
          NotClean(input, cursor, tokenStart);
        }
        ApplyCompletion(tokenStart, candidates, prefix);
    }
  }

  /** A character put in at the cursor is the one in front of the new cursor. */
  lemma InsertedIsNext(line: bytes, at: nat, c: bytes)
    requires OnBoundary(line, at) && WellTyped(Char(c))
    ensures PrevLen(line[..at] + c + line[at..], at + |c|) == |c|
  {
    SpliceValid(line, at, at, c);
    var more := line[..at] + c + line[at..];
    assert more[at] == c[0];
    hide Valid;
    PrevAfterNext(more, at);
  }

  lemma NotClean(line: bytes, cursor: nat, tokenStart: nat)
    requires tokenStart > cursor
    ensures !CutsClean(line, cursor, tokenStart)
  {
  }

  lemma EdgesAreBoundaries(s: bytes)
    ensures Boundary(s, 0) && Boundary(s, |s|)
  {
  }

  lemma EmptyIsValid()
    ensures Valid([])
  {
  }

  lemma EmptyEnd(s: bytes)
    ensures !EndsInSpace(s[..0])
  {
  }

  lemma EmptyRun(s: bytes, at: nat)
    requires at <= |s|
    ensures s[at..at] == [] && Valid(s[at..at]) && AllSpace(s[at..at]) && NoSpace(s[at..at])
  {
  }
}
