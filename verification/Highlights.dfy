/** What the history search marks in the command it shows: the first occurrence of every query word,
    overlapping and touching ones merged. */
module Highlights {
  import opened Basics
  import opened Utf8
  import opened Text

  /** Byte positions `start..end`. */
  datatype Range = Range(start: nat, end: nat)

  predicate In(k: nat, r: Range) {
    r.start <= k < r.end
  }

  predicate Covered(ranges: seq<Range>, k: nat) {
    exists i :: 0 <= i < |ranges| && In(k, ranges[i])
  }

  /** Position `k` belongs to the first occurrence of some word. */
  predicate Marked(entry: bytes, words: seq<bytes>, k: nat) {
    exists w :: w in words && HitBy(entry, w, k)
  }

  predicate HitBy(entry: bytes, word: bytes, k: nat) {
    match FindCi(entry, word)
    case Some(at) => In(k, Range(at, at + |word|))
    case None => false
  }

  /** In bounds, not empty, sorted, with a gap between neighbours. */
  predicate Separated(ranges: seq<Range>) {
    && (forall i :: 0 <= i < |ranges| ==> ranges[i].start < ranges[i].end)
    && (forall i, j :: 0 <= i < j < |ranges| ==> ranges[i].end < ranges[j].start)
  }

  predicate SortedByStart(ranges: seq<Range>) {
    forall i, j :: 0 <= i < j < |ranges| ==> ranges[i].start <= ranges[j].start
  }

  /** Both ends can be sliced at. */
  predicate Sliceable(entry: bytes, r: Range) {
    r.start < r.end <= |entry| && Boundary(entry, r.start) && Boundary(entry, r.end)
  }

  predicate AllSliceable(entry: bytes, ranges: seq<Range>) {
    forall i :: 0 <= i < |ranges| ==> Sliceable(entry, ranges[i])
  }

  lemma CoveredSnoc(ranges: seq<Range>, r: Range, k: nat)
    ensures Covered(ranges + [r], k) <==> Covered(ranges, k) || In(k, r)
  {
    if Covered(ranges, k) {
      var i :| 0 <= i < |ranges| && In(k, ranges[i]);
      assert (ranges + [r])[i] == ranges[i];
    }
    if In(k, r) {
      assert (ranges + [r])[|ranges|] == r;
    }
  }

  /** Growing the last range over one that starts inside it or at its end. */
  lemma CoveredGrow(ranges: seq<Range>, r: Range, k: nat)
    requires ranges != []
    requires var last := ranges[|ranges| - 1]; last.start <= r.start <= last.end
    ensures var last := ranges[|ranges| - 1];
      var grown := Range(last.start, if last.end < r.end then r.end else last.end);
      Covered(ranges[..|ranges| - 1] + [grown], k) <==> Covered(ranges, k) || In(k, r)
  {
    var init, last := ranges[..|ranges| - 1], ranges[|ranges| - 1];
    var grown := Range(last.start, if last.end < r.end then r.end else last.end);
    assert ranges == init + [last];
    CoveredSnoc(init, last, k);
    CoveredSnoc(init, grown, k);
  }

  lemma CoveredPermuted(a: seq<Range>, b: seq<Range>, k: nat)
    requires multiset(a) == multiset(b)
    ensures Covered(a, k) <==> Covered(b, k)
  {
    if Covered(a, k) {
      var i :| 0 <= i < |a| && In(k, a[i]);
      assert a[i] in multiset(b);
    }
    if Covered(b, k) {
      var i :| 0 <= i < |b| && In(k, b[i]);
      assert b[i] in multiset(a);
    }
  }

  /** The first occurrence of each word that has one. */
  method Occurrences(entry: bytes, words: seq<bytes>) returns (found: seq<Range>)
    requires Valid(entry) && forall w :: w in words ==> w != [] && Valid(w)
    ensures AllSliceable(entry, found)
    ensures forall k: nat :: Covered(found, k) <==> Marked(entry, words, k)
  {
    hide FindCi, At, Valid, Boundary, Covered, Marked;
    assert forall k: nat :: !Covered([], k) && !Marked(entry, words[..0], k) by { NothingCovered(); NothingMarked(entry, words); }
    found := [];
    for n := 0 to |words|
      invariant AllSliceable(entry, found)
      invariant forall k: nat :: Covered(found, k) <==> Marked(entry, words[..n], k)
    {
      var w := words[n];
      ghost var before := found;
      var at := Find(entry, w);
      if at.Some? {
        var r := Range(at.value, at.value + |w|);
        FoundAt(entry, w);
        MatchOnBoundaries(entry, w, at.value);
        found := found + [r];
      }
      forall k: nat ensures Covered(found, k) <==> Marked(entry, words[..n + 1], k) {
        MarkedSnoc(entry, words, n, k);
        if at.Some? {
          CoveredSnoc(before, Range(at.value, at.value + |w|), k);
        }
      }
    }
    assert words[..|words|] == words;
  }

  lemma MarkedSnoc(entry: bytes, words: seq<bytes>, n: nat, k: nat)
    requires n < |words|
    ensures Marked(entry, words[..n + 1], k) <==> Marked(entry, words[..n], k) || HitBy(entry, words[n], k)
  {
  }

  lemma NothingMarked(entry: bytes, words: seq<bytes>)
    ensures forall k: nat :: !Marked(entry, words[..0], k)
  {
  }

  lemma FoundAt(entry: bytes, word: bytes)
    requires FindCi(entry, word).Some?
    ensures At(entry, word, FindCi(entry, word).value) && FindCi(entry, word).value + |word| <= |entry|
  {
  }

  lemma InsertedOnce(a: seq<Range>, at: nat, r: Range)
    requires at <= |a|
    ensures multiset(a[..at] + [r] + a[at..]) == multiset(a) + multiset{r}
  {
    assert a == a[..at] + a[at..];
  }

  /** Insert in front of the first later start. */
  method Insert(sorted: seq<Range>, r: Range) returns (more: seq<Range>)
    requires SortedByStart(sorted)
    ensures SortedByStart(more) && multiset(more) == multiset(sorted) + multiset{r}
  {
    var at := |sorted|;
    while at > 0 && sorted[at - 1].start > r.start
      invariant 0 <= at <= |sorted|
      invariant forall j :: at <= j < |sorted| ==> sorted[j].start > r.start
    {
      at := at - 1;
    }
    InsertedOnce(sorted, at, r);
    more := sorted[..at] + [r] + sorted[at..];
  }

  /** `sort_by_key(start)`. */
  method SortByStart(ranges: seq<Range>) returns (sorted: seq<Range>)
    ensures multiset(sorted) == multiset(ranges) && SortedByStart(sorted)
  {
    sorted := [];
    assert SortedByStart(sorted);
    hide SortedByStart;
    for n := 0 to |ranges|
      invariant multiset(sorted) == multiset(ranges[..n]) && SortedByStart(sorted)
    {
      assert ranges[..n + 1] == ranges[..n] + [ranges[n]];
      sorted := Insert(sorted, ranges[n]);
    }
    assert ranges[..|ranges|] == ranges;
  }

  /** Merge overlapping and touching neighbours. */
  method Merge(entry: bytes, sorted: seq<Range>) returns (merged: seq<Range>)
    requires SortedByStart(sorted) && AllSliceable(entry, sorted)
    ensures Separated(merged) && AllSliceable(entry, merged)
    ensures forall k: nat :: Covered(merged, k) <==> Covered(sorted, k)
  {
    hide Covered, Boundary;
    merged := [];
    assert forall k: nat :: !Covered([], k) by { NothingCovered(); }
    for n := 0 to |sorted|
      invariant Separated(merged) && AllSliceable(entry, merged)
      invariant merged != [] ==> n > 0 && merged[|merged| - 1].start <= sorted[n - 1].start
      invariant forall k: nat :: Covered(merged, k) <==> Covered(sorted[..n], k)
    {
      var r := sorted[n];
      ghost var before := merged;
      var joins := merged != [] && r.start <= merged[|merged| - 1].end;
      if joins {
        var last := merged[|merged| - 1];
        merged := merged[..|merged| - 1] + [Range(last.start, if last.end < r.end then r.end else last.end)];
      } else {
        merged := merged + [r];
      }
      forall k: nat ensures Covered(merged, k) <==> Covered(sorted[..n + 1], k) {
        assert sorted[..n + 1] == sorted[..n] + [r];
        CoveredSnoc(sorted[..n], r, k);
        if joins {
          CoveredGrow(before, r, k);
        } else {
          CoveredSnoc(before, r, k);
        }
      }
    }
    assert sorted[..|sorted|] == sorted;
  }

  lemma NothingCovered()
    ensures forall k: nat :: !Covered([], k)
  {
  }

  /** The ranges to mark: in bounds, on char boundaries, sorted and apart, covering exactly the first
      occurrences of the words. */
  method Highlights(entry: bytes, words: seq<bytes>) returns (merged: seq<Range>)
    requires Valid(entry) && forall w :: w in words ==> w != [] && Valid(w)
    ensures Separated(merged) && AllSliceable(entry, merged)
    ensures forall k: nat :: Covered(merged, k) <==> Marked(entry, words, k)
  {
    hide Covered, Marked, Boundary;
    var found := Occurrences(entry, words);
    var sorted := SortByStart(found);
    forall i | 0 <= i < |sorted| ensures Sliceable(entry, sorted[i]) {
      assert sorted[i] in multiset(found);
    }
    forall k: nat ensures Covered(sorted, k) <==> Covered(found, k) {
      CoveredPermuted(sorted, found, k);
    }
    merged := Merge(entry, sorted);
  }

  /** There is only one such list of ranges. */
  lemma {:induction false} SeparatedIsUnique(a: seq<Range>, b: seq<Range>)
    requires Separated(a) && Separated(b)
    requires forall k: nat :: Covered(a, k) <==> Covered(b, k)
    ensures a == b
  {
    CoversInside(a);
    CoversInside(b);
    if a != [] && b != [] {
      FirstStart(a, b);
      FirstStart(b, a);
      FirstEnd(a, b);
      FirstEnd(b, a);
      hide Covered;
      forall k: nat ensures Covered(a[1..], k) <==> Covered(b[1..], k) {
        WithoutFirst(a, k);
        WithoutFirst(b, k);
      }
      SeparatedIsUnique(a[1..], b[1..]);
      assert a == [a[0]] + a[1..] && b == [b[0]] + b[1..];
    }
  }

  lemma CoversInside(a: seq<Range>)
    requires Separated(a)
    ensures a != [] ==> forall k: nat :: In(k, a[0]) ==> Covered(a, k)
    ensures a != [] ==> a[0].start < a[0].end && Covered(a, a[0].start)
  {
  }

  lemma FirstStart(a: seq<Range>, b: seq<Range>)
    requires Separated(a) && Separated(b) && a != [] && b != []
    requires forall k: nat :: Covered(a, k) <==> Covered(b, k)
    ensures a[0].start >= b[0].start
  {
    var k := a[0].start;
    CoversInside(a);
    var i :| 0 <= i < |b| && In(k, b[i]);
    assert i > 0 ==> b[0].end < b[i].start;
  }

  lemma GapBehindFirst(b: seq<Range>)
    requires Separated(b) && b != []
    ensures !Covered(b, b[0].end)
  {
  }

  lemma FirstEnd(a: seq<Range>, b: seq<Range>)
    requires Separated(a) && Separated(b) && a != [] && b != [] && a[0].start == b[0].start
    requires forall k: nat :: Covered(a, k) <==> Covered(b, k)
    ensures a[0].end <= b[0].end
  {
    GapBehindFirst(b);
    CoversInside(a);
    CoversInside(b);
    assert !In(b[0].end, a[0]);
    hide Covered;
  }

  lemma WithoutFirst(a: seq<Range>, k: nat)
    requires Separated(a) && a != []
    ensures Covered(a[1..], k) <==> Covered(a, k) && k >= a[0].end
  {
  }

  // ---- the prompt --------------------------------------------------------------------

  datatype Span = Span(text: bytes, mark: bool)

  function Plain(spans: seq<Span>): bytes {
    if spans == [] then [] else Plain(spans[..|spans| - 1]) + spans[|spans| - 1].text
  }

  lemma PlainSnoc(spans: seq<Span>, s: Span)
    ensures Plain(spans + [s]) == Plain(spans) + s.text
  {
  }

  /** Plain text and marks take turns; the marks are the first `n` ranges. */
  predicate Alternate(hit: bytes, marks: seq<Range>, n: nat, spans: seq<Span>)
    requires n <= |marks|
  {
    && |spans| >= 2 * n
    && forall i :: 0 <= i < n ==>
      && marks[i].start <= marks[i].end <= |hit|
      && spans[2 * i + 1] == Span(hit[marks[i].start..marks[i].end], true) && !spans[2 * i].mark
  }

  predicate AllValid(spans: seq<Span>) {
    forall i :: 0 <= i < |spans| ==> Valid(spans[i].text)
  }

  lemma AllValidSnoc(spans: seq<Span>, s: Span)
    requires AllValid(spans) && Valid(s.text)
    ensures AllValid(spans + [s])
  {
  }

  /** The spans a match is drawn with: nothing is lost, repeated or cut inside a character. */
  method MatchSpans(hit: bytes, words: seq<bytes>) returns (spans: seq<Span>, marks: seq<Range>)
    requires Valid(hit) && forall w :: w in words ==> w != [] && Valid(w)
    ensures Separated(marks) && forall k: nat :: Covered(marks, k) <==> Marked(hit, words, k)
    ensures |spans| == 2 * |marks| + 1 && Alternate(hit, marks, |marks|, spans) && !spans[2 * |marks|].mark
    ensures Plain(spans) == hit && AllValid(spans)
  {
    hide Covered, Marked, Boundary, Plain, AllValid, Valid;
    marks := Highlights(hit, words);
    spans := [];
    var at: nat := 0;
    Ends(hit);
    for n := 0 to |marks|
      invariant |spans| == 2 * n && at <= |hit| && Boundary(hit, at)
      invariant n < |marks| ==> at <= marks[n].start
      invariant Plain(spans) == hit[..at] && AllValid(spans)
      invariant Alternate(hit, marks, n, spans)
    {
      var r := marks[n];
      spans := AddSpan(hit, spans, at, r.start, false);
      spans := AddSpan(hit, spans, r.start, r.end, true);
      at := r.end;
    }
    spans := AddSpan(hit, spans, at, |hit|, false);
    assert hit[..|hit|] == hit;
  }

  method AddSpan(hit: bytes, spans: seq<Span>, from: nat, to: nat, mark: bool) returns (more: seq<Span>)
    requires Valid(hit) && from <= to <= |hit| && Boundary(hit, from) && Boundary(hit, to)
    requires Plain(spans) == hit[..from] && AllValid(spans)
    ensures more == spans + [Span(hit[from..to], mark)] && Plain(more) == hit[..to] && AllValid(more)
  {
    SliceValid(hit, from, to);
    hide Valid, Boundary, AllValid, Plain;
    var s := Span(hit[from..to], mark);
    PlainSnoc(spans, s);
    AllValidSnoc(spans, s);
    assert hit[..from] + hit[from..to] == hit[..to];
    more := spans + [s];
  }

  lemma Ends(hit: bytes)
    ensures Boundary(hit, 0) && Boundary(hit, |hit|) && hit[..0] == [] && Plain([]) == [] && AllValid([])
  {
  }

  /** Between two boundaries the text is valid. */
  lemma SliceValid(s: bytes, from: nat, to: nat)
    requires Valid(s) && from <= to <= |s| && Boundary(s, from) && Boundary(s, to)
    ensures Valid(s[from..to])
  {
    SplitValid(s, from);
    var rest := s[from..];
    SplitValid(rest, to - from);
    assert to < |s| ==> rest[to - from] == s[to];
    assert rest[..to - from] == s[from..to];
  }
}
