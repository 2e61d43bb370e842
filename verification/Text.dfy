/** Words and case-insensitive search in UTF-8 text, byte by byte as the host tool does it. */
module Text {
  import opened Basics
  import opened Utf8

  // ---- white space and words ---------------------------------------------------------

  /** Encoded length of the white-space scalar (Unicode property White_Space) that `t` starts with;
      0 if it starts with none. */
  function SpaceLen(t: bytes): (n: nat)
    ensures n <= |t|
    ensures n > 0 ==> ScalarAt(t) && n == LeadLen(t[0])
  {
    if |t| >= 1 && (0x09 <= t[0] <= 0x0D || t[0] == 0x20) then 1
    else if |t| >= 2 && t[0] == 0xC2 && (t[1] == 0x85 || t[1] == 0xA0) then 2
    else if |t| >= 3 && t[0] == 0xE1 && t[1] == 0x9A && t[2] == 0x80 then 3
    else if |t| >= 3 && t[0] == 0xE2 && t[1] == 0x80 && (0x80 <= t[2] <= 0x8A || t[2] == 0xA8 || t[2] == 0xA9 || t[2] == 0xAF) then 3
    else if |t| >= 3 && t[0] == 0xE2 && t[1] == 0x81 && t[2] == 0x9F then 3
    else if |t| >= 3 && t[0] == 0xE3 && t[1] == 0x80 && t[2] == 0x80 then 3
    else 0
  }

  /** Whether a text starts with white space is decided by its first character. */
  lemma SpaceLenOfFirst(c: bytes, rest: bytes)
    requires Valid(c) && c != [] && LeadLen(c[0]) == |c|
    ensures SpaceLen(c + rest) == SpaceLen(c)
    ensures SpaceLen(c) > 0 ==> SpaceLen(c) == |c|
  {
  }

  /** Unicode's White_Space. */
  predicate WhiteSpace(c: Scalar) {
    || 0x09 <= c <= 0x0D || c == 0x20 || c == 0x85 || c == 0xA0 || c == 0x1680
    || 0x2000 <= c <= 0x200A || c == 0x2028 || c == 0x2029 || c == 0x202F || c == 0x205F || c == 0x3000
  }

  lemma SpaceIff(c: Scalar, rest: bytes)
    ensures SpaceLen(Encode(c) + rest) == if WhiteSpace(c) then |Encode(c)| else 0
  {
  }

  predicate AllSpace(t: bytes) {
    t == [] || (SpaceLen(t) > 0 && AllSpace(t[SpaceLen(t)..]))
  }

  predicate NoSpace(t: bytes)
    requires Valid(t)
  {
    t == [] || (SpaceLen(t) == 0 && NoSpace(t[LeadLen(t[0])..]))
  }

  /** A whole first scalar in front of valid text is valid text. */
  lemma TakeScalar(t: bytes, n: nat)
    requires Valid(t) && t != [] && LeadLen(t[0]) <= n <= |t| && Valid(t[LeadLen(t[0])..][..n - LeadLen(t[0])])
    ensures Valid(t[..n])
  {
    Slices(t, LeadLen(t[0]), n);
  }

  lemma Slices(t: bytes, k: nat, n: nat)
    requires k <= n <= |t|
    ensures t[..n][k..] == t[k..][..n - k]
  {
  }

  /** Length of the run of non-white-space scalars at the start. */
  function WordLen(t: bytes): (n: nat)
    requires Valid(t)
    ensures n <= |t|
    ensures t != [] && SpaceLen(t) == 0 ==> n > 0
  {
    if t == [] || SpaceLen(t) > 0 then 0 else LeadLen(t[0]) + WordLen(t[LeadLen(t[0])..])
  }

  lemma {:induction false} WordLenSplits(t: bytes)
    requires Valid(t)
    ensures Valid(t[..WordLen(t)]) && Valid(t[WordLen(t)..])
    ensures WordLen(t) < |t| ==> SpaceLen(t[WordLen(t)..]) > 0
    decreases |t|
  {
    if t == [] || SpaceLen(t) > 0 {
      assert t[..0] == [] && t[0..] == t;
    } else {
      var k, n := LeadLen(t[0]), WordLen(t);
      var rest := t[k..];
      WordLenSplits(rest);
      assert n == k + WordLen(rest);
      hide SpaceLen, WordLen;
      TakeScalar(t, n);
      assert t[n..] == rest[n - k..];
    }
  }

  /** `split_whitespace`. */
  function Words(t: bytes): (words: seq<bytes>)
    requires Valid(t)
    ensures forall w :: w in words ==> w != [] && Valid(w)
    decreases |t|
  {
    if t == [] then []
    else if SpaceLen(t) > 0 then Words(t[SpaceLen(t)..])
    else
      WordLenSplits(t);
      [t[..WordLen(t)]] + Words(t[WordLen(t)..])
  }

  /** Gaps and words taking turns, a gap at either end. */
  function Interleave(gaps: seq<bytes>, words: seq<bytes>): bytes
    requires |gaps| == |words| + 1
  {
    if words == [] then gaps[0] else gaps[0] + (words[0] + Interleave(gaps[1..], words[1..]))
  }

  /** `words` are the maximal runs without white space in `t`, in order: white space is all there is
      around them, and there is some between any two. */
  predicate RunsOf(t: bytes, gaps: seq<bytes>, words: seq<bytes>) {
    && |gaps| == |words| + 1 && t == Interleave(gaps, words)
    && (forall i :: 0 <= i < |gaps| ==> AllSpace(gaps[i]))
    && (forall i :: 0 < i < |words| ==> gaps[i] != [])
    && (forall i :: 0 <= i < |words| ==> IsWord(words[i]))
  }

  predicate IsWord(w: bytes) {
    w != [] && Valid(w) && NoSpace(w)
  }

  /** One more white-space character in front. */
  lemma SpaceInFront(t: bytes, gap: bytes)
    requires SpaceLen(t) > 0 && AllSpace(gap)
    ensures AllSpace(t[..SpaceLen(t)] + gap)
  {
    var c := t[..SpaceLen(t)];
    assert t == c + t[SpaceLen(t)..];
    assert c[0] == t[0] && Valid(c) by {
      assert c[|c|..] == [];
    }
    SpaceLenOfFirst(c, t[SpaceLen(t)..]);
    SpaceLenOfFirst(c, gap);
    assert (c + gap)[|c|..] == gap;
  }

  lemma FirstChar(t: bytes)
    requires Valid(t) && t != []
    ensures var n := LeadLen(t[0]);
      0 < n <= |t| && t[..n][0] == t[0] && Valid(t[..n]) && t == t[..n] + t[n..]
  {
    HasScalar(t);
    hide *;
    NotEmpty(t, LeadLen(t[0]));
    OneScalar(t[..LeadLen(t[0])]);
  }

  lemma HasScalar(t: bytes)
    requires Valid(t) && t != []
    ensures 0 < LeadLen(t[0]) <= |t| && t[..LeadLen(t[0])][0] == t[0] && ScalarAt(t[..LeadLen(t[0])])
  {
    hide SpaceLen;
  }

  lemma OneScalar(c: bytes)
    requires ScalarAt(c) && |c| == LeadLen(c[0])
    ensures Valid(c)
  {
    assert c[|c|..] == [];
  }

  /** The first character of a word, in front of more of it. */
  lemma OneMoreOfWord(t: bytes, k: nat, n: nat)
    requires Valid(t) && t != [] && SpaceLen(t) == 0 && k == LeadLen(t[0]) <= n <= |t|
    requires Valid(t[k..n]) && NoSpace(t[k..n])
    ensures Valid(t[..n]) && NoSpace(t[..n])
  {
    FirstChar(t);
    var c, w := t[..k], t[..n];
    assert w == c + t[k..n] && w[k..] == t[k..n] && w[0] == t[0];
    hide ScalarAt, LeadLen, SpaceLen;
    SpaceLenOfFirst(c, t[k..]);
    SpaceLenOfFirst(c, t[k..n]);
    ConcatValid(c, t[k..n]);
  }

  lemma {:induction false} WordLenIsWord(t: bytes)
    requires Valid(t)
    ensures Valid(t[..WordLen(t)]) && NoSpace(t[..WordLen(t)])
    decreases |t|
  {
    hide SpaceLen, LeadLen;
    if t == [] || SpaceLen(t) > 0 {
      assert t[..0] == [];
    } else {
      var k := LeadLen(t[0]);
      HasScalar(t);
      hide ScalarAt;
      WordLenIsWord(t[k..]);
      hide NoSpace;
      Slices(t, k, WordLen(t));
      assert t[..WordLen(t)][k..] == t[k..WordLen(t)];
      OneMoreOfWord(t, k, WordLen(t));
    }
  }

  lemma WordsBehindSpace(t: bytes)
    requires Valid(t) && SpaceLen(t) > 0
    ensures SpaceLen(t) <= |t| && Valid(t[SpaceLen(t)..]) && Words(t) == Words(t[SpaceLen(t)..]) && t != []
    ensures t == t[..SpaceLen(t)] + t[SpaceLen(t)..]
  {
    hide Words, WordLen;
    WordsOfSpace(t);
  }

  lemma WordsOfSpace(t: bytes)
    requires Valid(t) && SpaceLen(t) > 0
    ensures Valid(t[SpaceLen(t)..]) && Words(t) == Words(t[SpaceLen(t)..])
  {
    hide WordLen;
  }

  lemma WordsOfWord(t: bytes)
    requires Valid(t) && t != [] && SpaceLen(t) == 0
    ensures 0 < WordLen(t) && Valid(t[WordLen(t)..])
    ensures Words(t) == [t[..WordLen(t)]] + Words(t[WordLen(t)..])
    ensures t[WordLen(t)..] == [] || SpaceLen(t[WordLen(t)..]) > 0
  {
    hide SpaceLen, WordLen;
    WordLenSplits(t);
  }

  lemma WordsFromWord(t: bytes)
    requires Valid(t) && t != [] && SpaceLen(t) == 0
    ensures 0 < WordLen(t) <= |t| && Valid(t[WordLen(t)..]) && IsWord(t[..WordLen(t)])
    ensures Words(t) == [t[..WordLen(t)]] + Words(t[WordLen(t)..])
    ensures t[WordLen(t)..] == [] || SpaceLen(t[WordLen(t)..]) > 0
  {
    hide *;
    WordsOfWord(t);
    WordLenIsWord(t);
    NotEmpty(t, WordLen(t));
    IsAWord(t[..WordLen(t)]);
  }

  lemma NotEmpty(t: bytes, n: nat)
    requires 0 < n <= |t|
    ensures t[..n] != [] && t == t[..n] + t[n..]
  {
  }

  /** `Words` are these runs ... */
  lemma {:induction false} WordsAreRuns(t: bytes) returns (gaps: seq<bytes>)
    requires Valid(t)
    ensures RunsOf(t, gaps, Words(t))
    ensures |gaps| > 0 && (SpaceLen(t) > 0 ==> gaps[0] != [])
    decreases |t|
  {
    hide SpaceLen, WordLen, RunsOf, NoSpace, AllSpace, Words, Valid, IsWord;
    if t == [] {
      gaps := [[]];
      EmptyRuns();
    } else if SpaceLen(t) > 0 {
      WordsBehindSpace(t);
      var n := SpaceLen(t);
      var more := WordsAreRuns(t[n..]);
      gaps := [t[..n] + more[0]] + more[1..];
      FirstGap(t[n..], more, Words(t[n..]));
      SpaceInFront(t, more[0]);
      MoreGap(t[..n], t[n..], more, Words(t[n..]));
    } else {
      WordsFromWord(t);
      var n := WordLen(t);
      NotEmpty(t, n);
      var more := WordsAreRuns(t[n..]);
      gaps := [[]] + more;
      AtOnce(t[n..], more);
      MoreWord(t[..n], t[n..], more, Words(t[n..]));
    }
  }

  lemma EmptyRuns()
    ensures RunsOf([], [[]], Words([])) && SpaceLen([]) == 0
  {
  }

  lemma FirstGap(t: bytes, gaps: seq<bytes>, words: seq<bytes>)
    requires RunsOf(t, gaps, words)
    ensures |gaps| > 0 && AllSpace(gaps[0])
  {
    hide AllSpace;
  }

  lemma IsAWord(w: bytes)
    requires w != [] && Valid(w) && NoSpace(w)
    ensures IsWord(w)
  {
  }

  lemma AtOnce(t: bytes, gaps: seq<bytes>)
    requires Valid(t) && RunsOf(t, gaps, Words(t)) && (SpaceLen(t) > 0 ==> gaps[0] != []) && (t == [] || SpaceLen(t) > 0)
    ensures |gaps| == |Words(t)| + 1 && (t != [] ==> gaps[0] != [])
  {
    hide SpaceLen, AllSpace, Words;
  }

  lemma MoreGap(c: bytes, t: bytes, gaps: seq<bytes>, words: seq<bytes>)
    requires RunsOf(t, gaps, words) && AllSpace(c + gaps[0])
    ensures RunsOf(c + t, [c + gaps[0]] + gaps[1..], words)
  {
    var more := [c + gaps[0]] + gaps[1..];
    assert more[1..] == gaps[1..];
    assert forall i :: 0 < i < |gaps| ==> more[i] == gaps[i];
    if words != [] {
      var rest := words[0] + Interleave(gaps[1..], words[1..]);
      assert c + (gaps[0] + rest) == (c + gaps[0]) + rest;
    }
    hide AllSpace, IsWord;
  }

  lemma MoreWord(w: bytes, t: bytes, gaps: seq<bytes>, words: seq<bytes>)
    requires RunsOf(t, gaps, words) && IsWord(w) && (t != [] ==> gaps[0] != [])
    ensures RunsOf(w + t, [[]] + gaps, [w] + words)
  {
    var g, ws := [[]] + gaps, [w] + words;
    assert g[1..] == gaps && ws[1..] == words;
    assert [] + (w + t) == w + t;
    assert forall i :: 0 < i < |g| ==> g[i] == gaps[i - 1];
    assert forall i :: 0 < i < |ws| ==> ws[i] == words[i - 1];
    if |words| > 0 {
      assert IsWord(words[0]) && |t| >= |words[0]|;
    }
    hide AllSpace, IsWord;
  }

  lemma {:induction false} GapSkipped(gap: bytes, t: bytes)
    requires AllSpace(gap) && Valid(t)
    ensures Valid(gap + t) && Words(gap + t) == Words(t)
    decreases |gap|
  {
    if gap == [] {
      assert gap + t == t;
    } else {
      var n := SpaceLen(gap);
      var c := gap[..n];
      assert c[0] == gap[0] && Valid(c) by {
        assert c[n..] == [];
      }
      assert gap == c + gap[n..] && gap + t == c + (gap[n..] + t) && (gap + t)[n..] == gap[n..] + t;
      SpaceLenOfFirst(c, gap[n..]);
      SpaceLenOfFirst(c, gap[n..] + t);
      GapSkipped(gap[n..], t);
      ConcatValid(c, gap[n..] + t);
    }
  }

  /** The first character of a valid text, whatever is put behind the text. */
  lemma FirstOf(t: bytes, more: bytes)
    requires Valid(t) && t != []
    ensures 0 < LeadLen(t[0]) <= |t| && (t + more)[0] == t[0] && (t + more)[LeadLen(t[0])..] == t[LeadLen(t[0])..] + more
    ensures SpaceLen(t + more) == SpaceLen(t)
  {
    hide SpaceLen, LeadLen, ScalarAt, Valid;
    FirstChar(t);
    var n := LeadLen(t[0]);
    var c := t[..n];
    assert t + more == c + (t[n..] + more);
    SpaceLenOfFirst(c, t[n..]);
    SpaceLenOfFirst(c, t[n..] + more);
  }

  lemma {:induction false} WordTaken(w: bytes, t: bytes)
    requires Valid(w) && NoSpace(w) && Valid(t) && (t == [] || SpaceLen(t) > 0)
    ensures Valid(w + t) && WordLen(w + t) == |w|
    decreases |w|
  {
    ConcatValid(w, t);
    if w == [] {
      assert w + t == t;
    } else {
      FirstOf(w, t);
      WordTaken(w[LeadLen(w[0])..], t);
      hide SpaceLen, LeadLen, ScalarAt;
    }
  }

  lemma {:induction false} InterleaveValid(gaps: seq<bytes>, words: seq<bytes>)
    requires |gaps| == |words| + 1
    requires forall i :: 0 <= i < |gaps| ==> AllSpace(gaps[i])
    requires forall i :: 0 <= i < |words| ==> IsWord(words[i])
    ensures Valid(Interleave(gaps, words))
    decreases |words|
  {
    hide AllSpace;
    GapSkipped(gaps[0], []);
    assert gaps[0] + [] == gaps[0];
    if words != [] {
      InterleaveValid(gaps[1..], words[1..]);
      assert IsWord(words[0]);
      ConcatValid(words[0], Interleave(gaps[1..], words[1..]));
      GapSkipped(gaps[0], words[0] + Interleave(gaps[1..], words[1..]));
    }
  }

  /** A text that begins with white space shows it at once. */
  lemma StartsInSpace(gap: bytes, t: bytes)
    requires AllSpace(gap) && gap != []
    ensures SpaceLen(gap + t) > 0
  {
    var n := SpaceLen(gap);
    var c := gap[..n];
    assert c[0] == gap[0] && Valid(c) by {
      assert c[n..] == [];
    }
    assert gap == c + gap[n..] && gap + t == c + (gap[n..] + t);
    SpaceLenOfFirst(c, gap[n..]);
    SpaceLenOfFirst(c, gap[n..] + t);
  }

  /** ... and no other list is. */
  lemma {:induction false} RunsAreUnique(t: bytes, gaps: seq<bytes>, words: seq<bytes>)
    requires RunsOf(t, gaps, words)
    ensures Valid(t) && Words(t) == words
    decreases |words|
  {
    hide AllSpace, IsWord, Valid, Words, SpaceLen;
    InterleaveValid(gaps, words);
    if words == [] {
      EmptyRuns();
      NoWords();
      GapSkipped(gaps[0], []);
      assert gaps[0] + [] == gaps[0];
    } else {
      var w, g, ws := words[0], gaps[1..], words[1..];
      var rest := Interleave(g, ws);
      assert RunsOf(rest, g, ws);
      RunsAreUnique(rest, g, ws);
      if ws == [] {
        GapShows(g[0], []);
        assert g[0] + [] == g[0];
      } else {
        GapShows(g[0], ws[0] + Interleave(g[1..], ws[1..]));
      }
      OneWord(w, rest);
      GapSkipped(gaps[0], w + rest);
      assert words == [w] + ws;
    }
  }

  lemma NoWords()
    ensures Valid([]) && AllSpace([]) && Words([]) == []
  {
  }

  lemma GapShows(gap: bytes, t: bytes)
    requires AllSpace(gap)
    ensures gap == [] || SpaceLen(gap + t) > 0
  {
    if gap != [] {
      StartsInSpace(gap, t);
    }
  }

  lemma OneWord(w: bytes, rest: bytes)
    requires IsWord(w) && Valid(rest) && (rest == [] || SpaceLen(rest) > 0)
    ensures Valid(w + rest) && Words(w + rest) == [w] + Words(rest)
  {
    WordTaken(w, rest);
    var t := w + rest;
    assert t[..|w|] == w && t[|w|..] == rest;
    assert SpaceLen(t) == 0;
  }

  // ---- case-insensitive search -------------------------------------------------------

  /** ASCII lower case; other bytes stay. */
  function Lower(b: byte): byte {
    if 0x41 <= b <= 0x5A then b + 32 else b
  }

  /** The letters of `SameCi` are the 26 of ASCII, each in its two cases. */
  lemma SameLetterIff(a: byte, b: byte)
    ensures Lower(a) == Lower(b) <==>
      a == b || exists k :: 0 <= k < 26 && IsLetter(k, a) && IsLetter(k, b)
  {
    if Lower(a) == Lower(b) && a != b {
      var k := if a < b then a - 65 else b - 65;
      assert IsLetter(k, a) && IsLetter(k, b);
    }
  }

  /** `b` is letter `k` of the alphabet, capital or small. */
  predicate IsLetter(k: nat, b: byte) {
    b == 65 + k || b == 97 + k
  }

  predicate SameCi(a: bytes, b: bytes) {
    |a| == |b| && forall i :: 0 <= i < |a| ==> Lower(a[i]) == Lower(b[i])
  }

  predicate At(hay: bytes, needle: bytes, i: nat) {
    i + |needle| <= |hay| && SameCi(hay[i..i + |needle|], needle)
  }

  predicate FirstAt(hay: bytes, needle: bytes, i: nat) {
    At(hay, needle, i) && forall j: nat :: j < i ==> !At(hay, needle, j)
  }

  /** The first occurrence from `i` on. */
  function FindFrom(hay: bytes, needle: bytes, i: nat): (at: Option<nat>)
    ensures at.Some? ==> At(hay, needle, at.value) && i <= at.value && forall j: nat :: i <= j < at.value ==> !At(hay, needle, j)
    ensures at.None? ==> forall j: nat :: i <= j ==> !At(hay, needle, j)
    decreases |hay| - i
  {
    if i + |needle| > |hay| then None
    else if At(hay, needle, i) then Some(i)
    else FindFrom(hay, needle, i + 1)
  }

  /** An empty needle is found nowhere. */
  function FindCi(hay: bytes, needle: bytes): (at: Option<nat>)
    ensures at.Some? ==> needle != [] && FirstAt(hay, needle, at.value)
    ensures at.None? ==> needle == [] || forall j: nat :: !At(hay, needle, j)
  {
    if needle == [] || |needle| > |hay| then None else FindFrom(hay, needle, 0)
  }

  /** The search loop. */
  method Find(hay: bytes, needle: bytes) returns (at: Option<nat>)
    ensures at == FindCi(hay, needle)
  {
    if needle == [] || |needle| > |hay| {
      return None;
    }
    for i := 0 to |hay| - |needle| + 1
      invariant FindFrom(hay, needle, 0) == FindFrom(hay, needle, i)
    {
      if At(hay, needle, i) {
        return Some(i);
      }
    }
    return None;
  }

  /** `matches`: every word of the query occurs. */
  predicate Matches(entry: bytes, words: seq<bytes>) {
    forall w :: w in words ==> FindCi(entry, w).Some?
  }

  // ---- a match starts and ends on char boundaries ------------------------------------

  lemma LowerClass(a: byte, b: byte)
    requires Lower(a) == Lower(b)
    ensures Continuation(a) == Continuation(b) && LeadLen(a) == LeadLen(b) && (a >= 0x80 ==> a == b)
  {
  }

  /** A valid text in front of which equal-but-for-case bytes stand is cut where the other ends. */
  lemma {:induction false} MatchEndsOnBoundary(x: bytes, y: bytes)
    requires Valid(x) && Valid(y) && |y| <= |x| && SameCi(x[..|y|], y)
    ensures Valid(x[..|y|]) && Valid(x[|y|..])
  {
    if y == [] {
      assert x[..0] == [] && x[0..] == x;
    } else {
      assert x[..|y|][0] == x[0];
      LowerClass(x[0], y[0]);
      var n := LeadLen(y[0]);
      var x1, y1 := x[n..], y[n..];
      forall i | 0 <= i < |y1| ensures Lower(x1[..|y1|][i]) == Lower(y1[i]) {
        assert x[..|y|][i + n] == x1[i];
      }
      hide Lower, LeadLen;
      MatchEndsOnBoundary(x1, y1);
      assert |y1| == |y| - n;
      TakeScalar(x, |y|);
      assert x[|y|..] == x1[|y1|..];
    }
  }

  /** UTF-8 synchronizes itself: a match of a valid word in valid text can be cut out safely. */
  lemma MatchOnBoundaries(hay: bytes, needle: bytes, i: nat)
    requires Valid(hay) && Valid(needle) && needle != [] && At(hay, needle, i)
    ensures Boundary(hay, i) && Boundary(hay, i + |needle|)
  {
    var n := |needle|;
    assert hay[i..i + n][0] == hay[i];
    LowerClass(hay[i], needle[0]);
    SplitValid(hay, i);
    var rest := hay[i..];
    assert rest[..n] == hay[i..i + n];
    MatchEndsOnBoundary(rest, needle);
    SplitValid(rest, n);
    assert i + n < |hay| ==> rest[n] == hay[i + n];
  }
}
