/** Ctrl-R: the incremental history search. Stepping older and newer walks the list of distinct
    matching commands, each at its newest use, newest first. */
module HistorySearch {
  import opened Basics
  import opened Utf8
  import opened Text

  // ---- the list the search should walk -----------------------------------------------

  /** Entry `i` matches and is the newest use of its command. */
  predicate Offered(entries: seq<bytes>, words: seq<bytes>, i: nat) {
    && i < |entries| && Matches(entries[i], words)
    && forall j :: i < j < |entries| ==> entries[j] != entries[i]
  }

  /** The offered entries below `n`, newest first. */
  function HitsBelow(entries: seq<bytes>, words: seq<bytes>, n: nat): (hits: seq<nat>)
    requires n <= |entries|
    ensures forall k :: 0 <= k < |hits| ==> hits[k] < n && Offered(entries, words, hits[k])
  {
    if n == 0 then []
    else (if Offered(entries, words, n - 1) then [n - 1] else []) + HitsBelow(entries, words, n - 1)
  }

  function Hits(entries: seq<bytes>, words: seq<bytes>): seq<nat> {
    HitsBelow(entries, words, |entries|)
  }

  /** `hits` is every matching command once, at its newest use, newest first. */
  ghost predicate IsList(entries: seq<bytes>, words: seq<bytes>, hits: seq<nat>) {
    && (forall k :: 0 <= k < |hits| ==> Offered(entries, words, hits[k]))
    && (forall a, b :: 0 <= a < b < |hits| ==> hits[a] > hits[b])
    && (forall i: nat :: Offered(entries, words, i) ==> i in hits)
  }

  lemma HitsIsList(entries: seq<bytes>, words: seq<bytes>)
    ensures IsList(entries, words, Hits(entries, words))
  {
    HitsBelowComplete(entries, words, |entries|);
  }

  lemma {:induction false} HitsBelowComplete(entries: seq<bytes>, words: seq<bytes>, n: nat)
    requires n <= |entries|
    ensures forall i: nat :: i < n && Offered(entries, words, i) ==> i in HitsBelow(entries, words, n)
    ensures forall a, b :: 0 <= a < b < |HitsBelow(entries, words, n)| ==> HitsBelow(entries, words, n)[a] > HitsBelow(entries, words, n)[b]
  {
    hide Offered;
    if n > 0 {
      HitsBelowComplete(entries, words, n - 1);
    }
  }

  /** What was shown so far is the list down to the entry shown now. */
  predicate OnTrack(hits: seq<nat>, trail: seq<nat>, cur: nat) {
    |trail| < |hits| && hits[|trail|] == cur && trail == hits[..|trail|]
  }

  /** Some newest use stands for every match. */
  lemma {:induction false} NewestUse(entries: seq<bytes>, words: seq<bytes>, i: nat, n: nat) returns (j: nat)
    requires i < n <= |entries| && Matches(entries[i], words)
    requires forall k :: n <= k < |entries| ==> entries[k] != entries[i]
    ensures i <= j < n && entries[j] == entries[i] && Offered(entries, words, j)
  {
    if entries[n - 1] == entries[i] {
      j := n - 1;
    } else {
      j := NewestUse(entries, words, i, n - 1);
    }
  }

  predicate Indices(trail: seq<nat>, n: nat) {
    forall k :: 0 <= k < |trail| ==> trail[k] < n
  }

  /** The commands already seen: those of the entry shown and of the trail. */
  predicate Seen(entries: seq<bytes>, trail: seq<nat>, cur: nat, e: bytes)
    requires cur < |entries| && Indices(trail, |entries|)
  {
    e == entries[cur] || exists k :: 0 <= k < |trail| && entries[trail[k]] == e
  }

  /** Every match between `i` and the entry shown has been seen. */
  predicate SeenAbove(entries: seq<bytes>, words: seq<bytes>, trail: seq<nat>, cur: nat, i: nat)
    requires cur < |entries| && Indices(trail, |entries|)
  {
    forall j :: i <= j < cur && Matches(entries[j], words) ==> Seen(entries, trail, cur, entries[j])
  }

  /** What comes later in the list is a command not seen yet. */
  lemma LaterIsUnseen(entries: seq<bytes>, words: seq<bytes>, hits: seq<nat>, trail: seq<nat>, cur: nat, k: nat)
    requires IsList(entries, words, hits) && OnTrack(hits, trail, cur) && |trail| < k < |hits|
    requires cur < |entries| && Indices(trail, |entries|)
    ensures !Seen(entries, trail, cur, entries[hits[k]])
  {
  }

  lemma EarlierIsSeen(entries: seq<bytes>, hits: seq<nat>, trail: seq<nat>, cur: nat, k: nat)
    requires OnTrack(hits, trail, cur) && k <= |trail| && cur < |entries| && Indices(trail, |entries|)
    ensures hits[k] < |entries| && Seen(entries, trail, cur, entries[hits[k]])
  {
  }

  /** The first match not seen yet is the next of the list. */
  lemma UnseenIsNext(entries: seq<bytes>, words: seq<bytes>, hits: seq<nat>, trail: seq<nat>, cur: nat, i: nat)
    requires IsList(entries, words, hits) && OnTrack(hits, trail, cur)
    requires cur < |entries| && Indices(trail, |entries|)
    requires i < cur && Matches(entries[i], words) && !Seen(entries, trail, cur, entries[i])
    requires SeenAbove(entries, words, trail, cur, i + 1)
    ensures |trail| + 1 < |hits| && hits[|trail| + 1] == i
    ensures OnTrack(hits, trail + [cur], i)
  {
    var p := |trail|;
    var j := NewestUse(entries, words, i, |entries|);
    assert j in hits;
    var k :| 0 <= k < |hits| && hits[k] == j;
    hide Matches;
    if k <= p {
      EarlierIsSeen(entries, hits, trail, cur, k);
      assert false;
    }
    LaterIsUnseen(entries, words, hits, trail, cur, k);
    assert j == i;
    if k > p + 1 {
      assert Offered(entries, words, hits[p + 1]) && i < hits[p + 1] < cur;
      LaterIsUnseen(entries, words, hits, trail, cur, p + 1);
      assert false;
    }
    assert hits[..p + 1] == hits[..p] + [hits[p]];
  }

  /** No unseen match is left only at the end of the list. */
  lemma NothingUnseenIsEnd(entries: seq<bytes>, words: seq<bytes>, hits: seq<nat>, trail: seq<nat>, cur: nat)
    requires IsList(entries, words, hits) && OnTrack(hits, trail, cur)
    requires cur < |entries| && Indices(trail, |entries|) && SeenAbove(entries, words, trail, cur, 0)
    ensures |trail| + 1 == |hits|
  {
    var p := |trail|;
    if p + 1 < |hits| {
      assert Offered(entries, words, hits[p + 1]) && hits[p + 1] < cur;
      LaterIsUnseen(entries, words, hits, trail, cur, p + 1);
      assert false;
    }
  }

  /** The newest match of all starts the list. */
  lemma NewestMatchIsFirst(entries: seq<bytes>, words: seq<bytes>, hits: seq<nat>, i: nat)
    requires IsList(entries, words, hits) && i < |entries| && Matches(entries[i], words)
    requires forall j :: i < j < |entries| ==> !Matches(entries[j], words)
    ensures OnTrack(hits, [], i)
  {
    assert Offered(entries, words, i);
    var k :| 0 <= k < |hits| && hits[k] == i;
    assert Offered(entries, words, hits[0]);
    assert k == 0;
  }

  lemma NoMatchNoList(entries: seq<bytes>, words: seq<bytes>, hits: seq<nat>)
    requires IsList(entries, words, hits) && forall j: nat :: j < |entries| ==> !Matches(entries[j], words)
    ensures hits == []
  {
    assert hits != [] ==> Offered(entries, words, hits[0]);
  }

  // ---- the search --------------------------------------------------------------------

  class Search {
    const entries: seq<bytes>
    var query: bytes
    var hit: Option<nat>
    var trail: seq<nat>

    /** The trail and the entry shown are a prefix of the list; nothing is shown exactly when the
        query is blank or nothing matches. */
    ghost predicate Valid()
      reads this
    {
      && Utf8.Valid(query)
      && Indices(trail, |entries|)
      && match hit
         case Some(i) => i < |entries| && Words(query) != [] && OnTrack(List(), trail, i)
         case None => trail == [] && (Words(query) == [] || List() == [])
    }

    /** The commands the query offers. */
    ghost function List(): seq<nat>
      requires Utf8.Valid(query)
      reads this`query
    {
      Hits(entries, Words(query))
    }

    constructor (entries: seq<bytes>)
      ensures Valid() && this.entries == entries && query == []
    {
      this.entries, query, hit, trail := entries, [], None, [];
    }

    method EntryMatches(i: nat, words: seq<bytes>) returns (m: bool)
      requires i < |entries|
      ensures m == Matches(entries[i], words)
    {
      for k := 0 to |words|
        invariant forall j :: 0 <= j < k ==> FindCi(entries[i], words[j]).Some?
      {
        var at := Find(entries[i], words[k]);
        if at.None? {
          return false;
        }
      }
      return true;
    }

    /** A changed query searches from the newest command again. */
    method Restart()
      requires Utf8.Valid(query)
      modifies this`hit, this`trail
      ensures Valid() && trail == []
    {
      trail, hit := [], None;
      var words := Words(query);
      if words == [] {
        return;
      }
      HitsIsList(entries, words);
      hide Matches, Words, Hits, IsList;
      var i: nat := |entries|;
      while i > 0
        invariant i <= |entries| && trail == [] && hit == None
        invariant forall j: nat :: i <= j < |entries| ==> !Matches(entries[j], words)
      {
        i := i - 1;
        var m := EntryMatches(i, words);
        if m {
          NewestMatchIsFirst(entries, words, List(), i);
          hit := Some(i);
          return;
        }
      }
      NoMatchNoList(entries, words, List());
    }

    method PushChar(c: bytes)
      requires Valid() && Utf8.Valid(c)
      modifies this
      ensures Valid() && query == old(query) + c && trail == []
    {
      ConcatValid(query, c);
      query := query + c;
      Restart();
    }

    /** Backspace: the last character goes, whole. */
    method PopChar()
      requires Valid()
      modifies this
      ensures Valid() && trail == []
      ensures query == if old(query) == [] then [] else old(query)[..FloorBoundary(old(query), |old(query)| - 1)]
    {
      if query != [] {
        var take := StepDown(query, |query| - 1);
        SplitValid(query, take);
        query := query[..take];
      }
      Restart();
    }

    method IsSeen(cur: nat, e: bytes) returns (seen: bool)
      requires cur < |entries| && Indices(trail, |entries|)
      ensures seen == Seen(entries, trail, cur, e)
    {
      if e == entries[cur] {
        return true;
      }
      for k := 0 to |trail|
        invariant forall j :: 0 <= j < k ==> trail[j] < |entries| && entries[trail[j]] != e
      {
        if entries[trail[k]] == e {
          return true;
        }
      }
      return false;
    }

    /** The newest match below `cur` not seen yet. */
    method NextUnseen(words: seq<bytes>, cur: nat) returns (next: Option<nat>)
      requires cur < |entries| && Indices(trail, |entries|)
      ensures next.Some? ==>
        && next.value < cur && Matches(entries[next.value], words) && !Seen(entries, trail, cur, entries[next.value])
        && SeenAbove(entries, words, trail, cur, next.value + 1)
      ensures next.None? ==> SeenAbove(entries, words, trail, cur, 0)
    {
      hide Matches, Seen;
      var i: nat := cur;
      while i > 0
        invariant i <= cur && SeenAbove(entries, words, trail, cur, i)
      {
        i := i - 1;
        var m := EntryMatches(i, words);
        if m {
          var seen := IsSeen(cur, entries[i]);
          if !seen {
            return Some(i);
          }
        }
      }
      return None;
    }

    /** The next older matching command not shown yet; at the end of the list nothing moves. */
    method Older()
      requires Valid()
      modifies this`hit, this`trail
      ensures Valid() && (hit.Some? <==> old(hit).Some?)
      ensures old(hit).Some? ==>
        if |old(trail)| + 1 == |List()| then hit == old(hit) && trail == old(trail)
        else hit == Some(List()[|old(trail)| + 1]) && trail == old(trail) + [old(hit).value]
    {
      if hit.None? {
        return;
      }
      var words, cur := Words(query), hit.value;
      HitsIsList(entries, words);
      hide Matches, Words, Hits, Seen, SeenAbove, IsList;
      var next := NextUnseen(words, cur);
      match next
      case Some(i) =>
        UnseenIsNext(entries, words, List(), trail, cur, i);
        trail := trail + [cur];
        hit := next;
      case None =>
        NothingUnseenIsEnd(entries, words, List(), trail, cur);
    }

    /** Back to the newer match stepped past. */
    method Newer()
      requires Valid()
      modifies this`hit, this`trail
      ensures Valid()
      ensures if old(trail) == [] then hit == old(hit) && trail == []
        else hit == Some(old(trail)[|old(trail)| - 1]) && trail == old(trail)[..|old(trail)| - 1]
    {
      hide Words, Hits;
      if trail != [] {
        hit := Some(trail[|trail| - 1]);
        trail := trail[..|trail| - 1];
      }
    }

    /** `Newer` exactly undoes an `Older` that moved. */
    method OlderThenNewer()
      requires Valid() && hit.Some? && |trail| + 1 < |List()|
      modifies this`hit, this`trail
      ensures hit == old(hit) && trail == old(trail)
    {
      Older();
      Newer();
    }
  }
}
