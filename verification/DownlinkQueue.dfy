/** The gateway's downlink queue: a fixed pool of opaque payloads awaiting a sleeping node's next
    uplink. The pool is an array of slots; its meaning is a set of items, and first-in first-out per
    node comes from the insertion stamps. */
module DownlinkQueue {
  import opened Basics

  const QUEUE_CAP := 4
  const PER_NODE_CAP := 2
  const MAX_ITEM := 74



  /** One queued downlink; `order` is the pool-insertion stamp. */
  datatype Item = Item(id: u16, node: Addr, at: nat, ttl: u16, order: nat, data: bytes)

  datatype PushError = Full | PerNodeFull | BadPayload
  datatype PushResult = Ok(id: u16) | Err(error: PushError)

  function Age(it: Item, now: nat): nat {
    if now <= it.at then 0 else now - it.at
  }

  predicate Expired(it: Item, now: nat) {
    Age(it, now) >= it.ttl * 1000
  }

  /** An item lives for its `ttl` seconds from its arrival on a millisecond clock, and not longer; a clock
      that stands before the arrival counts as the arrival. */
  lemma LivesItsTtl(it: Item, now: nat)
    ensures !Expired(it, now) <==> it.ttl > 0 && now < it.at + it.ttl * 1000
  {
  }

  /** An expired item stays expired. */
  lemma ExpiredStays(it: Item, now: nat, later: nat)
    requires now <= later && Expired(it, now)
    ensures Expired(it, later)
  {
  }

  // ---- the queue as a set of items ---------------------------------------------------

  function ForNode(items: set<Item>, node: Addr): set<Item> {
    set it | it in items && it.node == node
  }

  function CountFor(items: set<Item>, node: Addr): nat {
    |ForNode(items, node)|
  }

  predicate HasFor(items: set<Item>, node: Addr) {
    exists it :: it in items && it.node == node
  }

  lemma CountPositiveIffHas(items: set<Item>, node: Addr)
    ensures CountFor(items, node) > 0 <==> HasFor(items, node)
  {
    if it :| it in items && it.node == node {
      assert it in ForNode(items, node);
    }
    if CountFor(items, node) > 0 {
      var it :| it in ForNode(items, node);
    }
  }

  /** The oldest item for `node` that has not expired: what an uplink of the node is answered with. */
  predicate IsHead(items: set<Item>, node: Addr, now: nat, it: Item) {
    && it in items && it.node == node && !Expired(it, now)
    && forall o :: o in items && o.node == node && !Expired(o, now) ==> it.order <= o.order
  }

  predicate NoHead(items: set<Item>, node: Addr, now: nat) {
    forall it :: it in items && it.node == node ==> Expired(it, now)
  }

  predicate Waiting(slot: Option<Item>, node: Addr, now: nat) {
    slot.Some? && slot.value.node == node && !Expired(slot.value, now)
  }

  /** The shape every operation keeps. */
  ghost predicate WellFormed(items: set<Item>, nextOrder: nat) {
    && (forall a, b :: a in items && b in items && a.id == b.id ==> a == b)
    && (forall a, b :: a in items && b in items && a.order == b.order ==> a == b)
    && (forall a :: a in items ==> a.id != 0 && a.order < nextOrder && 0 < |a.data| <= MAX_ITEM)
    && |items| <= QUEUE_CAP
    && (forall n :: CountFor(items, n) <= PER_NODE_CAP)
  }

  // ---- the slots ---------------------------------------------------------------------

  function InSlots(slots: seq<Option<Item>>): set<Item> {
    set i | 0 <= i < |slots| && slots[i].Some? :: slots[i].value
  }

  /** No item sits in two slots. */
  predicate Distinct(slots: seq<Option<Item>>) {
    forall i, j :: 0 <= i < j < |slots| && slots[i].Some? && slots[j].Some? ==> slots[i].value.id != slots[j].value.id
  }

  function Occupied(slots: seq<Option<Item>>): nat {
    if slots == [] then 0
    else Occupied(slots[..|slots| - 1]) + (if slots[|slots| - 1].Some? then 1 else 0)
  }

  lemma {:induction false} OccupiedIsSize(slots: seq<Option<Item>>)
    requires Distinct(slots)
    ensures Occupied(slots) == |InSlots(slots)|
    ensures Occupied(slots) <= |slots|
    ensures Occupied(slots) == |slots| <==> forall i :: 0 <= i < |slots| ==> slots[i].Some?
  {
    if slots != [] {
      var k := |slots| - 1;
      var init := slots[..k];
      hide InSlots;
      OccupiedIsSize(init);
      SlotsSnoc(slots);
      if slots[k].Some? {
        LastIsNew(slots);
      }
    }
  }

  lemma LastIsNew(slots: seq<Option<Item>>)
    requires Distinct(slots) && slots != [] && slots[|slots| - 1].Some?
    ensures slots[|slots| - 1].value !in InSlots(slots[..|slots| - 1])
  {
  }

  lemma SlotsSnoc(slots: seq<Option<Item>>)
    requires slots != []
    ensures var k := |slots| - 1;
      InSlots(slots) == InSlots(slots[..k]) + (if slots[k].Some? then {slots[k].value} else {})
  {
  }

  lemma SlotCleared(slots: seq<Option<Item>>, i: nat)
    requires Distinct(slots) && i < |slots| && slots[i].Some?
    ensures Distinct(slots[i := None])
    ensures InSlots(slots[i := None]) == InSlots(slots) - {slots[i].value}
  {
    var t := slots[i := None];
    forall it | it in InSlots(slots) - {slots[i].value} ensures it in InSlots(t) {
      var j :| 0 <= j < |slots| && slots[j].Some? && slots[j].value == it;
      assert t[j].Some? && t[j].value == it;
    }
    forall it | it in InSlots(t) ensures it in InSlots(slots) - {slots[i].value} {
      var j :| 0 <= j < |t| && t[j].Some? && t[j].value == it;
      assert slots[j] == t[j];
    }
  }

  lemma SlotFilled(slots: seq<Option<Item>>, i: nat, it: Item)
    requires Distinct(slots) && i < |slots| && slots[i].None?
    requires forall o :: o in InSlots(slots) ==> o.id != it.id
    ensures Distinct(slots[i := Some(it)])
    ensures InSlots(slots[i := Some(it)]) == InSlots(slots) + {it}
  {
    var t := slots[i := Some(it)];
    assert forall j :: 0 <= j < |slots| && slots[j].Some? ==> slots[j].value in InSlots(slots);
    forall o | o in InSlots(slots) + {it} ensures o in InSlots(t) {
      if o == it {
        assert t[i].Some? && t[i].value == it;
      } else {
        var j :| 0 <= j < |slots| && slots[j].Some? && slots[j].value == o;
        assert t[j] == slots[j];
      }
    }
    forall o | o in InSlots(t) ensures o in InSlots(slots) + {it} {
      var j :| 0 <= j < |t| && t[j].Some? && t[j].value == o;
      if j != i { assert t[j] == slots[j]; }
    }
  }

  lemma SubsetKeepsShape(items: set<Item>, fewer: set<Item>, nextOrder: nat)
    requires WellFormed(items, nextOrder) && fewer <= items
    ensures WellFormed(fewer, nextOrder)
  {
    Cardinality(fewer, items);
    forall n ensures CountFor(fewer, n) <= PER_NODE_CAP {
      Cardinality(ForNode(fewer, n), ForNode(items, n));
      assert CountFor(items, n) <= PER_NODE_CAP;
    }
  }

  lemma {:induction false} Cardinality<T>(a: set<T>, b: set<T>)
    requires a <= b
    ensures |a| <= |b|
    decreases a
  {
    if x :| x in a {
      Cardinality(a - {x}, b - {x});
    }
  }

  lemma PushKeepsShape(items: set<Item>, it: Item, nextOrder: nat)
    requires WellFormed(items, nextOrder)
    requires |items| < QUEUE_CAP && CountFor(items, it.node) < PER_NODE_CAP
    requires it.order == nextOrder && it.id != 0 && 0 < |it.data| <= MAX_ITEM
    requires forall o :: o in items ==> o.id != it.id
    ensures WellFormed(items + {it}, nextOrder + 1)
  {
    var more := items + {it};
    forall n ensures CountFor(more, n) <= PER_NODE_CAP {
      if n == it.node {
        assert ForNode(more, n) == ForNode(items, n) + {it};
      } else {
        assert ForNode(more, n) == ForNode(items, n);
        assert CountFor(items, n) <= PER_NODE_CAP;
      }
    }
  }

  function NextId(id: u16): (r: u16)
    ensures r != 0
  {
    if id == 0xFFFF then 1 else id + 1
  }

  lemma CountStep(slots: seq<Option<Item>>, node: Addr)
    requires Distinct(slots) && slots != []
    ensures var s := slots[|slots| - 1];
      CountFor(InSlots(slots), node) == CountFor(InSlots(slots[..|slots| - 1]), node)
        + (if s.Some? && s.value.node == node then 1 else 0)
  {
    hide InSlots;
    var s, before := slots[|slots| - 1], InSlots(slots[..|slots| - 1]);
    SlotsSnoc(slots);
    if s.Some? && s.value.node == node {
      LastIsNew(slots);
      assert ForNode(before + {s.value}, node) == ForNode(before, node) + {s.value};
    } else {
      assert ForNode(InSlots(slots), node) == ForNode(before, node);
    }
  }

  class Queue {
    const slots: array<Option<Item>>
    var nextId: u16
    var nextOrder: nat

    ghost predicate Valid()
      reads this, slots
    {
      && slots.Length == QUEUE_CAP
      && Distinct(slots[..])
      && nextId != 0
      && WellFormed(Items(), nextOrder)
    }

    function Items(): set<Item>
      reads this, slots
    {
      InSlots(slots[..])
    }

    constructor ()
      ensures Valid() && fresh(slots)
      ensures Items() == {} && nextOrder == 0 && nextId == 1
    {
      slots := new Option<Item>[QUEUE_CAP](_ => None);
      nextId, nextOrder := 1, 0;
      new;
      assert InSlots(slots[..]) == {};
      forall n ensures CountFor({}, n) == 0 {
        assert ForNode({}, n) == {};
      }
    }

    /** Items queued for `node`. */
    method Count(node: Addr) returns (n: nat)
      requires Valid()
      ensures n == CountFor(Items(), node)
    {
      hide WellFormed;
      n := 0;
      assert ForNode(InSlots(slots[..0]), node) == {};
      for i := 0 to slots.Length
        invariant n == CountFor(InSlots(slots[..i]), node)
      {
        CountStep(slots[..i + 1], node);
        assert slots[..i + 1][..i] == slots[..i];
        if slots[i].Some? && slots[i].value.node == node {
          n := n + 1;
        }
      }
      assert slots[..slots.Length] == slots[..];
    }

    /** The first free slot, if any. */
    method FreeSlot() returns (slot: Option<nat>)
      requires Valid()
      ensures slot.Some? ==> slot.value < slots.Length && slots[slot.value].None?
      ensures slot.None? <==> |Items()| == QUEUE_CAP
    {
      OccupiedIsSize(slots[..]);
      for i := 0 to slots.Length
        invariant forall j :: 0 <= j < i ==> slots[j].Some?
      {
        if slots[i].None? {
          return Some(i);
        }
      }
      return None;
    }

    /** Whether a queued item holds `id`. */
    method HoldsId(id: u16) returns (held: bool)
      requires Valid()
      ensures held <==> id in Ids(Items())
    {
      hide WellFormed;
      for i := 0 to slots.Length
        invariant forall j :: 0 <= j < i && slots[j].Some? ==> slots[j].value.id != id
      {
        if slots[i].Some? && slots[i].value.id == id {
          assert slots[..][i].value in Items();
          return true;
        }
      }
      assert forall it :: it in Items() ==> it.id != id;
      return false;
    }

    /** The next id no queued item holds. At most four are taken, so the search ends within five
        steps, across the wrap too. */
    method FreshId() returns (id: u16)
      requires Valid()
      ensures id != 0 && id !in Ids(Items())
    {
      IdsAtMost(Items());
      ghost var taken := Ids(Items());
      assert |taken| <= QUEUE_CAP;
      hide WellFormed, InSlots, Ids;
      id := nextId;
      ghost var steps := 0;
      assert Tried(nextId, 0) == {};
      var held := HoldsId(id);
      while held
        invariant id == StepId(nextId, steps)
        invariant held <==> id in taken
        invariant Tried(nextId, steps) <= taken && steps <= QUEUE_CAP
        decreases QUEUE_CAP - steps
      {
        SearchStep(nextId, steps, taken);
        steps := steps + 1;
        id := NextId(id);
        held := HoldsId(id);
      }
    }

    method Push(node: Addr, ttl: u16, data: bytes, now: nat) returns (r: PushResult)
      requires Valid()
      modifies this, slots
      ensures Valid()
      ensures r.Err? ==> Items() == old(Items()) && nextOrder == old(nextOrder)
      ensures r == Err(BadPayload) <==> data == [] || |data| > MAX_ITEM
      ensures r == Err(PerNodeFull) <==> 0 < |data| <= MAX_ITEM && CountFor(old(Items()), node) >= PER_NODE_CAP
      ensures r == Err(Full) <==> 0 < |data| <= MAX_ITEM && CountFor(old(Items()), node) < PER_NODE_CAP && |old(Items())| >= QUEUE_CAP
      ensures r.Ok? ==> r.id != 0 && r.id !in Ids(old(Items())) && nextOrder == old(nextOrder) + 1
      ensures r.Ok? ==> Items() == old(Items()) + {Item(r.id, node, now, ttl, old(nextOrder), data)}
    {
      if data == [] || |data| > MAX_ITEM {
        return Err(BadPayload);
      }
      var n := Count(node);
      if n >= PER_NODE_CAP {
        return Err(PerNodeFull);
      }
      var slot := FreeSlot();
      if slot.None? {
        return Err(Full);
      }
      var id := FreshId();
      var it := Item(id, node, now, ttl, nextOrder, data);
      SlotFilled(slots[..], slot.value, it);
      PushKeepsShape(Items(), it, nextOrder);
      nextId := NextId(id);
      slots[slot.value] := Some(it);
      assert slots[..] == old(slots[..])[slot.value := Some(it)];
      nextOrder := nextOrder + 1;
      return Ok(id);
    }

    method PeekFor(node: Addr, now: nat) returns (head: Option<Item>)
      requires Valid()
      ensures head.Some? ==> IsHead(Items(), node, now, head.value)
      ensures head.None? ==> NoHead(Items(), node, now)
    {
      hide WellFormed;
      head := None;
      for i := 0 to slots.Length
        invariant head.Some? ==> head.value in Items() && head.value.node == node && !Expired(head.value, now)
        invariant forall j :: 0 <= j < i && Waiting(slots[j], node, now) ==>
          head.Some? && head.value.order <= slots[j].value.order
      {
        assert slots[..][i] == slots[i];
        if Waiting(slots[i], node, now) {
          if head.None? || slots[i].value.order < head.value.order {
            head := slots[i];
          }
        }
      }
    }

    /** The queued item with this id, if any. */
    method Find(id: u16) returns (held: Option<Item>)
      requires Valid()
      ensures held.Some? ==> held.value in Items() && held.value.id == id
      ensures held.None? ==> forall it :: it in Items() ==> it.id != id
    {
      hide WellFormed;
      for i := 0 to slots.Length
        invariant forall j :: 0 <= j < i && slots[j].Some? ==> slots[j].value.id != id
      {
        if slots[i].Some? && slots[i].value.id == id {
          assert slots[..][i].value in Items();
          return slots[i];
        }
      }
      return None;
    }

    /** The items of `node`, or of every node when it is 0, each once. */
    method ListFor(node: Addr) returns (listing: seq<Item>)
      requires Valid()
      ensures forall it :: it in listing <==> it in Items() && (node == 0 || it.node == node)
      ensures forall i, j :: 0 <= i < j < |listing| ==> listing[i] != listing[j]
    {
      hide WellFormed;
      listing := [];
      for i := 0 to slots.Length
        invariant forall it :: it in listing <==> it in InSlots(slots[..i]) && (node == 0 || it.node == node)
        invariant forall a, b :: 0 <= a < b < |listing| ==> listing[a] != listing[b]
      {
        SlotsSnoc(slots[..i + 1]);
        assert slots[..i + 1][..i] == slots[..i];
        if slots[i].Some? {
          LastIsNew(slots[..i + 1]);
          if node == 0 || slots[i].value.node == node {
            listing := listing + [slots[i].value];
          }
        }
      }
      assert slots[..slots.Length] == slots[..];
    }

    /** Empty one slot. */
    method Clear(i: nat)
      requires Valid() && i < slots.Length && slots[i].Some?
      modifies slots
      ensures Valid()
      ensures old(slots[i].value) in old(Items()) && Items() == old(Items()) - {old(slots[i].value)}
      ensures slots[..] == old(slots[..])[i := None]
    {
      assert slots[..][i] == slots[i];
      SlotCleared(slots[..], i);
      SubsetKeepsShape(Items(), Items() - {slots[i].value}, nextOrder);
      slots[i] := None;
      assert slots[..] == old(slots[..])[i := None];
    }

    /** Remove the item with this id, if it is queued. */
    method Pop(id: u16) returns (it: Option<Item>)
      requires Valid()
      modifies slots
      ensures Valid()
      ensures it.Some? ==> it.value in old(Items()) && it.value.id == id && Items() == old(Items()) - {it.value}
      ensures it.None? ==> id !in Ids(old(Items())) && Items() == old(Items())
    {
      hide WellFormed;
      for i := 0 to slots.Length
        invariant slots[..] == old(slots[..])
        invariant forall j :: 0 <= j < i && slots[j].Some? ==> slots[j].value.id != id
      {
        if slots[i].Some? && slots[i].value.id == id {
          it := slots[i];
          Clear(i);
          return;
        }
      }
      assert forall o :: o in Items() ==> o.id != id;
      return None;
    }

    /** Drop every item of `node`; how many. */
    method DropNode(node: Addr) returns (n: nat)
      requires Valid()
      modifies slots
      ensures Valid()
      ensures Items() == old(Items()) - ForNode(old(Items()), node)
      ensures n == CountFor(old(Items()), node)
    {
      hide WellFormed;
      n := 0;
      ghost var before := Items();
      ghost var gone: set<Item> := {};
      for i := 0 to slots.Length
        invariant Valid() && Items() == before - gone
        invariant gone <= ForNode(before, node) && n == |gone|
        invariant forall j :: 0 <= j < i && slots[j].Some? ==> slots[j].value.node != node
      {
        if slots[i].Some? && slots[i].value.node == node {
          gone := gone + {slots[i].value};
          Clear(i);
          n := n + 1;
        }
      }
      assert forall it :: it in Items() ==> it.node != node;
      assert ForNode(before, node) == gone;
    }

    /** Drop the expired items and report each. */
    method Expire(now: nat) returns (reported: seq<Item>)
      requires Valid()
      modifies slots
      ensures Valid()
      ensures Items() == Live(old(Items()), now)
      ensures forall it :: it in reported <==> it in old(Items()) && Expired(it, now)
      ensures forall i, j :: 0 <= i < j < |reported| ==> reported[i] != reported[j]
    {
      hide WellFormed, Expired;
      reported := [];
      ghost var before := Items();
      ghost var gone: set<Item> := {};
      for i := 0 to slots.Length
        invariant Valid() && Items() == before - gone
        invariant forall it :: it in gone ==> it in before && Expired(it, now)
        invariant forall it :: it in reported <==> it in gone
        invariant forall a, b :: 0 <= a < b < |reported| ==> reported[a] != reported[b]
        invariant forall j :: 0 <= j < i && slots[j].Some? ==> !Expired(slots[j].value, now)
      {
        if slots[i].Some? && Expired(slots[i].value, now) {
          gone := gone + {slots[i].value};
          reported := reported + [slots[i].value];
          Clear(i);
        }
      }
      assert forall it :: it in Items() ==> !Expired(it, now);
      assert Items() == Live(before, now);
    }
  }

  /** What expiry leaves. */
  function Live(items: set<Item>, now: nat): set<Item> {
    set it | it in items && !Expired(it, now)
  }

  function Ids(items: set<Item>): set<u16> {
    set it | it in items :: it.id
  }

  lemma {:induction false} IdsAtMost(items: set<Item>)
    ensures |Ids(items)| <= |items|
    decreases items
  {
    if it :| it in items {
      IdsAtMost(items - {it});
      assert Ids(items) == Ids(items - {it}) + {it.id};
    } else {
      assert Ids(items) == {};
    }
  }

  /** The id after `k` steps of the search. */
  function StepId(id: u16, k: nat): (r: u16)
    requires id != 0
    ensures r != 0
  {
    if k == 0 then id else NextId(StepId(id, k - 1))
  }

  lemma {:induction false} StepIdValue(id: u16, k: nat)
    requires id != 0 && k <= QUEUE_CAP + 1
    ensures StepId(id, k) == if id + k <= 0xFFFF then id + k else id + k - 0xFFFF
  {
    if k > 0 {
      StepIdValue(id, k - 1);
    }
  }

  /** The ids of the first `k` steps. */
  function Tried(id: u16, k: nat): set<u16>
    requires id != 0
  {
    if k == 0 then {} else Tried(id, k - 1) + {StepId(id, k - 1)}
  }

  lemma SearchStep(id: u16, k: nat, taken: set<u16>)
    requires id != 0 && k <= QUEUE_CAP && |taken| <= QUEUE_CAP
    requires Tried(id, k) <= taken && StepId(id, k) in taken
    ensures Tried(id, k + 1) <= taken && k < QUEUE_CAP
  {
    TriedSize(id, k + 1);
    Cardinality(Tried(id, k + 1), taken);
  }

  /** Five steps never come back to the same id, wrap or not. */
  lemma {:induction false} TriedSize(id: u16, k: nat)
    requires id != 0 && k <= QUEUE_CAP + 1
    ensures |Tried(id, k)| == k
    ensures forall j :: k <= j <= QUEUE_CAP + 1 ==> StepId(id, j) !in Tried(id, k)
  {
    if k > 0 {
      TriedSize(id, k - 1);
      StepIdValue(id, k - 1);
      forall j | k <= j <= QUEUE_CAP + 1 ensures StepId(id, j) !in Tried(id, k) {
        StepIdValue(id, j);
        assert StepId(id, j) !in Tried(id, k - 1);
      }
      assert StepId(id, k - 1) !in Tried(id, k - 1);
    }
  }

}
