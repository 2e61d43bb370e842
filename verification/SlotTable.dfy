/** A fixed-size table of records found by radio address: the radio's peer table and the gateway's
    link statistics are both such arrays of optional slots. A table means a map from addresses to
    values. */
module SlotTable {
  import opened Basics

  /** The registry, the peer table and the statistics have the same size. */
  const CAPACITY := 16

  datatype Entry<+V> = Entry(addr: Addr, value: V)

  predicate Distinct<V>(slots: seq<Option<Entry<V>>>) {
    forall i, j :: 0 <= i < j < |slots| && slots[i].Some? && slots[j].Some? ==> slots[i].value.addr != slots[j].value.addr
  }

  function Table<V>(slots: seq<Option<Entry<V>>>): map<Addr, V>
    requires Distinct(slots)
  {
    map i | 0 <= i < |slots| && slots[i].Some? :: slots[i].value.addr := slots[i].value.value
  }

  lemma SlotInTable<V>(slots: seq<Option<Entry<V>>>, i: nat)
    requires Distinct(slots) && i < |slots| && slots[i].Some?
    ensures slots[i].value.addr in Table(slots) && Table(slots)[slots[i].value.addr] == slots[i].value.value
  {
  }

  lemma SlotOf<V>(slots: seq<Option<Entry<V>>>, addr: Addr) returns (i: nat)
    requires Distinct(slots) && addr in Table(slots)
    ensures i < |slots| && slots[i] == Some(Entry(addr, Table(slots)[addr]))
  {
    i :| 0 <= i < |slots| && slots[i].Some? && slots[i].value.addr == addr;
    SlotInTable(slots, i);
  }

  lemma Written<V>(slots: seq<Option<Entry<V>>>, i: nat, addr: Addr, v: V)
    requires Distinct(slots) && i < |slots|
    requires if slots[i].Some? then slots[i].value.addr == addr else addr !in Table(slots)
    ensures Distinct(slots[i := Some(Entry(addr, v))])
    ensures Table(slots[i := Some(Entry(addr, v))]) == Table(slots)[addr := v]
  {
    hide Table;
    var t := slots[i := Some(Entry(addr, v))];
    forall j | 0 <= j < |slots| && j != i && slots[j].Some? ensures slots[j].value.addr != addr {
      SlotInTable(slots, j);
    }
    SlotInTable(t, i);
    forall a | a in Table(slots) && a != addr ensures a in Table(t) && Table(t)[a] == Table(slots)[a] {
      Elsewhere(slots, t, i, a);
    }
    forall a | a in Table(t) && a != addr ensures a in Table(slots) {
      Elsewhere(t, slots, i, a);
    }
  }

  /** An entry held in another slot than `i` survives a change of slot `i`. */
  lemma Elsewhere<V>(slots: seq<Option<Entry<V>>>, t: seq<Option<Entry<V>>>, i: nat, a: Addr)
    requires Distinct(slots) && Distinct(t) && i < |slots| == |t|
    requires forall j :: 0 <= j < |slots| && j != i ==> t[j] == slots[j]
    requires a in Table(slots) && !(slots[i].Some? && slots[i].value.addr == a)
    ensures a in Table(t) && Table(t)[a] == Table(slots)[a]
  {
  }

  lemma Cleared<V>(slots: seq<Option<Entry<V>>>, i: nat)
    requires Distinct(slots) && i < |slots| && slots[i].Some?
    ensures Distinct(slots[i := None])
    ensures Table(slots[i := None]) == Table(slots) - {slots[i].value.addr}
  {
    hide Table;
    var t, addr := slots[i := None], slots[i].value.addr;
    forall a | a in Table(slots) && a != addr ensures a in Table(t) && Table(t)[a] == Table(slots)[a] {
      Elsewhere(slots, t, i, a);
    }
    forall a | a in Table(t) ensures a in Table(slots) && a != addr {
      Elsewhere(t, slots, i, a);
      var j := SlotOf(t, a);
    }
  }

  /** The pigeonhole behind every "there is always a free slot". */
  lemma {:induction false} FullIffNoFreeSlot<V>(slots: seq<Option<Entry<V>>>)
    requires Distinct(slots)
    ensures |Table(slots)| <= |slots|
    ensures |Table(slots)| == |slots| <==> forall i :: 0 <= i < |slots| ==> slots[i].Some?
  {
    if slots == [] {
      assert Table(slots) == map[];
    } else {
      FullIffNoFreeSlot(slots[..|slots| - 1]);
      TableSnoc(slots);
    }
  }

  lemma TableSnoc<V>(slots: seq<Option<Entry<V>>>)
    requires Distinct(slots) && slots != []
    ensures var init, last := slots[..|slots| - 1], slots[|slots| - 1];
      |Table(slots)| == |Table(init)| + (if last.Some? then 1 else 0)
  {
    hide Table;
    var init, last := slots[..|slots| - 1], slots[|slots| - 1];
    forall a | a in Table(init) ensures a in Table(slots) && !(last.Some? && a == last.value.addr) {
      var j := SlotOf(init, a);
      SlotInTable(slots, j);
    }
    forall a | a in Table(slots) && !(last.Some? && a == last.value.addr) ensures a in Table(init) {
      var j := SlotOf(slots, a);
      SlotInTable(init, j);
    }
    if last.Some? {
      SlotInTable(slots, |slots| - 1);
      assert Table(slots).Keys == Table(init).Keys + {last.value.addr};
    } else {
      assert Table(slots).Keys == Table(init).Keys;
    }
  }

  class Slots<V> {
    const slots: array<Option<Entry<V>>>

    ghost predicate Valid()
      reads slots
    {
      slots.Length == CAPACITY && Distinct(slots[..])
    }

    ghost function Map(): map<Addr, V>
      requires Valid()
      reads slots
    {
      Table(slots[..])
    }

    constructor ()
      ensures Valid() && fresh(slots) && Map() == map[]
    {
      slots := new Option<Entry<V>>[CAPACITY](_ => None);
      new;
      assert Table(slots[..]) == map[];
    }

    /** The slot of `addr`, if it has one. */
    method Find(addr: Addr) returns (slot: Option<nat>)
      requires Valid()
      ensures slot.Some? ==> slot.value < slots.Length && addr in Map() && slots[slot.value] == Some(Entry(addr, Map()[addr]))
      ensures slot.None? ==> addr !in Map()
    {
      for i := 0 to slots.Length
        invariant forall j :: 0 <= j < i && slots[j].Some? ==> slots[j].value.addr != addr
      {
        if slots[i].Some? && slots[i].value.addr == addr {
          SlotInTable(slots[..], i);
          return Some(i);
        }
      }
      return None;
    }

    method FreeSlot() returns (slot: Option<nat>)
      requires Valid()
      ensures slot.Some? ==> slot.value < slots.Length && slots[slot.value].None?
      ensures slot.None? <==> |Map()| == CAPACITY
    {
      FullIffNoFreeSlot(slots[..]);
      for i := 0 to slots.Length
        invariant forall j :: 0 <= j < i ==> slots[j].Some?
      {
        if slots[i].None? {
          assert slots[..][i] == None;
          return Some(i);
        }
      }
      return None;
    }

    /** Write a record into its own slot or into a free one. */
    method Write(i: nat, addr: Addr, v: V)
      requires Valid() && i < slots.Length
      requires if slots[i].Some? then slots[i].value.addr == addr else addr !in Map()
      modifies slots
      ensures Valid() && Map() == old(Map())[addr := v]
    {
      Written(slots[..], i, addr, v);
      slots[i] := Some(Entry(addr, v));
      assert slots[..] == old(slots[..])[i := Some(Entry(addr, v))];
    }

    /** Empty every slot of `addr`. */
    method Remove(addr: Addr)
      requires Valid()
      modifies slots
      ensures Valid() && Map() == old(Map()) - {addr}
    {
      var slot := Find(addr);
      if slot.Some? {
        Cleared(slots[..], slot.value);
        slots[slot.value] := None;
        assert slots[..] == old(slots[..])[slot.value := None];
      }
    }
  }
}
