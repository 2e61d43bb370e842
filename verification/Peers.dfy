/** The radio layer's peer table, which gateways and nodes share: one key per peer address. */
module Peers {
  import opened Basics
  import opened SlotTable

  type Key = bytes

  /** One entry: the link key, and whether ACKs advertise a queued downlink. */
  datatype Peer = Peer(key: Key, pending: bool)

  /** Addresses a peer may have: not reserved, not the device's own. */
  predicate PeerAddrValid(addr: Addr, own: Addr) {
    addr != 0 && addr != 0xFFFF_FFFF && addr != own
  }

  function WithPending(peers: map<Addr, Peer>, a: Addr, pending: bool): map<Addr, Peer> {
    if a in peers then peers[a := peers[a].(pending := pending)] else peers
  }

  /** The part of the radio layer the application steers: its peers and their pending flags. */
  class Net {
    const own: Addr
    const table: Slots<Peer>

    constructor (own: Addr)
      ensures this.own == own && fresh(table) && fresh(table.slots) && table.Valid() && table.Map() == map[]
    {
      this.own := own;
      table := new Slots();
    }

    /** Register a peer, or re-key a known one in place. */
    method AddPeer(addr: Addr, key: Key) returns (ok: bool)
      requires table.Valid()
      modifies table.slots
      ensures table.Valid()
      ensures ok <==> PeerAddrValid(addr, own) && (addr in old(table.Map()) || |old(table.Map())| < CAPACITY)
      ensures var m := old(table.Map());
        table.Map() == if ok then m[addr := Peer(key, addr in m && m[addr].pending)] else m
    {
      if !PeerAddrValid(addr, own) {
        return false;
      }
      var slot := table.Find(addr);
      if slot.Some? {
        table.Write(slot.value, addr, table.slots[slot.value].value.value.(key := key));
        return true;
      }
      slot := table.FreeSlot();
      FullIffNoFreeSlot(table.slots[..]);
      if slot.None? {
        return false;
      }
      table.Write(slot.value, addr, Peer(key, false));
      return true;
    }

    method RemovePeer(addr: Addr)
      requires table.Valid()
      modifies table.slots
      ensures table.Valid() && table.Map() == old(table.Map()) - {addr}
    {
      table.Remove(addr);
    }

    method SetPending(addr: Addr, pending: bool)
      requires table.Valid()
      modifies table.slots
      ensures table.Valid() && table.Map() == WithPending(old(table.Map()), addr, pending)
    {
      var slot := table.Find(addr);
      if slot.Some? {
        table.Write(slot.value, addr, table.slots[slot.value].value.value.(pending := pending));
      }
    }
  }
}
