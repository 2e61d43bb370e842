/** The node's side of over-the-air pairing: a provisional key, a commit round of confirmed uplinks
    under it, and the way back when no acknowledgement comes. */
module Pairing {
  import opened Basics
  import opened SlotTable
  import opened Peers
  import opened GatewaySpec

  const COMMIT_ATTEMPTS := 6

  /** The persisted pairing. */
  datatype Provision = Provision(gw: Addr, key: Key, band: u8, channel: u8)

  datatype CommitStep = Commit | Retry | Discard

  /** What a commit attempt decides; attempts count from 1. */
  function CommitStepOf(attempt: nat, delivered: bool): CommitStep {
    if delivered then Commit else if attempt >= COMMIT_ATTEMPTS then Discard else Retry
  }

  datatype Outcome =
    | PairedWith(rec: Provision, persisted: bool)
    | NoWindow
    | Unconfirmed
    | Refused

  /** One confirmed uplink of the round. */
  datatype Attempt = Attempt(gw: Addr, key: Key, delivered: bool)

  // ---- the air, with the gateways on it ----------------------------------------------

  /** Gateway `v` has `node` in its peer table under `key`: only then can it seal an ACK that the
      node accepts under that key. */
  predicate Keyed(v: View, node: Addr, key: Key) {
    node in v.assets.peers && v.assets.peers[node].key == key
  }

  /** Everything a node cannot know: the gateways at each moment, and which exchanges get through.
      Both are arbitrary. */
  class Air {
    const world: nat -> map<Addr, View>
    const heard: nat -> bool
    var moment: nat
    ghost var attempts: seq<Attempt>

    constructor (world: nat -> map<Addr, View>, heard: nat -> bool)
      ensures this.world == world && this.heard == heard && moment == 0 && attempts == []
    {
      this.world, this.heard, moment, attempts := world, heard, 0, [];
    }

    /** A confirmed uplink under `key`: acknowledged if it and its ACK get through and the gateway of
        that address holds the key just then. */
    method Uplink(node: Addr, gw: Addr, key: Key) returns (delivered: bool)
      modifies this
      ensures moment == old(moment) + 1
      ensures attempts == old(attempts) + [Attempt(gw, key, delivered)]
      ensures delivered <==> heard(moment) && Acknowledges(world(moment), node, gw, key)
    {
      moment := moment + 1;
      delivered := heard(moment) && Acknowledges(world(moment), node, gw, key);
      attempts := attempts + [Attempt(gw, key, delivered)];
    }
  }

  predicate Acknowledges(gateways: map<Addr, View>, node: Addr, gw: Addr, key: Key) {
    gw in gateways && Keyed(gateways[gw], node, key)
  }

  // ---- the node ----------------------------------------------------------------------

  function KeysOf(peers: map<Addr, Peer>): map<Addr, Key> {
    map a | a in peers :: peers[a].key
  }

  /** The one peer a node should have. */
  function Wanted(provision: Option<Provision>): map<Addr, Key> {
    match provision
    case None => map[]
    case Some(p) => map[p.gw := p.key]
  }

  lemma KeysPut(peers: map<Addr, Peer>, a: Addr, p: Peer)
    ensures KeysOf(peers[a := p]) == KeysOf(peers)[a := p.key]
  {
  }

  lemma KeysDrop(peers: map<Addr, Peer>, a: Addr)
    ensures KeysOf(peers - {a}) == KeysOf(peers) - {a}
  {
  }

  lemma KeysSize(peers: map<Addr, Peer>)
    ensures |KeysOf(peers)| == |peers| && KeysOf(peers).Keys == peers.Keys
  {
  }

  /** The three ways the provisional key goes: put back, taken out, or taken over. */
  lemma ProvisionalKeys(current: Option<Provision>, gw: Addr, key: Key)
    ensures |Wanted(current)| <= 1
    ensures current.Some? && current.value.gw == gw ==> Wanted(current)[gw := key][gw := current.value.key] == Wanted(current)
    ensures !(current.Some? && current.value.gw == gw) ==> Wanted(current)[gw := key] - {gw} == Wanted(current)
    ensures !(current.Some? && current.value.gw != gw) ==> Wanted(current)[gw := key] == map[gw := key]
    ensures current.Some? && current.value.gw != gw ==> Wanted(current)[gw := key] - {current.value.gw} == map[gw := key]
  {
  }

  lemma OneGateway(p: Provision, key: Key)
    ensures |Wanted(Some(p))[p.gw := key]| == 1
  {
  }

  /** Attempts under one provisional key, none acknowledged. */
  predicate AllUnheard(round: seq<Attempt>, rec: Provision) {
    forall i :: 0 <= i < |round| ==> round[i] == Attempt(rec.gw, rec.key, false)
  }

  /** A commit round as it went on the air: silence, then at most one acknowledgement. */
  predicate IsRound(round: seq<Attempt>, rec: Provision, committed: bool) {
    if committed then
      && 0 < |round| <= COMMIT_ATTEMPTS && AllUnheard(round[..|round| - 1], rec)
      && round[|round| - 1] == Attempt(rec.gw, rec.key, true)
    else |round| == COMMIT_ATTEMPTS && AllUnheard(round, rec)
  }

  class Node {
    const own: Addr
    const net: Net
    var provision: Option<Provision>
    var eeprom: Option<Provision>
    /** Pairings of the boot record or acknowledged by their gateway under the new key. */
    ghost var vouched: set<Provision>

    ghost function Keys(): map<Addr, Key>
      requires net.table.Valid()
      reads net.table.slots
    {
      KeysOf(net.table.Map())
    }

    /** What holds between attempts: the peer table holds exactly the current gateway under the
        current key, and no pairing in RAM or EEPROM lacks a voucher. */
    ghost predicate Valid()
      reads this, net.table.slots
    {
      && net.own == own && net.table.Valid()
      && Keys() == Wanted(provision)
      && (provision.Some? ==> provision.value in vouched && PeerAddrValid(provision.value.gw, own))
      && (eeprom.Some? ==> eeprom.value in vouched)
    }

    /** Boot from the persisted record; one whose gateway the peer table refuses keeps the radio off
        and stays in EEPROM. */
    constructor (own: Addr, stored: Option<Provision>)
      ensures Valid() && fresh(net.table.slots) && eeprom == stored
      ensures provision == if stored.Some? && PeerAddrValid(stored.value.gw, own) then stored else None
      ensures vouched == if stored.Some? then {stored.value} else {}
    {
      this.own := own;
      net := new Net(own);
      provision, eeprom := stored, stored;
      vouched := if stored.Some? then {stored.value} else {};
      new;
      if provision.Some? {
        var ok := net.AddPeer(provision.value.gw, provision.value.key);
        if !ok {
          provision := None;
        }
      }
    }

    /** One commit attempt: a confirmed uplink under the key the peer table holds for `gw`. */
    method CommitUplink(air: Air, gw: Addr) returns (delivered: bool)
      requires net.table.Valid() && gw in net.table.Map()
      modifies air
      ensures air.moment == old(air.moment) + 1
      ensures air.attempts == old(air.attempts) + [Attempt(gw, net.table.Map()[gw].key, delivered)]
      ensures delivered ==> Acknowledges(air.world(air.moment), own, gw, net.table.Map()[gw].key)
    {
      var slot := net.table.Find(gw);
      delivered := air.Uplink(own, gw, net.table.slots[slot.value].value.value.key);
    }

    /** Install or re-key a peer. There is always room: a node has one gateway. */
    method Install(gw: Addr, key: Key) returns (ok: bool)
      requires net.own == own && net.table.Valid() && |Keys()| <= 1
      modifies net.table.slots
      ensures net.table.Valid()
      ensures ok <==> PeerAddrValid(gw, own)
      ensures Keys() == if ok then old(Keys())[gw := key] else old(Keys())
    {
      hide Slots.Map, KeysOf;
      ghost var peers := net.table.Map();
      KeysSize(peers);
      ok := net.AddPeer(gw, key);
      if ok {
        KeysPut(peers, gw, Peer(key, gw in peers && peers[gw].pending));
      }
    }

    /** Back to the pairing in force before, or to none. */
    method Restore(gw: Addr, current: Option<Provision>, ghost key: Key)
      requires net.own == own && net.table.Valid()
      requires current.Some? ==> PeerAddrValid(current.value.gw, own)
      requires Keys() == Wanted(current)[gw := key]
      modifies net.table.slots
      ensures net.table.Valid() && Keys() == Wanted(current)
    {
      ProvisionalKeys(current, gw, key);
      hide Slots.Map, KeysOf, Wanted;
      if current.Some? && current.value.gw == gw {
        OneGateway(current.value, key);
        var ok := Install(gw, current.value.key);
      } else {
        KeysDrop(net.table.Map(), gw);
        net.RemovePeer(gw);
      }
    }

    /** The commit round: at most six confirmed uplinks under the provisional key. Only an
        acknowledgement commits; after the last silence the old peers are back. */
    method CommitRound(air: Air, rec: Provision, current: Option<Provision>) returns (committed: bool)
      requires net.own == own && net.table.Valid()
      requires current.Some? ==> PeerAddrValid(current.value.gw, own)
      requires Keys() == Wanted(current)[rec.gw := rec.key]
      modifies air, net.table.slots
      ensures net.table.Valid()
      ensures Keys() == if committed then Wanted(current)[rec.gw := rec.key] else Wanted(current)
      ensures old(air.attempts) <= air.attempts
      ensures IsRound(air.attempts[|old(air.attempts)|..], rec, committed)
      ensures committed ==> Acknowledges(air.world(air.moment), own, rec.gw, rec.key)
    {
      ghost var sofar := air.attempts;
      assert rec.gw in Keys() && Keys()[rec.gw] == rec.key;
      KeysSize(net.table.Map());
      hide Slots.Map, Wanted;
      var attempt := 0;
      while true
        invariant attempt < COMMIT_ATTEMPTS
        invariant net.table.slots[..] == old(net.table.slots[..])
        invariant sofar <= air.attempts && |air.attempts| == |sofar| + attempt
        invariant AllUnheard(air.attempts[|sofar|..], rec)
        decreases COMMIT_ATTEMPTS - attempt
      {
        attempt := attempt + 1;
        ghost var before := air.attempts;
        var delivered := CommitUplink(air, rec.gw);
        assert air.attempts[|sofar|..] == before[|sofar|..] + [Attempt(rec.gw, rec.key, delivered)];
        match CommitStepOf(attempt, delivered)
        case Commit =>
          return true;
        case Discard =>
          Restore(rec.gw, current, rec.key);
          return false;
        case Retry =>
      }
    }

    /** Committed: retire a previous gateway, then persist. */
    method Adopt(rec: Provision, saved: bool)
      requires net.own == own && net.table.Valid() && PeerAddrValid(rec.gw, own)
      requires Keys() == Wanted(provision)[rec.gw := rec.key]
      requires eeprom.Some? ==> eeprom.value in vouched
      modifies this, net.table.slots
      ensures Valid() && provision == Some(rec) && vouched == old(vouched) + {rec}
      ensures eeprom == if saved then Some(rec) else old(eeprom)
    {
      ProvisionalKeys(provision, rec.gw, rec.key);
      hide Slots.Map, KeysOf;
      if provision.Some? && provision.value.gw != rec.gw {
        KeysDrop(net.table.Map(), provision.value.gw);
        net.RemovePeer(provision.value.gw);
      }
      vouched := vouched + {rec};
      provision := Some(rec);
      if saved {
        eeprom := Some(rec);
      }
    }

    /** One pairing attempt: the handshake's result, if any, then the commit round. `saved` is whether
        the EEPROM takes the record. */
    method PairOnAir(air: Air, joined: Option<PairedPeer>, band: u8, channel: u8, saved: bool) returns (outcome: Outcome)
      requires Valid()
      modifies this, air, net.table.slots
      ensures Valid()
      // A failed attempt leaves the provision, the EEPROM record and the peer keys as they were.
      ensures !outcome.PairedWith? ==> provision == old(provision) && eeprom == old(eeprom) && vouched == old(vouched)
      ensures !outcome.PairedWith? ==> Keys() == old(Keys())
      // Which failure is which.
      ensures outcome == NoWindow <==> joined.None?
      ensures outcome == Refused <==> joined.Some? && !PeerAddrValid(joined.value.addr, own)
      // A success adopts what the handshake gave, and only on an acknowledgement.
      ensures outcome.PairedWith? ==>
        && outcome.rec == Provision(joined.value.addr, joined.value.key, band, channel)
        && Acknowledges(air.world(air.moment), own, outcome.rec.gw, outcome.rec.key)
        && provision == Some(outcome.rec)
        && eeprom == (if saved then provision else old(eeprom)) && outcome.persisted == saved
        && vouched == old(vouched) + {outcome.rec}
      // What went on the air: nothing, or one commit round under the provisional key.
      ensures old(air.attempts) <= air.attempts
      ensures outcome == NoWindow || outcome == Refused ==> air.attempts == old(air.attempts)
      ensures outcome == Unconfirmed || outcome.PairedWith? ==>
        IsRound(air.attempts[|old(air.attempts)|..], Provision(joined.value.addr, joined.value.key, band, channel), outcome.PairedWith?)
    {
      var current := provision;
      if joined.None? {
        return NoWindow;
      }
      var rec := Provision(joined.value.addr, joined.value.key, band, channel);
      ProvisionalKeys(current, rec.gw, rec.key);
      hide Slots.Map, KeysOf, Wanted, IsRound, Keyed;
      var ok := Install(rec.gw, rec.key);
      if !ok {
        return Refused;
      }
      var committed := CommitRound(air, rec, current);
      if !committed {
        return Unconfirmed;
      }
      Adopt(rec, saved);
      return PairedWith(rec, saved);
    }
  }

  // ---- both ends together ------------------------------------------------------------

  /** An acknowledged commit means both ends agree, and durably so on the gateway: a sound gateway has
      the node in its persistent registry under the very key the node adopts. */
  lemma AcknowledgedIsRegistered(gateways: map<Addr, View>, node: Addr, gw: Addr, key: Key)
    requires Acknowledges(gateways, node, gw, key) && Sound(gateways[gw])
    ensures var s := gateways[gw].assets; node in s.nodes && s.nodes[node].key == key && PeerAddrValid(node, s.own)
  {
  }

  /** ... and it stays so through everything the gateway does, joins over the air included, until the
      operator adds or removes that very node by cable. */
  lemma {:induction false} AgreementLasts(views: seq<View>, events: seq<Event>, node: Addr, key: Key)
    requires |views| == |events| + 1 && Sound(views[0])
    requires forall i :: 0 <= i < |events| ==> StepBy(views[i], events[i], views[i + 1]) && !Operates(events[i], node)
    requires Keyed(views[0], node, key)
    ensures Sound(views[|events|]) && Keyed(views[|events|], node, key)
  {
    hide StepBy, Operates, Sound;
    if events != [] {
      assert Sound(views[1]) && Keyed(views[1], node, key) by {
        assert StepBy(views[0], events[0], views[0 + 1]);
        StepSound(views[0], events[0], views[1]);
        StaysKeyed(views[0], events[0], views[1], node, key);
      }
      forall i | 0 <= i < |events| - 1 ensures StepBy(views[1..][i], events[1..][i], views[1..][i + 1]) && !Operates(events[1..][i], node) {
        assert StepBy(views[i + 1], events[i + 1], views[i + 1 + 1]);
      }
      AgreementLasts(views[1..], events[1..], node, key);
    }
  }

  lemma StaysKeyed(v: View, e: Event, w: View, node: Addr, key: Key)
    requires Sound(v) && Sound(w) && StepBy(v, e, w) && !Operates(e, node) && Keyed(v, node, key)
    ensures Keyed(w, node, key)
  {
    hide StepBy, Operates, Flagged, Owned, Sized, Conserved, Accounted;
    KeyStays(v, e, w, node);
  }
}
