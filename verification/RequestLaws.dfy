/** What a management request may count on, told from outside: an OK is given exactly when the request
    can be met, what it reports is then so, and any other answer leaves everything as it was. The
    registry and the statistics, address by address, after any event. */
module RequestLaws {
  import opened Basics
  import opened SlotTable
  import opened Peers
  import opened DownlinkQueue
  import opened GatewaySpec
  import opened Departures

  function Lookup<K, V>(m: map<K, V>, k: K): Option<V> {
    if k in m then Some(m[k]) else None
  }

  /** Room for one more node. */
  predicate Room(s: Assets) {
    |s.nodes| < 16
  }

  predicate Admissible(s: Assets, a: Addr) {
    a != 0 && a != 0xFFFF_FFFF && a != s.own
  }

  /** The gateway grants this request at once. */
  ghost predicate Granted(v: View, op: Op, io: Io) {
    var s := v.assets;
    match op
    case Describe => true
    case NodeList => true
    case StatsConfig(_) => true
    case NodeSide => false
    case NodeAdd(a, _, name, _, floor) =>
      s.writable && Admissible(s, a) && |name| <= 16 && floor != 0xFFFF_FFFF && io.raised && (a in s.nodes || Room(s)) && io.stored
    case NodeRemove(a) => a in s.nodes && io.stored
    case NodeUpdate(a, name, _) => (name.Some? ==> |name.value| <= 16) && a in s.nodes && io.stored
    case NodeRevealKey(a) => a in s.nodes
    case QueuePush(n, _, data) =>
      n in s.nodes && 1 <= |data| <= 74 && |s.items| < 4 && |set it | it in s.items && it.node == n| < 2
    case QueueList(_) => true
    case QueueDrop(n, item) => exists it :: it in s.items && it.node == n && (item == None || item == Some(it.id))
    case PairingOpen(_) => false
    case PairingCancel => true
  }

  /** What an OK says about the state behind it. */
  ghost predicate Tells(v: View, op: Op, io: Io, body: Body, w: View) {
    var s, t := v.assets, w.assets;
    match op
    case Describe => body == Device(s.own, |s.nodes|) && t == s
    case NodeList => body.Nodes? && t == s && Describes(s, io.nowS, body.entries)
    case StatsConfig(period) => w.period == period && t == s
    case NodeSide => true
    case NodeAdd(a, key, name, flags, _) =>
      Lookup(t.nodes, a) == Some(Record(key, flags, name)) && a in t.peers && t.peers[a].key == key
    case NodeRemove(a) =>
      a !in t.nodes && a !in t.peers && a !in t.stats && forall it :: it in t.items ==> it.node != a
    case NodeUpdate(a, name, flags) =>
      && a in s.nodes && a in t.nodes && t.nodes[a].key == s.nodes[a].key
      && t.nodes[a].name == (if name.Some? then name.value else s.nodes[a].name)
      && t.nodes[a].flags == (if flags.Some? then flags.value else s.nodes[a].flags)
    case NodeRevealKey(a) => a in s.nodes && body == Revealed(a, s.nodes[a].key) && t == s
    case QueuePush(n, _, data) =>
      body.QueueId? && exists it :: it in t.items && it !in s.items && it.id == body.item && it.node == n && it.data == data
    case QueueList(n) =>
      && body.Items? && t == s
      && (forall it :: it in body.items <==> it in s.items && (n == 0 || it.node == n))
      && forall i, j :: 0 <= i < j < |body.items| ==> body.items[i] != body.items[j]
    case QueueDrop(n, item) =>
      forall it :: it in t.items <==> it in s.items && !(it.node == n && (item == None || item == Some(it.id)))
    case PairingOpen(_) => true
    case PairingCancel => w.ledger.pairing == None && t == s
  }

  /** The node list: every registered node once, with its flags, name, traffic and waiting items. */
  predicate Describes(s: Assets, nowS: u32, entries: map<Addr, NodeEntry>) {
    && entries.Keys == s.nodes.Keys
    && forall a :: a in entries && a in s.nodes ==>
      && entries[a].flags == s.nodes[a].flags && entries[a].name == s.nodes[a].name
      && entries[a].queued == |set it | it in s.items && it.node == a|
      && (if a in s.stats then entries[a].uplinks == s.stats[a].uplinks && entries[a].rssi == s.stats[a].rssi
          else entries[a].uplinks == 0 && entries[a].rssi == 127 && entries[a].lastSeen == 0xFFFF_FFFF)
      && (a in s.stats ==> entries[a].lastSeen == if s.stats[a].seen < nowS then nowS - s.stats[a].seen else 0)
  }

  /** The reason a refusal gives applies. */
  ghost predicate Applies(v: View, op: Op, io: Io, code: u8) {
    var s := v.assets;
    match code
    case 1 => op.NodeSide? || (op.PairingOpen? && !io.prepared)
    case 2 =>
      || (op.NodeAdd? && (!Admissible(s, op.addr) || |op.name| > 16 || op.txFloor == 0xFFFF_FFFF))
      || (op.NodeUpdate? && op.newName.Some? && |op.newName.value| > 16)
      || (op.QueuePush? && !(1 <= |op.data| <= 74)) || (op.PairingOpen? && op.window == 0)
    case 3 =>
      || ((op.NodeRemove? || op.NodeUpdate? || op.NodeRevealKey?) && op.addr !in s.nodes)
      || (op.QueuePush? && op.node !in s.nodes)
      || (op.QueueDrop? && forall it :: it in s.items && it.node == op.node ==> op.item.Some? && op.item.value != it.id)
    case 4 =>
      || (op.NodeAdd? && op.addr !in s.nodes && !Room(s)) || (op.PairingOpen? && !Room(s))
      || (op.QueuePush? && (|s.items| >= 4 || |set it | it in s.items && it.node == op.node| >= 2))
    case 5 => op.PairingOpen? && v.ledger.pairing.Some?
    case 6 => (op.NodeAdd? && !(s.writable && io.raised && io.stored)) || ((op.NodeRemove? || op.NodeUpdate?) && !io.stored) || (op.PairingOpen? && !s.writable)
    case _ => false
  }

  /** An answer to the request, OK or with its reason, is the truth. */
  ghost predicate Honest(v: View, op: Op, io: Io, answer: Answer, w: View) {
    && (answer.code == 0 <==> Granted(v, op, io))
    && (answer.code == 0 ==> Tells(v, op, io, answer.body, w))
    && (answer.code != 0 ==> Applies(v, op, io, answer.code))
    && (answer.code != 0 ==> w.assets == v.assets && w.period == v.period && answer.body == NoRecord)
  }

  // ---- proofs, group by group -----------------------------------------------------------------

  lemma NodeOpHonest(v: View, op: Op, io: Io, w: View)
    requires v.ledger.asked != [] && Coupled(v.assets)
    requires op.NodeAdd? || op.NodeRemove? || op.NodeUpdate? || op.NodeRevealKey?
    requires Handles(v, op, io, w)
    ensures |w.ledger.answers| == |v.ledger.answers| + 1
    ensures Honest(v, op, io, w.ledger.answers[|v.ledger.answers|], w)
  {
    hide Fated, HasFor, CountFor, Flagged, Owned, WellFormed;
    if op.NodeRemove? && op.addr in v.assets.nodes && io.stored {
      forall it | it in w.assets.items ensures it.node != op.addr {
        assert it !in ForNode(v.assets.items, op.addr);
      }
    }
  }

  lemma DropHonest(v: View, op: Op, io: Io, w: View)
    requires v.ledger.asked != [] && Flagged(v.assets.peers, v.assets.items) && op.QueueDrop? && Handles(v, op, io, w)
    ensures |w.ledger.answers| == |v.ledger.answers| + 1
    ensures Honest(v, op, io, w.ledger.answers[|v.ledger.answers|], w)
  {
    var s, t := v.assets, w.assets;
    var gone := Chosen(s.items, op.node, op.item);
    NothingFated(s.fates);
    SettledIsSame(s, op.node);
    hide HasFor, Fated, WithPending, Flagged;
    if Granted(v, op, io) {
      var it :| it in s.items && it.node == op.node && (op.item == None || op.item == Some(it.id));
      assert it in gone;
      assert t.items == s.items - gone;
    } else {
      assert gone == {} by {
        forall it ensures it !in gone {
        }
      }
      assert s.items - gone == s.items;
    }
  }

  lemma NothingFated(fates: map<nat, Fate>)
    ensures Fated(fates, {}, Dropped) == fates
  {
    var none: set<Item> := {};
    assert (map it | it in none :: it.order := Dropped) == map[];
  }

  lemma SettledIsSame(s: Assets, node: Addr)
    requires Flagged(s.peers, s.items)
    ensures WithPending(s.peers, node, HasFor(s.items, node)) == s.peers
  {
    hide HasFor;
  }

  lemma PushHonest(v: View, op: Op, io: Io, w: View)
    requires v.ledger.asked != [] && op.QueuePush? && Handles(v, op, io, w)
    ensures |w.ledger.answers| == |v.ledger.answers| + 1
    ensures Honest(v, op, io, w.ledger.answers[|v.ledger.answers|], w)
  {
    var s := v.assets;
    assert (set it | it in s.items && it.node == op.node) == ForNode(s.items, op.node);
    if Granted(v, op, io) {
      var id: u16 :| id != 0 && id !in Ids(s.items) && Replies(v, Pushed(s, NewItem(s, id, op.node, op.ttl, op.data, io.now)), MGMT_OK, QueueId(id), w);
      var it := NewItem(s, id, op.node, op.ttl, op.data, io.now);
      assert it in w.assets.items && it !in s.items by {
        assert it in s.items ==> it.id in Ids(s.items);
      }
    }
  }

  lemma OtherHonest(v: View, op: Op, io: Io, w: View)
    requires v.ledger.asked != [] && (op.Describe? || op.NodeList? || op.StatsConfig? || op.NodeSide? || op.QueueList?)
    requires Handles(v, op, io, w)
    ensures |w.ledger.answers| == |v.ledger.answers| + 1
    ensures Honest(v, op, io, w.ledger.answers[|v.ledger.answers|], w)
  {
    if op.NodeList? {
      assert forall a :: (set it | it in v.assets.items && it.node == a) == ForNode(v.assets.items, a);
    }
  }

  /** The new answer is the answer to the request just counted in. */
  lemma AnswersLast(v: View, op: Op, io: Io, w: View)
    requires v.ledger.asked != [] && Handles(v, op, io, w) && !op.PairingOpen? && !op.PairingCancel?
    ensures exists code, body :: w.ledger == Answered(v.ledger, code, body)
  {
    hide Fated, HasFor, CountFor, Entries, Named, Lists, Answered;
  }

  lemma CancelHonest(v: View, op: Op, io: Io, w: View)
    requires v.ledger.asked != [] && op.PairingCancel? && Handles(v, op, io, w)
    ensures w.ledger.answers != [] && v.ledger.answers <= w.ledger.answers && w.ledger.asked == v.ledger.asked
    ensures |w.ledger.answers| == |v.ledger.answers| + (if v.ledger.pairing.Some? then 2 else 1)
    ensures var a := w.ledger.answers[|w.ledger.answers| - 1];
      a.request == |v.ledger.asked| - 1 && a.reqId == v.ledger.asked[|v.ledger.asked| - 1] && Honest(v, op, io, a, w)
  {
  }

  lemma HandledHonest(v: View, op: Op, io: Io, w: View)
    requires v.ledger.asked != [] && Coupled(v.assets) && Handles(v, op, io, w) && !op.PairingOpen? && !op.PairingCancel?
    ensures |w.ledger.answers| == |v.ledger.answers| + 1
    ensures Honest(v, op, io, w.ledger.answers[|v.ledger.answers|], w)
  {
    hide Handles, Honest;
    if op.QueueDrop? {
      DropHonest(v, op, io, w);
    } else if op.QueuePush? {
      PushHonest(v, op, io, w);
    } else if op.NodeAdd? || op.NodeRemove? || op.NodeUpdate? || op.NodeRevealKey? {
      NodeOpHonest(v, op, io, w);
    } else {
      OtherHonest(v, op, io, w);
    }
  }

  /** Honesty is about assets and window, which counting a request in does not touch. */
  lemma SameHonest(v: View, reqId: u16, op: Op, io: Io, a: Answer, w: View)
    requires Honest(v.(ledger := Asked(v.ledger, reqId)), op, io, a, w)
    ensures Honest(v, op, io, a, w)
  {
    hide Describes;
  }

  /** The law of answers: every request but the opening of a window is answered in its own step, under
      its own number and id. The answer is OK exactly when the request can be met, and then what it
      reports is so; any other answer gives a reason that applies and has changed nothing. */
  lemma AnswerIsHonest(v: View, e: Event, w: View)
    requires Sound(v) && StepBy(v, e, w) && e.Request? && !e.op.PairingOpen?
    ensures w.ledger.answers != [] && v.ledger.answers <= w.ledger.answers && w.ledger.asked == v.ledger.asked + [e.reqId]
    ensures |w.ledger.answers| == |v.ledger.answers| + (if e.op.PairingCancel? && v.ledger.pairing.Some? then 2 else 1)
    ensures var a := w.ledger.answers[|w.ledger.answers| - 1];
      a.request == |v.ledger.asked| && a.reqId == e.reqId && Honest(v, e.op, e.io, a, w)
  {
    hide Handles, Honest, Coupled, Conserved, Accounted;
    var u := v.(ledger := Asked(v.ledger, e.reqId));
    assert Coupled(u.assets) && Handles(u, e.op, e.io, w);
    if e.op.PairingCancel? {
      CancelHonest(u, e.op, e.io, w);
    } else {
      HandledHonest(u, e.op, e.io, w);
      AnswersLast(u, e.op, e.io, w);
    }
    SameHonest(v, e.reqId, e.op, e.io, w.ledger.answers[|w.ledger.answers| - 1], w);
  }

  /** The request is answered at once, with a reason that applies. */
  ghost predicate Refused(v: View, reqId: u16, op: Op, io: Io, l: Ledger) {
    && |l.answers| == |v.ledger.answers| + 1 && v.ledger.answers <= l.answers
    && var a := l.answers[|v.ledger.answers|];
      a.request == |v.ledger.asked| && a.reqId == reqId && a.code != 0 && Applies(v, op, io, a.code)
  }

  /** A window closes exactly when the registry is full, its time is over or a node joins, in this
      order, and its request is answered with that: a join is reported with its address, or as a
      storage error when the record was not written. */
  lemma WindowClosesIff(v: View, e: Event, w: View)
    requires Sound(v) && StepBy(v, e, w) && e.PairSlice? && v.ledger.pairing.Some?
    ensures w.ledger.pairing == None <==> !Room(v.assets) || e.ended || e.joined.Some?
    ensures w.ledger.pairing != None ==> w == v
    ensures w.ledger.pairing == None ==> w.ledger.answers == v.ledger.answers + [
      if !Room(v.assets) then Answer(v.ledger.windowReq, v.ledger.pairing.value, 4, NoRecord)
      else if e.ended then Answer(v.ledger.windowReq, v.ledger.pairing.value, 7, NoRecord)
      else if !e.stored then Answer(v.ledger.windowReq, v.ledger.pairing.value, 6, NoRecord)
      else Answer(v.ledger.windowReq, v.ledger.pairing.value, 0, Paired(e.joined.value.addr))]
  {
    hide Conserved, Accounted, Flagged, Owned, WellFormed;
  }

  /** A window opens exactly when none is open, its length is not zero, the registry can be written and
      has room, and a key could be drawn; the opening is answered when the window closes. A refusal
      is answered at once, with a reason that applies. */
  lemma WindowOpensIff(v: View, e: Event, w: View)
    requires StepBy(v, e, w) && e.Request? && e.op.PairingOpen?
    ensures w.assets == v.assets && w.ledger.asked == v.ledger.asked + [e.reqId]
    ensures var opens := v.assets.writable && v.ledger.pairing == None && e.op.window != 0 && Room(v.assets) && e.io.prepared;
      if opens then w.ledger.pairing == Some(e.reqId) && w.ledger.windowReq == |v.ledger.asked| && w.ledger.answers == v.ledger.answers
      else w.ledger.pairing == v.ledger.pairing && Refused(v, e.reqId, e.op, e.io, w.ledger)
  {
  }

  // ---- the registry and the statistics, address by address ---------------------------------------

  /** What the registry holds for `a` after event `e`. */
  ghost function RecordAfter(v: View, e: Event, a: Addr): Option<Record> {
    var before := Lookup(v.assets.nodes, a);
    match e
    case Request(_, op, io) =>
      if op.NodeAdd? && op.addr == a && Granted(v, op, io) then Some(Record(op.key, op.flags, op.name))
      else if op.NodeRemove? && op.addr == a && Granted(v, op, io) then None
      else if op.NodeUpdate? && op.addr == a && Granted(v, op, io) && before.Some? then
        Some(Record(before.value.key, if op.newFlags.Some? then op.newFlags.value else before.value.flags,
          if op.newName.Some? then op.newName.value else before.value.name))
      else before
    case PairSlice(ended, joined, stored) =>
      if Joins(v, ended, joined, stored) && joined.value.addr == a then Some(Record(joined.value.key, 2, [])) else before
    case _ => before
  }

  /** A node joins over the air: a window is open and has not ended, there is room, the address is new
      and the record is written. */
  predicate Joins(v: View, ended: bool, joined: Option<PairedPeer>, stored: bool) {
    v.ledger.pairing.Some? && !ended && joined.Some? && Room(v.assets) && joined.value.addr !in v.assets.nodes && stored
  }

  lemma RequestRecords(v: View, op: Op, io: Io, w: View, e: Event, a: Addr)
    requires v.ledger.asked != [] && e.Request? && e.op == op && e.io == io && Handles(v, op, io, w)
    ensures Lookup(w.assets.nodes, a) == RecordAfter(v, e, a)
  {
    hide Fated, HasFor, CountFor, Entries, Lists, Ids;
  }

  lemma SameRecord(v: View, reqId: u16, e: Event, a: Addr)
    ensures RecordAfter(v.(ledger := Asked(v.ledger, reqId)), e, a) == RecordAfter(v, e, a)
  {
  }

  /** The law of the registry: which record stands under an address after an event, in the fields of the
      request or of the joining node. Nothing else writes it. */
  lemma RegistryFollows(v: View, e: Event, w: View, a: Addr)
    requires StepBy(v, e, w)
    ensures Lookup(w.assets.nodes, a) == RecordAfter(v, e, a)
  {
    match e
    case Request(reqId, op, io) =>
      hide Handles, RecordAfter;
      RequestRecords(v.(ledger := Asked(v.ledger, reqId)), op, io, w, e, a);
      SameRecord(v, reqId, e, a);
    case Uplink(src, rssi, now, nowS, acked) =>
      hide Fated, HasFor, IsHead, NoHead;
    case Housekeeping(now) =>
      hide Fated, Reflagged, Live;
    case PairSlice(_, _, _) =>
  }

  /** What the statistics hold for `a` after event `e`: one more uplink, counted up to 65535, its time
      and its strength clamped to a signed byte; nothing of a node that is gone. */
  ghost function StatAfter(v: View, e: Event, a: Addr): Option<Stat> {
    var before := Lookup(v.assets.stats, a);
    match e
    case Uplink(src, rssi, _, nowS, _) =>
      if src != a then before
      else
        var n := if before.Some? then before.value.uplinks else 0;
        Some(Stat(nowS, if rssi < -128 then -128 else if 127 < rssi then 127 else rssi, if n < 65535 then n + 1 else n))
    case Request(_, op, io) => if op.NodeRemove? && op.addr == a && Granted(v, op, io) then None else before
    case _ => before
  }

  lemma RequestStats(v: View, op: Op, io: Io, w: View, e: Event, a: Addr)
    requires v.ledger.asked != [] && e.Request? && e.op == op && e.io == io && Handles(v, op, io, w)
    ensures Lookup(w.assets.stats, a) == StatAfter(v, e, a)
  {
    hide Fated, HasFor, CountFor, Entries, Lists, Ids;
  }

  lemma StatsFollow(v: View, e: Event, w: View, a: Addr)
    requires StepBy(v, e, w)
    ensures Lookup(w.assets.stats, a) == StatAfter(v, e, a)
  {
    match e
    case Request(reqId, op, io) =>
      hide Handles;
      RequestStats(v.(ledger := Asked(v.ledger, reqId)), op, io, w, e, a);
    case Uplink(src, rssi, now, nowS, acked) =>
      hide Fated, HasFor, IsHead, NoHead;
    case Housekeeping(now) =>
      hide Fated, Reflagged, Live;
    case PairSlice(_, _, _) =>
  }

  lemma RequestSettings(v: View, op: Op, io: Io, w: View)
    requires v.ledger.asked != [] && Handles(v, op, io, w)
    ensures w.assets.own == v.assets.own && w.assets.writable == v.assets.writable
    ensures w.period == if op.StatsConfig? then op.period else v.period
  {
    hide Fated, HasFor, CountFor, Entries, Named, Lists, Ids;
  }

  /** Address and storage of the gateway never change; the report period is the one last asked for, and
      nothing else sets it. */
  lemma SettingsFollow(v: View, e: Event, w: View)
    requires StepBy(v, e, w)
    ensures w.assets.own == v.assets.own && w.assets.writable == v.assets.writable
    ensures w.period == if e.Request? && e.op.StatsConfig? then e.op.period else v.period
  {
    match e
    case Request(reqId, op, io) =>
      hide Handles;
      RequestSettings(v.(ledger := Asked(v.ledger, reqId)), op, io, w);
    case Uplink(src, rssi, now, nowS, acked) =>
      hide Fated, HasFor, IsHead, NoHead;
    case Housekeeping(now) =>
      hide Fated, Reflagged, Live;
    case PairSlice(_, _, _) =>
  }
}
