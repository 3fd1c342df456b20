/** Federated task forwarding: the routing table, one handling of a TASK_FORWARD frame, and whole
    chains of handlings across a network. */
module Forwarding {
  import opened Bytes

  type NodeId = string
  type Pk = seq<Byte>

  const PEER_TIMEOUT_S: real := 90.0
  const MAX_PEERS: nat := 100

  // ---- the routing table ----

  datatype PeerRecord = PeerRecord(id: NodeId, host: string, port: nat, lastSeen: real, hops: nat, via: NodeId)

  predicate Alive(p: PeerRecord, now: real) {
    now - p.lastSeen < PEER_TIMEOUT_S
  }

  /** The hop count of a peer that `via` told us about. */
  function HopsVia(peers: map<NodeId, PeerRecord>, via: NodeId): nat {
    if via != "" && via in peers then peers[via].hops + 1 else 1
  }

  /** Position `i` of the insertion order is that of the first dead peer. */
  ghost predicate FirstDeadAt(order: seq<NodeId>, peers: map<NodeId, PeerRecord>, now: real, i: nat)
    requires forall id :: id in order ==> id in peers
  {
    i < |order| && !Alive(peers[order[i]], now) && forall j :: 0 <= j < i ==> Alive(peers[order[j]], now)
  }

  /** The node itself is never listed, the table is bounded, every record is filed under its own id,
      every listed peer is at least one hop away, and the order lists them all. */
  ghost predicate WellFiled(nodeId: NodeId, peers: map<NodeId, PeerRecord>, order: seq<NodeId>) {
    && nodeId !in peers && |peers| <= MAX_PEERS
    && (forall id :: id in peers ==> peers[id].id == id && peers[id].hops >= 1)
    && Lists(order, peers.Keys)
  }

  class Router {
    const nodeId: NodeId
    var peers: map<NodeId, PeerRecord>
    /** The insertion order of the dictionary. */
    var order: seq<NodeId>

    ghost predicate Valid()
      reads this
    {
      WellFiled(nodeId, peers, order)
    }

    constructor (nodeId: NodeId)
      ensures Valid() && this.nodeId == nodeId && peers == map[]
    {
      this.nodeId := nodeId;
      peers := map[];
      order := [];
    }

    /** A known peer is refreshed in place and its distance never grows. A new peer is entered if there
        is room or a dead peer can make room, and then it is the dead peer that was entered first. No
        live peer is ever displaced, and no other record changes. */
    method AddOrUpdate(r: PeerRecord, via: NodeId, now: real)
      requires Valid()
      modifies this
      ensures Valid()
      ensures r.id == nodeId || r.id !in peers ==> peers == old(peers) && order == old(order)
      ensures forall id :: id in old(peers) && id != r.id && Alive(old(peers)[id], now) ==>
                id in peers && peers[id] == old(peers)[id]
      ensures forall id :: id in peers && id != r.id ==> id in old(peers) && peers[id] == old(peers)[id]
      ensures r.id in old(peers) ==>
                r.id in peers && peers[r.id].lastSeen == now && peers[r.id].hops <= old(peers)[r.id].hops &&
                peers.Keys == old(peers).Keys && order == old(order)
      ensures r.id in old(peers) && via != "" ==> peers[r.id].hops <= HopsVia(old(peers), via)
      ensures r.id in old(peers) ==> peers[r.id] == old(Refreshed(peers[r.id], r, via, now))
      ensures r.id in old(peers) ==>
                && peers[r.id].host == (if r.host == "" then old(peers)[r.id].host else r.host)
                && peers[r.id].port == (if r.port == 0 then old(peers)[r.id].port else r.port)
      ensures r.id in old(peers) && via != "" && via in old(peers) ==>
                peers[r.id].hops == Nearer(old(peers)[r.id].hops, old(peers)[via].hops + 1)
      ensures r.id in old(peers) && via != "" && via !in old(peers) ==> peers[r.id].hops == 1
      ensures r.id in old(peers) && via == "" ==> peers[r.id].hops == old(peers)[r.id].hops
      ensures r.id in old(peers) ==>
                peers[r.id].via == if peers[r.id].hops < old(peers)[r.id].hops then via else old(peers)[r.id].via
      ensures r.id !in old(peers) && r.id != nodeId ==>
                (r.id in peers <==>
                 |old(peers)| < MAX_PEERS || exists id :: id in old(peers) && !Alive(old(peers)[id], now))
      ensures r.id !in old(peers) && r.id in peers ==>
                peers[r.id] == r.(hops := HopsVia(peers - {r.id}, via), via := via)
      ensures r.id !in old(peers) && r.id in peers ==>
                peers[r.id].hops == if via != "" && via != r.id && via in peers then peers[via].hops + 1 else 1
      ensures r.id !in old(peers) && r.id in peers && |old(peers)| < MAX_PEERS ==> order == old(order) + [r.id]
      ensures r.id !in old(peers) && r.id in peers && |old(peers)| == MAX_PEERS ==>
                exists i: nat :: FirstDeadAt(old(order), old(peers), now, i) &&
                                 order == WithoutAt(old(order), i) + [r.id]
    {
      hide Alive, Lists, FirstDeadAt, WithoutAt, HopsVia, Refreshed;
      if r.id == nodeId {
        return;
      }
      if r.id in peers {
        Refresh(r, via, now);
      } else {
        Enter(r, via, now);
      }
    }

    method Refresh(r: PeerRecord, via: NodeId, now: real)
      requires Valid() && r.id in peers
      modifies `peers
      ensures Valid() && peers == old(peers)[r.id := old(Refreshed(peers[r.id], r, via, now))]
      ensures peers[r.id].lastSeen == now && peers[r.id].hops <= old(peers)[r.id].hops
      ensures via != "" ==> peers[r.id].hops <= HopsVia(old(peers), via)
      ensures peers[r.id].host == if r.host == "" then old(peers)[r.id].host else r.host
      ensures peers[r.id].port == if r.port == 0 then old(peers)[r.id].port else r.port
      ensures via != "" && via in old(peers) ==>
                peers[r.id].hops == Nearer(old(peers)[r.id].hops, old(peers)[via].hops + 1)
      ensures via != "" && via !in old(peers) ==> peers[r.id].hops == 1
      ensures via == "" ==> peers[r.id].hops == old(peers)[r.id].hops
      ensures peers[r.id].via == if peers[r.id].hops < old(peers)[r.id].hops then via else old(peers)[r.id].via
    {
      hide Alive, Lists;
      peers := peers[r.id := Refreshed(peers[r.id], r, via, now)];
      assert peers.Keys == old(peers.Keys);
    }

    method Enter(r: PeerRecord, via: NodeId, now: real)
      requires Valid() && r.id !in peers && r.id != nodeId
      modifies this
      ensures Valid()
      ensures r.id !in peers ==> peers == old(peers) && order == old(order)
      ensures r.id in peers <==>
              |old(peers)| < MAX_PEERS || exists id :: id in old(peers) && !Alive(old(peers)[id], now)
      ensures forall id :: id in old(peers) && Alive(old(peers)[id], now) ==> id in peers && peers[id] == old(peers)[id]
      ensures forall id :: id in peers && id != r.id ==> id in old(peers) && peers[id] == old(peers)[id]
      ensures r.id in peers ==> peers[r.id] == r.(hops := HopsVia(peers - {r.id}, via), via := via)
      ensures r.id in peers ==>
                peers[r.id].hops == if via != "" && via != r.id && via in peers then peers[via].hops + 1 else 1
      ensures r.id in peers && |old(peers)| < MAX_PEERS ==> order == old(order) + [r.id]
      ensures r.id in peers && |old(peers)| == MAX_PEERS ==>
                exists i: nat :: FirstDeadAt(old(order), old(peers), now, i) &&
                                 order == WithoutAt(old(order), i) + [r.id]
    {
      hide Alive, Lists, FirstDeadAt, WithoutAt, WellFiled, HopsVia;
      var room := MakeRoom(now);
      if room {
        HopsByName(peers, via);
        var entered := r.(hops := HopsVia(peers, via), via := via);
        WellFiledMore(nodeId, peers, order, entered, via);
        peers := peers[r.id := entered];
        order := order + [r.id];
      }
    }

    /** A full table gives up its first dead peer, if it has one. */
    method MakeRoom(now: real) returns (room: bool)
      requires Valid()
      modifies this
      ensures Valid() && (room <==> |peers| < MAX_PEERS)
      ensures room <==> |old(peers)| < MAX_PEERS || exists id :: id in old(peers) && !Alive(old(peers)[id], now)
      ensures forall id :: id in peers ==> id in old(peers) && peers[id] == old(peers)[id]
      ensures forall id :: id in old(peers) && Alive(old(peers)[id], now) ==> id in peers
      ensures !room || |old(peers)| < MAX_PEERS ==> peers == old(peers) && order == old(order)
      ensures room && |old(peers)| == MAX_PEERS ==>
                exists i: nat :: FirstDeadAt(old(order), old(peers), now, i) && order == WithoutAt(old(order), i)
    {
      hide Alive, Lists;
      ListsAll(order, peers);
      if |peers| < MAX_PEERS {
        return true;
      }
      var i := 0;
      while i < |order| && Alive(peers[order[i]], now)
        invariant i <= |order| && forall j :: 0 <= j < i ==> Alive(peers[order[j]], now)
      {
        i := i + 1;
      }
      if i == |order| {
        return false;
      }
      assert FirstDeadAt(order, peers, now, i);
      var id := order[i];
      WellFiledLess(nodeId, peers, order, i);
      peers := peers - {id};
      order := WithoutAt(order, i);
      return true;
    }

    /** A known peer as the new report leaves it: host and port if given, the time, and the shorter of
        the two distances. */
    function Refreshed(e: PeerRecord, r: PeerRecord, via: NodeId, now: real): PeerRecord
      reads this
    {
      var seen := e.(lastSeen := now, host := if r.host != "" then r.host else e.host,
                     port := if r.port != 0 then r.port else e.port);
      if via != "" && HopsVia(peers, via) < e.hops then seen.(hops := HopsVia(peers, via), via := via) else seen
    }

    /** The record to forward to, if the time to live allows it and the target is listed and alive. */
    method ForwardTask(target: NodeId, ttl: int, now: real) returns (peer: Option<PeerRecord>)
      requires Valid()
      ensures peer == Route(peers, target, ttl, now)
    {
      if ttl <= 0 || target == "" || target !in peers || !Alive(peers[target], now) {
        return None;
      }
      return Some(peers[target]);
    }
  }

  /** The sequence lists the elements of the set, each once. */
  ghost predicate Lists(order: seq<NodeId>, ids: set<NodeId>) {
    && (forall id :: id in order <==> id in ids)
    && forall i, j :: 0 <= i < j < |order| ==> order[i] != order[j]
  }

  function WithoutAt(order: seq<NodeId>, i: nat): seq<NodeId>
    requires i < |order|
  {
    order[..i] + order[i + 1..]
  }

  lemma ListsMore(order: seq<NodeId>, ids: set<NodeId>, id: NodeId)
    requires Lists(order, ids) && id !in ids
    ensures Lists(order + [id], ids + {id})
  {
  }

  lemma ListsLess(order: seq<NodeId>, ids: set<NodeId>, i: nat)
    requires Lists(order, ids) && i < |order|
    ensures Lists(WithoutAt(order, i), ids - {order[i]})
  {
    var rest := WithoutAt(order, i);
    assert forall j :: 0 <= j < |rest| ==> rest[j] == order[if j < i then j else j + 1];
    forall id | id in ids && id != order[i]
      ensures id in rest
    {
      var j :| 0 <= j < |order| && order[j] == id;
      assert rest[if j < i then j else j - 1] == id;
    }
  }

  lemma WellFiledMore(nodeId: NodeId, peers: map<NodeId, PeerRecord>, order: seq<NodeId>, r: PeerRecord, via: NodeId)
    requires WellFiled(nodeId, peers, order) && |peers| < MAX_PEERS && r.id !in peers && r.id != nodeId
    requires r.hops == HopsVia(peers, via)
    ensures WellFiled(nodeId, peers[r.id := r], order + [r.id]) && peers[r.id := r] - {r.id} == peers
  {
    hide Lists, HopsVia;
    MapWith(peers, r.id, r);
    assert Lists(order + [r.id], peers[r.id := r].Keys) by {
      ListsMore(order, peers.Keys, r.id);
    }
    var after := peers[r.id := r];
    HopsPositive(peers, via);
    forall id | id in after
      ensures after[id].id == id && after[id].hops >= 1
    {
      assert id == r.id || (id in peers && after[id] == peers[id]);
    }
  }

  lemma WellFiledLess(nodeId: NodeId, peers: map<NodeId, PeerRecord>, order: seq<NodeId>, i: nat)
    requires WellFiled(nodeId, peers, order) && i < |order|
    ensures order[i] in peers && |peers - {order[i]}| == |peers| - 1
    ensures WellFiled(nodeId, peers - {order[i]}, WithoutAt(order, i))
  {
    hide WithoutAt;
    MapWithout(peers, order[i]);
    assert (peers - {order[i]}).Keys == peers.Keys - {order[i]};
    assert Lists(WithoutAt(order, i), (peers - {order[i]}).Keys) by {
      ListsLess(order, peers.Keys, i);
    }
  }

  lemma ListsAll(order: seq<NodeId>, peers: map<NodeId, PeerRecord>)
    requires Lists(order, peers.Keys)
    ensures forall id :: id in order <==> id in peers
    ensures forall i :: 0 <= i < |order| ==> order[i] in peers
    ensures forall id :: id in peers ==> exists i :: 0 <= i < |order| && order[i] == id
  {
  }

  function Nearer(a: nat, b: nat): nat {
    if b < a then b else a
  }

  lemma HopsByName(peers: map<NodeId, PeerRecord>, via: NodeId)
    ensures HopsVia(peers, via) == if via != "" && via in peers then peers[via].hops + 1 else 1
  {
  }

  lemma HopsPositive(peers: map<NodeId, PeerRecord>, via: NodeId)
    ensures HopsVia(peers, via) >= 1
  {
  }

  lemma MapWith(m: map<NodeId, PeerRecord>, id: NodeId, r: PeerRecord)
    requires id !in m
    ensures m[id := r].Keys == m.Keys + {id} && |m[id := r]| == |m| + 1 && m[id := r] - {id} == m
  {
    assert m[id := r].Keys == m.Keys + {id};
    assert |m.Keys + {id}| == |m.Keys| + 1;
  }

  lemma MapWithout(m: map<NodeId, PeerRecord>, id: NodeId)
    requires id in m
    ensures |m - {id}| == |m| - 1
  {
    assert (m - {id}).Keys == m.Keys - {id};
    assert |m.Keys - {id}| == |m.Keys| - 1;
  }

  function Route(peers: map<NodeId, PeerRecord>, target: NodeId, ttl: int, now: real): Option<PeerRecord> {
    if ttl > 0 && target != "" && target in peers && Alive(peers[target], now) then Some(peers[target]) else None
  }

  // ---- frames ----

  /** Frames as the dispatcher sees them; the frame inside a forward may be a forward again. */
  datatype Frame =
    | Task(payload: seq<Byte>)
    | Forward(target: NodeId, ttl: int, inner: Frame, sig: Sig, forwarder: NodeId)
    | Other

  /** An ideal signature over the four signed fields of a forward; NoSig is an empty one. */
  datatype Sig = Sig(pk: Pk, target: NodeId, ttl: int, inner: Frame, forwarder: NodeId) | NoSig | Junk

  /** One side of a connection: the node it belongs to and the signing key in the peer's card. */
  datatype Connection = Connection(isServer: bool, nodeId: NodeId, signPk: Pk, hasRouter: bool,
                                   peerSignPk: Option<Pk>)

  /** The moment of a handling: routing table, time, and whether the next hop can be reached. */
  datatype Moment = Moment(peers: map<NodeId, PeerRecord>, now: real, reachable: bool)

  datatype Action = Drop | Handle(task: Frame) | Dispatch(inner: Frame) | Relay(to: PeerRecord, frame: Frame)

  predicate Genuine(c: Connection, f: Frame)
    requires f.Forward?
  {
    c.peerSignPk.Some? && c.peerSignPk.value != [] &&
    f.sig == Sig(c.peerSignPk.value, f.target, f.ttl, f.inner, f.forwarder)
  }

  function SignedForward(c: Connection, target: NodeId, ttl: int, inner: Frame): Frame {
    Forward(target, ttl, inner, Sig(c.signPk, target, ttl, inner, c.nodeId), c.nodeId)
  }

  /** What one dispatch does with a frame. */
  function ActionOf(c: Connection, f: Frame, m: Moment): Action {
    match f
    case Task(_) => if c.isServer then Handle(f) else Drop
    case Other => Drop
    case Forward(target, ttl, inner, _, _) =>
      if !c.isServer || ttl <= 0 || !Genuine(c, f) || !c.hasRouter then Drop
      else if target == "" || target == c.nodeId then Dispatch(inner)
      else match Route(m.peers, target, ttl - 1, m.now)
        case None => Drop
        case Some(p) => if m.reachable then Relay(p, SignedForward(c, target, ttl - 1, inner)) else Drop
  }

  /** The dispatcher's branch, early returns and all. */
  method DispatchFrame(c: Connection, f: Frame, router: Router, now: real, reachable: bool) returns (a: Action)
    requires router.Valid() && router.nodeId == c.nodeId
    ensures a == ActionOf(c, f, Moment(router.peers, now, reachable))
  {
    if !c.isServer || f.Other? {
      return Drop;
    }
    if f.Task? {
      return Handle(f);
    }
    if f.ttl <= 0 {
      return Drop;
    }
    if c.peerSignPk.None? || c.peerSignPk.value == [] || f.sig.NoSig? {
      return Drop;
    }
    if f.sig != Sig(c.peerSignPk.value, f.target, f.ttl, f.inner, f.forwarder) {
      return Drop;
    }
    if !c.hasRouter {
      return Drop;
    }
    if f.target != "" && f.target != router.nodeId {
      a := ForwardToPeer(c, router, f.inner, f.target, f.ttl - 1, now, reachable);
    } else {
      a := Dispatch(f.inner);
    }
  }

  /** `forward_task_to_peer`: look up the next hop, connect, sign and send. */
  method ForwardToPeer(c: Connection, router: Router, inner: Frame, target: NodeId, ttl: int, now: real,
                       reachable: bool) returns (a: Action)
    requires router.Valid()
    ensures a == match Route(router.peers, target, ttl, now)
                 case None => Drop
                 case Some(p) => if reachable then Relay(p, SignedForward(c, target, ttl, inner)) else Drop
  {
    var peer := router.ForwardTask(target, ttl, now);
    if peer.None? || !reachable {
      return Drop;
    }
    return Relay(peer.value, Forward(target, ttl, inner, Sig(c.signPk, target, ttl, inner, c.nodeId), c.nodeId));
  }

  // ---- chains of handlings ----

  /** A frame waiting at a connection. */
  datatype Site = Site(conn: Connection, frame: Frame, at: Moment)

  /** `t` may follow `s`: the inner frame is dispatched on the same connection, or the relayed frame
      arrives at any connection of any node. Tables and times may change arbitrarily in between. */
  ghost predicate Follows(s: Site, t: Site) {
    match ActionOf(s.conn, s.frame, s.at)
    case Dispatch(inner) => t.conn == s.conn && t.frame == inner
    case Relay(_, f) => t.frame == f
    case _ => false
  }

  ghost predicate Chain(sites: seq<Site>) {
    forall i :: 0 <= i < |sites| - 1 ==> Follows(sites[i], sites[i + 1])
  }

  /** The hops a frame still has, with those of the frames inside it. */
  function Measure(f: Frame): nat {
    match f
    case Forward(_, ttl, inner, _, _) => (if ttl > 0 then ttl else 0) + 1 + Measure(inner)
    case _ => 0
  }

  /** Every handling that has a successor strictly lowers the measure. */
  lemma StepLowersMeasure(s: Site, t: Site)
    requires Follows(s, t)
    ensures s.frame.Forward? && Measure(t.frame) < Measure(s.frame)
  {
  }

  lemma ChainRest(sites: seq<Site>)
    requires |sites| > 1 && Chain(sites)
    ensures Chain(sites[1..]) && Follows(sites[0], sites[1])
  {
    var rest := sites[1..];
    forall i | 0 <= i < |rest| - 1
      ensures Follows(rest[i], rest[i + 1])
    {
      assert Follows(sites[i + 1], sites[i + 2]);
    }
    assert Follows(sites[0], sites[1]);
  }

  /** Forwarding terminates in every network with any routing tables, nested forwards included: a chain
      is never longer than the measure of its first frame and one. */
  lemma {:induction false} ChainsAreBounded(sites: seq<Site>)
    requires sites != [] && Chain(sites)
    ensures |sites| + Measure(sites[|sites| - 1].frame) <= Measure(sites[0].frame) + 1
  {
    if |sites| > 1 {
      ChainRest(sites);
      StepLowersMeasure(sites[0], sites[1]);
      ChainsAreBounded(sites[1..]);
    }
  }

  /** A relayed frame is the received one with a smaller, still positive time to live; it goes to the
      live routing entry of its target. An inner frame is dispatched only at the named target or when
      no target is named. Both happen only for a frame that the connected peer has signed. */
  lemma HandlingIsSafe(c: Connection, f: Frame, m: Moment)
    ensures var a := ActionOf(c, f, m);
            && (a.Relay? ==>
                  && f.Forward? && Genuine(c, f)
                  && a.frame.Forward? && 0 < a.frame.ttl == f.ttl - 1
                  && a.frame.target == f.target && a.frame.inner == f.inner
                  && f.target in m.peers && a.to == m.peers[f.target] && Alive(a.to, m.now)
                  && f.target != c.nodeId)
            && (a.Dispatch? ==>
                  && f.Forward? && Genuine(c, f) && f.ttl > 0 && a.inner == f.inner
                  && (f.target == c.nodeId || f.target == ""))
            && (a.Handle? ==> f.Task? && a.task == f && c.isServer)
  {
  }

  /** The peer's card shows a signing key, and it has signed the four fields of the forward. */
  predicate SignedBy(c: Connection, f: Frame, pk: Pk) {
    && c.peerSignPk == Some(pk) && pk != [] && f.Forward?
    && f.sig == Sig(pk, f.target, f.ttl, f.inner, f.forwarder)
  }

  /** The target is listed and was heard from less than 90 seconds ago. */
  predicate Reaches(m: Moment, target: NodeId) {
    m.reachable && target in m.peers && m.now - m.peers[target].lastSeen < 90.0
  }

  /** A forward with a positive time to live that the connected peer has signed is never dropped without
      need: at its target, or where none is named, its inner frame is dispatched; elsewhere it is relayed
      to the target's record, signed anew, iff a hop is left and the target can be reached. */
  lemma ForwardIsServed(c: Connection, f: Frame, m: Moment, pk: Pk)
    requires c.isServer && c.hasRouter && SignedBy(c, f, pk) && f.ttl >= 1
    ensures f.target in {"", c.nodeId} ==> ActionOf(c, f, m) == Dispatch(f.inner)
    ensures f.target !in {"", c.nodeId} && f.ttl >= 2 && Reaches(m, f.target) ==>
              ActionOf(c, f, m) == Relay(m.peers[f.target],
                Forward(f.target, f.ttl - 1, f.inner, Sig(c.signPk, f.target, f.ttl - 1, f.inner, c.nodeId), c.nodeId))
    ensures f.target !in {"", c.nodeId} && !(f.ttl >= 2 && Reaches(m, f.target)) ==> ActionOf(c, f, m) == Drop
  {
  }

  /** Any other forward is dropped. */
  lemma OtherForwardIsDropped(c: Connection, f: Frame, m: Moment)
    requires f.Forward?
    requires !c.isServer || !c.hasRouter || f.ttl <= 0 || forall pk :: !SignedBy(c, f, pk)
    ensures ActionOf(c, f, m) == Drop
  {
    if Genuine(c, f) {
      assert SignedBy(c, f, c.peerSignPk.value);
    }
  }

  /** Delivery: a task that is forwarded with two hops left, by a node that can reach the target, to a
      target that knows the node's key, is handled there. */
  lemma TaskIsDelivered(c: Connection, f: Frame, m: Moment, pk: Pk, next: Connection, m1: Moment, m2: Moment)
    returns (sites: seq<Site>)
    requires c.isServer && c.hasRouter && SignedBy(c, f, pk) && f.ttl >= 2 && f.inner.Task?
    requires f.target !in {"", c.nodeId} && Reaches(m, f.target)
    requires next.isServer && next.hasRouter && next.nodeId == f.target && next.peerSignPk == Some(c.signPk)
    requires c.signPk != []
    ensures Chain(sites) && |sites| == 3 && sites[0] == Site(c, f, m) && sites[2].conn == next
    ensures ActionOf(sites[2].conn, sites[2].frame, sites[2].at) == Handle(f.inner)
  {
    ForwardIsServed(c, f, m, pk);
    var relayed := ActionOf(c, f, m).frame;
    ForwardIsServed(next, relayed, m1, c.signPk);
    sites := [Site(c, f, m), Site(next, relayed, m1), Site(next, f.inner, m2)];
    assert Follows(sites[0], sites[1]) && Follows(sites[1], sites[2]);
  }

  // ---- what a chain delivers, and where ----

  /** The frame under all the forwards. */
  function Core(f: Frame): Frame {
    if f.Forward? then Core(f.inner) else f
  }

  /** The forwards of a frame, from the outermost in. */
  function Layers(f: Frame): seq<Frame> {
    if f.Forward? then [f] + Layers(f.inner) else []
  }

  /** The hops that all the forwards of a frame together allow. */
  function TotalTtl(f: Frame): nat {
    if f.Forward? then (if f.ttl > 0 then f.ttl else 0) + TotalTtl(f.inner) else 0
  }

  /** The site takes the wrapping off: the forward is genuine, and the node is its target or none is
      named. Relays have changed at most its time to live and its signature. */
  ghost predicate Unwraps(s: Site, layer: Frame) {
    && layer.Forward? && s.frame.Forward? && s.frame.target == layer.target && s.frame.inner == layer.inner
    && Genuine(s.conn, s.frame) && 0 < s.frame.ttl <= layer.ttl
    && layer.target in {"", s.conn.nodeId}
  }

  lemma DispatchStep(s: Site, t: Site)
    requires Follows(s, t) && ActionOf(s.conn, s.frame, s.at).Dispatch?
    ensures Unwraps(s, s.frame) && t.conn == s.conn && t.frame == s.frame.inner
    ensures TotalTtl(t.frame) < TotalTtl(s.frame) && Core(t.frame) == Core(s.frame)
    ensures Layers(s.frame) == [s.frame] + Layers(t.frame)
  {
    hide Genuine, Route;
  }

  lemma RelayStep(s: Site, t: Site)
    requires Follows(s, t) && !ActionOf(s.conn, s.frame, s.at).Dispatch?
    ensures s.frame.Forward? && t.frame.Forward?
    ensures TotalTtl(t.frame) < TotalTtl(s.frame) && Core(t.frame) == Core(s.frame)
    ensures Layers(s.frame) == [s.frame] + Layers(t.frame)[1..] && Layers(t.frame)[0] == t.frame
    ensures forall x :: Unwraps(x, t.frame) ==> Unwraps(x, s.frame)
  {
    hide Genuine, Route;
  }

  /** The layers are unwrapped one after the other, at the given sites before site `n`. */
  ghost predicate UnwrapsAll(sites: seq<Site>, n: nat, at: seq<nat>, layers: seq<Frame>)
    requires n <= |sites|
  {
    && |at| == |layers|
    && (forall i, j :: 0 <= i < j < |at| ==> at[i] < at[j])
    && (forall i :: 0 <= i < |at| ==> at[i] < n && Unwraps(sites[at[i]], layers[i]))
    && (at != [] ==> at[|at| - 1] == n - 1)
  }

  function Shifted(at: seq<nat>): (s: seq<nat>)
    ensures |s| == |at| && forall i :: 0 <= i < |at| ==> s[i] == at[i] + 1
  {
    seq(|at|, i requires 0 <= i < |at| => at[i] + 1)
  }

  lemma ShiftAll(sites: seq<Site>, n: nat, at: seq<nat>, layers: seq<Frame>)
    requires 0 < n <= |sites| && UnwrapsAll(sites[1..], n - 1, at, layers)
    ensures UnwrapsAll(sites, n, Shifted(at), layers)
  {
    hide Unwraps;
    forall i | 0 <= i < |at|
      ensures Unwraps(sites[Shifted(at)[i]], layers[i])
    {
      assert sites[1..][at[i]] == sites[at[i] + 1];
    }
  }

  lemma UnwrapsFirst(sites: seq<Site>, n: nat, at: seq<nat>, f: Frame, layers: seq<Frame>)
    requires 0 < n <= |sites| && UnwrapsAll(sites, n, at, layers) && forall i :: 0 <= i < |at| ==> at[i] > 0
    requires Unwraps(sites[0], f) && (at == [] ==> n == 1)
    ensures UnwrapsAll(sites, n, [0] + at, [f] + layers)
  {
    hide Unwraps;
  }

  lemma UnwrapsSameFirst(sites: seq<Site>, n: nat, at: seq<nat>, f: Frame, layers: seq<Frame>)
    requires n <= |sites| && UnwrapsAll(sites, n, at, layers) && layers != []
    requires forall x :: Unwraps(x, layers[0]) ==> Unwraps(x, f)
    ensures UnwrapsAll(sites, n, at, [f] + layers[1..])
  {
    hide Unwraps;
  }

  lemma HandledIsTask(s: Site)
    requires ActionOf(s.conn, s.frame, s.at).Handle?
    ensures s.frame.Task? && Core(s.frame) == s.frame && Layers(s.frame) == []
  {
  }

  /** Whole chains, nested forwards included: when a task is handled at the end of a chain, it is the
      one under all the forwards of the first frame; the chain took no more hops than their times to
      live allow together; every forward was unwrapped in its turn at a node that it names, or that
      need not be named; and the last one on the very connection that handles the task. */
  lemma {:induction false} TaskReachesTarget(sites: seq<Site>, n: nat) returns (at: seq<nat>)
    requires Chain(sites) && n < |sites|
    requires ActionOf(sites[n].conn, sites[n].frame, sites[n].at).Handle?
    ensures sites[n].frame == Core(sites[0].frame) && sites[n].frame.Task? && n <= TotalTtl(sites[0].frame)
    ensures UnwrapsAll(sites, n, at, Layers(sites[0].frame)) && (at == [] ==> n == 0)
    ensures n > 0 ==> sites[n - 1].conn == sites[n].conn
  {
    hide Follows, Unwraps, Chain, ActionOf, Layers, Core, TotalTtl;
    HandledIsTask(sites[n]);
    if n == 0 {
      at := [];
    } else {
      ChainRest(sites);
      var rest := sites[1..];
      assert rest[n - 1] == sites[n];
      at := TaskReachesTarget(rest, n - 1);
      ShiftAll(sites, n, at, Layers(sites[1].frame));
      if ActionOf(sites[0].conn, sites[0].frame, sites[0].at).Dispatch? {
        DispatchStep(sites[0], sites[1]);
        UnwrapsFirst(sites, n, Shifted(at), sites[0].frame, Layers(sites[1].frame));
        at := [0] + Shifted(at);
      } else {
        RelayStep(sites[0], sites[1]);
        UnwrapsSameFirst(sites, n, Shifted(at), sites[0].frame, Layers(sites[1].frame));
        at := Shifted(at);
      }
    }
  }

  /** A single forward of a task: after at least one and at most `ttl` hops exactly that task is handled,
      at the node named as target or where none is named. */
  lemma ForwardedTaskReachesTarget(sites: seq<Site>, n: nat)
    requires Chain(sites) && n < |sites| && sites[0].frame.Forward? && sites[0].frame.inner.Task?
    requires ActionOf(sites[n].conn, sites[n].frame, sites[n].at).Handle?
    ensures 0 < n <= sites[0].frame.ttl && sites[n].frame == sites[0].frame.inner
    ensures sites[0].frame.target in {"", sites[n].conn.nodeId}
  {
    var at := TaskReachesTarget(sites, n);
    assert Layers(sites[0].frame)[0] == sites[0].frame;
  }

  /** The relayed frame is signed with the forwarding agent's own key, and the next hop checks it
      against the card of the connection it came over. So the next hop goes on with it iff that
      connection shows the forwarding agent's key. */
  lemma RelayAcceptedIffSameKey(c: Connection, f: Frame, m: Moment, next: Connection)
    requires ActionOf(c, f, m).Relay? && c.signPk != []
    ensures Genuine(next, ActionOf(c, f, m).frame) <==> next.peerSignPk == Some(c.signPk)
  {
  }

  /** As shipped the outgoing connection is that of a client object with an identity of its own, so a
      relayed frame is always dropped at the next hop. */
  lemma ShippedRelayIsDropped(c: Connection, f: Frame, m: Moment, next: Connection, proxyPk: Pk, m': Moment)
    requires ActionOf(c, f, m).Relay?
    requires next.peerSignPk == Some(proxyPk) && proxyPk != c.signPk
    ensures ActionOf(next, ActionOf(c, f, m).frame, m') == Drop
  {
  }

  /** Every relayed frame arrives over a connection that shows another key than the forwarder's. */
  ghost predicate ProxyConnections(sites: seq<Site>) {
    forall i :: 0 <= i < |sites| - 1 && ActionOf(sites[i].conn, sites[i].frame, sites[i].at).Relay? ==>
      sites[i + 1].conn.peerSignPk.Some? && sites[i + 1].conn.peerSignPk.value != sites[i].conn.signPk
  }

  /** What that means for whole chains: as shipped a task is only ever handled on the connection on
      which its first frame arrived, so no task gets across a hop. */
  lemma ShippedTasksStay(sites: seq<Site>, n: nat)
    requires Chain(sites) && ProxyConnections(sites) && n < |sites|
    requires ActionOf(sites[n].conn, sites[n].frame, sites[n].at).Handle?
    ensures forall i :: 0 <= i <= n ==> sites[i].conn == sites[0].conn
  {
    hide Route;
    for j := 0 to n
      invariant forall i :: 0 <= i <= j ==> sites[i].conn == sites[0].conn
    {
      var s, t := sites[j], sites[j + 1];
      assert Follows(s, t) && (j + 1 < n ==> Follows(t, sites[j + 2]));
      if ActionOf(s.conn, s.frame, s.at).Relay? {
        ShippedRelayIsDropped(s.conn, s.frame, s.at, t.conn, t.conn.peerSignPk.value, t.at);
        assert false;
      }
    }
  }
}
