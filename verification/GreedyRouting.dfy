/** Messages relayed between routing tables (bench/node.cc relays a message it is
    not the destination of, src/routing_table.cc picks the next hop). */
module GreedyRouting {
  import opened Options
  import opened XorMetric
  import opened KBuckets
  import opened RoutingTables

  /** The tables of all nodes, by node id. */
  type Network = map<NodeId, Table>

  /** Ids have one size and every table belongs to its node. */
  ghost predicate WellFormed(net: Network, size: nat) {
    forall u :: u in net ==>
      net[u].id == u && |u| == size && forall n :: n in net[u].nodes ==> |n.nodeId| == size && n.nodeId != u
  }

  /** Node u, reached over `before`, passes a message for `des` on to v.  The
      origin sends in any case; a relay only when it is not the destination. */
  ghost predicate Passes(net: Network, size: nat, des: NodeId, before: seq<NodeId>, u: NodeId, v: NodeId)
    requires WellFormed(net, size) && |des| == size
  {
    && u in net && v in net
    && (before != [] ==> !Destination(net[u], des))
    && exists n :: IsNext(net[u], des, before + [u], Some(n)) && n.nodeId == v
  }

  /** The way of one message: every node but the last has passed it on. */
  ghost predicate Way(net: Network, size: nat, des: NodeId, way: seq<NodeId>)
    requires WellFormed(net, size) && |des| == size
  {
    && way != [] && way[0] in net
    && forall i :: 1 <= i < |way| ==> Passes(net, size, des, way[..i - 1], way[i - 1], way[i])
  }

  // ---------------------------------------------------------------- no loops

  ghost predicate NoRepeat(way: seq<NodeId>) {
    forall i, j :: 0 <= i < j < |way| ==> way[i] != way[j]
  }

  /** Whatever the tables hold, a message never comes back to a node. */
  lemma WayHasNoLoop(net: Network, size: nat, des: NodeId, way: seq<NodeId>)
    requires WellFormed(net, size) && |des| == size && Way(net, size, des, way)
    ensures NoRepeat(way)
    ensures |way| <= |net|
  {
    forall i, j | 0 <= i < j < |way| ensures way[i] != way[j] {
      assert Passes(net, size, des, way[..j - 1], way[j - 1], way[j]);
      var n :| IsNext(net[way[j - 1]], des, way[..j - 1] + [way[j - 1]], Some(n)) && n.nodeId == way[j];
      assert Eligible(net[way[j - 1]], way[..j - 1] + [way[j - 1]])(n);
      if i < j - 1 {
        assert way[..j - 1][i] == way[i];
      }
    }
    forall i | 0 <= i < |way| ensures way[i] in net.Keys {
      if i > 0 {
        assert Passes(net, size, des, way[..i - 1], way[i - 1], way[i]);
      }
    }
    NoRepeatFits(way, net.Keys);
  }

  lemma {:induction false} NoRepeatFits(way: seq<NodeId>, ids: set<NodeId>)
    requires NoRepeat(way) && forall i :: 0 <= i < |way| ==> way[i] in ids
    ensures |way| <= |ids|
  {
    if way == [] {
    } else {
      var last := way[|way| - 1];
      NoRepeatFits(way[..|way| - 1], ids - {last});
    }
  }

  // ---------------------------------------------------------------- ever closer

  /** No neighbour shares the endpoint of the node itself, and nodes are joined. */
  ghost predicate Reachable(net: Network) {
    forall u :: u in net ==>
      && net[u].ready
      && forall n :: n in net[u].nodes ==>
           n.nodeId in net && !(n.publicIp == net[u].publicIp && n.publicPort == net[u].publicPort)
  }

  /** Each hop of the way is closer to the destination than the one before. */
  ghost predicate Approaches(des: NodeId, way: seq<NodeId>) {
    && (forall i :: 0 <= i < |way| ==> |way[i]| == |des|)
    && forall i, j :: 0 <= i < j < |way| ==> Distance(way[j], des) < Distance(way[i], des)
  }

  /** Among finitely many nodes some is closest. */
  lemma {:induction false} LeastAmong(nodes: seq<NodeInfo>, des: NodeId, among: NodeInfo -> bool, some: NodeInfo)
      returns (least: NodeInfo)
    requires SameSize(nodes, des) && some in nodes && among(some)
    ensures IsClosest(nodes, des, among, Some(least))
  {
    hide Distance;
    var first, rest := nodes[0], nodes[1..];
    assert nodes == [first] + rest;
    if n :| n in rest && among(n) {
      least := LeastAmong(rest, des, among, n);
      if among(first) && Distance(first.nodeId, des) < Distance(least.nodeId, des) {
        least := first;
      }
    } else {
      least := first;
    }
  }

  /** A table as Reachable and WellFormed describe it, at the end of a way. */
  ghost predicate RelaysAfter(t: Table, des: NodeId, way: seq<NodeId>) {
    && |t.id| == |des| && t.ready && SameSize(t.nodes, des)
    && way != [] && way[|way| - 1] == t.id && Approaches(des, way)
    && !Destination(t, des)
    && forall n :: n in t.nodes ==>
         n.nodeId != t.id && !(n.publicIp == t.publicIp && n.publicPort == t.publicPort)
  }

  lemma CloserNeighbour(t: Table, des: NodeId, way: seq<NodeId>) returns (c: NodeInfo)
    requires RelaysAfter(t, des, way)
    ensures c in t.nodes && Eligible(t, way)(c) && Distance(c.nodeId, des) < Distance(t.id, des)
    ensures !HasDuplicates(way)
  {
    hide Distance;
    c :| c in t.nodes && Distance(t.id, des) >= Distance(c.nodeId, des);
    DistanceTells(c.nodeId, t.id, des);
    assert forall i :: 0 <= i < |way| ==> Distance(t.id, des) <= Distance(way[i], des);
  }

  /** A node that is not the destination, reached over ever closer hops, has a
      next hop, and whichever it takes is closer again. */
  lemma NextExists(t: Table, des: NodeId, way: seq<NodeId>) returns (next: NodeInfo)
    requires RelaysAfter(t, des, way)
    ensures IsNext(t, des, way, Some(next))
  {
    var c := CloserNeighbour(t, des, way);
    hide Distance, Eligible, HasDuplicates, Approaches;
    next := LeastAmong(t.nodes, des, Eligible(t, way), c);
  }

  lemma NextIsCloser(t: Table, des: NodeId, way: seq<NodeId>, next: NodeInfo)
    requires RelaysAfter(t, des, way) && IsNext(t, des, way, Some(next))
    ensures next in t.nodes && Distance(next.nodeId, des) < Distance(t.id, des)
  {
    var c := CloserNeighbour(t, des, way);
    hide Distance, Eligible, HasDuplicates, Approaches;
  }

  lemma TableRelays(net: Network, size: nat, des: NodeId, way: seq<NodeId>)
    requires WellFormed(net, size) && |des| == size && Reachable(net)
    requires way != [] && Approaches(des, way)
    requires way[|way| - 1] in net && !Destination(net[way[|way| - 1]], des)
    ensures RelaysAfter(net[way[|way| - 1]], des, way)
  {
    hide Distance, Destination, Approaches;
  }

  lemma WayStarts(net: Network, size: nat, des: NodeId, way: seq<NodeId>)
    requires WellFormed(net, size) && |des| == size && Way(net, size, des, way)
    ensures way != [] && way[0] in net && |way[0]| == size
  {
  }

  /** A way whose origin is not itself the closest it knows of only gets closer. */
  lemma {:induction false} WayApproaches(net: Network, size: nat, des: NodeId, way: seq<NodeId>)
    requires WellFormed(net, size) && |des| == size && Reachable(net) && Way(net, size, des, way)
    requires !Destination(net[way[0]], des)
    ensures Approaches(des, way)
  {
    hide Distance, Way, Destination, IsNext, Approaches;
    WayStarts(net, size, des, way);
    if |way| == 1 {
      ApproachesAlone(des, way[0]);
      assert way == [way[0]];
    } else {
      var before, last := way[..|way| - 1], way[|way| - 1];
      var u := before[|before| - 1];
      WayWithoutLast(net, size, des, way);
      WayApproaches(net, size, des, before);
      assert way == before + [last] && way[..|way| - 2] + [u] == before;
      var n :| IsNext(net[u], des, before, Some(n)) && n.nodeId == last;
      TableRelays(net, size, des, before);
      NextIsCloser(net[u], des, before, n);
      ApproachesMore(des, before, last);
    }
  }

  lemma ApproachesAlone(des: NodeId, u: NodeId)
    requires |u| == |des|
    ensures Approaches(des, [u])
  {
  }

  lemma ApproachesMore(des: NodeId, way: seq<NodeId>, v: NodeId)
    requires way != [] && Approaches(des, way)
    requires |v| == |des| && Distance(v, des) < Distance(way[|way| - 1], des)
    ensures Approaches(des, way + [v])
  {
    hide Distance;
  }

  lemma WayWithoutLast(net: Network, size: nat, des: NodeId, way: seq<NodeId>)
    requires WellFormed(net, size) && |des| == size && Way(net, size, des, way) && |way| > 1
    ensures Way(net, size, des, way[..|way| - 1])
    ensures Passes(net, size, des, way[..|way| - 2], way[|way| - 2], way[|way| - 1])
    ensures way[|way| - 1] in net && |way[|way| - 1]| == size
  {
    hide Destination, IsNext;
    var before := way[..|way| - 1];
    forall i | 1 <= i < |before| ensures Passes(net, size, des, before[..i - 1], before[i - 1], before[i]) {
      assert before[..i - 1] == way[..i - 1];
    }
  }

  lemma WayWithMore(net: Network, size: nat, des: NodeId, way: seq<NodeId>, v: NodeId)
    requires WellFormed(net, size) && |des| == size && Way(net, size, des, way)
    requires Passes(net, size, des, way[..|way| - 1], way[|way| - 1], v)
    ensures Way(net, size, des, way + [v])
  {
    hide Passes;
    var longer := way + [v];
    forall i | 1 <= i < |longer| ensures Passes(net, size, des, longer[..i - 1], longer[i - 1], longer[i]) {
      assert longer[..i - 1] == way[..i - 1];
    }
  }

  // ---------------------------------------------------------------- arriving

  /** Every node knows some node of each of its buckets that is not empty in the
      network: what k-buckets are kept for. */
  ghost predicate Covers(net: Network, size: nat)
    requires WellFormed(net, size)
  {
    forall u, v :: u in net && v in net && u != v ==>
      exists n :: n in net[u].nodes && Bucket(u, n.nodeId) == Bucket(u, v)
  }

  /** In a network that covers its buckets, a node that knows none closer to a
      target is the closest of the whole network. */
  lemma NoneCloserIsGlobal(net: Network, size: nat, target: NodeId, u: NodeId)
    requires WellFormed(net, size) && |target| == size && Covers(net, size)
    requires u in net && NoneCloser(net[u], target)
    ensures forall v :: v in net && v != u ==> Distance(u, target) < Distance(v, target)
  {
    hide Distance, Closer, Bucket;
    forall v | v in net && v != u ensures Distance(u, target) < Distance(v, target) {
      var n :| n in net[u].nodes && Bucket(u, n.nodeId) == Bucket(u, v);
      BucketPeersAgree(u, v, n.nodeId, target);
      CloserComparesDistances(v, u, target);
      CloserComparesDistances(n.nodeId, u, target);
      DistanceTells(u, v, target);
    }
  }

  /** So a message for a node of the network stops nowhere else. */
  lemma OnlyTargetIsDestination(net: Network, size: nat, des: NodeId, u: NodeId)
    requires WellFormed(net, size) && |des| == size && Covers(net, size)
    requires u in net && des in net
    ensures Destination(net[u], des) <==> u == des
  {
    hide Distance, Bucket;
    if u != des {
      var n :| n in net[u].nodes && Bucket(u, n.nodeId) == Bucket(u, des);
      if NoneCloser(net[u], des) {
        NoneCloserIsGlobal(net, size, des, u);
        DistanceSymmetric(des, des);
      }
    }
  }

  lemma CoversKnowsSome(net: Network, size: nat, u: NodeId, v: NodeId)
    requires WellFormed(net, size) && Covers(net, size)
    requires u in net && v in net && u != v
    ensures net[u].nodes != []
  {
    hide Bucket;
    var n :| n in net[u].nodes && Bucket(u, n.nodeId) == Bucket(u, v);
  }

  /** A destination is closer to the target than every other node. */
  lemma DestinationIsGlobal(net: Network, size: nat, des: NodeId, u: NodeId)
    requires WellFormed(net, size) && |des| == size && Covers(net, size)
    requires u in net && Destination(net[u], des)
    ensures forall v :: v in net && v != u ==> Distance(u, des) < Distance(v, des)
  {
    hide Distance, Bucket;
    forall v | v in net && v != u ensures net[u].nodes != [] {
      CoversKnowsSome(net, size, u, v);
    }
    if u == des {
      DistanceSymmetric(u, des);
      forall v | v in net && v != u ensures Distance(u, des) < Distance(v, des) {
        DistanceTells(u, v, des);
      }
    } else if net[u].nodes != [] {
      NoneCloserIsGlobal(net, size, des, u);
    }
  }

  /** A way that is not at a destination goes on: no message is lost half way. */
  lemma WayGoesOn(net: Network, size: nat, des: NodeId, way: seq<NodeId>)
    requires WellFormed(net, size) && |des| == size && Reachable(net) && Way(net, size, des, way)
    requires !Destination(net[way[0]], des)
    requires way[|way| - 1] in net && !Destination(net[way[|way| - 1]], des)
    ensures exists v :: Way(net, size, des, way + [v])
  {
    hide Distance, Way, Destination, IsNext, Approaches;
    WayStarts(net, size, des, way);
    var u := way[|way| - 1];
    WayApproaches(net, size, des, way);
    TableRelays(net, size, des, way);
    var n := NextExists(net[u], des, way);
    assert way[..|way| - 1] + [u] == way;
    NextIsCloser(net[u], des, way, n);
    assert Passes(net, size, des, way[..|way| - 1], u, n.nodeId);
    WayWithMore(net, size, des, way, n.nodeId);
  }

  lemma WayEnds(net: Network, size: nat, des: NodeId, way: seq<NodeId>)
    requires WellFormed(net, size) && |des| == size && Way(net, size, des, way)
    ensures way != [] && way[|way| - 1] in net
  {
    if |way| > 1 {
      WayWithoutLast(net, size, des, way);
    }
  }

  /** Whatever the target, a message whose origin is not itself a destination is
      relayed, in no more hops than the network has nodes, to the one node that
      is closer to the target than every other: to the target if it exists, and
      else to the node that finds out that it does not. */
  lemma {:induction false} MessageSettles(net: Network, size: nat, des: NodeId, way: seq<NodeId>)
      returns (whole: seq<NodeId>)
    requires WellFormed(net, size) && |des| == size && Covers(net, size) && Reachable(net)
    requires Way(net, size, des, way) && !Destination(net[way[0]], des)
    ensures Way(net, size, des, whole) && way <= whole && |whole| <= |net|
    ensures var u := whole[|whole| - 1];
            && u in net && Destination(net[u], des)
            && forall v :: v in net && v != u ==> Distance(u, des) < Distance(v, des)
    decreases |net| - |way|
  {
    hide Covers, Reachable, Passes, Destination, Distance;
    WayHasNoLoop(net, size, des, way);
    WayEnds(net, size, des, way);
    var u := way[|way| - 1];
    if Destination(net[u], des) {
      DestinationIsGlobal(net, size, des, u);
      whole := way;
    } else {
      WayGoesOn(net, size, des, way);
      var v :| Way(net, size, des, way + [v]);
      WayHasNoLoop(net, size, des, way + [v]);
      whole := MessageSettles(net, size, des, way + [v]);
    }
  }

  /** In particular every message for a node of the network arrives there. */
  lemma MessageArrives(net: Network, size: nat, des: NodeId, way: seq<NodeId>) returns (whole: seq<NodeId>)
    requires WellFormed(net, size) && |des| == size && Covers(net, size) && Reachable(net)
    requires des in net && Way(net, size, des, way) && way[0] != des
    ensures Way(net, size, des, whole) && way <= whole && |whole| <= |net|
    ensures whole[|whole| - 1] == des
  {
    hide Covers, Reachable, Destination, Distance;
    OnlyTargetIsDestination(net, size, des, way[0]);
    whole := MessageSettles(net, size, des, way);
    OnlyTargetIsDestination(net, size, des, whole[|whole| - 1]);
  }

  // ---------------------------------------------------------------- such networks exist

  lemma KnowsTarget(t: Table, n: NodeInfo)
    requires n in t.nodes && n.nodeId != t.id
    ensures !Destination(t, n.nodeId)
  {
    hide Distance;
    if |n.nodeId| == |t.id| {
      DistanceSymmetric(n.nodeId, n.nodeId);
    }
  }

  /** Two tables that know each other make a network as the theorems ask for. */
  lemma PairCovers(s: Table, t: Table, m: NodeInfo, n: NodeInfo)
    requires s.nodes == [n] && t.nodes == [m] && n.nodeId == t.id && m.nodeId == s.id
    requires |s.id| == |t.id| && s.id != t.id && s.ready && t.ready
    requires n.publicIp != s.publicIp && m.publicIp != t.publicIp
    ensures var net := map[s.id := s, t.id := t];
            && WellFormed(net, |s.id|) && Reachable(net) && Covers(net, |s.id|)
            && !Destination(s, t.id) && Way(net, |s.id|, t.id, [s.id])
  {
    hide Bucket, Distance, Destination;
    var net := map[s.id := s, t.id := t];
    KnowsTarget(s, n);
    assert n in s.nodes && m in t.nodes;
    forall x, y | x in net && y in net && x != y
      ensures exists k :: k in net[x].nodes && Bucket(x, k.nodeId) == Bucket(x, y)
    {
      assert net[x].nodes[0] in net[x].nodes && net[x].nodes[0].nodeId == y;
    }
  }

  lemma LoneNode(nodes: seq<NodeInfo>, n: NodeInfo)
    requires nodes != [] && nodes[|nodes| - 1] == n && multiset(nodes[..|nodes| - 1]) == multiset{}
    ensures nodes == [n]
  {
    var before := nodes[..|nodes| - 1];
    assert |multiset(before)| == |before|;
    assert nodes == before + [nodes[|nodes| - 1]];
  }

  /** Two first nodes that add each other: AddNode makes such a network. */
  method TwoNodesMeet(u: NodeId, v: NodeId, port: nat) returns (a: RoutingTable, b: RoutingTable)
    requires |u| == |v| && u != v && port > 0 && MaxNodes(|u|) < 0x8000_0000
    ensures a.View().id == u && b.View().id == v
    ensures var net := map[u := a.View(), v := b.View()];
            && WellFormed(net, |u|) && Reachable(net) && Covers(net, |u|)
            && !Destination(net[u], v) && Way(net, |u|, v, [u])
  {
    a := new RoutingTable(u, "u", port, true);
    b := new RoutingTable(v, "v", port, true);
    var n, m := NodeInfo(v, "v", port, true, -1), NodeInfo(u, "u", port, true, -1);
    var _ := a.AddNode(n);
    var _ := b.AddNode(m);
    hide Bucket, Distance, Destination, Covers, Reachable, Way, WellFormed, Mirror, BucketsHold, Run;
    LoneNode(a.nodes, a.Placed(n));
    LoneNode(b.nodes, b.Placed(m));
    PairCovers(a.View(), b.View(), b.Placed(m), a.Placed(n));
  }
}
