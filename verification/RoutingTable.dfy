/** The routing table as an object (src/routing_table.cc): adding and dropping
    nodes, searching for the nodes closest to a target, and choosing the next hop. */
module RoutingTables {
  import opened Options
  import opened XorMetric
  import opened KBuckets

  datatype AddResult = Success | Failed | NodeHasAdded

  // ---------------------------------------------------------------- closest nodes

  ghost predicate SameSize(nodes: seq<NodeInfo>, target: NodeId) {
    forall n :: n in nodes ==> |n.nodeId| == |target|
  }

  /** The first `count` nodes are the closest to the target, in order. */
  ghost predicate SortedUpTo(nodes: seq<NodeInfo>, target: NodeId, count: nat)
    requires SameSize(nodes, target)
  {
    forall i, j :: 0 <= i < j < |nodes| && i < count ==> !Closer(nodes[j].nodeId, nodes[i].nodeId, target)
  }

  /** r is a closest one to the target of the nodes that `among` picks. */
  ghost predicate IsClosest(nodes: seq<NodeInfo>, target: NodeId, among: NodeInfo -> bool, r: Option<NodeInfo>)
    requires SameSize(nodes, target)
  {
    match r
    case None => forall n :: n in nodes ==> !among(n)
    case Some(c) =>
      && c in nodes && among(c)
      && forall n :: n in nodes && among(n) ==> Distance(c.nodeId, target) <= Distance(n.nodeId, target)
  }

  /** With distinct ids there is just one. */
  lemma ClosestIsUnique(nodes: seq<NodeInfo>, target: NodeId, among: NodeInfo -> bool, r: Option<NodeInfo>, q: Option<NodeInfo>)
    requires SameSize(nodes, target) && DistinctIds(nodes)
    requires IsClosest(nodes, target, among, r) && IsClosest(nodes, target, among, q)
    ensures r == q
  {
    if r.Some? && q.Some? {
      DistanceTells(r.value.nodeId, q.value.nodeId, target);
    }
  }

  lemma NotCloserIsNoNearer(a: NodeId, b: NodeId, target: NodeId)
    requires |a| == |b| == |target|
    ensures !Closer(b, a, target) <==> Distance(a, target) <= Distance(b, target)
  {
    CloserComparesDistances(b, a, target);
  }

  /** The first node that `among` picks out of a sorted vector is a closest one. */
  lemma FirstOfSorted(nodes: seq<NodeInfo>, target: NodeId, among: NodeInfo -> bool, k: nat)
    requires SameSize(nodes, target) && SortedUpTo(nodes, target, |nodes|)
    requires k <= |nodes| && forall i :: 0 <= i < k ==> !among(nodes[i])
    ensures k == |nodes| ==> IsClosest(nodes, target, among, None)
    ensures k < |nodes| && among(nodes[k]) ==> IsClosest(nodes, target, among, Some(nodes[k]))
  {
    hide Closer, Distance;
    if k < |nodes| && among(nodes[k]) {
      forall n | n in nodes && among(n)
        ensures Distance(nodes[k].nodeId, target) <= Distance(n.nodeId, target)
      {
        var i :| 0 <= i < |nodes| && nodes[i] == n;
        NotCloserIsNoNearer(nodes[k].nodeId, n.nodeId, target);
      }
    }
  }

  lemma SameSizeOfMultiset(a: seq<NodeInfo>, b: seq<NodeInfo>, target: NodeId)
    requires multiset(a) == multiset(b) && SameSize(b, target)
    ensures SameSize(a, target)
    ensures forall n :: n in a <==> n in b
  {
    assert forall n :: n in a <==> n in multiset(b);
  }

  lemma CloserTransitive(a: NodeId, b: NodeId, c: NodeId, target: NodeId)
    requires |a| == |b| == |c| == |target|
    requires !Closer(b, a, target) && !Closer(c, b, target)
    ensures !Closer(c, a, target)
  {
    hide Closer, Distance;
    CloserComparesDistances(b, a, target);
    CloserComparesDistances(c, b, target);
    CloserComparesDistances(c, a, target);
  }

  /** Where a smallest node of nodes[from..] is. */
  method SmallestFrom(nodes: seq<NodeInfo>, target: NodeId, from: nat) returns (m: nat)
    requires SameSize(nodes, target) && from < |nodes|
    ensures from <= m < |nodes|
    ensures forall j :: from <= j < |nodes| ==> !Closer(nodes[j].nodeId, nodes[m].nodeId, target)
  {
    hide Closer;
    m := from;
    CloserIrreflexive(nodes[m].nodeId, target);
    for i := from + 1 to |nodes|
      invariant from <= m < i
      invariant forall j :: from <= j < i ==> !Closer(nodes[j].nodeId, nodes[m].nodeId, target)
    {
      var closer := CloserToTarget(nodes[i].nodeId, nodes[m].nodeId, target);
      CloserIrreflexive(nodes[i].nodeId, target);
      if closer {
        CloserAsymmetric(nodes[i].nodeId, nodes[m].nodeId, target);
        forall j | from <= j < i ensures !Closer(nodes[j].nodeId, nodes[i].nodeId, target) {
          CloserTransitive(nodes[i].nodeId, nodes[m].nodeId, nodes[j].nodeId, target);
        }
        m := i;
      }
    }
  }

  lemma CloserIrreflexive(a: NodeId, target: NodeId)
    requires |a| == |target|
    ensures !Closer(a, a, target)
  {
    CloserComparesDistances(a, a, target);
  }

  lemma CloserAsymmetric(a: NodeId, b: NodeId, target: NodeId)
    requires |a| == |b| == |target| && Closer(a, b, target)
    ensures !Closer(b, a, target)
  {
    hide Closer, Distance;
    CloserComparesDistances(a, b, target);
    CloserComparesDistances(b, a, target);
  }

  lemma SwapKeepsMultiset(s: seq<NodeInfo>, i: nat, m: nat)
    requires i <= m < |s|
    ensures multiset(s[i := s[m]][m := s[i]]) == multiset(s)
  {
  }

  /** std::partial_sort by distance to the target, as selection of the smallest. */
  method PartialSort(nodes: seq<NodeInfo>, target: NodeId, count: nat) returns (sorted: seq<NodeInfo>)
    requires SameSize(nodes, target) && count <= |nodes|
    ensures multiset(sorted) == multiset(nodes) && SameSize(sorted, target)
    ensures SortedUpTo(sorted, target, count)
  {
    hide Closer;
    sorted := nodes;
    for i := 0 to count
      invariant |sorted| == |nodes| && multiset(sorted) == multiset(nodes) && SameSize(sorted, target)
      invariant SortedUpTo(sorted, target, i)
    {
      var m := SmallestFrom(sorted, target, i);
      ghost var before := sorted;
      SwapKeepsMultiset(sorted, i, m);
      sorted := sorted[i := sorted[m]][m := sorted[i]];
      SameSizeOfMultiset(sorted, before, target);
      forall a, b | 0 <= a < b < |sorted| && a < i + 1 ensures !Closer(sorted[b].nodeId, sorted[a].nodeId, target) {
        if a < i {
          assert sorted[a] == before[a];
        }
      }
    }
  }

  // ---------------------------------------------------------------- next hop

  /** What the choice of the next hop depends on; `ready` is first_node or joined. */
  datatype Table = Table(id: NodeId, publicIp: string, publicPort: nat, ready: bool, nodes: seq<NodeInfo>)

  ghost predicate HasDuplicates(hops: seq<NodeId>) {
    exists i, j :: 0 <= i < j < |hops| && hops[i] == hops[j]
  }

  /** Nodes other than this one, at another endpoint, that have not had the message. */
  function Eligible(t: Table, hops: seq<NodeId>): NodeInfo -> bool {
    (n: NodeInfo) =>
      n.nodeId != t.id && n.nodeId !in hops && !(n.publicIp == t.publicIp && n.publicPort == t.publicPort)
  }

  /** The node a message for `des` that has passed `hops` goes to next, if any. */
  ghost predicate IsNext(t: Table, des: NodeId, hops: seq<NodeId>, r: Option<NodeInfo>)
    requires SameSize(t.nodes, des)
  {
    if des == t.id || !t.ready || HasDuplicates(hops) then r == None
    else IsClosest(t.nodes, des, Eligible(t, hops), r)
  }

  lemma NothingToChoose(t: Table, des: NodeId, hops: seq<NodeId>)
    requires SameSize(t.nodes, des) && (des == t.id || !t.ready)
    ensures IsNext(t, des, hops, None)
  {
  }

  /** What the choice of the next hop comes to. */
  lemma NextMeans(t: Table, des: NodeId, passed: seq<NodeId>, sent: Option<NodeInfo>)
    requires SameSize(t.nodes, des) && IsNext(t, des, passed, sent) && forall n :: n in t.nodes ==> n.nodeId != t.id
    ensures sent.Some? <==>
              && des != t.id
              && t.ready
              && (forall i, j :: 0 <= i < j < |passed| ==> passed[i] != passed[j])
              && exists n :: n in t.nodes && n.nodeId !in passed
                             && !(n.publicIp == t.publicIp && n.publicPort == t.publicPort)
    ensures sent.Some? ==>
              var c := sent.value;
              && c in t.nodes && c.nodeId != t.id && c.nodeId !in passed
              && !(c.publicIp == t.publicIp && c.publicPort == t.publicPort)
              && forall n :: n in t.nodes && n.nodeId !in passed
                             && !(n.publicIp == t.publicIp && n.publicPort == t.publicPort) ==>
                   Distance(c.nodeId, des) <= Distance(n.nodeId, des)
  {
    hide Distance;
    var among := Eligible(t, passed);
    forall n | n in t.nodes
      ensures among(n) == (n.nodeId !in passed && !(n.publicIp == t.publicIp && n.publicPort == t.publicPort))
    {
    }
  }

  /** No node of the table is as close to the target as this one. */
  ghost predicate NoneCloser(t: Table, target: NodeId) {
    forall n :: n in t.nodes ==>
      |n.nodeId| == |t.id| == |target| && Distance(t.id, target) < Distance(n.nodeId, target)
  }

  /** What IsDestination answers when it may settle for the closest node. */
  ghost predicate Destination(t: Table, des: NodeId) {
    des == t.id || (|des| == |t.id| && NoneCloser(t, des)) || t.nodes == []
  }

  function NotIn(exclude: set<NodeId>): NodeInfo -> bool {
    (n: NodeInfo) => n.nodeId !in exclude
  }

  // ---------------------------------------------------------------- the object

  class RoutingTable {
    const localId: NodeId
    const publicIp: string
    const publicPort: nat
    const firstNode: bool
    var joined: bool
    var nodes: seq<NodeInfo>
    var nodeIdMap: map<NodeId, NodeInfo>

    ghost function View(): Table
      reads this
    {
      Table(localId, publicIp, publicPort, firstNode || joined, nodes)
    }

    /** The table as the critical sections see it, with no operation under way. */
    ghost function Sections(): State
      reads this
    {
      State(nodes, nodeIdMap, map[])
    }

    /** kRoutingMaxNodesSize is an int, so ids are not astronomically long. */
    ghost predicate Valid()
      reads this
    {
      BucketsHold(localId, nodes) && Mirror(nodes, nodeIdMap) && MaxNodes(|localId|) < 0x8000_0000
    }

    constructor (localId: NodeId, publicIp: string, publicPort: nat, firstNode: bool)
      requires MaxNodes(|localId|) < 0x8000_0000
      ensures Valid() && View() == Table(localId, publicIp, publicPort, firstNode, [])
    {
      this.localId, this.publicIp, this.publicPort, this.firstNode := localId, publicIp, publicPort, firstNode;
      joined, nodes, nodeIdMap := false, [], map[];
    }

    /** The checks before anything is locked for adding: what they let through is
        what a table may hold. */
    predicate Refuses(node: NodeInfo)
      ensures Refuses(node) <==> !Candidate(localId, Placed(node))
    {
      !node.natKnown || node.nodeId == localId || |node.nodeId| != |localId| || node.publicIp == "" || node.publicPort == 0
    }

    /** The node as SetNodeBucket leaves it. */
    function Placed(node: NodeInfo): NodeInfo {
      if |node.nodeId| == |localId| then node.(bucketIndex := Bucket(localId, node.nodeId)) else node
    }

    predicate IsFull(node: NodeInfo)
      reads this
    {
      Count(nodes, Placed(node).bucketIndex) >= PARAM_K
    }

    method HasNode(node: NodeInfo) returns (has: bool)
      requires Valid()
      ensures has <==> HasId(nodes, node.nodeId)
    {
      has := node.nodeId in nodeIdMap;
      assert forall n :: n in nodes ==> n.nodeId in nodeIdMap;
    }

    /** Whether the k-bucket of the node has a place left. */
    method NewNodeReplaceOldNode(node: NodeInfo) returns (ok: bool)
      ensures ok <==> Count(nodes, node.bucketIndex) < 8
    {
      var sum := 0;
      for i := 0 to |nodes|
        invariant sum == Count(nodes[..i], node.bucketIndex)
      {
        CountSnoc(nodes[..i], nodes[i], node.bucketIndex);
        assert nodes[..i + 1] == nodes[..i] + [nodes[i]];
        if nodes[i].bucketIndex == node.bucketIndex {
          sum := sum + 1;
        }
      }
      assert nodes[..|nodes|] == nodes;
      ok := sum < PARAM_K;
    }

    /** Sorts the vector up to `number` by distance; the nodes stay the same. */
    method SortNodesByTargetXid(target: NodeId, number: int) returns (count: nat)
      requires Valid() && |target| == |localId|
      modifies this`nodes
      ensures Valid() && multiset(nodes) == multiset(old(nodes)) && SameSize(nodes, target)
      ensures count == if number <= 0 then 0 else if number <= |nodes| then number else |nodes|
      ensures SortedUpTo(nodes, target, count)
    {
      hide Closer;
      count := if number <= 0 then 0 else if number <= |nodes| then number else |nodes|;
      if count == 0 {
        return;
      }
      nodes := PartialSort(nodes, target, count);
      ReorderKeepsValid(localId, nodes, old(nodes), nodeIdMap);
    }

    /** Every outcome with its exact condition; on success the node comes last,
        after the other nodes sorted by distance to this one. */
    method AddNode(node: NodeInfo) returns (r: AddResult)
      requires Valid()
      modifies this`nodes, this`nodeIdMap
      ensures Valid()
      ensures r.Success? <==>
                && node.natKnown && node.nodeId != localId && |node.nodeId| == |localId|
                && node.publicIp != "" && node.publicPort > 0
                && (forall n :: n in old(nodes) ==> n.nodeId != node.nodeId)
                && Count(old(nodes), Bucket(localId, node.nodeId)) < 8
      ensures r.NodeHasAdded? <==> !Refuses(node) && HasId(old(nodes), node.nodeId)
      ensures r.Success? <==> !Refuses(node) && !HasId(old(nodes), node.nodeId) && !old(IsFull(node))
      ensures r.Success? ==>
                && nodes != [] && nodes[|nodes| - 1] == Placed(node)
                && multiset(nodes[..|nodes| - 1]) == multiset(old(nodes))
                && Sections() == Run(old(Sections()), [Reorder(nodes[..|nodes| - 1]), Push(Placed(node)), Insert(Placed(node))])
                && nodeIdMap == old(nodeIdMap)[node.nodeId := Placed(node)]
      ensures !r.Success? ==> multiset(nodes) == multiset(old(nodes)) && nodeIdMap == old(nodeIdMap)
    {
      if !node.natKnown || node.nodeId == localId {
        return Failed;
      }
      if |node.nodeId| != |localId| || node.publicIp == "" || node.publicPort <= 0 {
        return Failed;
      }
      var has := HasNode(node);
      if has {
        return NodeHasAdded;
      }
      var isOther, bucketIndex := SetNodeBucket(localId, node.nodeId);
      if !isOther {
        return Failed;
      }
      var placed := node.(bucketIndex := bucketIndex);
      var _ := SortNodesByTargetXid(localId, |nodes|);
      CountOfMultiset(nodes, old(nodes), bucketIndex);
      var room := NewNodeReplaceOldNode(placed);
      if !room {
        return Failed;
      }
      SameIds(nodes, old(nodes), node.nodeId);
      has := HasNode(placed);
      if has {
        return NodeHasAdded;
      }
      ghost var sorted := nodes;
      nodes := nodes + [placed];
      nodeIdMap := nodeIdMap[node.nodeId := placed];
      PushKeepsValid(localId, sorted, old(nodeIdMap), placed);
      AddIsThreeSections(old(nodes), old(nodeIdMap), sorted, placed);
      assert nodes[..|nodes| - 1] == sorted;
      return Success;
    }

    /** Answers whether AddNode would succeed, and changes at most the order. */
    method CanAddNode(node: NodeInfo) returns (can: bool)
      requires Valid()
      modifies this`nodes
      ensures Valid() && multiset(nodes) == multiset(old(nodes))
      ensures can <==> !Refuses(node) && !HasId(old(nodes), node.nodeId) && !old(IsFull(node))
      ensures can <==>
                && node.natKnown && node.nodeId != localId && |node.nodeId| == |localId|
                && node.publicIp != "" && node.publicPort > 0
                && (forall n :: n in old(nodes) ==> n.nodeId != node.nodeId)
                && Count(old(nodes), Bucket(localId, node.nodeId)) < 8
    {
      if !node.natKnown || node.nodeId == localId {
        return false;
      }
      if |node.nodeId| != |localId| || node.publicIp == "" || node.publicPort <= 0 {
        return false;
      }
      var has := HasNode(node);
      if has {
        return false;
      }
      var isOther, bucketIndex := SetNodeBucket(localId, node.nodeId);
      if !isOther {
        return false;
      }
      var _ := SortNodesByTargetXid(localId, |nodes|);
      CountOfMultiset(nodes, old(nodes), bucketIndex);
      can := NewNodeReplaceOldNode(node.(bucketIndex := bucketIndex));
    }

    method DropNode(node: NodeInfo)
      requires Valid()
      modifies this`nodes, this`nodeIdMap
      ensures Valid()
      ensures Sections() == Run(old(Sections()), [Erase(node.nodeId), Unmap(node.nodeId)])
      ensures nodes == Without(old(nodes), node.nodeId)
      ensures nodeIdMap == old(nodeIdMap) - {node.nodeId}
    {
      hide BucketsHold, Mirror, Run, IsNode, Without;
      DropIsTwoSections(nodes, nodeIdMap, node.nodeId);
      DropKeepsValid(localId, nodes, nodeIdMap, node.nodeId);
      var i := 0;
      while i < |nodes| && !IsNode(nodes[i], node.nodeId)
        invariant i <= |nodes| && forall m :: m in nodes[..i] ==> !IsNode(m, node.nodeId)
      {
        i := i + 1;
      }
      if i < |nodes| {
        assert nodes == nodes[..i] + [nodes[i]] + nodes[i + 1..];
        WithoutFirst(nodes[..i], nodes[i], nodes[i + 1..], node.nodeId);
        nodes := nodes[..i] + nodes[i + 1..];
      } else {
        assert nodes[..i] == nodes;
        WithoutNone(nodes, node.nodeId);
      }
      if node.nodeId in nodeIdMap {
        nodeIdMap := nodeIdMap - {node.nodeId};
      }
      assert nodeIdMap == old(nodeIdMap) - {node.nodeId};
    }

    /** number_to_get is unsigned and handed on as an int. */
    method GetClosestNodes(target: NodeId, numberToGet: nat) returns (r: seq<NodeInfo>)
      requires Valid() && |target| == |localId| && numberToGet < 0x1_0000_0000
      modifies this`nodes
      ensures Valid() && multiset(nodes) == multiset(old(nodes)) && SameSize(nodes, target)
      ensures |r| == if numberToGet >= 0x8000_0000 then 0 else if numberToGet <= |nodes| then numberToGet else |nodes|
      ensures r <= nodes && SortedUpTo(nodes, target, |r|)
    {
      if numberToGet == 0 {
        assert forall n :: n in nodes ==> Candidate(localId, n);
        return [];
      }
      var number := if numberToGet < 0x8000_0000 then numberToGet else numberToGet - 0x1_0000_0000;
      var count := SortNodesByTargetXid(target, number);
      return nodes[..count];
    }

    /** The closest node outside `exclude`, of the whole table. */
    method GetClosestNode(target: NodeId, notSelf: bool, exclude: set<NodeId>) returns (r: Option<NodeInfo>)
      requires Valid() && |target| == |localId|
      modifies this`nodes
      ensures Valid() && multiset(nodes) == multiset(old(nodes)) && SameSize(nodes, target)
      ensures IsClosest(nodes, target, NotIn(exclude), r)
      ensures r == None <==> forall n :: n in nodes ==> n.nodeId in exclude
      ensures r.Some? ==>
                && r.value in nodes && r.value.nodeId !in exclude
                && forall n :: n in nodes && n.nodeId !in exclude ==>
                     Distance(r.value.nodeId, target) <= Distance(n.nodeId, target)
    {
      hide Closer, Distance, Mirror;
      TableFits(localId, nodes);
      var closest := GetClosestNodes(target, MaxNodes(|localId|));
      SizeOfMultiset(nodes, old(nodes));
      assert closest == nodes;
      for i := 0 to |closest|
        invariant forall k :: 0 <= k < i ==> !NotIn(exclude)(nodes[k])
      {
        assert closest[i] in nodes && Candidate(localId, closest[i]);
        if !(notSelf && closest[i].nodeId == localId) && closest[i].nodeId !in exclude {
          FirstOfSorted(nodes, target, NotIn(exclude), i);
          return Some(closest[i]);
        }
      }
      FirstOfSorted(nodes, target, NotIn(exclude), |nodes|);
      forall n | n in nodes ensures !NotIn(exclude)(n) {
      }
      return None;
    }

    /** `closest` tells whether no node of the table is closer to the target. */
    method ClosestToTarget(target: NodeId) returns (ok: bool, closest: bool)
      requires Valid()
      modifies this`nodes
      ensures Valid() && multiset(nodes) == multiset(old(nodes))
      ensures ok <==> target != localId && (nodes == [] || |target| == |localId|)
      ensures ok ==> (closest <==> NoneCloser(View(), target))
    {
      hide Closer, Distance, Mirror;
      if target == localId {
        return false, false;
      }
      if |nodes| == 0 {
        return true, true;
      }
      if |target| != |localId| {
        return false, false;
      }
      var node := GetClosestNode(target, true, {});
      SizeOfMultiset(nodes, old(nodes));
      assert NotIn({})(nodes[0]) && nodes[0] in nodes;
      var c := node.value;
      BucketRange(localId, c.nodeId);
      var closer := CloserToTarget(localId, c.nodeId, target);
      CloserComparesDistances(localId, c.nodeId, target);
      closest := c.bucketIndex == 0 || closer;
      forall n | n in nodes ensures NotIn({})(n) && Candidate(localId, n) {
      }
      return true, closest;
    }

    method IsDestination(des: NodeId, checkClosest: bool) returns (r: bool)
      requires Valid()
      modifies this`nodes
      ensures Valid() && multiset(nodes) == multiset(old(nodes))
      ensures r <==> des == localId || (checkClosest && Destination(View(), des))
      ensures r <==>
                || des == localId
                || (checkClosest && nodes == [])
                || (checkClosest && |des| == |localId|
                    && forall n :: n in nodes ==>
                         |n.nodeId| == |des| && Distance(localId, des) < Distance(n.nodeId, des))
    {
      if des == localId {
        return true;
      }
      if !checkClosest {
        return false;
      }
      var ok, closest := ClosestToTarget(des);
      r := ok && closest;
    }

    /** SendToClosestNode: a message is sent exactly when it is for another node,
        this node is the first or has joined, no hop repeats, and some node at
        another endpoint has not had it; then to a closest one of those. */
    method SendToClosestNode(des: NodeId, hopNodes: seq<NodeId>, addHop: bool)
        returns (sent: Option<NodeInfo>, hops: seq<NodeId>)
      requires Valid() && |des| == |localId|
      modifies this`nodes
      ensures Valid() && multiset(nodes) == multiset(old(nodes)) && SameSize(nodes, des)
      ensures sent.Some? ==> hops == if addHop then hopNodes + [localId] else hopNodes
      ensures IsNext(View(), des, if addHop then hopNodes + [localId] else hopNodes, sent)
      ensures var passed := if addHop then hopNodes + [localId] else hopNodes;
              sent.Some? <==>
                && des != localId
                && (firstNode || joined)
                && (forall i, j :: 0 <= i < j < |passed| ==> passed[i] != passed[j])
                && exists n :: n in nodes && n.nodeId !in passed
                               && !(n.publicIp == publicIp && n.publicPort == publicPort)
      ensures var passed := if addHop then hopNodes + [localId] else hopNodes;
              sent.Some? ==>
                var c := sent.value;
                && c in nodes && c.nodeId != localId && c.nodeId !in passed
                && !(c.publicIp == publicIp && c.publicPort == publicPort)
                && forall n :: n in nodes && n.nodeId !in passed
                               && !(n.publicIp == publicIp && n.publicPort == publicPort) ==>
                     Distance(c.nodeId, des) <= Distance(n.nodeId, des)
    {
      hide Closer, Distance, Mirror, IsNext;
      assert forall n :: n in nodes ==> Candidate(localId, n);
      hops := hopNodes;
      if des == localId || (!firstNode && !joined) {
        sent := None;
        NothingToChoose(View(), des, if addHop then hopNodes + [localId] else hopNodes);
      } else {
        if addHop {
          hops := hops + [localId];
        }
        sent := RecursiveSend(des, hops);
      }
      assert forall n :: n in nodes ==> Candidate(localId, n);
      NextMeans(View(), des, if addHop then hopNodes + [localId] else hopNodes, sent);
    }

    /** RecursiveSend: nothing when a hop repeats, else the closest node left. */
    method RecursiveSend(des: NodeId, hops: seq<NodeId>) returns (sent: Option<NodeInfo>)
      requires Valid() && |des| == |localId| && des != localId && (firstNode || joined)
      modifies this`nodes
      ensures Valid() && multiset(nodes) == multiset(old(nodes)) && SameSize(nodes, des)
      ensures IsNext(View(), des, hops, sent)
    {
      hide Closer, Distance, Mirror;
      assert forall n :: n in nodes ==> Candidate(localId, n);
      var exclude: set<NodeId> := {};
      for i := 0 to |hops|
        invariant exclude == set h | h in hops[..i]
        invariant forall j, k :: 0 <= j < k < i ==> hops[j] != hops[k]
      {
        if hops[i] in exclude {
          var j :| 0 <= j < i && hops[j] == hops[i];
          return None;
        }
        exclude := exclude + {hops[i]};
        assert hops[..i + 1] == hops[..i] + [hops[i]];
      }
      assert hops[..|hops|] == hops;
      TableFits(localId, nodes);
      var next := GetClosestNodes(des, MaxNodes(|localId|));
      SizeOfMultiset(nodes, old(nodes));
      assert next == nodes;
      var among := Eligible(View(), hops);
      for i := 0 to |next|
        invariant forall k :: 0 <= k < i ==> !among(nodes[k])
      {
        var n := next[i];
        if n.nodeId != localId && !(n.publicIp == publicIp && n.publicPort == publicPort) && n.nodeId !in exclude {
          FirstOfSorted(nodes, des, among, i);
          return Some(n);
        }
      }
      FirstOfSorted(nodes, des, among, |nodes|);
      return None;
    }
  }

  // ---------------------------------------------------------------- keeping it valid

  lemma SizeOfMultiset(a: seq<NodeInfo>, b: seq<NodeInfo>)
    requires multiset(a) == multiset(b)
    ensures |a| == |b|
  {
    assert |a| == |multiset(a)| == |multiset(b)| == |b|;
  }

  lemma ReorderKeepsValid(local: NodeId, sorted: seq<NodeInfo>, nodes: seq<NodeInfo>, idMap: map<NodeId, NodeInfo>)
    requires BucketsHold(local, nodes) && Mirror(nodes, idMap) && multiset(sorted) == multiset(nodes)
    ensures BucketsHold(local, sorted) && Mirror(sorted, idMap)
  {
    DistinctOfMultiset(sorted, nodes);
    forall b ensures Count(sorted, b) <= PARAM_K {
      CountOfMultiset(sorted, nodes, b);
    }
  }

  lemma SameIds(sorted: seq<NodeInfo>, nodes: seq<NodeInfo>, id: NodeId)
    requires multiset(sorted) == multiset(nodes)
    ensures HasId(sorted, id) <==> HasId(nodes, id)
  {
    assert forall n :: n in sorted <==> n in multiset(nodes);
  }

  lemma PushKeepsValid(local: NodeId, nodes: seq<NodeInfo>, idMap: map<NodeId, NodeInfo>, n: NodeInfo)
    requires BucketsHold(local, nodes) && Mirror(nodes, idMap)
    requires Candidate(local, n) && !HasId(nodes, n.nodeId) && Count(nodes, n.bucketIndex) < PARAM_K
    ensures BucketsHold(local, nodes + [n]) && Mirror(nodes + [n], idMap[n.nodeId := n])
  {
    hide Candidate;
    forall b ensures Count(nodes + [n], b) <= PARAM_K {
      CountSnoc(nodes, n, b);
    }
    hide Count;
    PushKeepsMirror(nodes, idMap, n);
  }

  lemma PushKeepsMirror(nodes: seq<NodeInfo>, idMap: map<NodeId, NodeInfo>, n: NodeInfo)
    requires Mirror(nodes, idMap) && !HasId(nodes, n.nodeId)
    ensures Mirror(nodes + [n], idMap[n.nodeId := n])
  {
    assert forall k :: 0 <= k < |nodes| ==> nodes[k] in nodes;
  }

  lemma DropKeepsValid(local: NodeId, nodes: seq<NodeInfo>, idMap: map<NodeId, NodeInfo>, id: NodeId)
    requires BucketsHold(local, nodes) && Mirror(nodes, idMap)
    ensures BucketsHold(local, Without(nodes, id)) && Mirror(Without(nodes, id), idMap - {id})
  {
    WithoutDistinct(nodes, id);
    forall b ensures Count(Without(nodes, id), b) <= PARAM_K {
      WithoutKeeps(nodes, id, b);
    }
  }
}
