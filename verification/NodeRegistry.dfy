/** The registry of nodes a supernode keeps (bench/node.cc): the list and the
    map filled by join requests, and the `save` and `load` commands that take it
    through the AllNodes message to a file and back. */
module NodeRegistry {
  import opened Options
  import opened Wire
  import opened NodeMessages
  import opened AllNodesMessageClass

  /** The fields of NodeInfo that these operations set. */
  datatype NodeInfo = NodeInfo(nodeId: Bytes, localIp: Bytes, localPort: UInt16, publicIp: Bytes, publicPort: UInt16,
                               serviceType: UInt64, natType: Int32, xid: Bytes, xip: Bytes, hash64: UInt64,
                               bucketIndex: int)

  // ---------------------------------------------------------------- to the file and back

  /** What `save` writes of a node. */
  function ToMessage(n: NodeInfo): Node {
    Node(Some(n.localIp), Some(n.localPort), Some(n.publicIp), Some(n.publicPort),
         Some(n.serviceType), Some(n.natType), Some(n.nodeId), [])
  }

  /** The node `load` builds: the ports are cut to 16 bits, the fields that are
      not in the file keep their defaults. */
  function FromMessage(m: Node, bucketOf: Bytes -> int): NodeInfo
    requires Initialized(m)
  {
    NodeInfo(m.nodeId.value, m.localIp.value, m.localPort.value % TWO16, m.publicIp.value, m.publicPort.value % TWO16,
             m.serviceType.value, m.natType.value, [], [], 0, bucketOf(m.nodeId.value))
  }

  /** A node as it comes back: exactly the saved fields. */
  function Restored(n: NodeInfo, bucketOf: Bytes -> int): NodeInfo {
    n.(xid := [], xip := [], hash64 := 0, bucketIndex := bucketOf(n.nodeId))
  }

  function Messages(ns: seq<NodeInfo>): (r: seq<Node>)
    ensures |r| == |ns|
    ensures forall i :: 0 <= i < |r| ==> r[i] == ToMessage(ns[i])
  {
    seq(|ns|, i requires 0 <= i < |ns| => ToMessage(ns[i]))
  }

  /** The nodes that `load` lists: all in order, but the local one. */
  function Listed(ms: seq<Node>, localId: Bytes, bucketOf: Bytes -> int): seq<NodeInfo>
    requires forall i :: 0 <= i < |ms| ==> Initialized(ms[i])
  {
    if ms == [] then []
    else
      var last := ms[|ms| - 1];
      assert Initialized(last);
      Listed(ms[..|ms| - 1], localId, bucketOf) +
      if last.nodeId.value == localId then [] else [FromMessage(last, bucketOf)]
  }

  function Without(ns: seq<NodeInfo>, id: Bytes): seq<NodeInfo> {
    if ns == [] then []
    else Without(ns[..|ns| - 1], id) + if ns[|ns| - 1].nodeId == id then [] else [ns[|ns| - 1]]
  }

  function AllRestored(ns: seq<NodeInfo>, bucketOf: Bytes -> int): (r: seq<NodeInfo>)
    ensures |r| == |ns|
    ensures forall i :: 0 <= i < |r| ==> r[i] == Restored(ns[i], bucketOf)
  {
    seq(|ns|, i requires 0 <= i < |ns| => Restored(ns[i], bucketOf))
  }

  /** The map after every listed node was stored under its id. */
  function Indexed(ns: seq<NodeInfo>): map<Bytes, NodeInfo> {
    if ns == [] then map[] else Indexed(ns[..|ns| - 1])[ns[|ns| - 1].nodeId := ns[|ns| - 1]]
  }

  predicate Savable(n: NodeInfo) {
    |n.localIp| < TWO31 && |n.publicIp| < TWO31 && |n.nodeId| < TWO31 && |NodeBytes(ToMessage(n))| < TWO31
  }

  lemma SavableMessage(n: NodeInfo)
    requires Savable(n)
    ensures NodeOk(ToMessage(n), NESTED) && Initialized(ToMessage(n))
  {
  }

  /** The bytes of the file. */
  function FileOf(ns: seq<NodeInfo>, local: NodeInfo): Bytes {
    AllNodesBytes(AllNodes(Messages(ns) + [ToMessage(local)], []))
  }

  lemma {:induction false} ListedOfSaved(ns: seq<NodeInfo>, localId: Bytes, bucketOf: Bytes -> int)
    ensures Listed(Messages(ns), localId, bucketOf) == AllRestored(Without(ns, localId), bucketOf)
    decreases |ns|
  {
    if ns == [] {
    } else {
      var init, last := ns[..|ns| - 1], ns[|ns| - 1];
      ListedOfSaved(init, localId, bucketOf);
      assert ns == init + [last] && Messages(ns) == Messages(init) + [ToMessage(last)];
      ListedNext(Messages(init), last, localId, bucketOf);
      WithoutNext(init, last, localId);
      RestoredNext(Without(init, localId), last, bucketOf);
      hide *;
    }
  }

  lemma RestoredNext(ns: seq<NodeInfo>, n: NodeInfo, bucketOf: Bytes -> int)
    ensures AllRestored(ns + [n], bucketOf) == AllRestored(ns, bucketOf) + [Restored(n, bucketOf)]
    ensures ns + [] == ns && AllRestored(ns, bucketOf) + [] == AllRestored(ns, bucketOf)
  {
    hide Restored;
  }

  lemma ListedNext(ms: seq<Node>, n: NodeInfo, localId: Bytes, bucketOf: Bytes -> int)
    requires forall i :: 0 <= i < |ms| ==> Initialized(ms[i])
    ensures Listed(ms + [ToMessage(n)], localId, bucketOf)
         == Listed(ms, localId, bucketOf) + if n.nodeId == localId then [] else [Restored(n, bucketOf)]
  {
    var all := ms + [ToMessage(n)];
    assert all[..|all| - 1] == ms && all[|all| - 1] == ToMessage(n);
  }

  lemma WithoutNext(ns: seq<NodeInfo>, n: NodeInfo, id: Bytes)
    ensures Without(ns + [n], id) == Without(ns, id) + if n.nodeId == id then [] else [n]
  {
    var all := ns + [n];
    assert all[..|all| - 1] == ns && all[|all| - 1] == n;
  }

  /** End to end: loading the saved file lists the registry in order, minus any
      entry under the local id, each node with exactly its saved fields. */
  lemma SaveThenLoad(ns: seq<NodeInfo>, local: NodeInfo, bucketOf: Bytes -> int)
    requires Savable(local) && forall i :: 0 <= i < |ns| ==> Savable(ns[i])
    ensures ParseFromString(FileOf(ns, local)).Some?
    ensures Listed(ParseFromString(FileOf(ns, local)).value.nodes, local.nodeId, bucketOf) ==
            AllRestored(Without(ns, local.nodeId), bucketOf)
  {
    SavedRoundTrip(ns, local);
    LoadedList(ns, local, bucketOf);
    hide *;
  }

  lemma LoadedList(ns: seq<NodeInfo>, local: NodeInfo, bucketOf: Bytes -> int)
    ensures Listed(Messages(ns) + [ToMessage(local)], local.nodeId, bucketOf)
         == AllRestored(Without(ns, local.nodeId), bucketOf)
  {
    ListedOfSaved(ns, local.nodeId, bucketOf);
    ListedNext(Messages(ns), local, local.nodeId, bucketOf);
    hide Listed, AllRestored, Without;
  }

  lemma SavedRoundTrip(ns: seq<NodeInfo>, local: NodeInfo)
    requires Savable(local) && forall i :: 0 <= i < |ns| ==> Savable(ns[i])
    ensures ParseFromString(FileOf(ns, local)) == Some(AllNodes(Messages(ns) + [ToMessage(local)], []))
  {
    var m := AllNodes(Messages(ns) + [ToMessage(local)], []);
    forall i | 0 <= i < |m.nodes| ensures NodeOk(m.nodes[i], NESTED) && Initialized(m.nodes[i])
                                          && |NodeBytes(m.nodes[i])| < TWO31 {
      SavableMessage(if i < |ns| then ns[i] else local);
    }
    hide NodeOk, Initialized, NodeBytes, AllNodesBytes, Savable, ToMessage, ParsedAllNodes;
    NoFieldsOk(RECURSION_LIMIT);
    AllNodesRoundTrip(m);
  }

  // ---------------------------------------------------------------- field by field

  /** The file holds every node of the list in order and then the local one, each
      field under its own name. */
  lemma FileSays(ns: seq<NodeInfo>, local: NodeInfo, i: nat)
    requires Savable(local) && (forall k :: 0 <= k < |ns| ==> Savable(ns[k])) && i <= |ns|
    ensures ParseFromString(FileOf(ns, local)).Some?
    ensures var ms := ParseFromString(FileOf(ns, local)).value.nodes;
            && |ms| == |ns| + 1
            && var n := if i < |ns| then ns[i] else local;
               && ms[i].nodeId == Some(n.nodeId)
               && ms[i].localIp == Some(n.localIp) && ms[i].localPort == Some(n.localPort)
               && ms[i].publicIp == Some(n.publicIp) && ms[i].publicPort == Some(n.publicPort)
               && ms[i].serviceType == Some(n.serviceType) && ms[i].natType == Some(n.natType)
               && ms[i].unknown == []
  {
    SavedRoundTrip(ns, local);
    hide FileOf, ParseFromString, Savable;
  }

  /** A message under the local id is skipped; another is taken over field by
      field, its ports cut to 16 bits and the rest at its defaults. */
  lemma ListedOne(m: Node, localId: Bytes, bucketOf: Bytes -> int)
    requires Initialized(m)
    ensures var r := Listed([m], localId, bucketOf);
            if m.nodeId.value == localId then r == []
            else
              && |r| == 1
              && r[0].nodeId == m.nodeId.value && r[0].bucketIndex == bucketOf(m.nodeId.value)
              && r[0].localIp == m.localIp.value && r[0].localPort == m.localPort.value % 0x1_0000
              && r[0].publicIp == m.publicIp.value && r[0].publicPort == m.publicPort.value % 0x1_0000
              && r[0].serviceType == m.serviceType.value && r[0].natType == m.natType.value
              && r[0].xid == [] && r[0].xip == [] && r[0].hash64 == 0
  {
    assert [m][..0] == [];
  }

  lemma {:induction false} ListedConcat(a: seq<Node>, b: seq<Node>, localId: Bytes, bucketOf: Bytes -> int)
    requires (forall i :: 0 <= i < |a| ==> Initialized(a[i])) && (forall i :: 0 <= i < |b| ==> Initialized(b[i]))
    ensures Listed(a + b, localId, bucketOf) == Listed(a, localId, bucketOf) + Listed(b, localId, bucketOf)
    decreases |b|
  {
    hide FromMessage;
    if b == [] {
      assert a + b == a;
    } else {
      assert (a + b)[..|a + b| - 1] == a + b[..|b| - 1] && (a + b)[|a + b| - 1] == b[|b| - 1];
      ListedConcat(a, b[..|b| - 1], localId, bucketOf);
    }
  }

  /** What comes back of a node: every field that is saved, and no other. */
  lemma RestoredFields(n: NodeInfo, bucketOf: Bytes -> int)
    ensures var r := Restored(n, bucketOf);
            && r.nodeId == n.nodeId && r.localIp == n.localIp && r.localPort == n.localPort
            && r.publicIp == n.publicIp && r.publicPort == n.publicPort
            && r.serviceType == n.serviceType && r.natType == n.natType
            && r.bucketIndex == bucketOf(n.nodeId) && r.xid == [] && r.xip == [] && r.hash64 == 0
  {
  }

  lemma {:induction false} WithoutConcat(a: seq<NodeInfo>, b: seq<NodeInfo>, id: Bytes)
    ensures Without(a + b, id) == Without(a, id) + Without(b, id)
    ensures |a| == 1 ==> Without(a, id) == if a[0].nodeId == id then [] else a
    decreases |b|
  {
    if |a| == 1 {
      assert a == [a[0]] && a[..0] == [];
    }
    if b == [] {
      assert a + b == a;
    } else {
      assert (a + b)[..|a + b| - 1] == a + b[..|b| - 1] && (a + b)[|a + b| - 1] == b[|b| - 1];
      WithoutConcat(a, b[..|b| - 1], id);
    }
  }

  /** The map finds the last of the nodes listed under an id. */
  lemma {:induction false} IndexedIsLast(ns: seq<NodeInfo>, i: nat)
    requires i < |ns| && forall j :: i < j < |ns| ==> ns[j].nodeId != ns[i].nodeId
    ensures ns[i].nodeId in Indexed(ns) && Indexed(ns)[ns[i].nodeId] == ns[i]
    decreases |ns|
  {
    if i < |ns| - 1 {
      IndexedIsLast(ns[..|ns| - 1], i);
    }
  }

  // ---------------------------------------------------------------- list and map

  predicate DistinctIds(ns: seq<NodeInfo>) {
    forall i, j :: 0 <= i < j < |ns| ==> ns[i].nodeId != ns[j].nodeId
  }

  function Ids(ns: seq<NodeInfo>): set<Bytes> {
    set i | 0 <= i < |ns| :: ns[i].nodeId
  }

  /** The map holds exactly the listed nodes, each once. */
  ghost predicate Mirrors(ns: seq<NodeInfo>, m: map<Bytes, NodeInfo>) {
    && |m| == |ns| && m.Keys == Ids(ns)
    && (forall i :: 0 <= i < |ns| ==> ns[i].nodeId in m && m[ns[i].nodeId] == ns[i])
  }

  lemma IdsSnoc(ns: seq<NodeInfo>)
    requires ns != []
    ensures Ids(ns) == Ids(ns[..|ns| - 1]) + {ns[|ns| - 1].nodeId}
    ensures DistinctIds(ns) <==> DistinctIds(ns[..|ns| - 1]) && ns[|ns| - 1].nodeId !in Ids(ns[..|ns| - 1])
  {
    var init, last := ns[..|ns| - 1], ns[|ns| - 1];
    forall i | 0 <= i < |ns| ensures ns[i].nodeId in Ids(init) + {last.nodeId} {
      if i < |init| {
        assert init[i].nodeId in Ids(init);
      }
    }
    forall i | 0 <= i < |init| ensures init[i].nodeId in Ids(ns) {
      assert ns[i] == init[i];
    }
    assert last.nodeId in Ids(ns);
    if DistinctIds(ns) {
      assert forall i, j :: 0 <= i < j < |init| ==> ns[i].nodeId != ns[j].nodeId;
    }
  }

  lemma {:induction false} IndexedKeys(ns: seq<NodeInfo>)
    ensures Indexed(ns).Keys == Ids(ns)
    ensures |Indexed(ns)| <= |ns|
    ensures |Indexed(ns)| == |ns| <==> DistinctIds(ns)
    decreases |ns|
  {
    if ns == [] {
    } else {
      var init, id := ns[..|ns| - 1], ns[|ns| - 1].nodeId;
      IndexedKeys(init);
      IdsSnoc(ns);
      var m := Indexed(init);
      assert Indexed(ns).Keys == m.Keys + {id};
      assert |m.Keys + {id}| == |m.Keys| + if id in m.Keys then 0 else 1 by {
        if id in m.Keys {
          assert m.Keys + {id} == m.Keys;
        }
      }
      assert |Indexed(ns)| == |Indexed(ns).Keys| && |m| == |m.Keys|;
    }
  }

  lemma {:induction false} IndexedValues(ns: seq<NodeInfo>, i: nat)
    requires DistinctIds(ns) && i < |ns|
    ensures ns[i].nodeId in Indexed(ns) && Indexed(ns)[ns[i].nodeId] == ns[i]
    decreases |ns|
  {
    if i < |ns| - 1 {
      IndexedValues(ns[..|ns| - 1], i);
    }
  }

  /** After a load the map mirrors the list exactly when the ids listed are
      distinct; the id sets agree in any case. */
  lemma LoadMirrorsExactlyWhenDistinct(ns: seq<NodeInfo>)
    ensures Mirrors(ns, Indexed(ns)) <==> DistinctIds(ns)
    ensures Indexed(ns).Keys == Ids(ns)
  {
    IndexedKeys(ns);
    if DistinctIds(ns) {
      forall i | 0 <= i < |ns| ensures ns[i].nodeId in Indexed(ns) && Indexed(ns)[ns[i].nodeId] == ns[i] {
        IndexedValues(ns, i);
      }
    }
  }

  lemma {:induction false} WithoutDistinct(ns: seq<NodeInfo>, id: Bytes)
    requires DistinctIds(ns)
    ensures DistinctIds(Without(ns, id))
    ensures forall i :: 0 <= i < |Without(ns, id)| ==>
              Without(ns, id)[i].nodeId != id && exists j :: 0 <= j < |ns| && ns[j] == Without(ns, id)[i]
    decreases |ns|
  {
    if ns == [] {
    } else {
      WithoutDistinct(ns[..|ns| - 1], id);
    }
  }

  /** Saving and loading a registry of distinct ids gives a registry of distinct
      ids whose map mirrors its list. */
  lemma SaveThenLoadMirrors(ns: seq<NodeInfo>, localId: Bytes, bucketOf: Bytes -> int)
    requires DistinctIds(ns)
    ensures var back := AllRestored(Without(ns, localId), bucketOf);
            DistinctIds(back) && Mirrors(back, Indexed(back))
  {
    WithoutDistinct(ns, localId);
    LoadMirrorsExactlyWhenDistinct(AllRestored(Without(ns, localId), bucketOf));
  }

  lemma MirrorsAppend(ns: seq<NodeInfo>, m: map<Bytes, NodeInfo>, n: NodeInfo)
    requires Mirrors(ns, m) && n.nodeId !in m
    ensures Mirrors(ns + [n], m[n.nodeId := n])
  {
    assert (ns + [n])[..|ns|] == ns;
    IdsSnoc(ns + [n]);
    assert m[n.nodeId := n].Keys == m.Keys + {n.nodeId};
  }

  /** One round of the load loop. */
  lemma ListedSnoc(ms: seq<Node>, i: nat, localId: Bytes, bucketOf: Bytes -> int)
    requires i < |ms| && forall k :: 0 <= k < |ms| ==> Initialized(ms[k])
    ensures Listed(ms[..i + 1], localId, bucketOf) == Listed(ms[..i], localId, bucketOf) +
            if ms[i].nodeId.value == localId then [] else [FromMessage(ms[i], bucketOf)]
  {
    assert ms[..i + 1][..i] == ms[..i];
  }

  lemma ListedNone(ms: seq<Node>, localId: Bytes, bucketOf: Bytes -> int)
    ensures Listed(ms[..0], localId, bucketOf) == [] && Indexed([]) == map[]
  {
  }

  lemma IndexedSnoc(ns: seq<NodeInfo>, n: NodeInfo)
    ensures Indexed(ns + [n]) == Indexed(ns)[n.nodeId := n]
  {
    assert (ns + [n])[..|ns|] == ns;
  }

  // ---------------------------------------------------------------- the commands

  class Registry {
    var allNodes: seq<NodeInfo>
    var allNodesMap: map<Bytes, NodeInfo>
    const local: NodeInfo
    const firstNode: bool
    const bucketOf: Bytes -> int   // SetNodeBucket

    constructor (local: NodeInfo, firstNode: bool, bucketOf: Bytes -> int)
      ensures allNodes == [] && allNodesMap == map[] && Mirrors(allNodes, allNodesMap)
      ensures this.local == local && this.firstNode == firstNode && this.bucketOf == bucketOf
    {
      this.local, this.firstNode, this.bucketOf := local, firstNode, bucketOf;
      allNodes, allNodesMap := [], map[];
    }

    method OnCommandSave() returns (data: Bytes)
      requires Savable(local) && forall i :: 0 <= i < |allNodes| ==> Savable(allNodes[i])
      ensures data == FileOf(allNodes, local)
    {
      var pb := new AllNodesMessage();
      var i := 0;
      while i < |allNodes|
        invariant 0 <= i <= |allNodes|
        invariant pb.View() == AllNodes(Messages(allNodes[..i]), [])
      {
        pb.AddNode(ToMessage(allNodes[i]));
        i := i + 1;
        assert Messages(allNodes[..i]) == Messages(allNodes[..i - 1]) + [ToMessage(allNodes[i - 1])];
      }
      assert allNodes[..i] == allNodes;
      pb.AddNode(ToMessage(local));
      forall k | 0 <= k < |pb.View().nodes|
        ensures NodeOk(pb.View().nodes[k], NESTED) && |NodeBytes(pb.View().nodes[k])| < TWO31
      {
        SavableMessage(if k < |allNodes| then allNodes[k] else local);
      }
      data := pb.SerializeWithCachedSizes([]);
    }

    /** A file that does not parse leaves the registry alone. */
    method OnCommandLoad(data: Bytes) returns (ok: bool)
      modifies this
      ensures ok <==> ParseFromString(data).Some?
      ensures ok ==> allNodes == Listed(ParseFromString(data).value.nodes, local.nodeId, bucketOf)
      ensures ok ==> allNodesMap == Indexed(allNodes)
      ensures !ok ==> allNodes == old(allNodes) && allNodesMap == old(allNodesMap)
    {
      var pb := new AllNodesMessage();
      ok := pb.ParseFromString(data);
      if !ok {
        return;
      }
      hide ParseFromString, FromMessage, Listed, Indexed;
      var ms := pb.nodes;
      ListedNone(ms, local.nodeId, bucketOf);
      allNodes, allNodesMap := [], map[];
      var i := 0;
      while i < |ms|
        invariant 0 <= i <= |ms|
        invariant allNodes == Listed(ms[..i], local.nodeId, bucketOf)
        invariant allNodesMap == Indexed(allNodes)
      {
        var pbNode := ms[i];
        ListedSnoc(ms, i, local.nodeId, bucketOf);
        i := i + 1;
        if pbNode.nodeId.value == local.nodeId {
          continue;
        }
        var node := FromMessage(pbNode, bucketOf);
        IndexedSnoc(allNodes, node);
        allNodes := allNodes + [node];
        allNodesMap := allNodesMap[node.nodeId := node];
      }
      assert ms[..i] == ms;
    }

    /** Only the first node keeps a registry; an id it knows is not replaced. */
    method HandleBootstrapJoinRequest(node: NodeInfo)
      requires Mirrors(allNodes, allNodesMap)
      modifies this
      ensures Mirrors(allNodes, allNodesMap)
      ensures allNodes == if firstNode && node.nodeId !in old(allNodesMap)
                          then old(allNodes) + [node.(bucketIndex := bucketOf(node.nodeId))] else old(allNodes)
    {
      var joined := node.(bucketIndex := bucketOf(node.nodeId));
      if firstNode {
        if joined.nodeId !in allNodesMap {
          MirrorsAppend(allNodes, allNodesMap, joined);
          allNodesMap := allNodesMap[joined.nodeId := joined];
          allNodes := allNodes + [joined];
        }
      }
    }
  }
}
