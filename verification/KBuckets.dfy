/** The nodes a routing table holds (src/routing_table.cc).  AddNode and DropNode
    change the vector and the id map in separate critical sections, so other
    operations can come between; every order of the sections is a run here. */
module KBuckets {
  import opened XorMetric

  /** kKadParamK, the most nodes of one bucket. */
  const PARAM_K: nat := 8

  datatype NodeInfo = NodeInfo(nodeId: NodeId, publicIp: string, publicPort: nat, natKnown: bool, bucketIndex: int)

  /** kRoutingMaxNodesSize for ids of n bytes. */
  function MaxNodes(n: nat): nat {
    n * 8 * PARAM_K
  }

  // ---------------------------------------------------------------- counting

  function Count(nodes: seq<NodeInfo>, bucket: int): nat {
    if nodes == [] then 0
    else (if nodes[0].bucketIndex == bucket then 1 else 0) + Count(nodes[1..], bucket)
  }

  /** The nodes in buckets 1 to top. */
  function CountUpTo(nodes: seq<NodeInfo>, top: nat): nat {
    if top == 0 then 0 else Count(nodes, top) + CountUpTo(nodes, top - 1)
  }

  lemma {:induction false} CountSnoc(nodes: seq<NodeInfo>, n: NodeInfo, bucket: int)
    ensures Count(nodes + [n], bucket) == Count(nodes, bucket) + (if n.bucketIndex == bucket then 1 else 0)
  {
    if nodes == [] {
    } else {
      assert (nodes + [n])[1..] == nodes[1..] + [n];
      CountSnoc(nodes[1..], n, bucket);
    }
  }

  lemma IndexInOther<T>(a: seq<T>, b: seq<T>) returns (i: nat)
    requires multiset(a) == multiset(b) && a != []
    ensures i < |b| && b[i] == a[0]
  {
    assert a[0] in multiset(b);
    i :| 0 <= i < |b| && b[i] == a[0];
  }

  lemma {:induction false} CountOfMultiset(a: seq<NodeInfo>, b: seq<NodeInfo>, bucket: int)
    requires multiset(a) == multiset(b)
    ensures Count(a, bucket) == Count(b, bucket)
  {
    if a == [] {
      assert |multiset(b)| == |b|;
    } else {
      hide Count;
      var i := IndexInOther(a, b);
      MultisetWithout(a, 0);
      MultisetWithout(b, i);
      CountWithout(a, 0, bucket);
      CountWithout(b, i, bucket);
      CountOfMultiset(a[..0] + a[1..], b[..i] + b[i + 1..], bucket);
    }
  }

  lemma MultisetWithout<T>(s: seq<T>, i: nat)
    requires i < |s|
    ensures multiset(s[..i] + s[i + 1..]) == multiset(s) - multiset{s[i]}
  {
    assert s == s[..i] + [s[i]] + s[i + 1..];
  }

  lemma {:induction false} CountWithout(s: seq<NodeInfo>, i: nat, bucket: int)
    requires i < |s|
    ensures Count(s, bucket)
         == Count(s[..i] + s[i + 1..], bucket) + (if s[i].bucketIndex == bucket then 1 else 0)
  {
    if i == 0 {
      assert s[..0] + s[1..] == s[1..];
    } else {
      CountWithout(s[1..], i - 1, bucket);
      assert (s[..i] + s[i + 1..])[1..] == s[1..][..i - 1] + s[1..][i..];
    }
  }

  lemma {:induction false} CountUpToCons(n: NodeInfo, nodes: seq<NodeInfo>, top: nat)
    ensures CountUpTo([n] + nodes, top) == CountUpTo(nodes, top) + (if 1 <= n.bucketIndex <= top then 1 else 0)
  {
    if top == 0 {
    } else {
      CountUpToCons(n, nodes, top - 1);
      assert ([n] + nodes)[1..] == nodes;
    }
  }

  lemma {:induction false} CountUpToAll(nodes: seq<NodeInfo>, top: nat)
    requires forall n :: n in nodes ==> 1 <= n.bucketIndex <= top
    ensures CountUpTo(nodes, top) == |nodes|
  {
    if nodes == [] {
      CountUpToNone(top);
    } else {
      CountUpToAll(nodes[1..], top);
      assert nodes == [nodes[0]] + nodes[1..];
      CountUpToCons(nodes[0], nodes[1..], top);
    }
  }

  lemma {:induction false} CountUpToNone(top: nat)
    ensures CountUpTo([], top) == 0
  {
    if top == 0 {
    } else {
      CountUpToNone(top - 1);
    }
  }

  lemma {:induction false} CountUpToBound(nodes: seq<NodeInfo>, top: nat)
    requires forall b :: Count(nodes, b) <= PARAM_K
    ensures CountUpTo(nodes, top) <= PARAM_K * top
  {
    if top == 0 {
    } else {
      CountUpToBound(nodes, top - 1);
    }
  }

  // ---------------------------------------------------------------- what a table holds

  /** What AddNode's checks let through. */
  ghost predicate Candidate(local: NodeId, n: NodeInfo) {
    && |n.nodeId| == |local| && n.nodeId != local
    && n.bucketIndex == Bucket(local, n.nodeId)
    && n.publicIp != "" && n.publicPort > 0 && n.natKnown
  }

  ghost predicate BucketsHold(local: NodeId, nodes: seq<NodeInfo>) {
    && (forall n :: n in nodes ==> Candidate(local, n))
    && (forall b :: Count(nodes, b) <= PARAM_K)
  }

  /** No table exceeds kRoutingMaxNodesSize, the number of nodes that its
      searches look at: they see every node. */
  lemma TableFits(local: NodeId, nodes: seq<NodeInfo>)
    requires BucketsHold(local, nodes)
    ensures |nodes| <= MaxNodes(|local|) == 64 * |local|
  {
    forall n | n in nodes ensures 1 <= n.bucketIndex <= 8 * |local| {
      BucketRange(local, n.nodeId);
    }
    CountUpToAll(nodes, 8 * |local|);
    CountUpToBound(nodes, 8 * |local|);
  }

  // ---------------------------------------------------------------- the critical sections

  /** `inFlight` maps an id to the operation on it that is between its sections. */
  datatype Half = Adding(node: NodeInfo) | Dropping

  datatype State = State(nodes: seq<NodeInfo>, idMap: map<NodeId, NodeInfo>, inFlight: map<NodeId, Half>)

  datatype Step =
    | Reorder(nodes: seq<NodeInfo>)
    | Push(node: NodeInfo)
    | Insert(node: NodeInfo)
    | Erase(id: NodeId)
    | Unmap(id: NodeId)

  const EMPTY := State([], map[], map[])

  predicate IsNode(n: NodeInfo, id: NodeId) {
    n.nodeId == id
  }

  /** The vector without its first node of this id. */
  function Without(nodes: seq<NodeInfo>, id: NodeId): seq<NodeInfo> {
    if nodes == [] then []
    else if IsNode(nodes[0], id) then nodes[1..]
    else [nodes[0]] + Without(nodes[1..], id)
  }

  function Apply(s: State, step: Step): State {
    match step
    case Reorder(nodes) => if multiset(nodes) == multiset(s.nodes) then s.(nodes := nodes) else s
    case Push(n) =>
      if Count(s.nodes, n.bucketIndex) >= PARAM_K || n.nodeId in s.idMap then s
      else s.(nodes := s.nodes + [n], inFlight := s.inFlight[n.nodeId := Adding(n)])
    case Insert(n) =>
      s.(idMap := if n.nodeId in s.idMap then s.idMap else s.idMap[n.nodeId := n], inFlight := s.inFlight - {n.nodeId})
    case Erase(id) => s.(nodes := Without(s.nodes, id), inFlight := s.inFlight[id := Dropping])
    case Unmap(id) => s.(idMap := s.idMap - {id}, inFlight := s.inFlight - {id})
  }

  function Run(s: State, steps: seq<Step>): State
    decreases |steps|
  {
    if steps == [] then s else Run(Apply(s, steps[0]), steps[1..])
  }

  /** AddNode with nothing in between. */
  lemma AddIsThreeSections(nodes: seq<NodeInfo>, idMap: map<NodeId, NodeInfo>, sorted: seq<NodeInfo>, n: NodeInfo)
    requires multiset(sorted) == multiset(nodes) && Count(sorted, n.bucketIndex) < PARAM_K && n.nodeId !in idMap
    ensures Run(State(nodes, idMap, map[]), [Reorder(sorted), Push(n), Insert(n)])
         == State(sorted + [n], idMap[n.nodeId := n], map[])
  {
    var s1 := State(sorted, idMap, map[]);
    var s2 := State(sorted + [n], idMap, map[n.nodeId := Adding(n)]);
    assert Apply(State(nodes, idMap, map[]), Reorder(sorted)) == s1 && Apply(s1, Push(n)) == s2;
    assert Apply(s2, Insert(n)) == State(sorted + [n], idMap[n.nodeId := n], map[]);
    hide Apply;
    assert [Reorder(sorted), Push(n), Insert(n)][1..] == [Push(n), Insert(n)];
    RunOfTwo(s1, Push(n), Insert(n));
  }

  /** DropNode with nothing in between. */
  lemma DropIsTwoSections(nodes: seq<NodeInfo>, idMap: map<NodeId, NodeInfo>, id: NodeId)
    ensures Run(State(nodes, idMap, map[]), [Erase(id), Unmap(id)])
         == State(Without(nodes, id), idMap - {id}, map[])
  {
    var s := State(nodes, idMap, map[]);
    assert Apply(Apply(s, Erase(id)), Unmap(id)).inFlight == map[];
    RunOfTwo(s, Erase(id), Unmap(id));
  }

  lemma RunOfTwo(s: State, a: Step, b: Step)
    ensures Run(s, [a, b]) == Apply(Apply(s, a), b)
  {
    hide Apply;
    assert [a, b][1..] == [b] && [b][1..] == [];
    assert Run(Apply(s, a), [b]) == Run(Apply(Apply(s, a), b), []);
  }

  ghost predicate Checked(local: NodeId, steps: seq<Step>) {
    forall i :: 0 <= i < |steps| && steps[i].Push? ==> Candidate(local, steps[i].node)
  }

  lemma {:induction false} WithoutKeeps(nodes: seq<NodeInfo>, id: NodeId, bucket: int)
    ensures Count(Without(nodes, id), bucket) <= Count(nodes, bucket)
    ensures forall n :: n in Without(nodes, id) ==> n in nodes
    ensures |Without(nodes, id)| == |nodes| - (if exists n :: n in nodes && n.nodeId == id then 1 else 0)
  {
    if nodes != [] && nodes[0].nodeId != id {
      var rest := Without(nodes[1..], id);
      WithoutKeeps(nodes[1..], id, bucket);
      assert ([nodes[0]] + rest)[1..] == rest;
      if n :| n in nodes && n.nodeId == id {
        assert n in nodes[1..];
      }
    }
  }

  lemma StepKeepsBuckets(local: NodeId, s: State, step: Step)
    requires BucketsHold(local, s.nodes) && (step.Push? ==> Candidate(local, step.node))
    ensures BucketsHold(local, Apply(s, step).nodes)
  {
    var after := Apply(s, step).nodes;
    forall b ensures Count(after, b) <= PARAM_K {
      match step
      case Reorder(nodes) => if after == nodes && multiset(nodes) == multiset(s.nodes) { CountOfMultiset(nodes, s.nodes, b); }
      case Push(n) => CountSnoc(s.nodes, n, b);
      case Insert(_) =>
      case Erase(id) => WithoutKeeps(s.nodes, id, b);
      case Unmap(_) =>
    }
    forall n | n in after ensures Candidate(local, n) {
      match step
      case Reorder(nodes) => assert n in multiset(after); assert n in s.nodes;
      case Push(_) =>
      case Insert(_) =>
      case Erase(id) => WithoutKeeps(s.nodes, id, 0);
      case Unmap(_) =>
    }
  }

  /** Whatever sections interleave, no bucket ever exceeds 8 nodes and the table
      never exceeds its maximum. */
  lemma {:induction false} RunKeepsBuckets(local: NodeId, s: State, steps: seq<Step>)
    requires BucketsHold(local, s.nodes) && Checked(local, steps)
    ensures BucketsHold(local, Run(s, steps).nodes)
    ensures |Run(s, steps).nodes| <= MaxNodes(|local|)
    decreases |steps|
  {
    hide Apply, BucketsHold, Candidate;
    if steps == [] {
      TableFits(local, s.nodes);
    } else {
      StepKeepsBuckets(local, s, steps[0]);
      assert forall i :: 0 <= i < |steps[1..]| ==> steps[1..][i] == steps[i + 1];
      RunKeepsBuckets(local, Apply(s, steps[0]), steps[1..]);
    }
  }

  function OthersOf(nodes: seq<NodeInfo>, id: NodeId): seq<NodeInfo> {
    if nodes == [] then []
    else (if nodes[0].nodeId == id then [] else [nodes[0]]) + OthersOf(nodes[1..], id)
  }

  lemma {:induction false} OthersConcat(a: seq<NodeInfo>, b: seq<NodeInfo>, id: NodeId)
    ensures OthersOf(a + b, id) == OthersOf(a, id) + OthersOf(b, id)
  {
    if a == [] {
      assert a + b == b;
    } else {
      assert (a + b)[1..] == a[1..] + b;
      OthersConcat(a[1..], b, id);
    }
  }

  lemma {:induction false} OthersWithout(nodes: seq<NodeInfo>, id: NodeId)
    ensures OthersOf(Without(nodes, id), id) == OthersOf(nodes, id)
  {
    if nodes == [] {
    } else {
      OthersWithout(nodes[1..], id);
      OthersConcat([nodes[0]], Without(nodes[1..], id), id);
      OthersConcat([nodes[0]], nodes[1..], id);
      assert nodes == [nodes[0]] + nodes[1..];
    }
  }

  /** Each section touches one id only.  A push appends the node exactly when its
      bucket has fewer than 8 and the map does not have its id. */
  lemma PushEffect(s: State, n: NodeInfo)
    ensures Apply(s, Push(n)).nodes ==
            if Count(s.nodes, n.bucketIndex) < 8 && n.nodeId !in s.idMap then s.nodes + [n] else s.nodes
    ensures Apply(s, Push(n)).idMap == s.idMap
  {
  }

  /** An id that the map has keeps its node. */
  lemma InsertEffect(s: State, n: NodeInfo)
    ensures Apply(s, Insert(n)).nodes == s.nodes
    ensures var m := Apply(s, Insert(n)).idMap;
            && m.Keys == s.idMap.Keys + {n.nodeId}
            && (forall x :: x in s.idMap ==> m[x] == s.idMap[x])
            && (n.nodeId !in s.idMap ==> m[n.nodeId] == n)
  {
  }

  lemma DropEffect(s: State, id: NodeId)
    ensures OthersOf(Apply(s, Erase(id)).nodes, id) == OthersOf(s.nodes, id) && Apply(s, Erase(id)).idMap == s.idMap
    ensures Apply(s, Unmap(id)).nodes == s.nodes && Apply(s, Unmap(id)).idMap == s.idMap - {id}
  {
    OthersWithout(s.nodes, id);
    hide Without, OthersOf;
  }

  // ---------------------------------------------------------------- the vector and the map

  ghost predicate DistinctIds(nodes: seq<NodeInfo>) {
    forall i, j :: 0 <= i < j < |nodes| ==> nodes[i].nodeId != nodes[j].nodeId
  }

  ghost predicate HasId(nodes: seq<NodeInfo>, id: NodeId) {
    exists n :: n in nodes && n.nodeId == id
  }

  /** The vector holds each id once, and the map finds exactly its nodes. */
  ghost predicate Mirror(nodes: seq<NodeInfo>, idMap: map<NodeId, NodeInfo>) {
    && DistinctIds(nodes)
    && (forall n :: n in nodes ==> n.nodeId in idMap && idMap[n.nodeId] == n)
    && (forall id :: id in idMap ==> idMap[id] in nodes && idMap[id].nodeId == id)
  }

  /** One operation on an id at a time. */
  ghost predicate Allowed(s: State, step: Step) {
    match step
    case Reorder(_) => true
    case Push(n) => n.nodeId !in s.inFlight
    case Insert(n) => n.nodeId in s.inFlight && s.inFlight[n.nodeId] == Adding(n)
    case Erase(id) => id !in s.inFlight
    case Unmap(id) => id in s.inFlight && s.inFlight[id] == Dropping
  }

  ghost predicate Disciplined(s: State, steps: seq<Step>)
    decreases |steps|
  {
    steps == [] || (Allowed(s, steps[0]) && Disciplined(Apply(s, steps[0]), steps[1..]))
  }

  ghost predicate Inv(s: State) {
    && DistinctIds(s.nodes)
    && (forall n :: n in s.nodes && n.nodeId !in s.inFlight ==> n.nodeId in s.idMap && s.idMap[n.nodeId] == n)
    && (forall id :: id in s.idMap && id !in s.inFlight ==> s.idMap[id] in s.nodes && s.idMap[id].nodeId == id)
    && (forall id :: id in s.inFlight ==>
          match s.inFlight[id]
          case Adding(n) => n in s.nodes && n.nodeId == id && id !in s.idMap
          case Dropping => !HasId(s.nodes, id))
  }

  lemma {:induction false} WithoutFirst(before: seq<NodeInfo>, n: NodeInfo, after: seq<NodeInfo>, id: NodeId)
    requires IsNode(n, id) && forall m :: m in before ==> !IsNode(m, id)
    ensures Without(before + [n] + after, id) == before + after
  {
    hide IsNode;
    var all := before + [n] + after;
    if before == [] {
      assert all[0] == n && all[1..] == after;
    } else {
      assert all[0] == before[0] && all[1..] == before[1..] + [n] + after;
      WithoutFirst(before[1..], n, after, id);
      assert before + after == [before[0]] + (before[1..] + after);
    }
  }

  lemma {:induction false} WithoutNone(nodes: seq<NodeInfo>, id: NodeId)
    requires forall m :: m in nodes ==> !IsNode(m, id)
    ensures Without(nodes, id) == nodes
  {
    hide IsNode;
    if nodes == [] {
    } else {
      WithoutNone(nodes[1..], id);
      assert nodes == [nodes[0]] + nodes[1..];
    }
  }

  lemma FindNode(nodes: seq<NodeInfo>, id: NodeId) returns (i: nat)
    requires HasId(nodes, id)
    ensures i < |nodes| && nodes[i].nodeId == id
  {
    var n :| n in nodes && n.nodeId == id;
    i :| 0 <= i < |nodes| && nodes[i] == n;
  }

  lemma WithoutDistinct(nodes: seq<NodeInfo>, id: NodeId)
    requires DistinctIds(nodes)
    ensures DistinctIds(Without(nodes, id)) && !HasId(Without(nodes, id), id)
    ensures forall n :: n in Without(nodes, id) <==> n in nodes && n.nodeId != id
  {
    if HasId(nodes, id) {
      var i := FindNode(nodes, id);
      var before, n, after := nodes[..i], nodes[i], nodes[i + 1..];
      assert nodes == before + [n] + after;
      assert forall m :: m in before ==> m.nodeId != id;
      assert forall m :: m in after ==> m.nodeId != id;
      WithoutFirst(before, n, after, id);
      hide Without;
      assert forall m :: m in nodes <==> m in before || m == n || m in after;
    } else {
      WithoutNone(nodes, id);
    }
  }

  lemma {:induction false} DistinctOfMultiset(a: seq<NodeInfo>, b: seq<NodeInfo>)
    requires multiset(a) == multiset(b) && DistinctIds(b)
    ensures DistinctIds(a)
    ensures forall n :: n in a <==> n in b
  {
    assert forall n :: n in a <==> n in multiset(b);
    forall i, j | 0 <= i < j < |a| ensures a[i].nodeId != a[j].nodeId {
      if a[i].nodeId == a[j].nodeId {
        assert a[i] in multiset(b) && a[j] in multiset(b);
        assert a[i] == a[j];
        Twice(a, i, j);
        OnceInDistinct(b, a[i]);
      }
    }
  }

  lemma Twice(a: seq<NodeInfo>, i: nat, j: nat)
    requires i < j < |a| && a[i] == a[j]
    ensures multiset(a)[a[i]] >= 2
  {
    assert a == a[..j] + a[j..];
    assert a[i] in a[..j] && a[j] in a[j..];
    assert a[..j][i] == a[i] && a[j..][0] == a[j];
    assert multiset(a) == multiset(a[..j]) + multiset(a[j..]);
  }

  lemma {:induction false} OnceInDistinct(b: seq<NodeInfo>, n: NodeInfo)
    requires DistinctIds(b)
    ensures multiset(b)[n] <= 1
  {
    if b == [] {
    } else {
      OnceInDistinct(b[1..], n);
      assert b == [b[0]] + b[1..];
      assert n == b[0] ==> n !in b[1..];
    }
  }

  lemma ReorderKeeps(s: State, nodes: seq<NodeInfo>)
    requires Inv(s)
    ensures Inv(Apply(s, Reorder(nodes)))
  {
    if multiset(nodes) == multiset(s.nodes) {
      DistinctOfMultiset(nodes, s.nodes);
    }
  }

  lemma PushKeeps(s: State, n: NodeInfo)
    requires Inv(s) && Allowed(s, Push(n))
    ensures Inv(Apply(s, Push(n)))
  {
    assert forall m :: m in s.nodes && m.nodeId == n.nodeId ==> m.nodeId in s.idMap;
  }

  lemma InsertKeeps(s: State, n: NodeInfo)
    requires Inv(s) && Allowed(s, Insert(n))
    ensures Inv(Apply(s, Insert(n)))
  {
  }

  lemma EraseKeeps(s: State, id: NodeId)
    requires Inv(s) && Allowed(s, Erase(id))
    ensures Inv(Apply(s, Erase(id)))
  {
    WithoutDistinct(s.nodes, id);
  }

  lemma StepKeeps(s: State, step: Step)
    requires Inv(s) && Allowed(s, step)
    ensures Inv(Apply(s, step))
  {
    match step
    case Reorder(nodes) => ReorderKeeps(s, nodes);
    case Push(n) => PushKeeps(s, n);
    case Insert(n) => InsertKeeps(s, n);
    case Erase(id) => EraseKeeps(s, id);
    case Unmap(_) =>
  }

  /** With one operation on an id at a time, whatever sections interleave, the
      map mirrors the vector and no id is held twice whenever none is under way. */
  lemma {:induction false} RunKeepsMirror(s: State, steps: seq<Step>)
    requires Inv(s) && Disciplined(s, steps)
    ensures Inv(Run(s, steps))
    ensures Run(s, steps).inFlight == map[] ==> Mirror(Run(s, steps).nodes, Run(s, steps).idMap)
    decreases |steps|
  {
    hide Apply, Allowed;
    if steps == [] {
    } else {
      StepKeeps(s, steps[0]);
      RunKeepsMirror(Apply(s, steps[0]), steps[1..]);
    }
  }

  // ---------------------------------------------------------------- racing adds

  /** The two sections of the i-th of some AddNode calls that are all past their
      first check. */
  datatype Section = PushOf(i: nat) | InsertOf(i: nat)

  predicate Pushes(s: State, n: NodeInfo) {
    Count(s.nodes, n.bucketIndex) < PARAM_K && n.nodeId !in s.idMap
  }

  /** The calls run their sections in the order given; one that did not push
      returns without inserting. */
  function Race(s: State, adds: seq<NodeInfo>, pushed: set<nat>, order: seq<Section>): State
    requires forall x :: x in order ==> x.i < |adds|
    decreases |order|
  {
    if order == [] then s
    else
      var n := adds[order[0].i];
      match order[0]
      case PushOf(i) => Race(Apply(s, Push(n)), adds, if Pushes(s, n) then pushed + {i} else pushed, order[1..])
      case InsertOf(i) => Race(if i in pushed then Apply(s, Insert(n)) else s, adds, pushed, order[1..])
  }

  /** A call inserts after its push; `started` have pushed, or tried to. */
  predicate PushesFirst(started: set<nat>, order: seq<Section>)
    decreases |order|
  {
    order == [] ||
    match order[0]
    case PushOf(i) => PushesFirst(started + {i}, order[1..])
    case InsertOf(i) => i in started && PushesFirst(started, order[1..])
  }

  /** How many calls come to their push before any comes to its insertion. */
  function EarlyPushes(order: seq<Section>): nat
    decreases |order|
  {
    if order == [] || order[0].InsertOf? then 0 else 1 + EarlyPushes(order[1..])
  }

  function Copies(nodes: seq<NodeInfo>, id: NodeId): nat {
    if nodes == [] then 0 else (if IsNode(nodes[0], id) then 1 else 0) + Copies(nodes[1..], id)
  }

  function Places(nodes: seq<NodeInfo>, bucket: int): nat {
    if Count(nodes, bucket) < PARAM_K then PARAM_K - Count(nodes, bucket) else 0
  }

  function Min(a: nat, b: nat): nat {
    if a < b then a else b
  }

  lemma {:induction false} CopiesSnoc(nodes: seq<NodeInfo>, n: NodeInfo, id: NodeId)
    ensures Copies(nodes + [n], id) == Copies(nodes, id) + (if IsNode(n, id) then 1 else 0)
  {
    hide IsNode;
    if nodes == [] {
      assert [n][1..] == [];
    } else {
      assert (nodes + [n])[1..] == nodes[1..] + [n];
      CopiesSnoc(nodes[1..], n, id);
    }
  }

  /** All calls are for one id, so all are for one bucket. */
  ghost predicate SameTarget(adds: seq<NodeInfo>, id: NodeId, bucket: int) {
    forall i :: 0 <= i < |adds| ==> IsNode(adds[i], id) && adds[i].bucketIndex == bucket
  }

  /** Once the map knows the id, the vector stays as it is. */
  lemma {:induction false} MappedRaceIsOver(s: State, adds: seq<NodeInfo>, pushed: set<nat>, order: seq<Section>,
                                            id: NodeId, bucket: int)
    requires forall x :: x in order ==> x.i < |adds|
    requires SameTarget(adds, id, bucket) && id in s.idMap
    ensures Race(s, adds, pushed, order).nodes == s.nodes
    decreases |order|
  {
    if order == [] {
    } else {
      var n := adds[order[0].i];
      var next := match order[0] case PushOf(_) => s
                                 case InsertOf(i) => if i in pushed then Apply(s, Insert(n)) else s;
      assert next.nodes == s.nodes && id in next.idMap;
      MappedRaceIsOver(next, adds, pushed, order[1..], id, bucket);
    }
  }

  /** Once the bucket is full, too. */
  lemma {:induction false} FullRaceIsOver(s: State, adds: seq<NodeInfo>, pushed: set<nat>, order: seq<Section>,
                                          id: NodeId, bucket: int)
    requires forall x :: x in order ==> x.i < |adds|
    requires SameTarget(adds, id, bucket) && Places(s.nodes, bucket) == 0
    ensures Race(s, adds, pushed, order).nodes == s.nodes
    decreases |order|
  {
    if order == [] {
    } else {
      var n := adds[order[0].i];
      var next := match order[0] case PushOf(_) => s
                                 case InsertOf(i) => if i in pushed then Apply(s, Insert(n)) else s;
      assert next.nodes == s.nodes;
      FullRaceIsOver(next, adds, pushed, order[1..], id, bucket);
    }
  }

  /** The copies that any order of any number of racing calls adds: as many as
      come to push before the first insertion, but no more than there are places. */
  lemma {:induction false} RaceAddsCopies(s: State, adds: seq<NodeInfo>, pushed: set<nat>, order: seq<Section>,
                                          id: NodeId, bucket: int)
    requires forall x :: x in order ==> x.i < |adds|
    requires SameTarget(adds, id, bucket) && id !in s.idMap && PushesFirst(pushed, order)
    ensures Copies(Race(s, adds, pushed, order).nodes, id)
         == Copies(s.nodes, id) + Min(EarlyPushes(order), Places(s.nodes, bucket))
    decreases |order|
  {
    hide IsNode, Copies;
    if order == [] {
    } else {
      var n := adds[order[0].i];
      assert IsNode(n, id) && n.nodeId == id by { IsNodeMeans(n, id); }
      match order[0]
      case PushOf(i) =>
        if Pushes(s, n) {
          CountSnoc(s.nodes, n, bucket);
          CopiesSnoc(s.nodes, n, id);
          RaceAddsCopies(Apply(s, Push(n)), adds, pushed + {i}, order[1..], id, bucket);
        } else {
          FullRaceIsOver(s, adds, pushed, order[1..], id, bucket);
        }
      case InsertOf(i) =>
        MappedRaceIsOver(Apply(s, Insert(n)), adds, pushed, order[1..], id, bucket);
    }
  }

  lemma IsNodeMeans(n: NodeInfo, id: NodeId)
    ensures IsNode(n, id) <==> n.nodeId == id
  {
  }

  lemma {:induction false} CopiesOfDistinct(nodes: seq<NodeInfo>, id: NodeId)
    ensures Copies(nodes, id) == 0 <==> !HasId(nodes, id)
    ensures Copies(nodes, id) >= 2 ==> !DistinctIds(nodes)
  {
    if nodes == [] {
    } else {
      CopiesOfDistinct(nodes[1..], id);
      assert nodes == [nodes[0]] + nodes[1..];
    }
  }

  /** Any number of AddNode calls for one new id, all past their first check, in
      any order of their sections: the id is held at least twice afterwards
      exactly when two of them push before the first inserts and the bucket had
      two places left, because the check under the lock looks at the map. */
  lemma RacingAddsDuplicateExactlyWhen(s: State, adds: seq<NodeInfo>, order: seq<Section>, id: NodeId, bucket: int)
    requires forall x :: x in order ==> x.i < |adds|
    requires Inv(s) && id !in s.inFlight && !HasId(s.nodes, id)
    requires SameTarget(adds, id, bucket) && PushesFirst({}, order)
    ensures Copies(Race(s, adds, {}, order).nodes, id) == Min(EarlyPushes(order), Places(s.nodes, bucket))
    ensures Copies(Race(s, adds, {}, order).nodes, id) >= 2 <==>
              EarlyPushes(order) >= 2 && Count(s.nodes, bucket) + 2 <= PARAM_K
  {
    CopiesOfDistinct(s.nodes, id);
    assert id !in s.idMap;
    RaceAddsCopies(s, adds, {}, order, id, bucket);
  }
}
