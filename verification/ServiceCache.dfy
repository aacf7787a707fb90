/** The nodes cached for other services (src/bootstrap_cache_helper.cc).  What
    get_service_public_nodes_ answers is a parameter of each operation. */
module ServiceCache {

  type Service = nat

  datatype NodeInfo = NodeInfo(publicIp: string, publicPort: nat)

  type Endpoint = (string, nat)

  const SIZE: nat := 8
  const DELETE_SIZE: nat := 4

  /** `fetches` tells whether get_service_public_nodes_ is set. */
  datatype State = State(fetches: bool, types: set<Service>, nodes: map<Service, seq<NodeInfo>>)

  datatype Op =
    | SetType(service: Service)
    | Cache(service: Service, fetched: seq<NodeInfo>)
    | Get(service: Service, fetched: seq<NodeInfo>)

  function Nodes(s: State, t: Service): seq<NodeInfo> {
    if t in s.nodes then s.nodes[t] else []
  }

  /** What an operation puts at the end of the vector of its service. */
  function AppendedBy(s: State, op: Op): seq<NodeInfo> {
    match op
    case SetType(_) => []
    case Cache(t, fetched) => if s.fetches && t in s.types then fetched else []
    case Get(t, fetched) => if s.fetches && Nodes(s, t) == [] then fetched else []
  }

  /** Only CacheServicePublicNodes cuts the vector, and only when it appended. */
  predicate Overflows(s: State, op: Op) {
    op.Cache? && AppendedBy(s, op) != [] && |Nodes(s, op.service)| + |AppendedBy(s, op)| > SIZE
  }

  function Apply(s: State, op: Op): State {
    match op
    case SetType(t) => s.(types := s.types + {t})
    case Cache(t, _) =>
      var grown := Nodes(s, t) + AppendedBy(s, op);
      if AppendedBy(s, op) == [] then s
      else if Overflows(s, op) then s.(nodes := s.nodes[t := grown[DELETE_SIZE..]])
      else s.(nodes := s.nodes[t := grown])
    case Get(t, _) =>
      if Nodes(s, t) != [] then s
      else s.(nodes := s.nodes[t := AppendedBy(s, op)])
  }

  function Run(s: State, ops: seq<Op>): State
    decreases |ops|
  {
    if ops == [] then s else Run(Apply(s, ops[0]), ops[1..])
  }

  // ---------------------------------------------------------------- a suffix of the history

  function Appended(s: State, op: Op, t: Service): seq<NodeInfo> {
    if op.service == t then AppendedBy(s, op) else []
  }

  /** How many of the oldest nodes of the service an operation drops. */
  function Cut(s: State, op: Op, t: Service): nat {
    if op.service == t && Overflows(s, op) then DELETE_SIZE else 0
  }

  /** All nodes a run appends for a service, in order. */
  function History(s: State, ops: seq<Op>, t: Service): seq<NodeInfo>
    decreases |ops|
  {
    if ops == [] then [] else Appended(s, ops[0], t) + History(Apply(s, ops[0]), ops[1..], t)
  }

  function OverflowCount(s: State, ops: seq<Op>, t: Service): nat
    decreases |ops|
  {
    if ops == [] then 0
    else
      var first := if ops[0].service == t && Overflows(s, ops[0]) then 1 else 0;
      first + OverflowCount(Apply(s, ops[0]), ops[1..], t)
  }

  /** The vector of the operation's service after the append and the cut. */
  function Trimmed(s: State, op: Op): seq<NodeInfo> {
    (Nodes(s, op.service) + AppendedBy(s, op))[if Overflows(s, op) then DELETE_SIZE else 0..]
  }

  lemma ApplyNodes(s: State, op: Op, t: Service)
    ensures t != op.service ==> Nodes(Apply(s, op), t) == Nodes(s, t)
    ensures t == op.service ==> Nodes(Apply(s, op), t) == Trimmed(s, op)
    ensures Nodes(s, t) != [] ==> Nodes(Apply(s, op), t) != []
    ensures Apply(s, op).fetches == s.fetches && s.types <= Apply(s, op).types
  {
  }

  /** In every reachable state the vector of a service is the history of what was
      appended for it without its 4 x (overflowing appends) oldest nodes;
      operations on other services do not touch it. */
  lemma {:induction false} NodesAreSuffixOfHistory(s: State, ops: seq<Op>, t: Service)
    ensures DELETE_SIZE * OverflowCount(s, ops, t) <= |Nodes(s, t) + History(s, ops, t)|
    ensures Nodes(Run(s, ops), t)
         == (Nodes(s, t) + History(s, ops, t))[DELETE_SIZE * OverflowCount(s, ops, t)..]
    decreases |ops|
  {
    hide Apply, Nodes, Appended, Cut;
    if ops == [] {
    } else {
      var s' := Apply(s, ops[0]);
      NodesAreSuffixOfHistory(s', ops[1..], t);
      OneStepOfHistory(s, ops, t);
      hide *;
      SuffixStep(Nodes(s, t), Appended(s, ops[0], t), History(s', ops[1..], t), Cut(s, ops[0], t),
                 DELETE_SIZE * OverflowCount(s', ops[1..], t));
    }
  }

  lemma OneStepOfHistory(s: State, ops: seq<Op>, t: Service)
    requires ops != []
    ensures var s' := Apply(s, ops[0]);
            && Run(s, ops) == Run(s', ops[1..])
            && History(s, ops, t) == Appended(s, ops[0], t) + History(s', ops[1..], t)
            && DELETE_SIZE * OverflowCount(s, ops, t)
            == Cut(s, ops[0], t) + DELETE_SIZE * OverflowCount(s', ops[1..], t)
            && Cut(s, ops[0], t) <= |Nodes(s, t) + Appended(s, ops[0], t)|
            && Nodes(s', t) == (Nodes(s, t) + Appended(s, ops[0], t))[Cut(s, ops[0], t)..]
  {
    hide Apply, AppendedBy, Overflows, Nodes;
    ApplyNodes(s, ops[0], t);
    OverflowHasRoom(s, ops[0]);
  }

  lemma OverflowHasRoom(s: State, op: Op)
    ensures Overflows(s, op) ==> |Nodes(s, op.service) + AppendedBy(s, op)| > SIZE
  {
  }

  lemma SuffixStep<T>(nodes: seq<T>, appended: seq<T>, rest: seq<T>, cut: nat, j: nat)
    requires cut <= |nodes + appended| && j <= |(nodes + appended)[cut..] + rest|
    ensures cut + j <= |nodes + (appended + rest)|
    ensures ((nodes + appended)[cut..] + rest)[j..] == (nodes + (appended + rest))[cut + j..]
  {
    assert nodes + (appended + rest) == (nodes + appended) + rest;
    assert (nodes + appended)[cut..] + rest == ((nodes + appended) + rest)[cut..];
  }

  /** Once it has a node, a service is never left without one. */
  lemma {:induction false} NeverEmptyAgain(s: State, ops: seq<Op>, t: Service)
    requires Nodes(s, t) != []
    ensures Nodes(Run(s, ops), t) != []
    decreases |ops|
  {
    hide Apply, Nodes;
    if ops == [] {
    } else {
      ApplyNodes(s, ops[0], t);
      NeverEmptyAgain(Apply(s, ops[0]), ops[1..], t);
    }
  }

  // ---------------------------------------------------------------- the bound

  const EMPTY := State(true, {}, map[])

  /** No fetch of the run answers more than m nodes. */
  ghost predicate FetchesAtMost(ops: seq<Op>, m: nat) {
    forall i :: 0 <= i < |ops| && !ops[i].SetType? ==> |ops[i].fetched| <= m
  }

  /** If no fetch answers more than m nodes then no vector ever exceeds b. */
  ghost predicate Bounded(m: nat, b: nat) {
    forall ops, t :: FetchesAtMost(ops, m) ==> |Nodes(Run(EMPTY, ops), t)| <= b
  }

  ghost predicate Within(s: State) {
    forall t :: |Nodes(s, t)| <= SIZE
  }

  /** One append reaches 12 at most, before the cut. */
  lemma StepWithin(s: State, op: Op)
    requires Within(s) && (!op.SetType? ==> |op.fetched| <= DELETE_SIZE)
    ensures Within(Apply(s, op))
    ensures |Nodes(s, op.service) + AppendedBy(s, op)| <= 12
    ensures forall t :: |Nodes(Apply(s, op), t)| <= 8
  {
    forall t ensures |Nodes(Apply(s, op), t)| <= SIZE {
      ApplyNodes(s, op, t);
    }
  }

  lemma {:induction false} RunWithin(s: State, ops: seq<Op>)
    requires Within(s) && FetchesAtMost(ops, DELETE_SIZE)
    ensures Within(Run(s, ops))
    decreases |ops|
  {
    hide Apply, Within;
    if ops == [] {
    } else {
      StepWithin(s, ops[0]);
      RunWithin(Apply(s, ops[0]), ops[1..]);
    }
  }

  /** k caches of five nodes each. */
  function Fives(t: Service, node: NodeInfo, k: nat): (ops: seq<Op>)
    ensures |ops| == k
  {
    if k == 0 then [] else [Cache(t, [node, node, node, node, node])] + Fives(t, node, k - 1)
  }

  lemma {:induction false} FivesFetchFive(t: Service, node: NodeInfo, k: nat)
    ensures FetchesAtMost([SetType(t)] + Fives(t, node, k), 5)
  {
    if k == 0 {
    } else {
      FivesFetchFive(t, node, k - 1);
      var before, now := [SetType(t)] + Fives(t, node, k - 1), [SetType(t)] + Fives(t, node, k);
      forall i | 0 <= i < |now| && !now[i].SetType? ensures |now[i].fetched| <= 5 {
        if i > 1 {
          assert now[i] == before[i - 1];
        }
      }
    }
  }

  lemma {:induction false} FivesGrow(s: State, t: Service, node: NodeInfo, k: nat)
    requires s.fetches && t in s.types
    ensures |Nodes(Run(s, Fives(t, node, k)), t)| >= |Nodes(s, t)| + k
    decreases k
  {
    if k == 0 {
    } else {
      var op := Cache(t, [node, node, node, node, node]);
      ApplyNodes(s, op, t);
      assert Fives(t, node, k)[0] == op && Fives(t, node, k)[1..] == Fives(t, node, k - 1);
      FivesGrow(Apply(s, op), t, node, k - 1);
    }
  }

  lemma GrowsPast(b: nat)
    ensures !Bounded(5, b)
  {
    var node := NodeInfo("", 0);
    var ops := [SetType(0)] + Fives(0, node, b + 1);
    FivesFetchFive(0, node, b + 1);
    assert ops[0] == SetType(0) && ops[1..] == Fives(0, node, b + 1);
    FivesGrow(Apply(EMPTY, SetType(0)), 0, node, b + 1);
    assert |Nodes(Run(EMPTY, ops), 0)| > b;
  }

  /** The cache stays within 8 nodes a service exactly when fetches answer at
      most 4; with fetches of 5 there is no bound at all. */
  lemma BoundedExactlyForSmallFetches(m: nat)
    ensures Bounded(m, 8) <==> m <= 4
    ensures m > 4 ==> forall b :: !Bounded(m, b)
  {
    if m <= DELETE_SIZE {
      forall ops, t | FetchesAtMost(ops, m) ensures |Nodes(Run(EMPTY, ops), t)| <= SIZE {
        RunWithin(EMPTY, ops);
      }
    } else {
      forall b ensures !Bounded(m, b) {
        GrowsPast(b);
        var ops, t :| FetchesAtMost(ops, 5) && |Nodes(Run(EMPTY, ops), t)| > b;
        assert FetchesAtMost(ops, m);
      }
    }
  }

  // ---------------------------------------------------------------- the object

  function Endpoints(nodes: seq<NodeInfo>): set<Endpoint> {
    set n | n in nodes :: (n.publicIp, n.publicPort)
  }

  class BootstrapCacheHelper {
    /** top::kInvalidType. */
    const invalidType: Service
    var getServicePublicNodes: bool
    var cacheServiceTypes: set<Service>
    var servicePublicNodes: map<Service, seq<NodeInfo>>

    ghost function View(): State
      reads this
    {
      State(getServicePublicNodes, cacheServiceTypes, servicePublicNodes)
    }

    constructor (invalidType: Service, getServicePublicNodes: bool)
      ensures View() == State(getServicePublicNodes, {}, map[]) && this.invalidType == invalidType
    {
      this.invalidType := invalidType;
      this.getServicePublicNodes := getServicePublicNodes;
      cacheServiceTypes, servicePublicNodes := {}, map[];
    }

    method SetCacheServiceType(serviceType: Service) returns (ok: bool)
      modifies this`cacheServiceTypes
      ensures ok && View() == Apply(old(View()), SetType(serviceType))
      ensures cacheServiceTypes == old(cacheServiceTypes) + {serviceType}
    {
      cacheServiceTypes := cacheServiceTypes + {serviceType};
      return true;
    }

    method CacheServicePublicNodes(serviceType: Service, serviceNodes: seq<NodeInfo>)
      modifies this`servicePublicNodes
      ensures View() == Apply(old(View()), Cache(serviceType, serviceNodes))
      ensures servicePublicNodes - {serviceType} == old(servicePublicNodes) - {serviceType}
      ensures !getServicePublicNodes || serviceType !in cacheServiceTypes || serviceNodes == [] ==>
                servicePublicNodes == old(servicePublicNodes)
      ensures getServicePublicNodes && serviceType in cacheServiceTypes && serviceNodes != [] ==>
                var before := if serviceType in old(servicePublicNodes) then old(servicePublicNodes)[serviceType] else [];
                && serviceType in servicePublicNodes
                && servicePublicNodes[serviceType] ==
                   if |before| + |serviceNodes| > 8 then (before + serviceNodes)[4..] else before + serviceNodes
    {
      if !getServicePublicNodes || serviceType !in cacheServiceTypes || serviceNodes == [] {
        return;
      }
      if serviceType !in servicePublicNodes {
        servicePublicNodes := servicePublicNodes[serviceType := []];
      }
      ghost var grown := servicePublicNodes[serviceType] + serviceNodes;
      servicePublicNodes := servicePublicNodes[serviceType := servicePublicNodes[serviceType] + serviceNodes];
      if |servicePublicNodes[serviceType]| > SIZE {
        ghost var rest := servicePublicNodes;
        for i := 0 to DELETE_SIZE
          invariant |grown| > SIZE
          invariant servicePublicNodes == rest[serviceType := grown[i..]]
        {
          servicePublicNodes := servicePublicNodes[serviceType := servicePublicNodes[serviceType][1..]];
        }
      }
    }

    /** Adds to `endpoints` what is cached, or else what one fetch answers. */
    method GetCacheServicePublicNodes(serviceType: Service, endpoints: set<Endpoint>, serviceNodes: seq<NodeInfo>)
        returns (ok: bool, found: set<Endpoint>)
      modifies this`servicePublicNodes
      ensures View() == Apply(old(View()), Get(serviceType, serviceNodes))
      ensures ok <==> Nodes(View(), serviceType) != []
      ensures found == endpoints + Endpoints(Nodes(View(), serviceType))
      ensures servicePublicNodes - {serviceType} == old(servicePublicNodes) - {serviceType}
      ensures serviceType in servicePublicNodes
      ensures servicePublicNodes[serviceType] ==
              if serviceType in old(servicePublicNodes) && old(servicePublicNodes)[serviceType] != []
              then old(servicePublicNodes)[serviceType]
              else if getServicePublicNodes then serviceNodes else []
      ensures forall e :: e in found <==>
                e in endpoints
                || exists n :: n in servicePublicNodes[serviceType] && e == (n.publicIp, n.publicPort)
    {
      found := endpoints;
      if serviceType in servicePublicNodes {
        if servicePublicNodes[serviceType] != [] {
          found := Inserted(found, servicePublicNodes[serviceType]);
          return true, found;
        }
      } else {
        servicePublicNodes := servicePublicNodes[serviceType := []];
      }
      if !getServicePublicNodes || serviceNodes == [] {
        return false, found;
      }
      found := Inserted(found, serviceNodes);
      assert servicePublicNodes[serviceType] + serviceNodes == serviceNodes;
      servicePublicNodes := servicePublicNodes[serviceType := servicePublicNodes[serviceType] + serviceNodes];
      return true, found;
    }

    static method Inserted(endpoints: set<Endpoint>, nodes: seq<NodeInfo>) returns (r: set<Endpoint>)
      ensures r == endpoints + Endpoints(nodes)
    {
      r := endpoints;
      for i := 0 to |nodes|
        invariant r == endpoints + Endpoints(nodes[..i])
      {
        r := r + {(nodes[i].publicIp, nodes[i].publicPort)};
        assert nodes[..i + 1] == nodes[..i] + [nodes[i]];
      }
      assert nodes[..|nodes|] == nodes;
    }

    /** Any member of the set may be chosen; kInvalidType stands for none. */
    method GetRandomCacheServiceType() returns (t: Service)
      ensures t in cacheServiceTypes || t == invalidType
      ensures getServicePublicNodes && cacheServiceTypes != {} ==> t in cacheServiceTypes
      ensures !getServicePublicNodes || cacheServiceTypes == {} ==> t == invalidType
    {
      if !getServicePublicNodes || cacheServiceTypes == {} {
        return invalidType;
      }
      t :| t in cacheServiceTypes;
    }

    /** A tick of the timer caches some wanted service, or does nothing exactly
        when none can be: its own check never turns a chosen service away. */
    method RepeatCacheServicePublicNodes(fetched: map<Service, seq<NodeInfo>>) returns (ghost chosen: Service)
      modifies this`servicePublicNodes
      ensures chosen == invalidType ==> View() == old(View())
      ensures getServicePublicNodes && cacheServiceTypes != {} ==> chosen in cacheServiceTypes
      ensures !getServicePublicNodes || cacheServiceTypes == {} ==> chosen == invalidType
      ensures chosen != invalidType ==>
                && getServicePublicNodes && chosen in cacheServiceTypes
                && View() == Apply(old(View()), Cache(chosen, if chosen in fetched then fetched[chosen] else []))
    {
      var t := GetRandomCacheServiceType();
      chosen := t;
      if t == invalidType {
        return;
      }
      CacheServicePublicNodes(t, if t in fetched then fetched[t] else []);
    }
  }
}
