/** The two maps between nodes and dynamic xips (src/local_node_info.cc).  Each
    map has its own mutex, so AddDxip and DropDxip are two atomic halves that
    other operations can come between. */
module DxipIndex {

  type Id = string

  /** An operation between its halves, with the dxip it works on. */
  datatype Half = Adding(dxip: Id) | Dropping(dxip: Id)

  /** `inFlight` maps a node to the operation on it that is between its halves. */
  datatype State = State(nodeDxip: map<Id, Id>, dxipNode: map<Id, Id>, inFlight: map<Id, Half>)

  datatype Step =
    | AddFirst(node: Id, dxip: Id)
    | AddSecond(node: Id)
    | DropFirst(node: Id)
    | DropSecond(node: Id)

  const EMPTY := State(map[], map[], map[])

  // ---------------------------------------------------------------- the halves

  function Apply(s: State, step: Step): State {
    match step
    case AddFirst(n, d) =>
      s.(nodeDxip := s.nodeDxip[n := d], inFlight := s.inFlight[n := Adding(d)])
    case AddSecond(n) =>
      if n in s.inFlight && s.inFlight[n].Adding?
      then s.(dxipNode := s.dxipNode[s.inFlight[n].dxip := n], inFlight := s.inFlight - {n})
      else s
    case DropFirst(n) =>
      if n in s.nodeDxip
      then s.(nodeDxip := s.nodeDxip - {n}, inFlight := s.inFlight[n := Dropping(s.nodeDxip[n])])
      else s
    case DropSecond(n) =>
      if n in s.inFlight && s.inFlight[n].Dropping?
      then s.(dxipNode := s.dxipNode - {s.inFlight[n].dxip}, inFlight := s.inFlight - {n})
      else s
  }

  function Run(s: State, steps: seq<Step>): State
    decreases |steps|
  {
    if steps == [] then s else Run(Apply(s, steps[0]), steps[1..])
  }

  /** The dxip a node holds: from the start of AddDxip to the end of DropDxip. */
  ghost predicate Holds(s: State, n: Id, d: Id) {
    (n in s.nodeDxip && s.nodeDxip[n] == d) || (n in s.inFlight && s.inFlight[n].dxip == d)
  }

  /** The discipline: operations on one node do not overlap, a node is dropped
      before it is added again, and a dxip is given out only when no node holds it. */
  ghost predicate Allowed(s: State, step: Step) {
    match step
    case AddFirst(n, d) => n !in s.inFlight && n !in s.nodeDxip && forall m :: !Holds(s, m, d)
    case AddSecond(n) => n in s.inFlight && s.inFlight[n].Adding?
    case DropFirst(n) => n !in s.inFlight
    case DropSecond(n) => n in s.inFlight && s.inFlight[n].Dropping?
  }

  ghost predicate Disciplined(s: State, steps: seq<Step>)
    decreases |steps|
  {
    steps == [] || (Allowed(s, steps[0]) && Disciplined(Apply(s, steps[0]), steps[1..]))
  }

  // ---------------------------------------------------------------- the invariant

  /** The two maps are mutual inverses. */
  ghost predicate Inverse(a: map<Id, Id>, b: map<Id, Id>) {
    && (forall n :: n in a ==> a[n] in b && b[a[n]] == n)
    && (forall d :: d in b ==> b[d] in a && a[b[d]] == d)
  }

  ghost predicate Inv(s: State) {
    && (forall n :: n in s.inFlight ==>
          match s.inFlight[n]
          case Adding(d) => n in s.nodeDxip && s.nodeDxip[n] == d && d !in s.dxipNode
          case Dropping(d) => n !in s.nodeDxip && d in s.dxipNode && s.dxipNode[d] == n)
    && (forall n :: n in s.nodeDxip && n !in s.inFlight ==>
          s.nodeDxip[n] in s.dxipNode && s.dxipNode[s.nodeDxip[n]] == n)
    && (forall d :: d in s.dxipNode ==> Holds(s, s.dxipNode[d], d))
    && (forall m, n, d :: Holds(s, m, d) && Holds(s, n, d) ==> m == n)
  }

  lemma OwnerStaysUnique(s: State, step: Step)
    requires Inv(s) && Allowed(s, step)
    ensures forall m, n, d :: Holds(Apply(s, step), m, d) && Holds(Apply(s, step), n, d) ==> m == n
  {
    var s' := Apply(s, step);
    forall m, n, d | Holds(s', m, d) && Holds(s', n, d) ensures m == n {
      match step
      case AddFirst(x, e) =>
        assert m != x ==> Holds(s, m, d);
        assert n != x ==> Holds(s, n, d);
      case AddSecond(_) => assert Holds(s, m, d) && Holds(s, n, d);
      case DropFirst(_) => assert Holds(s, m, d) && Holds(s, n, d);
      case DropSecond(_) => assert Holds(s, m, d) && Holds(s, n, d);
    }
  }

  lemma IndexStaysHeld(s: State, step: Step)
    requires Inv(s) && Allowed(s, step)
    ensures var s' := Apply(s, step); forall d :: d in s'.dxipNode ==> Holds(s', s'.dxipNode[d], d)
  {
    var s' := Apply(s, step);
    forall d | d in s'.dxipNode ensures Holds(s', s'.dxipNode[d], d) {
      if d in s.dxipNode {
        assert Holds(s, s.dxipNode[d], d);
      }
    }
  }

  lemma StepKeeps(s: State, step: Step)
    requires Inv(s) && Allowed(s, step)
    ensures Inv(Apply(s, step))
  {
    OwnerStaysUnique(s, step);
    IndexStaysHeld(s, step);
    assert forall n :: n in s.inFlight ==> Holds(s, n, s.inFlight[n].dxip);
    assert forall n :: n in s.nodeDxip ==> Holds(s, n, s.nodeDxip[n]);
    match step {
      case AddFirst(x, e) => assert e in s.dxipNode ==> Holds(s, s.dxipNode[e], e);
      case AddSecond(_) =>
      case DropFirst(_) =>
      case DropSecond(_) =>
    }
  }

  /** Whatever halves interleave, under the discipline the invariant holds. */
  lemma {:induction false} RunKeeps(s: State, steps: seq<Step>)
    requires Inv(s) && Disciplined(s, steps)
    ensures Inv(Run(s, steps))
    decreases |steps|
  {
    if steps == [] {
    } else {
      StepKeeps(s, steps[0]);
      RunKeeps(Apply(s, steps[0]), steps[1..]);
    }
  }

  /** What HasDynamicXip answers. */
  predicate Indexes(s: State, d: Id) {
    d in s.dxipNode
  }

  /** In every quiescent state of a disciplined run the maps are mutual inverses
      and HasDynamicXip tells whether some node holds the dxip. */
  lemma QuiescentMapsAreInverse(steps: seq<Step>)
    requires Disciplined(EMPTY, steps)
    ensures var s := Run(EMPTY, steps);
            s.inFlight == map[] ==>
              && Inverse(s.nodeDxip, s.dxipNode)
              && forall d :: Indexes(s, d) <==> exists n :: n in s.nodeDxip && s.nodeDxip[n] == d
  {
    RunKeeps(EMPTY, steps);
    var s := Run(EMPTY, steps);
    if s.inFlight == map[] {
      assert forall d :: d in s.dxipNode ==> Holds(s, s.dxipNode[d], d);
      forall d ensures Indexes(s, d) <==> exists n :: n in s.nodeDxip && s.nodeDxip[n] == d {
        if d in s.dxipNode {
          assert Holds(s, s.dxipNode[d], d);
        }
      }
    }
  }

  // ---------------------------------------------------------------- the history of a node

  /** The last thing that was begun on a node. */
  datatype Last = Nothing | Given(dxip: Id) | Taken

  function LastOn(steps: seq<Step>, n: Id): Last {
    if steps == [] then Nothing
    else
      match steps[|steps| - 1]
      case AddFirst(m, d) => if m == n then Given(d) else LastOn(steps[..|steps| - 1], n)
      case DropFirst(m) => if m == n then Taken else LastOn(steps[..|steps| - 1], n)
      case AddSecond(_) => LastOn(steps[..|steps| - 1], n)
      case DropSecond(_) => LastOn(steps[..|steps| - 1], n)
  }

  lemma {:induction false} LastOnCons(step: Step, steps: seq<Step>, n: Id)
    ensures LastOn([step] + steps, n) == if LastOn(steps, n) == Nothing then LastOn([step], n) else LastOn(steps, n)
    decreases |steps|
  {
    var all := [step] + steps;
    if steps == [] {
      assert all == [step];
    } else {
      assert all[..|all| - 1] == [step] + steps[..|steps| - 1] && all[|all| - 1] == steps[|steps| - 1];
      LastOnCons(step, steps[..|steps| - 1], n);
    }
  }

  lemma {:induction false} NodeFollowsHistory(s: State, steps: seq<Step>, n: Id)
    ensures var after := Run(s, steps).nodeDxip;
            match LastOn(steps, n)
            case Nothing => (n in after <==> n in s.nodeDxip) && (n in after ==> after[n] == s.nodeDxip[n])
            case Given(d) => n in after && after[n] == d
            case Taken => n !in after
    decreases |steps|
  {
    if steps == [] {
    } else {
      var first, rest := steps[0], steps[1..];
      assert steps == [first] + rest;
      LastOnCons(first, rest, n);
      NodeFollowsHistory(Apply(s, first), rest, n);
      NodeAfterStep(s, first, n);
      assert Run(s, steps) == Run(Apply(s, first), rest);
      hide Apply, LastOn, Run;
    }
  }

  lemma NodeAfterStep(s: State, step: Step, n: Id)
    ensures var after := Apply(s, step).nodeDxip;
            match LastOn([step], n)
            case Nothing => (n in after <==> n in s.nodeDxip) && (n in after ==> after[n] == s.nodeDxip[n])
            case Given(d) => n in after && after[n] == d
            case Taken => n !in after
  {
    assert [step][..0] == [];
    assert LastOn([], n) == Nothing;
    match step
    case AddFirst(m, _) => assert m == n ==> LastOn([step], n).Given?;
    case DropFirst(m) => assert m == n ==> LastOn([step], n) == Taken;
    case AddSecond(_) => assert LastOn([step], n) == Nothing;
    case DropSecond(_) => assert LastOn([step], n) == Nothing;
  }

  /** In every quiescent state of a disciplined run a node has a dxip, in both
      maps, exactly when giving it was the last thing done to the node, whatever
      was done to other nodes. */
  lemma MapsAreTheHistory(steps: seq<Step>, n: Id, d: Id)
    requires Disciplined(EMPTY, steps)
    ensures var s := Run(EMPTY, steps);
            s.inFlight == map[] ==>
              && ((n in s.nodeDxip && s.nodeDxip[n] == d) <==> LastOn(steps, n) == Given(d))
              && ((d in s.dxipNode && s.dxipNode[d] == n) <==> LastOn(steps, n) == Given(d))
  {
    NodeFollowsHistory(EMPTY, steps, n);
    QuiescentMapsAreInverse(steps);
    hide Run, LastOn;
  }

  // ---------------------------------------------------------------- the discipline is needed

  /** AddDxip with nothing in between. */
  function Added(s: State, n: Id, d: Id): State {
    s.(nodeDxip := s.nodeDxip[n := d], dxipNode := s.dxipNode[d := n])
  }

  /** DropDxip with nothing in between. */
  function Dropped(s: State, n: Id): State {
    if n in s.nodeDxip
    then s.(nodeDxip := s.nodeDxip - {n}, dxipNode := s.dxipNode - {s.nodeDxip[n]})
    else s
  }

  /** Undisturbed, AddDxip keeps the maps inverse exactly when the node has no
      other dxip and the dxip no other node. */
  lemma AddKeepsInverseExactlyWhen(s: State, n: Id, d: Id)
    requires Inverse(s.nodeDxip, s.dxipNode)
    ensures Inverse(Added(s, n, d).nodeDxip, Added(s, n, d).dxipNode) <==>
              (n in s.nodeDxip ==> s.nodeDxip[n] == d) && (d in s.dxipNode ==> s.dxipNode[d] == n)
  {
    var s' := Added(s, n, d);
    if n in s.nodeDxip && s.nodeDxip[n] != d {
      assert s.nodeDxip[n] in s'.dxipNode;
    }
    if d in s.dxipNode && s.dxipNode[d] != n {
      assert s.dxipNode[d] in s'.nodeDxip;
    }
  }

  /** Undisturbed, DropDxip always does, and nothing of the node is left. */
  lemma DropKeepsInverse(s: State, n: Id)
    requires Inverse(s.nodeDxip, s.dxipNode)
    ensures Inverse(Dropped(s, n).nodeDxip, Dropped(s, n).dxipNode)
    ensures n !in Dropped(s, n).nodeDxip && forall d :: d in Dropped(s, n).dxipNode ==> Dropped(s, n).dxipNode[d] != n
  {
  }

  /** zs is an interleaving of xs and ys. */
  predicate Interleaves<T(==)>(xs: seq<T>, ys: seq<T>, zs: seq<T>)
    decreases |zs|
  {
    if zs == [] then xs == [] && ys == []
    else
      || (xs != [] && zs[0] == xs[0] && Interleaves(xs[1..], ys, zs[1..]))
      || (ys != [] && zs[0] == ys[0] && Interleaves(xs, ys[1..], zs[1..]))
  }

  lemma {:induction false} NothingInterleaves<T>(ys: seq<T>, zs: seq<T>)
    requires Interleaves([], ys, zs) || Interleaves(ys, [], zs)
    ensures zs == ys
    decreases |zs|
  {
    if zs == [] {
    } else {
      NothingInterleaves(ys[1..], zs[1..]);
      assert ys == [ys[0]] + ys[1..] && zs == [zs[0]] + zs[1..];
    }
  }

  lemma OneInterleaves<T>(b: T, c: T, d: T, zs: seq<T>)
    requires Interleaves([b], [c, d], zs) || Interleaves([c, d], [b], zs)
    ensures zs == [b, c, d] || zs == [c, b, d] || zs == [c, d, b]
  {
    assert [b][1..] == [] && [c, d][1..] == [d] && [d][1..] == [];
    var rest := zs[1..];
    assert zs == [zs[0]] + rest;
    if Interleaves([], [c, d], rest) || Interleaves([c, d], [], rest) {
      NothingInterleaves([c, d], rest);
    }
    if Interleaves([b], [d], rest) || Interleaves([d], [b], rest) {
      assert rest == [rest[0]] + rest[1..];
      if Interleaves([], [d], rest[1..]) || Interleaves([d], [], rest[1..]) {
        NothingInterleaves([d], rest[1..]);
      }
      if Interleaves([b], [], rest[1..]) || Interleaves([], [b], rest[1..]) {
        NothingInterleaves([b], rest[1..]);
      }
    }
  }

  lemma TwoInterleave<T>(a: T, b: T, c: T, d: T, zs: seq<T>)
    requires Interleaves([a, b], [c, d], zs)
    ensures || zs == [a, b, c, d] || zs == [a, c, b, d] || zs == [c, a, b, d]
            || zs == [a, c, d, b] || zs == [c, a, d, b] || zs == [c, d, a, b]
  {
    assert [a, b][1..] == [b] && [c, d][1..] == [d];
    assert zs == [zs[0]] + zs[1..];
    if Interleaves([b], [c, d], zs[1..]) {
      OneInterleaves(b, c, d, zs[1..]);
    }
    if Interleaves([a, b], [d], zs[1..]) {
      OneInterleaves(d, a, b, zs[1..]);
    }
  }

  /** The state when m is dropped and n added, by whose second half came last. */
  function DroppedAndAdded(s: State, m: Id, n: Id, d: Id, addLast: bool): State
    requires m in s.nodeDxip
  {
    var e := s.nodeDxip[m];
    State((s.nodeDxip - {m})[n := d],
          if addLast then (s.dxipNode - {e})[d := n] else s.dxipNode[d := n] - {e},
          map[])
  }

  lemma EndsInverseExactlyWhen(s: State, m: Id, n: Id, d: Id, addLast: bool)
    requires Inverse(s.nodeDxip, s.dxipNode) && m in s.nodeDxip && n !in s.nodeDxip
    requires d == s.nodeDxip[m] || d !in s.dxipNode
    ensures var after := DroppedAndAdded(s, m, n, d, addLast);
            Inverse(after.nodeDxip, after.dxipNode) <==> d != s.nodeDxip[m] || addLast
  {
    var after := DroppedAndAdded(s, m, n, d, addLast);
    if d == s.nodeDxip[m] && !addLast {
      assert n in after.nodeDxip && d !in after.dxipNode;
    }
  }

  lemma DropThenAdd(s: State, m: Id, n: Id, d: Id)
    requires s.inFlight == map[] && m in s.nodeDxip && m != n
    ensures Run(s, [DropFirst(m), DropSecond(m), AddFirst(n, d), AddSecond(n)])
         == DroppedAndAdded(s, m, n, d, true)
  {
    RunOfFour(s, DropFirst(m), DropSecond(m), AddFirst(n, d), AddSecond(n));
    var s1 := Apply(s, DropFirst(m));
    var s2 := Apply(s1, DropSecond(m));
    var s4 := Apply(Apply(s2, AddFirst(n, d)), AddSecond(n));
    var after := DroppedAndAdded(s, m, n, d, true);
    assert s4.inFlight == map[] && s4.nodeDxip == after.nodeDxip && s4.dxipNode == after.dxipNode;
  }

  lemma DropFirstAddFirst(s: State, m: Id, n: Id, d: Id)
    requires s.inFlight == map[] && m in s.nodeDxip && m != n
    ensures Run(s, [DropFirst(m), AddFirst(n, d), DropSecond(m), AddSecond(n)])
         == DroppedAndAdded(s, m, n, d, true)
  {
    RunOfFour(s, DropFirst(m), AddFirst(n, d), DropSecond(m), AddSecond(n));
    var s1 := Apply(s, DropFirst(m));
    var s2 := Apply(s1, AddFirst(n, d));
    var s4 := Apply(Apply(s2, DropSecond(m)), AddSecond(n));
    var after := DroppedAndAdded(s, m, n, d, true);
    assert s4.inFlight == map[] && s4.nodeDxip == after.nodeDxip && s4.dxipNode == after.dxipNode;
  }

  lemma AddFirstDropFirst(s: State, m: Id, n: Id, d: Id)
    requires s.inFlight == map[] && m in s.nodeDxip && m != n
    ensures Run(s, [AddFirst(n, d), DropFirst(m), DropSecond(m), AddSecond(n)])
         == DroppedAndAdded(s, m, n, d, true)
  {
    RunOfFour(s, AddFirst(n, d), DropFirst(m), DropSecond(m), AddSecond(n));
    var s1 := Apply(s, AddFirst(n, d));
    var s2 := Apply(s1, DropFirst(m));
    var s4 := Apply(Apply(s2, DropSecond(m)), AddSecond(n));
    var after := DroppedAndAdded(s, m, n, d, true);
    assert s4.inFlight == map[] && s4.nodeDxip == after.nodeDxip && s4.dxipNode == after.dxipNode;
  }

  lemma AddWithinDrop(s: State, m: Id, n: Id, d: Id)
    requires s.inFlight == map[] && m in s.nodeDxip && m != n
    ensures Run(s, [DropFirst(m), AddFirst(n, d), AddSecond(n), DropSecond(m)])
         == DroppedAndAdded(s, m, n, d, false)
  {
    RunOfFour(s, DropFirst(m), AddFirst(n, d), AddSecond(n), DropSecond(m));
    var s1 := Apply(s, DropFirst(m));
    var s2 := Apply(s1, AddFirst(n, d));
    var s4 := Apply(Apply(s2, AddSecond(n)), DropSecond(m));
    var after := DroppedAndAdded(s, m, n, d, false);
    assert s4.inFlight == map[] && s4.nodeDxip == after.nodeDxip && s4.dxipNode == after.dxipNode;
  }

  lemma AddStartsDropEnds(s: State, m: Id, n: Id, d: Id)
    requires s.inFlight == map[] && m in s.nodeDxip && m != n
    ensures Run(s, [AddFirst(n, d), DropFirst(m), AddSecond(n), DropSecond(m)])
         == DroppedAndAdded(s, m, n, d, false)
  {
    RunOfFour(s, AddFirst(n, d), DropFirst(m), AddSecond(n), DropSecond(m));
    var s1 := Apply(s, AddFirst(n, d));
    var s2 := Apply(s1, DropFirst(m));
    var s4 := Apply(Apply(s2, AddSecond(n)), DropSecond(m));
    var after := DroppedAndAdded(s, m, n, d, false);
    assert s4.inFlight == map[] && s4.nodeDxip == after.nodeDxip && s4.dxipNode == after.dxipNode;
  }

  lemma AddThenDrop(s: State, m: Id, n: Id, d: Id)
    requires s.inFlight == map[] && m in s.nodeDxip && m != n
    ensures Run(s, [AddFirst(n, d), AddSecond(n), DropFirst(m), DropSecond(m)])
         == DroppedAndAdded(s, m, n, d, false)
  {
    RunOfFour(s, AddFirst(n, d), AddSecond(n), DropFirst(m), DropSecond(m));
    var s1 := Apply(s, AddFirst(n, d));
    var s2 := Apply(s1, AddSecond(n));
    var s4 := Apply(Apply(s2, DropFirst(m)), DropSecond(m));
    var after := DroppedAndAdded(s, m, n, d, false);
    assert s4.inFlight == map[] && s4.nodeDxip == after.nodeDxip && s4.dxipNode == after.dxipNode;
  }

  lemma ScheduleEnds(s: State, m: Id, n: Id, d: Id, schedule: seq<Step>)
    requires s.inFlight == map[] && m in s.nodeDxip && m != n
    requires Interleaves([DropFirst(m), DropSecond(m)], [AddFirst(n, d), AddSecond(n)], schedule)
    ensures |schedule| == 4
    ensures Run(s, schedule) == DroppedAndAdded(s, m, n, d, schedule[3] == AddSecond(n))
  {
    TwoInterleave(DropFirst(m), DropSecond(m), AddFirst(n, d), AddSecond(n), schedule);
    hide Run, Interleaves, Apply, DroppedAndAdded;
    DropThenAdd(s, m, n, d);
    DropFirstAddFirst(s, m, n, d);
    AddFirstDropFirst(s, m, n, d);
    AddWithinDrop(s, m, n, d);
    AddStartsDropEnds(s, m, n, d);
    AddThenDrop(s, m, n, d);
  }

  /** Dropping m while n is given the dxip d, which is free or the one that m has:
      however the halves interleave, the maps end inverse exactly when d is not
      the dropped dxip, or the second half of the add comes last. */
  lemma ReuseDuringDropExactlyBreaks(s: State, m: Id, n: Id, d: Id, schedule: seq<Step>)
    requires Inverse(s.nodeDxip, s.dxipNode) && s.inFlight == map[]
    requires m in s.nodeDxip && n !in s.nodeDxip
    requires d == s.nodeDxip[m] || d !in s.dxipNode
    requires Interleaves([DropFirst(m), DropSecond(m)], [AddFirst(n, d), AddSecond(n)], schedule)
    ensures |schedule| == 4 && Run(s, schedule).inFlight == map[]
    ensures Inverse(Run(s, schedule).nodeDxip, Run(s, schedule).dxipNode) <==>
              d != s.nodeDxip[m] || schedule[3] == AddSecond(n)
  {
    ScheduleEnds(s, m, n, d, schedule);
    hide Run, Interleaves;
    EndsInverseExactlyWhen(s, m, n, d, schedule[3] == AddSecond(n));
  }

  lemma RunOfTwo(s: State, a: Step, b: Step)
    ensures Run(s, [a, b]) == Apply(Apply(s, a), b)
  {
    hide Apply;
    assert [a, b][1..] == [b] && [b][1..] == [];
    assert Run(Apply(s, a), [b]) == Run(Apply(Apply(s, a), b), []);
  }

  lemma RunOfFour(s: State, a: Step, b: Step, c: Step, d: Step)
    ensures Run(s, [a, b, c, d]) == Apply(Apply(Apply(Apply(s, a), b), c), d)
  {
    hide Apply;
    assert [a, b, c, d][1..] == [b, c, d] && [b, c, d][1..] == [c, d];
    RunOfTwo(Apply(Apply(s, a), b), c, d);
  }

  // ---------------------------------------------------------------- the object

  class LocalNodeInfo {
    var nodeDxipMap: map<Id, Id>
    var dxipNodeMap: map<Id, Id>

    ghost function View(): State
      reads this
    {
      State(nodeDxipMap, dxipNodeMap, map[])
    }

    constructor ()
      ensures View() == EMPTY
    {
      nodeDxipMap, dxipNodeMap := map[], map[];
    }

    method AddDxip(nodeId: Id, dxip: Id)
      modifies this
      ensures View() == Added(old(View()), nodeId, dxip)
      ensures nodeId in nodeDxipMap && nodeDxipMap[nodeId] == dxip && dxip in dxipNodeMap && dxipNodeMap[dxip] == nodeId
      ensures nodeDxipMap - {nodeId} == old(nodeDxipMap) - {nodeId} && dxipNodeMap - {dxip} == old(dxipNodeMap) - {dxip}
      ensures View() == Run(old(View()), [AddFirst(nodeId, dxip), AddSecond(nodeId)])
    {
      nodeDxipMap := nodeDxipMap[nodeId := dxip];
      dxipNodeMap := dxipNodeMap[dxip := nodeId];
      RunOfTwo(old(View()), AddFirst(nodeId, dxip), AddSecond(nodeId));
    }

    method DropDxip(nodeId: Id)
      modifies this
      ensures View() == Dropped(old(View()), nodeId)
      ensures nodeDxipMap == old(nodeDxipMap) - {nodeId}
      ensures nodeId !in old(nodeDxipMap) ==> dxipNodeMap == old(dxipNodeMap)
      ensures nodeId in old(nodeDxipMap) ==> dxipNodeMap == old(dxipNodeMap) - {old(nodeDxipMap)[nodeId]}
      ensures View() == Run(old(View()), [DropFirst(nodeId), DropSecond(nodeId)])
    {
      RunOfTwo(old(View()), DropFirst(nodeId), DropSecond(nodeId));
      if nodeId !in nodeDxipMap {
        return;
      }
      var dxip := nodeDxipMap[nodeId];
      nodeDxipMap := nodeDxipMap - {nodeId};
      if dxip in dxipNodeMap {
        dxipNodeMap := dxipNodeMap - {dxip};
      }
    }

    method HasDynamicXip(dxip: Id) returns (r: bool)
      ensures r <==> Indexes(View(), dxip)
      ensures r <==> dxip in dxipNodeMap
    {
      r := dxip in dxipNodeMap;
    }
  }
}
