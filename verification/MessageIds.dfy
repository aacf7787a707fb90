/** Message ids (`CallbackManager::MessageId`) feeding the reply table: ids are
    drawn from one wrapping 32-bit counter, and a drawn id is used in at most
    one `Add`, possibly long after it was drawn. */
module MessageIds {
  import opened CallbackTable
  import opened CallbackProtocol

  const TWO32 := 0x1_0000_0000

  datatype Action =
    | Draw
    | AddDrawn(draw: nat, timeoutSec: int, expectCount: int, hasPlain: bool, hasMutex: bool)
    | Other(step: Step)   // any step but Add

  /** `drawn[i]` is the i-th id handed out, `used` the draws already passed to
      Add, `drawOf[k]` the draw under which item `k` was inserted. */
  datatype IdState = IdState(core: State, counter: MsgId, drawn: seq<MsgId>, used: set<nat>, drawOf: seq<nat>)

  function Start(c: MsgId): IdState {
    IdState(INITIAL, c, [], {}, [])
  }

  ghost predicate Applicable(s: IdState) {
    TagsKnown(s.core.table, s.core.history)
  }

  ghost function Act(s: IdState, a: Action): (s': IdState)
    requires Applicable(s)
    ensures Applicable(s')
  {
    match a
    case Draw =>
      var id := (s.counter + 1) % TWO32;
      s.(counter := id, drawn := s.drawn + [id])
    case AddDrawn(d, t, n, p, m) =>
      if d >= |s.drawn| || d in s.used then s
      else
        var core := AfterAdd(s.core, Add(s.drawn[d], t, n, p, m));
        s.(core := core, used := s.used + {d},
           drawOf := if s.drawn[d] in s.core.table then s.drawOf else s.drawOf + [d])
    case Other(step) =>
      if step.Add? then s else s.(core := Apply(s.core, step))
  }

  ghost function Acts(c: MsgId, actions: seq<Action>): (s: IdState)
    ensures Applicable(s)
  {
    if actions == [] then Start(c) else Act(Acts(c, actions[..|actions| - 1]), actions[|actions| - 1])
  }

  // ---------------------------------------------------------------- invariant

  ghost predicate Drawn(c: MsgId, s: IdState) {
    && s.counter == (c + |s.drawn|) % TWO32
    && forall i :: 0 <= i < |s.drawn| ==> s.drawn[i] == (c + i + 1) % TWO32
  }

  ghost predicate Owned(s: IdState) {
    && |s.drawOf| == |s.core.history|
    && (forall k :: 0 <= k < |s.drawOf| ==> s.drawOf[k] in s.used && s.drawOf[k] < |s.drawn|)
    && (forall k :: 0 <= k < |s.drawOf| ==> s.core.history[k].id == s.drawn[s.drawOf[k]])
  }

  ghost predicate IdInv(c: MsgId, s: IdState) {
    Inv(s.core) && Drawn(c, s) && Owned(s)
  }

  lemma HistoryIds(s: State, step: Step)
    requires Inv(s) && !step.Add?
    ensures |Apply(s, step).history| == |s.history|
    ensures forall k :: 0 <= k < |s.history| ==> Apply(s, step).history[k].id == s.history[k].id
  {
    forall k | 0 <= k < |s.history| ensures k < |Apply(s, step).history| && Apply(s, step).history[k].id == s.history[k].id {
      StepExtends(s, step, k);
    }
    if |Apply(s, step).history| > |s.history| {
      OnlyAddInserts(s, step);
    }
  }

  lemma NextId(x: nat)
    ensures (x % TWO32 + 1) % TWO32 == (x + 1) % TWO32
  {
  }

  lemma DrawKeeps(c: MsgId, s: IdState)
    requires Applicable(s) && Drawn(c, s) && Owned(s)
    ensures Drawn(c, Act(s, Draw)) && Owned(Act(s, Draw))
  {
    NextId(c + |s.drawn|);
  }

  lemma AddDrawnKeeps(c: MsgId, s: IdState, a: Action)
    requires IdInv(c, s) && a.AddDrawn?
    ensures IdInv(c, Act(s, a))
  {
    var s' := Act(s, a);
    hide Inv, AfterAdd, Owned;
    var d := a.draw;
    if d < |s.drawn| && d !in s.used {
      var step := Add(s.drawn[d], a.timeoutSec, a.expectCount, a.hasPlain, a.hasMutex);
      AddKeeps(s.core, step);
      AddedHistory(s.core, step);
      assert s' == s.(core := AfterAdd(s.core, step), used := s.used + {d},
                      drawOf := if s.drawn[d] in s.core.table then s.drawOf else s.drawOf + [d]);
      hide Act, Applicable;
      OwnedAfterAdd(s, s', d);
      assert Drawn(c, s');
    }
  }

  lemma OwnedAfterAdd(s: IdState, s': IdState, d: nat)
    requires Owned(s) && d < |s.drawn| && s'.drawn == s.drawn && s'.used == s.used + {d}
    requires || (s'.drawOf == s.drawOf && s'.core.history == s.core.history)
             || (s'.drawOf == s.drawOf + [d] && |s'.core.history| == |s.core.history| + 1
                 && s'.core.history[..|s.core.history|] == s.core.history
                 && s'.core.history[|s.core.history|].id == s.drawn[d])
    ensures Owned(s')
  {
    assert forall k :: 0 <= k < |s.core.history| ==> s'.core.history[k] == s.core.history[k] by {
      assert forall k :: 0 <= k < |s.core.history| ==> s'.core.history[..|s.core.history|][k] == s'.core.history[k];
    }
  }

  lemma ActKeeps(c: MsgId, s: IdState, a: Action)
    requires IdInv(c, s) && Applicable(s)
    ensures IdInv(c, Act(s, a))
  {
    hide Inv, Apply, AfterAdd, Drawn, Owned;
    match a
    case Draw => DrawKeeps(c, s);
    case AddDrawn(_, _, _, _, _) => AddDrawnKeeps(c, s, a);
    case Other(step) =>
      if !step.Add? {
        StepKeeps(s.core, step);
        HistoryIds(s.core, step);
        OwnedAfterOther(s, Act(s, a));
      }
  }

  lemma OwnedAfterOther(s: IdState, s': IdState)
    requires Owned(s) && s' == s.(core := s'.core)
    requires |s'.core.history| == |s.core.history|
    requires forall k :: 0 <= k < |s.core.history| ==> s'.core.history[k].id == s.core.history[k].id
    ensures Owned(s')
    ensures forall c: MsgId :: Drawn(c, s) ==> Drawn(c, s')
  {
  }

  lemma AddedHistory(s: State, step: Step)
    requires Inv(s) && step.Add?
    ensures var s' := AfterAdd(s, step);
            if step.id in s.table then s' == s
            else |s'.history| == |s.history| + 1 && s'.history[..|s.history|] == s.history
                 && s'.history[|s.history|].id == step.id
  {
  }

  lemma {:induction false} ActsKeep(c: MsgId, actions: seq<Action>)
    ensures IdInv(c, Acts(c, actions))
  {
    if actions != [] {
      ActsKeep(c, actions[..|actions| - 1]);
      ActKeeps(c, Acts(c, actions[..|actions| - 1]), actions[|actions| - 1]);
    } else {
      RunKeeps([]);
    }
  }

  // ---------------------------------------------------------------- freshness

  /** Fewer than 2^32 draws apart. */
  predicate Near(i: nat, d: nat) {
    i < d + TWO32 && d < i + TWO32
  }

  /** Two draws got the same id exactly when 2^32 divides their distance: the
      window below cannot be any wider. */
  lemma SameIdExactlyOnWrap(c: MsgId, s: IdState, i: nat, j: nat)
    requires Drawn(c, s) && i < |s.drawn| && j < |s.drawn|
    ensures s.drawn[i] == s.drawn[j] <==> (j - i) % TWO32 == 0
  {
    var x, y := c + i + 1, c + j + 1;
    assert x == TWO32 * (x / TWO32) + x % TWO32;
    assert y == TWO32 * (y / TWO32) + y % TWO32;
    if x % TWO32 == y % TWO32 {
      assert y - x == TWO32 * (y / TWO32 - x / TWO32);
    }
    if (y - x) % TWO32 == 0 {
      var q := (y - x) / TWO32;
      assert y == x + TWO32 * q;
      WrapUnchanged(x, q);
    }
  }

  lemma {:induction false} WrapUnchanged(x: int, q: int)
    ensures (x + TWO32 * q) % TWO32 == x % TWO32
    decreases if q < 0 then -q else q
  {
    if q > 0 {
      WrapUnchanged(x, q - 1);
      assert x + TWO32 * q == (x + TWO32 * (q - 1)) + TWO32;
    } else if q < 0 {
      WrapUnchanged(x, q + 1);
      assert x + TWO32 * q == (x + TWO32 * (q + 1)) - TWO32;
    }
  }

  lemma NearDrawsDiffer(c: MsgId, s: IdState, i: nat, j: nat)
    requires Drawn(c, s) && i < |s.drawn| && j < |s.drawn| && i != j && Near(i, j)
    ensures s.drawn[i] != s.drawn[j]
  {
    SameIdExactlyOnWrap(c, s, i, j);
    assert -TWO32 < j - i < TWO32;
  }

  /** A drawn id is taken exactly when some live item was drawn a multiple of
      2^32 draws away. */
  lemma DrawnIdIsTakenExactlyWhen(c: MsgId, s: IdState, d: nat)
    requires IdInv(c, s) && d < |s.drawn|
    ensures s.drawn[d] in s.core.table <==>
              exists k :: 0 <= k < |s.drawOf| && s.core.history[k].outcome == Live && (d - s.drawOf[k]) % TWO32 == 0
  {
    var id := s.drawn[d];
    if id in s.core.table {
      var k := s.core.table[id].tag;
      SameIdExactlyOnWrap(c, s, s.drawOf[k], d);
    }
    if k :| 0 <= k < |s.drawOf| && s.core.history[k].outcome == Live && (d - s.drawOf[k]) % TWO32 == 0 {
      SameIdExactlyOnWrap(c, s, s.drawOf[k], d);
      assert s.core.history[k].id in s.core.table;
    }
  }

  /** Fewer than 2^32 draws lie between the draw and every live item. */
  ghost predicate NearLive(s: IdState, d: nat) {
    && |s.drawOf| == |s.core.history|
    && forall k :: 0 <= k < |s.drawOf| && s.core.history[k].outcome == Live ==> Near(s.drawOf[k], d)
  }

  /** The same for every item collected by the sweep in progress. */
  ghost predicate NearPending(s: IdState, d: nat) {
    forall x :: x in s.core.pending ==> x.tag < |s.drawOf| && Near(s.drawOf[x.tag], d)
  }

  lemma DrawnIdIsFresh(c: MsgId, s: IdState, d: nat)
    requires IdInv(c, s) && d < |s.drawn| && d !in s.used && NearLive(s, d)
    ensures s.drawn[d] !in s.core.table
  {
    var id := s.drawn[d];
    if id in s.core.table {
      var k := s.core.table[id].tag;
      NearDrawsDiffer(c, s, s.drawOf[k], d);
    }
  }

  lemma DrawnIdIsNotSwept(c: MsgId, s: IdState, d: nat)
    requires IdInv(c, s) && d < |s.drawn| && d !in s.used && NearPending(s, d)
    ensures !IdPending(s.core.pending, s.drawn[d])
  {
    if IdPending(s.core.pending, s.drawn[d]) {
      var x :| x in s.core.pending && x.id == s.drawn[d];
      NearDrawsDiffer(c, s, s.drawOf[x.tag], d);
    }
  }

  // ---------------------------------------------------------------- no callback is dropped

  /** Each draw passed to Add became an item. */
  ghost predicate AllAccepted(s: IdState) {
    forall d :: d in s.used ==> d in s.drawOf
  }

  lemma AcceptedStep(c: MsgId, s: IdState, a: Action)
    requires IdInv(c, s) && AllAccepted(s)
    requires a.AddDrawn? ==> NearLive(s, a.draw)
    ensures AllAccepted(Act(s, a))
  {
    hide AfterAdd, Apply;
    match a
    case Draw =>
    case AddDrawn(d, _, _, _, _) =>
      if d < |s.drawn| && d !in s.used {
        DrawnIdIsFresh(c, s, d);
        forall x | x in Act(s, a).used ensures x in Act(s, a).drawOf {
          assert x == d || x in s.drawOf;
        }
      }
    case Other(_) =>
  }

  /** No item 2^32 draws away or more is live when an id is passed to Add. */
  ghost predicate Disciplined(c: MsgId, actions: seq<Action>) {
    forall i :: 0 <= i < |actions| && actions[i].AddDrawn? ==> NearLive(Acts(c, actions[..i]), actions[i].draw)
  }

  lemma {:induction false} AllUsedAccepted(c: MsgId, actions: seq<Action>)
    requires Disciplined(c, actions)
    ensures AllAccepted(Acts(c, actions))
  {
    hide Act, IdInv, NearLive;
    if actions == [] {
    } else {
      var init, a := actions[..|actions| - 1], actions[|actions| - 1];
      assert forall i :: 0 <= i < |init| ==> init[..i] == actions[..i] && init[i] == actions[i];
      AllUsedAccepted(c, init);
      ActsKeep(c, init);
      AcceptedStep(c, Acts(c, init), a);
    }
  }

  /** The i-th action passes an id that was drawn before to Add. */
  ghost predicate AddsDraw(c: MsgId, actions: seq<Action>, i: nat) {
    i < |actions| && actions[i].AddDrawn? && actions[i].draw < |Acts(c, actions[..i]).drawn|
  }

  lemma {:induction false} AddUsesDraw(c: MsgId, actions: seq<Action>, i: nat)
    requires AddsDraw(c, actions, i)
    ensures actions[i].draw in Acts(c, actions).used
    decreases |actions|
  {
    var init := actions[..|actions| - 1];
    if i < |init| {
      assert init[..i] == actions[..i];
      AddUsesDraw(c, init, i);
    }
  }

  /** When every id comes from MessageId and fewer than 2^32 draws lie between an
      id passed to Add and the live items, over every run, no registered callback
      is silently dropped by the first-wins insertion: each becomes an item, under
      the id that was drawn for it. */
  lemma NoCallbackIsDropped(c: MsgId, actions: seq<Action>)
    requires Disciplined(c, actions)
    ensures var s := Acts(c, actions);
            && |s.drawOf| == |s.core.history|
            && (forall k :: 0 <= k < |s.drawOf| ==>
                  s.core.history[k].id == (c + s.drawOf[k] + 1) % 0x1_0000_0000)
            && forall i: nat :: AddsDraw(c, actions, i) ==> actions[i].draw in s.drawOf
  {
    hide Act, Inv;
    AllUsedAccepted(c, actions);
    ActsKeep(c, actions);
    forall i: nat | AddsDraw(c, actions, i) ensures actions[i].draw in Acts(c, actions).drawOf {
      AddUsesDraw(c, actions, i);
    }
  }

  // ---------------------------------------------------------------- no sweep is early

  /** No item was put under an id that a sweep was cancelling. */
  ghost predicate NoneReused(s: IdState) {
    forall k :: 0 <= k < |s.core.history| ==> !s.core.history[k].reused
  }

  lemma NoneReusedStep(c: MsgId, s: IdState, a: Action)
    requires IdInv(c, s) && NoneReused(s)
    requires a.AddDrawn? ==> NearPending(s, a.draw)
    ensures NoneReused(Act(s, a))
  {
    match a
    case Draw =>
    case AddDrawn(d, t, n, p, m) =>
      if d < |s.drawn| && d !in s.used {
        DrawnIdIsNotSwept(c, s, d);
      }
    case Other(step) =>
      if !step.Add? {
        hide Inv, Apply;
        HistoryIds(s.core, step);
        forall k | 0 <= k < |s.core.history| ensures !Apply(s.core, step).history[k].reused {
          assert Linked(s.core.table, s.core.history) by { InvGivesLinked(s.core); }
          StepExtends(s.core, step, k);
        }
      }
  }

  lemma InvGivesLinked(s: State)
    requires Inv(s)
    ensures TagsKnown(s.table, s.history) && Linked(s.table, s.history)
  {
  }

  /** No item 2^32 draws away or more is being swept when an id is passed to Add. */
  ghost predicate SweepsDisciplined(c: MsgId, actions: seq<Action>) {
    forall i :: 0 <= i < |actions| && actions[i].AddDrawn? ==> NearPending(Acts(c, actions[..i]), actions[i].draw)
  }

  lemma {:induction false} NoIdIsReused(c: MsgId, actions: seq<Action>)
    requires SweepsDisciplined(c, actions)
    ensures NoneReused(Acts(c, actions))
  {
    hide Act, IdInv, NearPending;
    if actions == [] {
    } else {
      var init, a := actions[..|actions| - 1], actions[|actions| - 1];
      assert forall i :: 0 <= i < |init| ==> init[..i] == actions[..i] && init[i] == actions[i];
      NoIdIsReused(c, init);
      ActsKeep(c, init);
      NoneReusedStep(c, Acts(c, init), a);
    }
  }

  /** When fewer than 2^32 draws lie between an id passed to Add and the items
      being swept, over every run, no sweep times an item out early. */
  lemma NoSweepIsEarly(c: MsgId, actions: seq<Action>)
    requires SweepsDisciplined(c, actions)
    ensures var h := Acts(c, actions).core.history;
            forall k :: 0 <= k < |h| && h[k].outcome == TimedOut(true) ==> h[k].age == Max(1, h[k].timeoutSec)
  {
    hide Act, IdInv, NoneReused, NearPending;
    ActsKeep(c, actions);
    NoIdIsReused(c, actions);
    NotReusedIsNotEarly(c, Acts(c, actions));
  }

  lemma NotReusedIsNotEarly(c: MsgId, s: IdState)
    requires IdInv(c, s) && NoneReused(s)
    ensures var h := s.core.history;
            forall k :: 0 <= k < |h| && h[k].outcome == TimedOut(true) ==> h[k].age == Max(1, h[k].timeoutSec)
  {
  }
}
