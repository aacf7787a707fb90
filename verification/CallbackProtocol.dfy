/** The callback manager as a concurrent protocol (src/callback_manager.cc).

    Every critical section on `callback_map_` is one atomic step, the timer
    sweep is several steps (collect the expired ids under the lock, then cancel
    them one by one), and the calls of user functors, which happen outside the
    lock, are separate `Deliver` steps in any order.  A run is any sequence of
    steps, so a statement about `Run(steps)` for all `steps` is a statement
    about every interleaving of every number of threads. */
module CallbackProtocol {
  import opened CallbackTable

  /** What became of an item that was inserted into the table. */
  datatype Outcome =
    | Live
    | Completed                  // erased by the last expected Callback
    | TimedOut(bySweep: bool)    // erased by Timeout, from the sweep or by a caller
    | Cancelled                  // erased by Cancel(id, nonzero)
    | Discarded                  // erased by Join

  /** The history of one item.  `age` counts the sweeps that collected ids while
      the item was in the table; `reused` says that the item was inserted under
      an id that a sweep in progress had collected but not yet cancelled. */
  datatype Record = Record(id: MsgId, timeoutSec: int, expectCount: int, hasPlain: bool, hasMutex: bool,
                           successes: nat, timeouts: nat, age: nat, reused: bool, outcome: Outcome)
  {
    predicate Has(f: Functor) {
      match f
      case Plain => hasPlain
      case Mutex => hasMutex
    }

    /** The sweep, counted from insertion, at which the item is due. */
    function DueAge(): int {
      Max(1, timeoutSec)
    }
  }

  /** An id collected by the sweep in progress, with the item it stood for. */
  datatype Due = Due(id: MsgId, tag: nat)

  /** `history[tag]` is the record of the item `tag`; `claimed` are functor calls
      owed by some thread that has left its critical section. */
  datatype State = State(table: Table, sweeping: bool, pending: seq<Due>, history: seq<Record>,
                         claimed: multiset<Event>, delivered: multiset<Event>)

  datatype Step =
    | Add(id: MsgId, timeoutSec: int, expectCount: int, hasPlain: bool, hasMutex: bool)
    | Callback(id: MsgId)
    | Cancel(id: MsgId, noCallback: bool)     // Timeout(id) is Cancel(id, false)
    | Collect                                 // first half of TimeoutCheck
    | CancelDue                               // one round of its cancel loop
    | FinishSweep                             // the loop is done: the timer is armed again
    | Join
    | Deliver(e: Event)

  const INITIAL := State(map[], false, [], [], multiset{}, multiset{})

  // ---------------------------------------------------------------- steps

  ghost predicate IdPending(pending: seq<Due>, id: MsgId) {
    exists d :: d in pending && d.id == id
  }

  ghost predicate TagsKnown(t: Table, h: seq<Record>) {
    forall id :: id in t ==> t[id].tag < |h|
  }

  ghost function AfterAdd(s: State, step: Step): (s': State)
    requires step.Add? && TagsKnown(s.table, s.history)
    ensures TagsKnown(s'.table, s'.history)
  {
    var item := Item(|s.history|, step.timeoutSec, step.expectCount, step.hasPlain, step.hasMutex);
    var r := Record(step.id, step.timeoutSec, step.expectCount, step.hasPlain, step.hasMutex,
                    0, 0, 0, IdPending(s.pending, step.id), Live);
    s.(table := Inserted(s.table, step.id, item),
       history := if step.id in s.table then s.history else s.history + [r])
  }

  ghost function AfterCallback(s: State, id: MsgId): (s': State)
    requires TagsKnown(s.table, s.history)
    ensures TagsKnown(s'.table, s'.history)
  {
    var t := CountedOff(s.table, id);
    if id !in s.table then s.(table := t)
    else
      var item := s.table[id];
      var r := s.history[item.tag];
      s.(table := t,
         history := s.history[item.tag := r.(successes := r.successes + 1,
                                             outcome := if id in t then Live else Completed)],
         claimed := s.claimed + multiset(Calls(item, Success, 1)))
  }

  ghost function AfterCancel(s: State, id: MsgId, noCallback: bool, bySweep: bool): (s': State)
    requires TagsKnown(s.table, s.history)
    ensures TagsKnown(s'.table, s'.history)
  {
    var t := Removed(s.table, id);
    if id !in s.table then s.(table := t)
    else
      var item := s.table[id];
      var r := s.history[item.tag];
      if noCallback then
        s.(table := t, history := s.history[item.tag := r.(outcome := Cancelled)])
      else
        s.(table := t,
           history := s.history[item.tag := r.(timeouts := Max(0, item.expectCount), outcome := TimedOut(bySweep))],
           claimed := s.claimed + multiset(Calls(item, Timeout, item.expectCount)))
  }

  ghost function DueList(ids: seq<MsgId>, t: Table): (r: seq<Due>)
    requires forall x :: x in ids ==> x in t
    ensures |r| == |ids|
    ensures forall i :: 0 <= i < |r| ==> r[i] == Due(ids[i], t[ids[i]].tag)
  {
    seq(|ids|, i requires 0 <= i < |ids| => assert ids[i] in ids; Due(ids[i], t[ids[i]].tag))
  }

  function Older(r: Record): Record {
    if r.outcome.Live? then r.(age := r.age + 1) else r
  }

  ghost function AfterCollect(s: State): (s': State)
    requires TagsKnown(s.table, s.history)
    ensures TagsKnown(s'.table, s'.history)
  {
    if s.sweeping then s
    else
      var t := Aged(s.table);
      s.(table := t, sweeping := true, pending := DueList(SortedIds(Expired(t)), t),
         history := seq(|s.history|, k requires 0 <= k < |s.history| => Older(s.history[k])))
  }

  ghost function AfterCancelDue(s: State): (s': State)
    requires TagsKnown(s.table, s.history)
    ensures TagsKnown(s'.table, s'.history)
  {
    if s.pending == [] then s
    else AfterCancel(s, s.pending[0].id, false, true).(pending := s.pending[1..])
  }

  ghost function AfterJoin(s: State): State {
    s.(table := map[],
       history := seq(|s.history|, k requires 0 <= k < |s.history| =>
                    if s.history[k].outcome.Live? then s.history[k].(outcome := Discarded) else s.history[k]))
  }

  ghost function Apply(s: State, step: Step): (s': State)
    requires TagsKnown(s.table, s.history)
    ensures TagsKnown(s'.table, s'.history)
  {
    match step
    case Add(_, _, _, _, _) => AfterAdd(s, step)
    case Callback(id) => AfterCallback(s, id)
    case Cancel(id, noCallback) => AfterCancel(s, id, noCallback, false)
    case Collect => AfterCollect(s)
    case CancelDue => AfterCancelDue(s)
    case FinishSweep => if s.pending == [] then s.(sweeping := false) else s
    case Join => AfterJoin(s)
    case Deliver(e) =>
      if e in s.claimed then s.(claimed := s.claimed - multiset{e}, delivered := s.delivered + multiset{e}) else s
  }

  // ---------------------------------------------------------------- the invariant

  /** The table and the records of live items describe each other. */
  ghost predicate Linked(t: Table, h: seq<Record>) {
    && (forall id :: id in t ==>
          && t[id].tag < |h|
          && var r := h[t[id].tag];
          && r.id == id && r.outcome == Live
          && t[id].expectCount == r.expectCount - r.successes
          && t[id].timeoutSec == r.timeoutSec - r.age
          && t[id].hasPlain == r.hasPlain && t[id].hasMutex == r.hasMutex)
    && (forall k :: 0 <= k < |h| && h[k].outcome == Live ==> h[k].id in t && t[h[k].id].tag == k)
  }

  /** Replies still expected: the count stays above zero once one has arrived. */
  predicate Unfinished(r: Record) {
    r.timeouts == 0 && (r.successes == 0 || r.successes < r.expectCount)
  }

  /** The reply account of one item, in each of its fates. */
  predicate Balanced(r: Record) {
    match r.outcome
    case Live => Unfinished(r)
    case Completed => r.timeouts == 0 && r.successes == Max(1, r.expectCount)
    case TimedOut(_) => (r.successes == 0 || r.successes < r.expectCount)
                        && r.successes + r.timeouts == Max(0, r.expectCount)
    case Cancelled => Unfinished(r)
    case Discarded => Unfinished(r)
  }

  ghost predicate AllBalanced(h: seq<Record>) {
    forall k :: 0 <= k < |h| ==> Balanced(h[k])
  }

  ghost predicate PendingOk(sweeping: bool, pending: seq<Due>, h: seq<Record>) {
    && (!sweeping ==> pending == [])
    && (forall i, j :: 0 <= i < j < |pending| ==> pending[i].id != pending[j].id)
    && (forall d :: d in pending ==>
          d.tag < |h| && h[d.tag].id == d.id && !h[d.tag].reused && h[d.tag].age == h[d.tag].DueAge())
  }

  /** A live item is either collected by the sweep in progress, or was put under
      an id that the sweep is about to cancel, or is not due yet. */
  ghost predicate AgesOk(pending: seq<Due>, h: seq<Record>) {
    forall k :: 0 <= k < |h| && h[k].outcome == Live ==>
      if IdPending(pending, h[k].id) then
        Due(h[k].id, k) in pending || (h[k].reused && h[k].age == 0)
      else
        !h[k].reused && h[k].age < h[k].DueAge()
  }

  ghost predicate SweptOk(h: seq<Record>) {
    forall k :: 0 <= k < |h| && h[k].outcome == TimedOut(true) ==>
      h[k].age == if h[k].reused then 0 else h[k].DueAge()
  }

  /** How often the event must be called, by the record of its item. */
  function Owed(h: seq<Record>, e: Event): nat {
    if e.tag < |h| && h[e.tag].Has(e.functor) then
      match e.status
      case Success => h[e.tag].successes
      case Timeout => h[e.tag].timeouts
    else 0
  }

  ghost predicate EventsOk(claimed: multiset<Event>, delivered: multiset<Event>, h: seq<Record>) {
    forall e :: claimed[e] + delivered[e] == Owed(h, e)
  }

  ghost predicate Inv(s: State) {
    && TagsKnown(s.table, s.history)
    && Linked(s.table, s.history)
    && AllBalanced(s.history)
    && PendingOk(s.sweeping, s.pending, s.history)
    && AgesOk(s.pending, s.history)
    && SweptOk(s.history)
    && EventsOk(s.claimed, s.delivered, s.history)
  }

  // ---------------------------------------------------------------- every step keeps it

  /** What a step may not change in a record it touches. */
  predicate SameBirth(r: Record, r': Record) {
    && r'.id == r.id && r'.timeoutSec == r.timeoutSec && r'.expectCount == r.expectCount
    && r'.hasPlain == r.hasPlain && r'.hasMutex == r.hasMutex && r'.age == r.age && r'.reused == r.reused
  }

  lemma LinkedAfterRemoval(t: Table, h: seq<Record>, id: MsgId, r: Record)
    requires Linked(t, h) && id in t && r.outcome != Live
    ensures Linked(Removed(t, id), h[t[id].tag := r])
  {
  }

  lemma LinkedAfterReply(t: Table, h: seq<Record>, id: MsgId, r: Record)
    requires Linked(t, h) && id in t && SameBirth(h[t[id].tag], r) && r.outcome == Live
    requires r.successes == h[t[id].tag].successes + 1
    ensures Linked(t[id := t[id].(expectCount := t[id].expectCount - 1)], h[t[id].tag := r])
  {
  }

  lemma PendingAfterUpdate(s: State, k: nat, r: Record)
    requires PendingOk(s.sweeping, s.pending, s.history) && k < |s.history| && SameBirth(s.history[k], r)
    ensures PendingOk(s.sweeping, s.pending, s.history[k := r])
  {
  }

  lemma AgesAfterUpdate(pending: seq<Due>, h: seq<Record>, k: nat, r: Record)
    requires AgesOk(pending, h) && k < |h| && SameBirth(h[k], r)
    requires h[k].outcome == Live
    ensures AgesOk(pending, h[k := r])
  {
  }

  /** A claim of `n` calls by one item is an increase of its account by `n`. */
  lemma EventsAfterClaim(s: State, item: Item, status: Status, n: int, r: Record)
    requires EventsOk(s.claimed, s.delivered, s.history) && item.tag < |s.history|
    requires SameBirth(s.history[item.tag], r)
    requires item.hasPlain == r.hasPlain && item.hasMutex == r.hasMutex
    requires r.successes == s.history[item.tag].successes + if status == Success then Max(n, 0) else 0
    requires r.timeouts == s.history[item.tag].timeouts + if status == Timeout then Max(n, 0) else 0
    ensures EventsOk(s.claimed + multiset(Calls(item, status, n)), s.delivered, s.history[item.tag := r])
  {
    var c := s.claimed + multiset(Calls(item, status, n));
    var h := s.history[item.tag := r];
    forall e ensures c[e] + s.delivered[e] == Owed(h, e) {
      CallsCount(item, status, n, e);
      assert s.claimed[e] + s.delivered[e] == Owed(s.history, e);
    }
  }

  lemma EventsAfterMark(s: State, k: nat, r: Record)
    requires EventsOk(s.claimed, s.delivered, s.history) && k < |s.history|
    requires SameBirth(s.history[k], r)
    requires r.successes == s.history[k].successes && r.timeouts == s.history[k].timeouts
    ensures EventsOk(s.claimed, s.delivered, s.history[k := r])
  {
    var h := s.history[k := r];
    forall e ensures s.claimed[e] + s.delivered[e] == Owed(h, e) {
      assert s.claimed[e] + s.delivered[e] == Owed(s.history, e);
    }
  }

  lemma RecordsAfterUpdate(h: seq<Record>, k: nat, r: Record)
    requires AllBalanced(h) && SweptOk(h) && k < |h| && Balanced(r)
    requires r.outcome == TimedOut(true) ==> r.age == if r.reused then 0 else r.DueAge()
    ensures AllBalanced(h[k := r]) && SweptOk(h[k := r])
  {
  }

  /** A step that touches one live record keeps the invariant when the table and
      the events follow it. */
  lemma UpdateKeeps(s: State, s': State, k: nat, r: Record)
    requires Inv(s) && k < |s.history| && s.history[k].outcome == Live && SameBirth(s.history[k], r)
    requires s'.history == s.history[k := r] && s'.pending == s.pending && s'.sweeping == s.sweeping
    requires Balanced(r)
    requires r.outcome == TimedOut(true) ==> r.age == if r.reused then 0 else r.DueAge()
    requires Linked(s'.table, s'.history) && EventsOk(s'.claimed, s'.delivered, s'.history)
    ensures Inv(s')
  {
    RecordsAfterUpdate(s.history, k, r);
    PendingAfterUpdate(s, k, r);
    AgesAfterUpdate(s.pending, s.history, k, r);
  }

  lemma LinkedAfterAdd(t: Table, h: seq<Record>, id: MsgId, item: Item, r: Record)
    requires Linked(t, h) && id !in t && item.tag == |h|
    requires r.id == id && r.outcome == Live && r.successes == 0 && r.age == 0
    requires item == Item(|h|, r.timeoutSec, r.expectCount, r.hasPlain, r.hasMutex)
    ensures Linked(t[id := item], h + [r])
  {
  }

  lemma EventsAfterAdd(s: State, r: Record)
    requires EventsOk(s.claimed, s.delivered, s.history) && r.successes == r.timeouts == 0
    ensures EventsOk(s.claimed, s.delivered, s.history + [r])
  {
    forall e ensures s.claimed[e] + s.delivered[e] == Owed(s.history + [r], e) {
      assert s.claimed[e] + s.delivered[e] == Owed(s.history, e);
    }
  }

  lemma RecordsAfterAdd(s: State, r: Record)
    requires AllBalanced(s.history) && SweptOk(s.history) && AgesOk(s.pending, s.history)
    requires PendingOk(s.sweeping, s.pending, s.history)
    requires r.outcome == Live && r.successes == 0 && r.timeouts == 0 && r.age == 0
    requires r.reused == IdPending(s.pending, r.id)
    ensures var h := s.history + [r];
            AllBalanced(h) && SweptOk(h) && AgesOk(s.pending, h) && PendingOk(s.sweeping, s.pending, h)
  {
  }

  lemma AddKeeps(s: State, step: Step)
    requires Inv(s) && step.Add?
    ensures Inv(AfterAdd(s, step))
  {
    if step.id !in s.table {
      var s' := AfterAdd(s, step);
      var r := s'.history[|s.history|];
      LinkedAfterAdd(s.table, s.history, step.id, s'.table[step.id], r);
      EventsAfterAdd(s, r);
      RecordsAfterAdd(s, r);
    }
  }

  /** What the table says of an item agrees with its record. */
  lemma ItemFacts(s: State, id: MsgId)
    requires Inv(s) && id in s.table
    ensures var item := s.table[id];
            var r := s.history[item.tag];
            r.id == id && r.outcome == Live && Balanced(r) && item.expectCount == r.expectCount - r.successes
            && item.hasPlain == r.hasPlain && item.hasMutex == r.hasMutex
    ensures IdPending(s.pending, id) ==>
            var r := s.history[s.table[id].tag];
            r.age == if r.reused then 0 else r.DueAge()
  {
    assert Balanced(s.history[s.table[id].tag]);
  }

  lemma CallbackKeeps(s: State, id: MsgId)
    requires Inv(s)
    ensures Inv(AfterCallback(s, id))
  {
    hide EventsOk, AgesOk, PendingOk, SweptOk, AllBalanced, Linked;
    if id in s.table {
      var s' := AfterCallback(s, id);
      var item := s.table[id];
      ItemFacts(s, id);
      var r := s'.history[item.tag];
      if r.outcome == Live {
        LinkedAfterReply(s.table, s.history, id, r);
      } else {
        LinkedAfterRemoval(s.table, s.history, id, r);
      }
      EventsAfterClaim(s, item, Success, 1, r);
      UpdateKeeps(s, s', item.tag, r);
    }
  }

  lemma CancelKeeps(s: State, id: MsgId, noCallback: bool, bySweep: bool)
    requires Inv(s)
    requires bySweep ==> !noCallback && IdPending(s.pending, id)
    ensures Inv(AfterCancel(s, id, noCallback, bySweep))
  {
    hide EventsOk, AgesOk, PendingOk, SweptOk, AllBalanced, Linked;
    if id in s.table {
      var s' := AfterCancel(s, id, noCallback, bySweep);
      var item := s.table[id];
      ItemFacts(s, id);
      var r := s'.history[item.tag];
      LinkedAfterRemoval(s.table, s.history, id, r);
      if noCallback {
        EventsAfterMark(s, item.tag, r);
      } else {
        EventsAfterClaim(s, item, Timeout, item.expectCount, r);
      }
      UpdateKeeps(s, s', item.tag, r);
    } else {
      assert Removed(s.table, id) == s.table;
    }
  }

  /** The first id collected is done with once no live item is under it. */
  lemma DueDoneKeeps(s: State)
    requires Inv(s) && s.pending != []
    requires forall k :: 0 <= k < |s.history| && s.history[k].outcome == Live ==> s.history[k].id != s.pending[0].id
    ensures Inv(s.(pending := s.pending[1..]))
  {
    var first, rest := s.pending[0], s.pending[1..];
    assert s.pending == [first] + rest;
    assert AgesOk(rest, s.history) && PendingOk(s.sweeping, rest, s.history);
  }

  lemma CancelDueKeeps(s: State)
    requires Inv(s)
    ensures Inv(AfterCancelDue(s))
  {
    if s.pending != [] {
      var id := s.pending[0].id;
      CancelKeeps(s, id, false, true);
      var mid := AfterCancel(s, id, false, true);
      assert mid.pending == s.pending && id !in mid.table;
      LiveInTable(mid);
      hide Inv, AfterCancel;
      DueDoneKeeps(mid);
    }
  }

  lemma LiveInTable(s: State)
    requires Inv(s)
    ensures forall k :: 0 <= k < |s.history| && s.history[k].outcome == Live ==> s.history[k].id in s.table
  {
  }

  lemma DueListCovers(ids: seq<MsgId>, t: Table, x: MsgId)
    requires forall y :: y in ids ==> y in t
    requires x in ids
    ensures Due(x, t[x].tag) in DueList(ids, t)
  {
    var i :| 0 <= i < |ids| && ids[i] == x;
    assert DueList(ids, t)[i] == Due(x, t[x].tag);
  }

  lemma LinkedAfterAging(s: State)
    requires Inv(s) && !s.sweeping
    ensures Linked(AfterCollect(s).table, AfterCollect(s).history)
  {
  }

  lemma RecordsAfterAging(s: State)
    requires Inv(s) && !s.sweeping
    ensures AllBalanced(AfterCollect(s).history) && SweptOk(AfterCollect(s).history)
    ensures EventsOk(s.claimed, s.delivered, AfterCollect(s).history)
  {
    var h := AfterCollect(s).history;
    forall k | 0 <= k < |h| ensures Balanced(h[k]) {
      assert Balanced(s.history[k]);
    }
    forall e ensures s.claimed[e] + s.delivered[e] == Owed(h, e) {
      assert s.claimed[e] + s.delivered[e] == Owed(s.history, e);
    }
  }

  /** At the moment of collecting, the due items are those that are collected. */
  lemma LiveAfterAging(s: State, k: nat)
    requires Inv(s) && !s.sweeping && k < |s.history| && s.history[k].outcome == Live
    ensures var s' := AfterCollect(s); var r := s'.history[k];
            !r.reused && r.age <= r.DueAge() && (r.id in Expired(s'.table) <==> r.age == r.DueAge())
  {
    assert !IdPending(s.pending, s.history[k].id);
    LinkedAfterAging(s);
  }

  lemma PendingAfterAging(s: State)
    requires Inv(s) && !s.sweeping
    ensures var s' := AfterCollect(s); PendingOk(true, s'.pending, s'.history)
    ensures var s' := AfterCollect(s); forall d :: d in s'.pending ==> d.id in Expired(s'.table)
  {
    var s' := AfterCollect(s);
    var ids := SortedIds(Expired(s'.table));
    LinkedAfterAging(s);
    forall d | d in s'.pending
      ensures d.tag < |s'.history| && s'.history[d.tag].id == d.id && !s'.history[d.tag].reused
      ensures s'.history[d.tag].age == s'.history[d.tag].DueAge() && d.id in Expired(s'.table)
    {
      var i :| 0 <= i < |ids| && s'.pending[i] == d;
      assert ids[i] in Expired(s'.table);
      LiveAfterAging(s, d.tag);
    }
  }

  lemma CollectKeeps(s: State)
    requires Inv(s)
    ensures Inv(AfterCollect(s))
  {
    if !s.sweeping {
      var s' := AfterCollect(s);
      LinkedAfterAging(s);
      RecordsAfterAging(s);
      PendingAfterAging(s);
      forall k | 0 <= k < |s'.history| && s'.history[k].outcome == Live
        ensures if IdPending(s'.pending, s'.history[k].id) then Due(s'.history[k].id, k) in s'.pending
                else !s'.history[k].reused && s'.history[k].age < s'.history[k].DueAge()
      {
        LiveAfterAging(s, k);
        if s'.history[k].id in Expired(s'.table) {
          DueListCovers(SortedIds(Expired(s'.table)), s'.table, s'.history[k].id);
        }
      }
    }
  }

  lemma JoinKeeps(s: State)
    requires Inv(s)
    ensures Inv(AfterJoin(s))
  {
    var s' := AfterJoin(s);
    var h := s'.history;
    forall k | 0 <= k < |h| ensures Balanced(h[k]) && SameBirth(s.history[k], h[k]) {
      assert Balanced(s.history[k]);
    }
    forall e ensures s'.claimed[e] + s'.delivered[e] == Owed(h, e) {
      assert s.claimed[e] + s.delivered[e] == Owed(s.history, e);
    }
  }

  lemma StepKeeps(s: State, step: Step)
    requires Inv(s)
    ensures Inv(Apply(s, step))
  {
    match step
    case Add(_, _, _, _, _) => AddKeeps(s, step);
    case Callback(id) => CallbackKeeps(s, id);
    case Cancel(id, noCallback) => CancelKeeps(s, id, noCallback, false);
    case Collect => CollectKeeps(s);
    case CancelDue => CancelDueKeeps(s);
    case FinishSweep =>
    case Join => JoinKeeps(s);
    case Deliver(e) =>
      var s' := Apply(s, step);
      forall x ensures s'.claimed[x] + s'.delivered[x] == Owed(s'.history, x) {
        assert s.claimed[x] + s.delivered[x] == Owed(s.history, x);
      }
  }

  /** The state after a run: any steps, in any order. */
  ghost function Run(steps: seq<Step>): (s: State)
    ensures TagsKnown(s.table, s.history)
  {
    if steps == [] then INITIAL else Apply(Run(steps[..|steps| - 1]), steps[|steps| - 1])
  }

  lemma RunSnoc(steps: seq<Step>, step: Step)
    ensures Run(steps + [step]) == Apply(Run(steps), step)
  {
    assert (steps + [step])[..|steps + [step]| - 1] == steps;
  }

  /** The invariant holds after every run. */
  lemma {:induction false} RunKeeps(steps: seq<Step>)
    ensures Inv(Run(steps))
  {
    if steps == [] {
    } else {
      RunKeeps(steps[..|steps| - 1]);
      StepKeeps(Run(steps[..|steps| - 1]), steps[|steps| - 1]);
    }
  }

  // ---------------------------------------------------------------- theorems over every run

  /** Reply conservation.  While an item is in the table its remaining count and
      the replies counted off add up to what was expected, and it is at least
      one; an item erased by Callback got every reply; one erased by a timeout
      had every missing reply reported; one erased by Cancel(id, nonzero) or by
      Join got fewer than expected and no timeout.  Each functor of the item is
      called once per claim: the calls made and the calls still owed add up. */
  lemma ReplyConservation(steps: seq<Step>, k: nat, f: Functor)
    requires k < |Run(steps).history|
    ensures var s := Run(steps);
            var r := s.history[k];
            match r.outcome
            case Live =>
              r.id in s.table && s.table[r.id].tag == k && r.timeouts == 0 &&
              s.table[r.id].expectCount + r.successes == r.expectCount &&
              (r.expectCount >= 1 ==> s.table[r.id].expectCount >= 1)
            case Completed =>
              r.successes == Max(1, r.expectCount) && r.timeouts == 0
            case TimedOut(_) =>
              r.successes + r.timeouts == Max(0, r.expectCount) && (r.expectCount >= 1 ==> r.timeouts >= 1)
            case Cancelled =>
              r.timeouts == 0 && (r.expectCount >= 1 ==> r.successes < r.expectCount)
            case Discarded =>
              r.timeouts == 0 && (r.expectCount >= 1 ==> r.successes < r.expectCount)
    ensures var s := Run(steps);
            var r := s.history[k];
            var ok, late := Event(k, f, Success), Event(k, f, Timeout);
            && s.claimed[ok] + s.delivered[ok] == (if r.Has(f) then r.successes else 0)
            && s.claimed[late] + s.delivered[late] == (if r.Has(f) then r.timeouts else 0)
  {
    RunKeeps(steps);
    var s := Run(steps);
    assert Balanced(s.history[k]);
    assert s.claimed[Event(k, f, Success)] + s.delivered[Event(k, f, Success)] == Owed(s.history, Event(k, f, Success));
    assert s.claimed[Event(k, f, Timeout)] + s.delivered[Event(k, f, Timeout)] == Owed(s.history, Event(k, f, Timeout));
  }

  predicate SameOrigin(r: Record, r': Record) {
    && r'.id == r.id && r'.timeoutSec == r.timeoutSec && r'.expectCount == r.expectCount
    && r'.hasPlain == r.hasPlain && r'.hasMutex == r.hasMutex && r'.reused == r.reused
  }

  ghost predicate Extends(h: seq<Record>, h': seq<Record>, k: nat)
    requires k < |h|
  {
    && k < |h'| && SameOrigin(h[k], h'[k])
    && (h[k].outcome != Live ==> h'[k] == h[k])
  }

  lemma CancelExtends(s: State, id: MsgId, noCallback: bool, bySweep: bool, k: nat)
    requires TagsKnown(s.table, s.history) && Linked(s.table, s.history) && k < |s.history|
    ensures Extends(s.history, AfterCancel(s, id, noCallback, bySweep).history, k)
    ensures |AfterCancel(s, id, noCallback, bySweep).history| == |s.history|
  {
  }

  lemma CallbackExtends(s: State, id: MsgId, k: nat)
    requires TagsKnown(s.table, s.history) && Linked(s.table, s.history) && k < |s.history|
    ensures Extends(s.history, AfterCallback(s, id).history, k)
    ensures |AfterCallback(s, id).history| == |s.history|
  {
  }

  lemma StepExtends(s: State, step: Step, k: nat)
    requires TagsKnown(s.table, s.history) && Linked(s.table, s.history) && k < |s.history|
    ensures Extends(s.history, Apply(s, step).history, k)
  {
    match step
    case Add(_, _, _, _, _) =>
    case Callback(id) => CallbackExtends(s, id, k);
    case Cancel(id, noCallback) => CancelExtends(s, id, noCallback, false, k);
    case Collect =>
    case CancelDue => if s.pending != [] { CancelExtends(s, s.pending[0].id, false, true, k); }
    case FinishSweep =>
    case Join =>
    case Deliver(_) =>
  }

  /** Only an accepted Add makes a record, and it makes the one it describes. */
  lemma OnlyAddInserts(s: State, step: Step)
    requires TagsKnown(s.table, s.history) && |Apply(s, step).history| > |s.history|
    ensures step.Add? && |Apply(s, step).history| == |s.history| + 1
    ensures var r := Apply(s, step).history[|s.history|];
            step == Add(r.id, r.timeoutSec, r.expectCount, r.hasPlain, r.hasMutex) &&
            r.reused == IdPending(s.pending, r.id)
  {
  }

  lemma RunExtends(init: seq<Step>, step: Step, k: nat)
    requires k < |Run(init).history|
    ensures Extends(Run(init).history, Run(init + [step]).history, k)
  {
    hide Apply, Linked, TagsKnown, SameOrigin, Extends;
    RunSnoc(init, step);
    RunKeeps(init);
    StepExtends(Run(init), step, k);
  }

  lemma LastInserts(init: seq<Step>, step: Step)
    requires |Run(init + [step]).history| > |Run(init).history|
    ensures step.Add? && |Run(init + [step]).history| == |Run(init).history| + 1
    ensures var r := Run(init + [step]).history[|Run(init).history|];
            step == Add(r.id, r.timeoutSec, r.expectCount, r.hasPlain, r.hasMutex) &&
            r.reused == IdPending(Run(init).pending, r.id)
  {
    hide Apply, Linked, TagsKnown, IdPending;
    RunSnoc(init, step);
    RunKeeps(init);
    OnlyAddInserts(Run(init), step);
  }

  /** An erased item stays erased: whatever steps follow, no further claim is
      made for it and nothing in its record changes. */
  lemma {:induction false} ErasedIsFinal(steps: seq<Step>, more: seq<Step>, k: nat)
    requires k < |Run(steps).history|
    ensures Extends(Run(steps).history, Run(steps + more).history, k)
    decreases |more|
  {
    hide Apply, Inv;
    if more == [] {
      assert steps + more == steps;
    } else {
      var init, step := more[..|more| - 1], more[|more| - 1];
      ErasedIsFinal(steps, init, k);
      assert steps + more == (steps + init) + [step];
      RunExtends(steps + init, step, k);
    }
  }

  /** After Join the table is empty and no item is live; whatever steps follow, no
      item from before is touched again and no further call is claimed for it. */
  lemma JoinIsFinal(steps: seq<Step>, more: seq<Step>, k: nat, e: Event)
    requires k < |Run(steps + [Join]).history| && e.tag == k
    ensures var joined, after := Run(steps + [Join]), Run(steps + [Join] + more);
            && joined.table == map[] && joined.history[k].outcome != Live
            && k < |after.history| && after.history[k] == joined.history[k]
            && after.claimed[e] + after.delivered[e] == joined.claimed[e] + joined.delivered[e]
  {
    JoinEndsItems(steps, k);
    ErasedIsFinal(steps + [Join], more, k);
    CallsAreOwed(steps + [Join], e);
    CallsAreOwed(steps + [Join] + more, e);
    hide Run, Inv;
  }

  lemma JoinEndsItems(steps: seq<Step>, k: nat)
    requires k < |Run(steps + [Join]).history|
    ensures Run(steps + [Join]).table == map[] && Run(steps + [Join]).history[k].outcome != Live
  {
    RunSnoc(steps, Join);
  }

  lemma CallsAreOwed(steps: seq<Step>, e: Event)
    ensures Run(steps).claimed[e] + Run(steps).delivered[e] == Owed(Run(steps).history, e)
  {
    RunKeeps(steps);
  }

  /** Step `i` of the run inserted item `k`. */
  ghost predicate InsertedAt(steps: seq<Step>, i: nat, k: nat) {
    && i < |steps| && steps[i].Add?
    && |Run(steps[..i]).history| == k && |Run(steps[..i + 1]).history| == k + 1
  }

  /** Every item was inserted by exactly the `Add` its record describes, and
      `reused` tells whether a sweep was then about to cancel its id. */
  lemma {:induction false} InsertionOf(steps: seq<Step>, k: nat) returns (i: nat)
    requires k < |Run(steps).history|
    ensures InsertedAt(steps, i, k)
    ensures var r := Run(steps).history[k];
            && steps[i] == Add(r.id, r.timeoutSec, r.expectCount, r.hasPlain, r.hasMutex)
            && (r.reused <==> IdPending(Run(steps[..i]).pending, r.id))
    decreases |steps|
  {
    hide Inv, IdPending, Apply;
    var n := |steps| - 1;
    var init := steps[..n];
    assert steps == init + [steps[n]];
    if k < |Run(init).history| {
      i := InsertionOf(init, k);
      RunExtends(init, steps[n], k);
      assert steps[..i] == init[..i] && steps[..i + 1] == init[..i + 1];
    } else {
      i := n;
      LastInserts(init, steps[n]);
      assert steps[..n + 1] == steps;
    }
  }

  /** No timeout is lost: whenever no sweep is in progress, an item still in the
      table has been through fewer sweeps than max(1, timeout_sec).  So the sweep
      at which it is due has it out of the table when its cancel loop ends,
      whatever steps came in between. */
  lemma NoTimeoutIsLost(steps: seq<Step>)
    ensures var s := Run(steps);
            !s.sweeping ==>
              forall k :: 0 <= k < |s.history| && s.history[k].outcome == Live ==>
                s.history[k].age < Max(1, s.history[k].timeoutSec)
  {
    RunKeeps(steps);
    var s := Run(steps);
    if !s.sweeping {
      assert forall id :: !IdPending(s.pending, id);
    }
  }

  /** A sweep times an item out exactly at the max(1, timeout_sec)-th sweep after
      its insertion, unless the item was inserted under an id that the sweep had
      already collected; then, and only then, it is timed out early, before any
      sweep counted it. */
  lemma SweepIsEarlyExactlyOnReuse(steps: seq<Step>, k: nat) returns (i: nat)
    ensures k < |Run(steps).history| && Run(steps).history[k].outcome == TimedOut(true) ==>
              var r := Run(steps).history[k];
              var due := Max(1, r.timeoutSec);
              && InsertedAt(steps, i, k)
              && r.age <= due
              && (r.age < due <==> IdPending(Run(steps[..i]).pending, r.id))
              && (r.age < due ==> r.age == 0)
  {
    i := 0;
    if k < |Run(steps).history| {
      i := InsertionOf(steps, k);
      RunKeeps(steps);
    }
  }

  /** A live item under a collected id does not outlive the round that cancels
      that id, so an early timeout is avoided only by a reply or a cancel. */
  lemma ReusedItemIsSwept(steps: seq<Step>, k: nat)
    ensures var s := Run(steps);
            k < |s.history| && s.history[k].outcome == Live && s.pending != [] && s.pending[0].id == s.history[k].id ==>
              Run(steps + [CancelDue]).history[k].outcome == TimedOut(true)
  {
    hide EventsOk, AgesOk, PendingOk, SweptOk, AllBalanced;
    RunKeeps(steps);
    RunSnoc(steps, CancelDue);
  }

  /** The other side of the condition happens: the id 7 is answered and reused
      between the two halves of a sweep, and an item with a timeout of 100
      seconds is timed out by that very sweep. */
  lemma ReuseCanTimeOutEarly()
    ensures var s := Run([Add(7, 1, 1, true, false), Collect, Callback(7), Add(7, 100, 1, true, false), CancelDue]);
            |s.history| == 2 && s.history[1].timeoutSec == 100 && s.history[1].age == 0
            && s.history[1].outcome == TimedOut(true) && s.history[1].timeouts == 1
  {
    var a, b, d := Add(7, 1, 1, true, false), Callback(7), Add(7, 100, 1, true, false);
    var item := Item(0, 1, 1, true, false);
    var r := Record(7, 1, 1, true, false, 0, 0, 0, false, Live);
    var s1 := State(map[7 := item], false, [], [r], multiset{}, multiset{});
    assert Apply(INITIAL, a) == s1;
    var s2 := State(map[7 := item.(timeoutSec := 0)], true, [Due(7, 0)], [r.(age := 1)], multiset{}, multiset{});
    CollectOne(item, r);
    assert Apply(s1, Collect) == s2;
    var owed := multiset(Calls(item.(timeoutSec := 0), Success, 1));
    var s3 := State(map[], true, [Due(7, 0)], [r.(age := 1, successes := 1, outcome := Completed)], owed, multiset{});
    assert Apply(s2, b) == s3;
    var r' := Record(7, 100, 1, true, false, 0, 0, 0, true, Live);
    assert Due(7, 0) in s3.pending;
    var s4 := s3.(table := map[7 := Item(1, 100, 1, true, false)], history := s3.history + [r']);
    assert Apply(s3, d) == s4;
    EarlyTimeout(s4, item);
    hide Apply, AfterCollect, AfterCancelDue, Calls;
    RunOfFive(a, Collect, b, d, CancelDue);
  }

  lemma EarlyTimeout(s: State, item: Item)
    requires s.table == map[7 := Item(1, 100, 1, true, false)] && s.pending == [Due(7, 0)]
    requires |s.history| == 2 && s.history[1] == Record(7, 100, 1, true, false, 0, 0, 0, true, Live)
    ensures var h := Apply(s, CancelDue).history;
            |h| == 2 && h[1].timeoutSec == 100 && h[1].age == 0 && h[1].outcome == TimedOut(true) && h[1].timeouts == 1
  {
  }

  lemma CollectOne(item: Item, r: Record)
    requires item.timeoutSec == 1 && item.tag == 0 && r.outcome == Live
    ensures AfterCollect(State(map[7 := item], false, [], [r], multiset{}, multiset{})) ==
            State(map[7 := item.(timeoutSec := 0)], true, [Due(7, 0)], [r.(age := r.age + 1)], multiset{}, multiset{})
  {
    var s := State(map[7 := item], false, [], [r], multiset{}, multiset{});
    assert Aged(s.table) == map[7 := item.(timeoutSec := 0)];
    assert Expired(Aged(s.table)) == {7};
    SortedSingleton(7);
    assert DueList([7], Aged(s.table)) == [Due(7, 0)];
    assert AfterCollect(s).history == [Older(r)];
  }

  lemma SortedSingleton(x: MsgId)
    ensures SortedIds({x}) == [x]
  {
    assert Least({x}) == x;
    assert {x} - {x} == {};
  }

  lemma RunOfFive(a: Step, b: Step, c: Step, d: Step, e: Step)
    ensures Run([a, b, c, d, e]) == Apply(Apply(Apply(Apply(Apply(INITIAL, a), b), c), d), e)
  {
    hide Apply;
    RunOfThree(a, b, c);
    RunSnoc([a, b, c], d);
    assert [a, b, c] + [d] == [a, b, c, d];
    RunSnoc([a, b, c, d], e);
    assert [a, b, c, d] + [e] == [a, b, c, d, e];
  }

  lemma RunOfThree(a: Step, b: Step, c: Step)
    ensures Run([a, b, c]) == Apply(Apply(Apply(INITIAL, a), b), c)
  {
    hide Apply;
    RunSnoc([], a);
    assert [] + [a] == [a];
    RunSnoc([a], b);
    assert [a] + [b] == [a, b];
    RunSnoc([a, b], c);
    assert [a, b] + [c] == [a, b, c];
  }

  // ---------------------------------------------------------------- what each step does

  predicate HasFunctor(item: Item, f: Functor) {
    (f == Plain && item.hasPlain) || (f == Mutex && item.hasMutex)
  }

  /** An id that is taken keeps its item, and the step does nothing; a free one
      gets the item described. */
  lemma AddEffect(s: State, step: Step)
    requires TagsKnown(s.table, s.history) && step.Add?
    ensures var s' := Apply(s, step);
            && s'.table.Keys == s.table.Keys + {step.id}
            && (forall id :: id in s.table ==> s'.table[id] == s.table[id])
            && (step.id in s.table ==> s' == s)
            && (step.id !in s.table ==>
                  s'.table[step.id]
                  == Item(|s.history|, step.timeoutSec, step.expectCount, step.hasPlain, step.hasMutex))
  {
    var s' := Apply(s, step);
    if step.id in s.table {
      assert s'.table == s.table;
    }
  }

  /** One reply less is expected, the last one erases the item, and each functor
      of the item is owed one success call; an unknown id does nothing. */
  lemma CallbackEffect(s: State, id: MsgId)
    requires TagsKnown(s.table, s.history)
    ensures var s' := Apply(s, Callback(id));
            && (forall x :: x in s.table && x != id ==> x in s'.table && s'.table[x] == s.table[x])
            && (forall x :: x in s'.table ==> x in s.table)
            && (id !in s.table ==> s' == s)
            && (id in s.table ==>
                  var item := s.table[id];
                  if item.expectCount > 1
                  then id in s'.table && s'.table[id] == item.(expectCount := item.expectCount - 1)
                  else id !in s'.table)
            && forall e :: s'.claimed[e] == s.claimed[e] +
                 if id in s.table && e.tag == s.table[id].tag && e.status == Success && HasFunctor(s.table[id], e.functor)
                 then 1 else 0
  {
    if id in s.table {
      forall e { CallsCount(s.table[id], Success, 1, e); }
    } else {
      assert CountedOff(s.table, id) == s.table;
    }
  }

  /** The item is erased; unless callbacks are switched off, each of its functors
      is owed a timeout call for every reply still expected. */
  lemma CancelEffect(s: State, id: MsgId, noCallback: bool)
    requires TagsKnown(s.table, s.history)
    ensures var s' := Apply(s, Cancel(id, noCallback));
            && s'.table == s.table - {id} && s'.pending == s.pending
            && (id !in s.table ==> s' == s)
            && (id in s.table ==>
                  s'.history[s.table[id].tag].outcome == if noCallback then Cancelled else TimedOut(false))
            && forall e :: s'.claimed[e] == s.claimed[e] +
                 if id in s.table && !noCallback && e.tag == s.table[id].tag && e.status == Timeout
                    && HasFunctor(s.table[id], e.functor)
                 then Max(0, s.table[id].expectCount) else 0
  {
    if id in s.table {
      forall e { CallsCount(s.table[id], Timeout, s.table[id].expectCount, e); }
    } else {
      assert Removed(s.table, id) == s.table;
    }
  }

  /** A sweep that starts takes one second from every item and collects, in
      ascending order, the ids of the items that have none left. */
  lemma CollectEffect(s: State)
    requires TagsKnown(s.table, s.history) && !s.sweeping
    ensures var s' := Apply(s, Collect);
            && s'.sweeping && s'.claimed == s.claimed && s'.table.Keys == s.table.Keys
            && (forall id :: id in s.table ==> s'.table[id] == s.table[id].(timeoutSec := s.table[id].timeoutSec - 1))
            && (forall i, j :: 0 <= i < j < |s'.pending| ==> s'.pending[i].id < s'.pending[j].id)
            && (forall id :: id in s.table && s.table[id].timeoutSec <= 1 ==> Due(id, s.table[id].tag) in s'.pending)
            && (forall d :: d in s'.pending ==>
                  d.id in s.table && s.table[d.id].timeoutSec <= 1 && d.tag == s.table[d.id].tag)
  {
    var s' := Apply(s, Collect);
    var ids := SortedIds(Expired(s'.table));
    forall id | id in s.table && s.table[id].timeoutSec <= 1 ensures Due(id, s.table[id].tag) in s'.pending {
      assert id in ids;
      DueListCovers(ids, s'.table, id);
    }
    forall d | d in s'.pending
      ensures d.id in s.table && s.table[d.id].timeoutSec <= 1 && d.tag == s.table[d.id].tag
    {
      var i :| 0 <= i < |s'.pending| && s'.pending[i] == d;
      assert ids[i] in ids;
    }
  }

  /** A round of the cancel loop times out whatever item is under the next
      collected id, and a call is made at most as often as it is owed. */
  lemma SweepAndDeliverEffect(s: State, e: Event)
    requires TagsKnown(s.table, s.history)
    ensures s.pending != [] ==>
              var s' := Apply(s, CancelDue);
              && s'.pending == s.pending[1..] && s'.table == s.table - {s.pending[0].id}
              && (s.pending[0].id in s.table ==>
                    s'.history[s.table[s.pending[0].id].tag].outcome == TimedOut(true))
              && s'.claimed == Apply(s, Cancel(s.pending[0].id, false)).claimed
    ensures s.pending == [] ==> Apply(s, FinishSweep) == s.(sweeping := false) && Apply(s, CancelDue) == s
    ensures s.pending != [] ==> Apply(s, FinishSweep) == s
    ensures s.sweeping ==> Apply(s, Collect) == s
    ensures e in s.claimed ==>
              Apply(s, Deliver(e)) == s.(claimed := s.claimed - multiset{e}, delivered := s.delivered + multiset{e})
    ensures e !in s.claimed ==> Apply(s, Deliver(e)) == s
  {
    if s.pending != [] && s.pending[0].id !in s.table {
      assert Removed(s.table, s.pending[0].id) == s.table;
    }
  }

  // ---------------------------------------------------------------- an undisturbed sweep

  /** The cancel loop of a sweep with no step in between. */
  ghost function CancelLoop(s: State): State
    requires TagsKnown(s.table, s.history)
    decreases |s.pending|
  {
    if s.pending == [] then s else CancelLoop(AfterCancelDue(s))
  }

  ghost predicate PendingOf(s: State, ids: seq<MsgId>) {
    && |s.pending| == |ids| && Ascending(ids)
    && forall i :: 0 <= i < |ids| ==> s.pending[i].id == ids[i] && ids[i] in s.table
  }

  lemma {:induction false} FirstCallsFirst(x: MsgId, ids: seq<MsgId>, t: Table)
    requires x in t && forall y :: y in ids ==> y in t
    ensures TimeoutCalls([x] + ids, t) == Calls(t[x], Timeout, t[x].expectCount) + TimeoutCalls(ids, t)
    decreases |ids|
  {
    var all := [x] + ids;
    if ids == [] {
      assert all[..0] == [] && all[|all| - 1] == x;
    } else {
      var init := ids[..|ids| - 1];
      assert all[..|all| - 1] == [x] + init && all[|all| - 1] == ids[|ids| - 1];
      FirstCallsFirst(x, init, t);
    }
  }

  lemma {:induction false} TimeoutCallsFrame(ids: seq<MsgId>, t: Table, t': Table)
    requires forall x :: x in ids ==> x in t && x in t' && t'[x] == t[x]
    ensures TimeoutCalls(ids, t') == TimeoutCalls(ids, t)
  {
    if ids == [] {
    } else {
      assert ids[|ids| - 1] in ids;
      TimeoutCallsFrame(ids[..|ids| - 1], t, t');
    }
  }

  lemma CancelDueRound(s: State, ids: seq<MsgId>)
    requires TagsKnown(s.table, s.history) && PendingOf(s, ids) && ids != []
    ensures var s' := AfterCancelDue(s);
            && s'.table == s.table - {ids[0]} && PendingOf(s', ids[1..])
            && s'.claimed == s.claimed + multiset(Calls(s.table[ids[0]], Timeout, s.table[ids[0]].expectCount))
  {
  }

  lemma WithoutFirst(t: Table, ids: seq<MsgId>)
    requires ids != [] && Ascending(ids) && forall x :: x in ids ==> x in t
    ensures Without(t - {ids[0]}, ids[1..]) == Without(t, ids)
    ensures forall x :: x in ids[1..] ==> x in t - {ids[0]}
  {
    assert ids == [ids[0]] + ids[1..];
    forall x | x in ids[1..] ensures x != ids[0] {
      var i :| 0 <= i < |ids[1..]| && ids[1..][i] == x;
      assert ids[i + 1] == x;
    }
  }

  lemma ClaimsFirst(t: Table, ids: seq<MsgId>)
    requires ids != [] && Ascending(ids) && forall x :: x in ids ==> x in t
    ensures forall x :: x in ids[1..] ==> x in t - {ids[0]}
    ensures multiset(TimeoutCalls(ids, t)) ==
            multiset(Calls(t[ids[0]], Timeout, t[ids[0]].expectCount)) + multiset(TimeoutCalls(ids[1..], t - {ids[0]}))
  {
    WithoutFirst(t, ids);
    assert ids == [ids[0]] + ids[1..];
    FirstCallsFirst(ids[0], ids[1..], t);
    TimeoutCallsFrame(ids[1..], t, t - {ids[0]});
    var c, r := Calls(t[ids[0]], Timeout, t[ids[0]].expectCount), TimeoutCalls(ids[1..], t);
    assert multiset(c + r) == multiset(c) + multiset(r);
  }

  lemma {:induction false} CancelLoopCancelsAll(s: State, ids: seq<MsgId>)
    requires TagsKnown(s.table, s.history) && PendingOf(s, ids)
    requires forall x :: x in ids ==> x in s.table
    ensures CancelLoop(s).pending == []
    ensures CancelLoop(s).table == Without(s.table, ids)
    ensures CancelLoop(s).claimed == s.claimed + multiset(TimeoutCalls(ids, s.table))
    decreases |ids|
  {
    if ids == [] {
    } else {
      hide AfterCancelDue, TimeoutCalls, Calls, CallsOf, Without;
      CancelDueRound(s, ids);
      WithoutFirst(s.table, ids);
      ClaimsFirst(s.table, ids);
      CancelLoopCancelsAll(AfterCancelDue(s), ids[1..]);
    }
  }

  lemma CollectedIds(s: State)
    requires TagsKnown(s.table, s.history) && !s.sweeping
    ensures var c := AfterCollect(s); var ids := SortedIds(Expired(c.table));
            && c.table == Aged(s.table) && c.claimed == s.claimed && PendingOf(c, ids)
            && (forall x :: x in ids ==> x in c.table) && Without(c.table, ids) == Survivors(s.table)
  {
    var c := AfterCollect(s);
    var ids := SortedIds(Expired(c.table));
    assert forall x :: x in ids <==> x in c.table && c.table[x].timeoutSec <= 0;
    assert forall i :: 0 <= i < |ids| ==> ids[i] in ids;
  }

  /** A sweep that nothing interleaves with is the one-shot sweep: it keeps the
      items with more than one second left and claims every reply the others
      still expect. */
  lemma UndisturbedSweep(s: State)
    requires TagsKnown(s.table, s.history) && !s.sweeping
    ensures var s' := CancelLoop(AfterCollect(s));
            && s'.table == Survivors(s.table) && s'.pending == []
            && s'.claimed == s.claimed + multiset(SweepCalls(s.table))
  {
    hide CancelLoop, AfterCollect, TimeoutCalls;
    CollectedIds(s);
    CancelLoopCancelsAll(AfterCollect(s), SortedIds(Expired(AfterCollect(s).table)));
  }
}
