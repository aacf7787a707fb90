/** The table of expected replies (src/callback_manager.cc): what each short
    critical section does to the table, as functions on values.  The class
    `CallbackManager` and the interleaving model `CallbackProtocol` are both
    built from these functions. */
module CallbackTable {

  type MsgId = n: nat | n < 0x1_0000_0000

  /** The two functors a CallbackItem may carry. */
  datatype Functor = Plain | Mutex

  datatype Status = Success | Timeout

  /** One call of one functor of the item named by `tag`. */
  datatype Event = Event(tag: nat, functor: Functor, status: Status)

  /** A CallbackItem; `tag` is the identity of the object. */
  datatype Item = Item(tag: nat, timeoutSec: int, expectCount: int, hasPlain: bool, hasMutex: bool)
  {
    predicate Has(f: Functor) {
      match f
      case Plain => hasPlain
      case Mutex => hasMutex
    }
  }

  type Table = map<MsgId, Item>

  function Max(a: int, b: int): int {
    if a < b then b else a
  }

  function Repeat(e: Event, n: int): (r: seq<Event>)
    ensures |r| == Max(n, 0)
    ensures forall i :: 0 <= i < |r| ==> r[i] == e
    decreases Max(n, 0)
  {
    if n <= 0 then [] else [e] + Repeat(e, n - 1)
  }

  function CallsOf(item: Item, f: Functor, status: Status, n: int): seq<Event> {
    if item.Has(f) then Repeat(Event(item.tag, f, status), n) else []
  }

  /** The functor calls that `n` claims of an item lead to: every plain call
      comes before every mutex call. */
  function Calls(item: Item, status: Status, n: int): seq<Event> {
    CallsOf(item, Plain, status, n) + CallsOf(item, Mutex, status, n)
  }

  lemma {:induction false} RepeatCount(e: Event, n: int, x: Event)
    ensures multiset(Repeat(e, n))[x] == if x == e then Max(n, 0) else 0
    decreases Max(n, 0)
  {
    if n <= 0 {
    } else {
      RepeatCount(e, n - 1, x);
    }
  }

  lemma CallsOfCount(item: Item, f: Functor, status: Status, n: int, x: Event)
    ensures multiset(CallsOf(item, f, status, n))[x] ==
            if item.Has(f) && x == Event(item.tag, f, status) then Max(n, 0) else 0
  {
    RepeatCount(Event(item.tag, f, status), n, x);
  }

  lemma ConcatCount(a: seq<Event>, b: seq<Event>, x: Event)
    ensures multiset(a + b)[x] == multiset(a)[x] + multiset(b)[x]
  {
    assert multiset(a + b) == multiset(a) + multiset(b);
  }

  /** `Calls` holds one call per claim for each functor the item has, and no
      other event. */
  lemma CallsCount(item: Item, status: Status, n: int, x: Event)
    ensures multiset(Calls(item, status, n))[x] ==
            if x.tag == item.tag && x.status == status
               && ((x.functor == Plain && item.hasPlain) || (x.functor == Mutex && item.hasMutex))
            then Max(n, 0) else 0
  {
    CallsOfCount(item, Plain, status, n, x);
    CallsOfCount(item, Mutex, status, n, x);
    ConcatCount(CallsOf(item, Plain, status, n), CallsOf(item, Mutex, status, n), x);
    match x.functor {
      case Plain =>
      case Mutex =>
    }
  }

  /** The calls of an item: those of its plain functor first, n each. */
  lemma CallsAt(item: Item, status: Status, n: int, i: nat)
    requires i < |Calls(item, status, n)|
    ensures |Calls(item, status, n)| == (if item.hasPlain then Max(n, 0) else 0) + (if item.hasMutex then Max(n, 0) else 0)
    ensures Calls(item, status, n)[i] ==
            Event(item.tag, if item.hasPlain && i < n then Plain else Mutex, status)
  {
  }

  // ---------------------------------------------------------------- critical sections

  /** `map::insert`: the first item under an id wins. */
  function Inserted(t: Table, id: MsgId, item: Item): Table {
    if id in t then t else t[id := item]
  }

  /** The locked part of Callback: one reply is counted off. */
  function CountedOff(t: Table, id: MsgId): Table {
    if id !in t then t
    else if t[id].expectCount - 1 <= 0 then t - {id}
    else t[id := t[id].(expectCount := t[id].expectCount - 1)]
  }

  /** The locked part of Cancel. */
  function Removed(t: Table, id: MsgId): Table {
    t - {id}
  }

  /** The locked part of TimeoutCheck: every item is one second older... */
  function Aged(t: Table): Table {
    map id | id in t :: t[id].(timeoutSec := t[id].timeoutSec - 1)
  }

  /** ...and the ids whose time is up are collected in the map's order. */
  ghost function Expired(t: Table): set<MsgId> {
    set id | id in t && t[id].timeoutSec <= 0
  }

  // ---------------------------------------------------------------- ascending ids

  ghost predicate Ascending(s: seq<MsgId>) {
    forall i, j :: 0 <= i < j < |s| ==> s[i] < s[j]
  }

  ghost predicate IsLeast(x: MsgId, s: set<MsgId>) {
    x in s && forall y :: y in s ==> x <= y
  }

  lemma {:induction false} LeastExists(s: set<MsgId>)
    requires s != {}
    ensures exists x :: IsLeast(x, s)
    decreases |s|
  {
    var x :| x in s;
    var rest := s - {x};
    assert forall z :: z in s ==> z == x || z in rest;
    if rest == {} {
      assert IsLeast(x, s);
    } else {
      LeastExists(rest);
      var y :| IsLeast(y, rest);
      assert IsLeast(if y < x then y else x, s);
    }
  }

  ghost function Least(s: set<MsgId>): (x: MsgId)
    requires s != {}
    ensures IsLeast(x, s)
  {
    LeastExists(s);
    var x :| IsLeast(x, s);
    x
  }

  /** The order in which a `std::map` is traversed. */
  ghost function SortedIds(s: set<MsgId>): (r: seq<MsgId>)
    ensures Ascending(r)
    ensures forall x :: x in r <==> x in s
    decreases |s|
  {
    if s == {} then []
    else
      var x := Least(s);
      var rest := SortedIds(s - {x});
      assert forall y :: y in rest ==> x < y;
      [x] + rest
  }

  /** `SortedIds` is the only ascending enumeration of a set. */
  lemma {:induction false} AscendingIsSorted(r: seq<MsgId>, s: set<MsgId>)
    requires Ascending(r) && forall x :: x in r <==> x in s
    ensures r == SortedIds(s)
    decreases |r|
  {
    if r == [] {
      assert s == {};
    } else {
      assert r == [r[0]] + r[1..];
      assert r[0] in s && forall y :: y in r[1..] ==> r[0] < y;
      assert Least(s) == r[0];
      AscendingIsSorted(r[1..], s - {r[0]});
    }
  }

  // ---------------------------------------------------------------- a whole sweep

  /** What a sweep run alone leaves: the items with more than one second left,
      one second older. */
  function Survivors(t: Table): Table {
    map id | id in t && t[id].timeoutSec > 1 :: t[id].(timeoutSec := t[id].timeoutSec - 1)
  }

  /** The items under ids that are not listed. */
  function Without(t: Table, ids: seq<MsgId>): Table {
    map id | id in t && id !in ids :: t[id]
  }

  /** The calls of a cancel loop over `ids`. */
  function TimeoutCalls(ids: seq<MsgId>, t: Table): seq<Event>
    requires forall x :: x in ids ==> x in t
  {
    if ids == [] then []
    else
      var last := ids[|ids| - 1];
      TimeoutCalls(ids[..|ids| - 1], t) + Calls(t[last], Timeout, t[last].expectCount)
  }

  /** The calls are made list by list, in list order. */
  lemma {:induction false} TimeoutCallsConcat(a: seq<MsgId>, b: seq<MsgId>, t: Table)
    requires forall x :: x in a + b ==> x in t
    ensures (forall x :: x in a ==> x in t) && (forall x :: x in b ==> x in t)
    ensures TimeoutCalls(a + b, t) == TimeoutCalls(a, t) + TimeoutCalls(b, t)
    decreases |b|
  {
    hide Calls;
    assert forall x :: x in a || x in b ==> x in a + b;
    if b == [] {
      assert a + b == a;
    } else {
      var init := b[..|b| - 1];
      assert (a + b)[..|a + b| - 1] == a + init && (a + b)[|a + b| - 1] == b[|b| - 1];
      TimeoutCallsConcat(a, init, t);
    }
  }

  lemma TimeoutCallsOfOne(x: MsgId, t: Table)
    requires x in t
    ensures TimeoutCalls([x], t) == Calls(t[x], Timeout, t[x].expectCount)
  {
    assert [x][..0] == [];
  }

  ghost function SweepCalls(t: Table): seq<Event> {
    TimeoutCalls(SortedIds(Expired(Aged(t))), Aged(t))
  }
}
