/** The callback manager itself (src/callback_manager.cc), one caller at a time.
    The table is the field `callbackMap`; `calls` records the calls made to user
    functors, in order. */
module CallbackManagers {
  import opened Options
  import opened CallbackTable

  /** The table when the items under `ids` have been aged. */
  ghost function AgedOn(t: Table, ids: seq<MsgId>): Table {
    map id | id in t :: if id in ids then Aged(t)[id] else t[id]
  }

  /** The ids of a list whose time is up after one more second. */
  ghost function DueAmong(ids: seq<MsgId>, t: Table): (r: seq<MsgId>)
    requires forall x :: x in ids ==> x in t
    ensures forall x :: x in r <==> x in ids && t[x].timeoutSec - 1 <= 0
  {
    if ids == [] then []
    else
      var last := ids[|ids| - 1];
      assert ids == ids[..|ids| - 1] + [last];
      DueAmong(ids[..|ids| - 1], t) + if t[last].timeoutSec - 1 <= 0 then [last] else []
  }

  lemma AgingStart(t: Table, ids: seq<MsgId>)
    requires ids == SortedIds(t.Keys)
    ensures Ascending(ids) && forall x :: x in ids ==> x in t
    ensures AgedOn(t, ids[..0]) == t && DueAmong(ids[..0], t) == []
  {
  }

  /** One round of the aging loop. */
  lemma AgingRound(t: Table, ids: seq<MsgId>, i: nat)
    requires Ascending(ids) && i < |ids| && forall x :: x in ids ==> x in t
    ensures forall x :: x in ids[..i + 1] ==> x in t
    ensures ids[i] in t && ids[i] in AgedOn(t, ids[..i]) && AgedOn(t, ids[..i])[ids[i]] == t[ids[i]]
    ensures AgedOn(t, ids[..i])[ids[i] := t[ids[i]].(timeoutSec := t[ids[i]].timeoutSec - 1)] == AgedOn(t, ids[..i + 1])
    ensures DueAmong(ids[..i + 1], t) == DueAmong(ids[..i], t) + if t[ids[i]].timeoutSec - 1 <= 0 then [ids[i]] else []
  {
    assert ids[i] in ids && ids[i] !in ids[..i];
    assert ids[..i + 1] == ids[..i] + [ids[i]];
    assert ids[..i + 1][..i] == ids[..i];
  }

  lemma AgingDone(t: Table, ids: seq<MsgId>)
    requires ids == SortedIds(t.Keys)
    ensures AgedOn(t, ids) == Aged(t)
    ensures forall x :: x in ids ==> x in t
    ensures DueAmong(ids, t) == SortedIds(Expired(Aged(t)))
  {
    hide SortedIds;
    assert forall x :: x in ids <==> x in t.Keys;
    DueAmongAscends(ids, t);
    DueAmongExpires(ids, t);
    assert AgedOn(t, ids) == Aged(t);
    hide AgedOn, DueAmong, Ascending, Aged, Expired;
    AscendingIsSorted(DueAmong(ids, t), Expired(Aged(t)));
  }

  lemma DueAmongExpires(ids: seq<MsgId>, t: Table)
    requires forall x :: x in ids <==> x in t
    ensures forall x :: x in DueAmong(ids, t) <==> x in Expired(Aged(t))
  {
  }

  lemma {:induction false} DueAmongAscends(ids: seq<MsgId>, t: Table)
    requires Ascending(ids) && forall x :: x in ids ==> x in t
    ensures Ascending(DueAmong(ids, t))
  {
    if ids == [] {
    } else {
      var init, last := ids[..|ids| - 1], ids[|ids| - 1];
      DueAmongAscends(init, t);
      var r := DueAmong(init, t);
      forall k | 0 <= k < |r| ensures r[k] < last {
        assert r[k] in init;
      }
    }
  }

  lemma WithoutMeans(t: Table, ids: seq<MsgId>)
    ensures forall id :: id in Without(t, ids) <==> id in t && id !in ids
    ensures forall id :: id in Without(t, ids) ==> Without(t, ids)[id] == t[id]
  {
  }

  lemma WithoutNone(t: Table)
    ensures Without(t, []) == t && TimeoutCalls([], t) == []
  {
  }

  lemma CancelAllRound(t: Table, ids: seq<MsgId>, i: nat)
    requires Ascending(ids) && i < |ids| && forall x :: x in ids ==> x in t
    ensures ids[i] in Without(t, ids[..i]) && Without(t, ids[..i])[ids[i]] == t[ids[i]]
    ensures Without(t, ids[..i + 1]) == Removed(Without(t, ids[..i]), ids[i])
    ensures TimeoutCalls(ids[..i + 1], t)
         == TimeoutCalls(ids[..i], t) + Calls(t[ids[i]], Status.Timeout, t[ids[i]].expectCount)
  {
    hide Calls;
    assert ids[i] in ids && ids[i] !in ids[..i];
    assert ids[..i + 1][..i] == ids[..i];
    assert ids[..i + 1] == ids[..i] + [ids[i]];
  }

  class CallbackManager {
    var callbackMap: Table
    var calls: seq<Event>
    var msgId: MsgId

    constructor (now: MsgId)
      ensures callbackMap == map[] && calls == [] && msgId == now
    {
      callbackMap, calls, msgId := map[], [], now;
    }

    method MessageId() returns (id: MsgId)
      modifies this`msgId
      ensures id == msgId == if old(msgId) == 0xFFFF_FFFF then 0 else old(msgId) + 1
    {
      msgId := (msgId + 1) % 0x1_0000_0000;
      id := msgId;
    }

    method Join()
      modifies this`callbackMap
      ensures callbackMap == map[]
    {
      callbackMap := map[];
    }

    /** An item added under an id that is taken is dropped. */
    method Add(messageId: MsgId, item: Option<Item>)
      modifies this`callbackMap
      ensures item == None ==> callbackMap == old(callbackMap)
      ensures item.Some? ==> callbackMap == Inserted(old(callbackMap), messageId, item.value)
      ensures forall id :: id in old(callbackMap) ==> id in callbackMap && callbackMap[id] == old(callbackMap)[id]
      ensures item.Some? ==>
                && callbackMap.Keys == old(callbackMap).Keys + {messageId}
                && (messageId !in old(callbackMap) ==> callbackMap[messageId] == item.value)
    {
      if item == None {
        return;
      }
      if messageId !in callbackMap {
        callbackMap := callbackMap[messageId := item.value];
      }
    }

    /** `n` calls of one functor of an item, if it has that functor. */
    method Invoke(item: Item, f: Functor, status: Status, n: int)
      modifies this`calls
      ensures calls == old(calls) + CallsOf(item, f, status, n)
    {
      if item.Has(f) {
        var e := Event(item.tag, f, status);
        var i := 0;
        while i < n
          invariant 0 <= i <= Max(n, 0)
          invariant calls == old(calls) + Repeat(e, i)
        {
          assert Repeat(e, i) + [e] == Repeat(e, i + 1);
          calls := calls + [e];
          i := i + 1;
        }
        assert Repeat(e, i) == Repeat(e, n);
      }
    }

    method Callback(messageId: MsgId)
      modifies this`callbackMap, this`calls
      ensures callbackMap == CountedOff(old(callbackMap), messageId)
      ensures callbackMap - {messageId} == old(callbackMap) - {messageId}
      ensures messageId in callbackMap <==> messageId in old(callbackMap) && old(callbackMap)[messageId].expectCount > 1
      ensures messageId in callbackMap ==>
                var item := old(callbackMap)[messageId];
                callbackMap[messageId] == item.(expectCount := item.expectCount - 1)
      ensures calls == old(calls) + if messageId in old(callbackMap)
                                    then Calls(old(callbackMap)[messageId], Success, 1) else []
    {
      if messageId !in callbackMap {
        return;
      }
      var item := callbackMap[messageId];
      callbackMap := callbackMap[messageId := item.(expectCount := item.expectCount - 1)];
      if callbackMap[messageId].expectCount <= 0 {
        callbackMap := callbackMap - {messageId};
      }
      Invoke(item, Plain, Success, 1);
      Invoke(item, Mutex, Success, 1);
    }

    method Timeout(messageId: MsgId)
      modifies this`callbackMap, this`calls
      ensures callbackMap == Removed(old(callbackMap), messageId) == old(callbackMap) - {messageId}
      ensures calls == old(calls) + if messageId in old(callbackMap)
                                    then var item := old(callbackMap)[messageId];
                                         Calls(item, Status.Timeout, item.expectCount)
                                    else []
    {
      Cancel(messageId, 0);
    }

    method Cancel(messageId: MsgId, noCallback: nat)
      modifies this`callbackMap, this`calls
      ensures callbackMap == Removed(old(callbackMap), messageId) == old(callbackMap) - {messageId}
      ensures calls == old(calls) + if messageId in old(callbackMap) && noCallback == 0
                                    then var item := old(callbackMap)[messageId];
                                         Calls(item, Status.Timeout, item.expectCount)
                                    else []
    {
      if messageId !in callbackMap {
        return;
      }
      var item := callbackMap[messageId];
      callbackMap := callbackMap - {messageId};
      if noCallback != 0 {
        return;
      }
      Invoke(item, Plain, Status.Timeout, item.expectCount);
      Invoke(item, Mutex, Status.Timeout, item.expectCount);
    }

    /** The ids of the map in the order a `std::map` iterator visits them. */
    method OrderedIds() returns (ids: seq<MsgId>)
      ensures ids == SortedIds(callbackMap.Keys)
    {
      ids := [];
      var rest := callbackMap.Keys;
      while rest != {}
        invariant Ascending(ids) && rest <= callbackMap.Keys
        invariant forall x :: x in ids <==> x in callbackMap && x !in rest
        invariant forall i, y :: 0 <= i < |ids| && y in rest ==> ids[i] < y
        decreases |rest|
      {
        LeastExists(rest);
        var id :| id in rest && forall y :: y in rest ==> id <= y;
        ids := ids + [id];
        rest := rest - {id};
      }
      AscendingIsSorted(ids, callbackMap.Keys);
    }

    /** One sweep with nobody else at the table: the items with a second to spare
        stay, one second older, and every reply still expected by the others is
        reported as a timeout, in ascending order of their ids. */
    method TimeoutCheck()
      modifies this`callbackMap, this`calls
      ensures callbackMap == Survivors(old(callbackMap))
      ensures forall id :: id in callbackMap <==> id in old(callbackMap) && old(callbackMap)[id].timeoutSec > 1
      ensures forall id :: id in callbackMap ==>
                var item := old(callbackMap)[id];
                callbackMap[id] == item.(timeoutSec := item.timeoutSec - 1)
      ensures calls == old(calls) + SweepCalls(old(callbackMap))
    {
      var messageVec := AgeAndCollect();
      CancelAll(messageVec);
    }

    /** The locked half of a sweep. */
    method AgeAndCollect() returns (messageVec: seq<MsgId>)
      modifies this`callbackMap
      ensures callbackMap == Aged(old(callbackMap))
      ensures messageVec == SortedIds(Expired(callbackMap))
    {
      hide AgedOn, DueAmong, Aged, Expired, SortedIds;
      ghost var before := callbackMap;
      var ids := OrderedIds();
      AgingStart(before, ids);
      messageVec := [];
      var i := 0;
      while i < |ids|
        invariant 0 <= i <= |ids|
        invariant callbackMap == AgedOn(before, ids[..i])
        invariant messageVec == DueAmong(ids[..i], before)
      {
        AgingRound(before, ids, i);
        var id := ids[i];
        callbackMap := callbackMap[id := callbackMap[id].(timeoutSec := callbackMap[id].timeoutSec - 1)];
        if callbackMap[id].timeoutSec <= 0 {
          messageVec := messageVec + [id];
        }
        i := i + 1;
      }
      assert ids[..i] == ids;
      AgingDone(before, ids);
    }

    /** The cancel loop of a sweep. */
    method CancelAll(messageVec: seq<MsgId>)
      requires Ascending(messageVec) && forall x :: x in messageVec ==> x in callbackMap
      modifies this`callbackMap, this`calls
      ensures callbackMap == Without(old(callbackMap), messageVec)
      ensures forall id :: id in callbackMap <==> id in old(callbackMap) && id !in messageVec
      ensures forall id :: id in callbackMap ==> callbackMap[id] == old(callbackMap)[id]
      ensures calls == old(calls) + TimeoutCalls(messageVec, old(callbackMap))
    {
      hide Calls, TimeoutCalls, Without, Ascending;
      ghost var before := callbackMap;
      WithoutNone(before);
      assert messageVec[..0] == [];
      var i := 0;
      while i < |messageVec|
        invariant 0 <= i <= |messageVec|
        invariant callbackMap == Without(before, messageVec[..i])
        invariant calls == old(calls) + TimeoutCalls(messageVec[..i], before)
      {
        CancelAllRound(before, messageVec, i);
        Timeout(messageVec[i]);
        i := i + 1;
      }
      assert messageVec[..i] == messageVec;
      WithoutMeans(before, messageVec);
    }
  }
}
