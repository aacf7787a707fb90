/** The connection statistics of the bench node (bench/node.cc): which nodes
    answered since `ClearQuery`, and for every hop count how many answers came
    and with what delays. */
module QueryStatistics {
  import opened Options
  import opened Wire

  datatype Search = Search(found: bool, node: Option<Bytes>)   // the node is named by its id

  datatype Hops = Hops(total: int, max: int, min: int, nodes: seq<Option<Bytes>>)

  const NO_HOPS := Hops(0, -1, 9999, [])

  /** An answer that reached its asker: who sent it, over how many hops, and how
      many milliseconds after the request. */
  datatype Response = Response(src: Bytes, hops: int, td: int)

  datatype Stats = Stats(searchMap: map<Bytes, Search>, hopsMap: map<int, Hops>)

  function Max(a: int, b: int): int {
    if a < b then b else a
  }

  function Min(a: int, b: int): int {
    if b < a then b else a
  }

  // ---------------------------------------------------------------- one response

  function SearchAt(s: Stats, id: Bytes): Search {
    if id in s.searchMap then s.searchMap[id] else Search(false, None)
  }

  function HopsAt(s: Stats, h: int): Hops {
    if h in s.hopsMap then s.hopsMap[h] else NO_HOPS
  }

  /** Both maps create the entry they are asked for. */
  function Recorded(s: Stats, r: Response): Stats {
    var search := SearchAt(s, r.src);
    if r.td < 0 then s.(searchMap := s.searchMap[r.src := search])
    else
      var h := HopsAt(s, r.hops);
      Stats(s.searchMap[r.src := search.(found := true)],
            s.hopsMap[r.hops := Hops(h.total + r.td, Max(r.td, h.max), Min(r.td, h.min), h.nodes + [search.node])])
  }

  /** After ClearQuery: every registered node, not found yet. */
  function Cleared(ids: set<Bytes>): Stats {
    Stats(map id | id in ids :: Search(false, Some(id)), map[])
  }

  function RecordedAll(s: Stats, rs: seq<Response>): Stats {
    if rs == [] then s else Recorded(RecordedAll(s, rs[..|rs| - 1]), rs[|rs| - 1])
  }

  // ---------------------------------------------------------------- the history read back

  /** The delays of the valid answers over `h` hops, in order of arrival. */
  function Delays(rs: seq<Response>, h: int): seq<int> {
    if rs == [] then []
    else
      var r := rs[|rs| - 1];
      Delays(rs[..|rs| - 1], h) + if r.hops == h && r.td >= 0 then [r.td] else []
  }

  function Sum(s: seq<int>): int {
    if s == [] then 0 else Sum(s[..|s| - 1]) + s[|s| - 1]
  }

  predicate Answered(rs: seq<Response>, id: Bytes) {
    exists i :: 0 <= i < |rs| && rs[i].src == id && rs[i].td >= 0
  }

  predicate Heard(rs: seq<Response>, id: Bytes) {
    exists i :: 0 <= i < |rs| && rs[i].src == id
  }

  /** `m` is the largest of the delays. */
  predicate IsLargest(m: int, d: seq<int>) {
    m in d && forall i :: 0 <= i < |d| ==> d[i] <= m
  }

  /** `m` is the smallest of the delays, or the cap when all of them exceed it. */
  predicate IsSmallestUpTo(m: int, d: seq<int>, cap: int) {
    && m <= cap && (m == cap || m in d)
    && forall i :: 0 <= i < |d| ==> m <= d[i]
  }

  ghost predicate BucketOk(b: Hops, d: seq<int>) {
    && |b.nodes| == |d| && b.total == Sum(d)
    && (d == [] ==> b.max == -1 && b.min == 9999)
    && (d != [] ==> IsLargest(b.max, d) && IsSmallestUpTo(b.min, d, 9999))
  }

  lemma BucketGrows(b: Hops, d: seq<int>, td: int, node: Option<Bytes>)
    requires BucketOk(b, d) && td >= 0
    requires forall i :: 0 <= i < |d| ==> d[i] >= 0
    ensures BucketOk(Hops(b.total + td, Max(td, b.max), Min(td, b.min), b.nodes + [node]), d + [td])
  {
    var d' := d + [td];
    assert d'[..|d|] == d && d'[|d|] == td;
    assert forall i :: 0 <= i < |d'| ==> d'[i] == if i < |d| then d[i] else td;
    assert td in d';
    if d != [] {
      var k :| 0 <= k < |d| && d[k] == b.max;
      assert d'[k] == b.max;
      if b.min in d {
        var j :| 0 <= j < |d| && d[j] == b.min;
        assert d'[j] == b.min;
      }
    }
  }

  lemma {:induction false} DelaysNonNegative(rs: seq<Response>, h: int)
    ensures forall i :: 0 <= i < |Delays(rs, h)| ==> Delays(rs, h)[i] >= 0
  {
    if rs == [] {
    } else {
      DelaysNonNegative(rs[..|rs| - 1], h);
    }
  }

  lemma AnsweredSnoc(rs: seq<Response>, id: Bytes)
    requires rs != []
    ensures var init, r := rs[..|rs| - 1], rs[|rs| - 1];
            && (Answered(rs, id) <==> Answered(init, id) || (r.src == id && r.td >= 0))
            && (Heard(rs, id) <==> Heard(init, id) || r.src == id)
  {
    var init, r := rs[..|rs| - 1], rs[|rs| - 1];
    assert forall i :: 0 <= i < |init| ==> init[i] == rs[i];
  }

  lemma NoDelays()
    ensures BucketOk(Hops(0, -1, 9999, []), [])
  {
  }

  /** The statistics after any run of answers since ClearQuery.  For each hop
      count: there is a bucket exactly when a valid answer came over that many
      hops, with one node per answer, the sum of the delays, their true maximum,
      and their true minimum or 9999 if that is smaller. */
  lemma {:induction false} HopsAreTheHistory(ids: set<Bytes>, rs: seq<Response>, h: int)
    ensures var s := RecordedAll(Cleared(ids), rs);
            && (h in s.hopsMap <==> Delays(rs, h) != [])
            && BucketOk(HopsAt(s, h), Delays(rs, h))
    decreases |rs|
  {
    hide BucketOk;
    if rs == [] {
      NoDelays();
    } else {
      var init, r := rs[..|rs| - 1], rs[|rs| - 1];
      HopsAreTheHistory(ids, init, h);
      if r.hops == h && r.td >= 0 {
        DelaysNonNegative(init, h);
        var s := RecordedAll(Cleared(ids), init);
        BucketGrows(HopsAt(s, h), Delays(init, h), r.td, SearchAt(s, r.src).node);
      } else {
        assert Delays(rs, h) == Delays(init, h);
      }
    }
  }

  /** An id is found exactly when a valid answer came from it; the ids known are
      those registered and those heard from; a registered id keeps its node. */
  lemma {:induction false} FoundIsAnswered(ids: set<Bytes>, rs: seq<Response>, id: Bytes)
    ensures var s := RecordedAll(Cleared(ids), rs);
            && (id in s.searchMap <==> id in ids || Heard(rs, id))
            && SearchAt(s, id) == Search(Answered(rs, id), if id in ids then Some(id) else None)
    decreases |rs|
  {
    if rs == [] {
    } else {
      FoundIsAnswered(ids, rs[..|rs| - 1], id);
      AnsweredSnoc(rs, id);
    }
  }

  lemma {:induction false} SumBounds(d: seq<int>, lo: int, hi: int)
    requires forall i :: 0 <= i < |d| ==> lo <= d[i] <= hi
    ensures lo * |d| <= Sum(d) <= hi * |d|
    decreases |d|
  {
    if d == [] {
    } else {
      SumBounds(d[..|d| - 1], lo, hi);
      assert lo * |d| == lo * (|d| - 1) + lo && hi * |d| == hi * (|d| - 1) + hi;
    }
  }

  lemma {:induction false} TimesLess(a: int, b: int, n: int)
    requires n > 0
    ensures a < b ==> a * n + n <= b * n
    decreases b - a
  {
    if a + 1 < b {
      TimesLess(a, b - 1, n);
      assert (b - 1) * n + n == b * n;
    } else if a + 1 == b {
      assert (a + 1) * n == a * n + n;
    }
  }

  lemma QuotientBetween(total: int, n: int, lo: int, hi: int)
    requires n > 0 && lo * n <= total <= hi * n
    ensures lo <= total / n <= hi
  {
    var q := total / n;
    assert q * n <= total < q * n + n;
    TimesLess(q, lo, n);
    TimesLess(hi, q, n);
  }

  /** The average that GetQuery prints lies between the minimum and the maximum
      it prints next to it. */
  lemma AverageIsBetween(ids: set<Bytes>, rs: seq<Response>, h: int)
    ensures var s := RecordedAll(Cleared(ids), rs);
            h in s.hopsMap ==>
              var b := s.hopsMap[h];
              |b.nodes| > 0 && 0 <= b.total && b.min <= b.total / |b.nodes| <= b.max
  {
    var s := RecordedAll(Cleared(ids), rs);
    if h in s.hopsMap {
      var b, d := s.hopsMap[h], Delays(rs, h);
      HopsAreTheHistory(ids, rs, h);
      DelaysNonNegative(rs, h);
      SumBounds(d, b.min, b.max);
      SumBounds(d, 0, b.max);
      QuotientBetween(b.total, |b.nodes|, b.min, b.max);
    }
  }

  /** For each valid answer over `h` hops, in order: the sender's registered node. */
  function NodesHeard(ids: set<Bytes>, rs: seq<Response>, h: int): seq<Option<Bytes>> {
    if rs == [] then []
    else
      var r := rs[|rs| - 1];
      NodesHeard(ids, rs[..|rs| - 1], h) +
      if r.hops != h || r.td < 0 then [] else if r.src in ids then [Some(r.src)] else [None]
  }

  /** A bucket lists exactly the senders of its answers, in order. */
  lemma {:induction false} BucketListsSenders(ids: set<Bytes>, rs: seq<Response>, h: int)
    ensures HopsAt(RecordedAll(Cleared(ids), rs), h).nodes == NodesHeard(ids, rs, h)
    decreases |rs|
  {
    if rs == [] {
    } else {
      BucketListsSenders(ids, rs[..|rs| - 1], h);
      FoundIsAnswered(ids, rs[..|rs| - 1], rs[|rs| - 1].src);
    }
  }

  // ---------------------------------------------------------------- all buckets together

  /** The nodes in the buckets of these hop counts. */
  ghost function Sizes(m: map<int, Hops>, hs: set<int>): nat
    requires hs <= m.Keys
  {
    if exists h :: h in hs then
      var h :| h in hs;
      |m[h].nodes| + Sizes(m, hs - {h})
    else 0
  }

  /** In whatever order the buckets are counted. */
  lemma {:induction false} SizesWithout(m: map<int, Hops>, hs: set<int>, h: int)
    requires hs <= m.Keys && h in hs
    ensures Sizes(m, hs) == |m[h].nodes| + Sizes(m, hs - {h})
    decreases |hs|
  {
    var g :| g in hs && Sizes(m, hs) == |m[g].nodes| + Sizes(m, hs - {g});
    if g != h {
      SizesWithout(m, hs - {g}, h);
      SizesWithout(m, hs - {h}, g);
      assert hs - {g} - {h} == hs - {h} - {g};
    }
  }

  lemma {:induction false} SizesOfSame(m: map<int, Hops>, m': map<int, Hops>, hs: set<int>)
    requires hs <= m.Keys && hs <= m'.Keys && forall h :: h in hs ==> m[h] == m'[h]
    ensures Sizes(m, hs) == Sizes(m', hs)
    decreases |hs|
  {
    if h :| h in hs {
      SizesWithout(m, hs, h);
      SizesWithout(m', hs, h);
      SizesOfSame(m, m', hs - {h});
    }
  }

  function ValidCount(rs: seq<Response>): nat {
    if rs == [] then 0 else ValidCount(rs[..|rs| - 1]) + if rs[|rs| - 1].td >= 0 then 1 else 0
  }

  /** The sizes of the buckets add up to the number of valid answers. */
  lemma {:induction false} BucketsHoldAllAnswers(ids: set<Bytes>, rs: seq<Response>)
    ensures var m := RecordedAll(Cleared(ids), rs).hopsMap; Sizes(m, m.Keys) == ValidCount(rs)
    decreases |rs|
  {
    if rs == [] {
    } else {
      var s, r := RecordedAll(Cleared(ids), rs[..|rs| - 1]), rs[|rs| - 1];
      BucketsHoldAllAnswers(ids, rs[..|rs| - 1]);
      var m, m' := s.hopsMap, Recorded(s, r).hopsMap;
      if r.td >= 0 {
        var others := m.Keys - {r.hops};
        SizesWithout(m', m'.Keys, r.hops);
        assert m'.Keys - {r.hops} == others;
        SizesOfSame(m, m', others);
        if r.hops in m {
          SizesWithout(m, m.Keys, r.hops);
        } else {
          assert others == m.Keys;
        }
      }
    }
  }

  // ---------------------------------------------------------------- the handler

  /** What the payload of a TestConn2Response says. */
  datatype Conn2Response = Conn2Response(tp1: int, hops1: int, sendOrRelay: bool)

  datatype Handled = Malformed | Relayed | CantFind | Counted

  class Query {
    var stats: Stats
    const localId: Bytes

    constructor (localId: Bytes)
      ensures stats == Cleared({}) && this.localId == localId
    {
      this.localId := localId;
      stats := Stats(map[], map[]);
    }

    method ClearQuery(nodeIds: seq<Bytes>)
      modifies this
      ensures stats == Cleared(set i | 0 <= i < |nodeIds| :: nodeIds[i])
    {
      var searchMap: map<Bytes, Search> := map[];
      var i := 0;
      while i < |nodeIds|
        invariant 0 <= i <= |nodeIds|
        invariant searchMap == map id | id in (set k | 0 <= k < i :: nodeIds[k]) :: Search(false, Some(id))
      {
        searchMap := searchMap[nodeIds[i] := Search(false, Some(nodeIds[i]))];
        i := i + 1;
      }
      stats := Stats(searchMap, map[]);
    }

    /** An answer sent directly is taken as addressed to this node; an answer for
        somebody closer is relayed; only one for this very node is counted. */
    method HandleConn2Response(res: Option<Conn2Response>, src: Bytes, des: Bytes, hopNum: int, now: int,
                               isDestination: Bytes -> bool) returns (handled: Handled)
      modifies this
      ensures res == None <==> handled == Malformed
      ensures handled == Counted <==>
                res.Some? && isDestination(if res.value.sendOrRelay then localId else des)
                && (res.value.sendOrRelay || des == localId)
      ensures handled == Relayed <==>
                res.Some? && !isDestination(if res.value.sendOrRelay then localId else des)
      ensures stats == if handled == Counted
                       then Recorded(old(stats), Response(src, hopNum + res.value.hops1, now - res.value.tp1))
                       else old(stats)
    {
      if res == None {
        return Malformed;
      }
      var to := if res.value.sendOrRelay then localId else des;
      if !isDestination(to) {
        return Relayed;
      }
      if to != localId {
        return CantFind;
      }
      var hops := hopNum + res.value.hops1;
      var td := now - res.value.tp1;
      var search := SearchAt(stats, src);
      stats := stats.(searchMap := stats.searchMap[src := search]);
      if td >= 0 {
        var h := HopsAt(stats, hops);
        stats := Stats(stats.searchMap[src := search.(found := true)],
                       stats.hopsMap[hops := Hops(h.total + td, Max(td, h.max), Min(td, h.min),
                                                  h.nodes + [search.node])]);
      }
      assert stats.searchMap == Recorded(old(stats), Response(src, hops, td)).searchMap;
      handled := Counted;
    }
  }
}
