/** The public endpoints, as text and as pairs (src/bootstrap_cache_helper.cc).
    Both lists are rebuilt by a dump and by a load, without repeated texts. */
module EndpointLists {
  import opened Options
  import opened Decimals
  import opened ServiceCache

  function Text(e: Endpoint): string {
    e.0 + ":" + Decimal(e.1)
  }

  function Texts(es: seq<Endpoint>): (r: seq<string>)
    ensures |r| == |es|
  {
    seq(|es|, i requires 0 <= i < |es| => Text(es[i]))
  }

  function Pairs(nodes: seq<NodeInfo>): (r: seq<Endpoint>)
    ensures |r| == |nodes|
    ensures forall i :: 0 <= i < |r| ==> r[i].0 == nodes[i].publicIp && r[i].1 == nodes[i].publicPort
  {
    seq(|nodes|, i requires 0 <= i < |nodes| => (nodes[i].publicIp, nodes[i].publicPort))
  }

  /** The ip, a colon and the digits of the port. */
  lemma TextReads(e: Endpoint)
    ensures var t := Text(e);
            && |t| > |e.0| + 1 && t[..|e.0|] == e.0 && t[|e.0|] == ':'
            && IsDigits(t[|e.0| + 1..]) && Spelled(t[|e.0| + 1..]) == e.1
  {
    DecimalSpells(e.1);
    hide Decimal;
    assert Text(e)[|e.0| + 1..] == Decimal(e.1);
  }

  /** The text tells the pair, even when the ip holds colons. */
  lemma TextInjective(a: Endpoint, b: Endpoint)
    ensures Text(a) == Text(b) <==> a == b
  {
    if Text(a) == Text(b) {
      SplitBeforeDigits(a.0, b.0, ':', a.1, b.1);
    }
  }

  lemma TextInTexts(e: Endpoint, es: seq<Endpoint>)
    ensures Text(e) in Texts(es) <==> e in es
  {
    hide Text;
    if e in es {
      var i :| 0 <= i < |es| && es[i] == e;
      assert Texts(es)[i] == Text(e);
    }
    if Text(e) in Texts(es) {
      var i :| 0 <= i < |es| && Texts(es)[i] == Text(e);
      TextInjective(es[i], e);
    }
  }

  // ---------------------------------------------------------------- first occurrences

  /** Each element once, where it first occurs. */
  function Distinct<T(==)>(s: seq<T>): seq<T> {
    if s == [] then []
    else
      var r := Distinct(s[..|s| - 1]);
      if s[|s| - 1] in r then r else r + [s[|s| - 1]]
  }

  ghost predicate NoDuplicates<T>(s: seq<T>) {
    forall i, j :: 0 <= i < j < |s| ==> s[i] != s[j]
  }

  function FirstIndex<T(==)>(s: seq<T>, x: T): (i: nat)
    requires x in s
    ensures i < |s| && s[i] == x && x !in s[..i]
  {
    if s[0] == x then 0 else 1 + FirstIndex(s[1..], x)
  }

  lemma {:induction false} DistinctCovers<T>(s: seq<T>)
    ensures NoDuplicates(Distinct(s))
    ensures forall x :: x in Distinct(s) <==> x in s
    ensures forall i :: 0 <= i < |Distinct(s)| ==> Distinct(s)[i] in s
  {
    if s == [] {
    } else {
      var before := s[..|s| - 1];
      DistinctCovers(before);
      assert s == before + [s[|s| - 1]];
    }
  }

  lemma FirstIndexUnique<T>(s: seq<T>, x: T, i: nat)
    requires i < |s| && s[i] == x && x !in s[..i]
    ensures FirstIndex(s, x) == i
  {
    assert forall k :: 0 <= k < i ==> s[k] == s[..i][k];
    var j := FirstIndex(s, x);
    assert forall k :: 0 <= k < j ==> s[k] == s[..j][k];
  }

  lemma FirstIndexOfPrefix<T>(s: seq<T>, x: T, y: T)
    requires x in s
    ensures FirstIndex(s + [y], x) == FirstIndex(s, x)
  {
    var i := FirstIndex(s, x);
    assert (s + [y])[..i] == s[..i];
    FirstIndexUnique(s + [y], x, i);
  }

  /** Distinct keeps the order of first occurrence. */
  lemma {:induction false} DistinctInOrder<T>(s: seq<T>, i: nat, j: nat)
    requires i < j < |Distinct(s)|
    ensures Distinct(s)[i] in s && Distinct(s)[j] in s
    ensures FirstIndex(s, Distinct(s)[i]) < FirstIndex(s, Distinct(s)[j])
  {
    DistinctCovers(s);
    var before, last := s[..|s| - 1], s[|s| - 1];
    var d := Distinct(before);
    assert s == before + [last];
    DistinctCovers(before);
    FirstIndexOfPrefix(before, d[i], last);
    if j < |d| {
      DistinctInOrder(before, i, j);
      FirstIndexOfPrefix(before, d[j], last);
    } else {
      assert last !in before && s[..|before|] == before;
      FirstIndexUnique(s, last, |before|);
    }
  }

  lemma {:induction false} DistinctAlready<T>(s: seq<T>)
    requires NoDuplicates(s)
    ensures Distinct(s) == s
  {
    if s == [] {
    } else {
      var before, last := s[..|s| - 1], s[|s| - 1];
      DistinctAlready(before);
      assert s == before + [last];
    }
  }

  /** What is loaded from a dumped list is that list. */
  lemma LoadAfterDump(nodes: seq<NodeInfo>)
    ensures Distinct(Distinct(Pairs(nodes))) == Distinct(Pairs(nodes))
  {
    DistinctCovers(Pairs(nodes));
    DistinctAlready(Distinct(Pairs(nodes)));
  }

  // ---------------------------------------------------------------- the object

  class PublicEndpoints {
    var publicEndpoints: seq<string>
    var vecEndpoints: seq<Endpoint>

    /** The lists are parallel, and hold the input's pairs once each in the order
        in which they first occur. */
    ghost predicate Lists(input: seq<Endpoint>)
      reads this
    {
      vecEndpoints == Distinct(input) && publicEndpoints == Texts(vecEndpoints)
    }

    constructor ()
      ensures publicEndpoints == [] && vecEndpoints == []
    {
      publicEndpoints, vecEndpoints := [], [];
    }

    method Remember(e: Endpoint, ghost seen: seq<Endpoint>)
      requires Lists(seen)
      modifies this
      ensures Lists(seen + [e])
    {
      var endpoint := e.0 + ":" + Decimal(e.1);
      TextInTexts(e, vecEndpoints);
      assert (seen + [e])[..|seen|] == seen;
      if endpoint !in publicEndpoints {
        publicEndpoints := publicEndpoints + [endpoint];
        vecEndpoints := vecEndpoints + [e];
      }
    }

    /** The public nodes come in; what goes out is handed to SetCache, if anything. */
    method DumpPublicEndpoints(nodes: seq<NodeInfo>) returns (cached: Option<seq<Endpoint>>)
      modifies this
      ensures Lists(Pairs(nodes))
      ensures cached == if nodes == [] then None else Some(vecEndpoints)
    {
      publicEndpoints, vecEndpoints := [], [];
      for i := 0 to |nodes|
        invariant Lists(Pairs(nodes)[..i])
      {
        Remember((nodes[i].publicIp, nodes[i].publicPort), Pairs(nodes)[..i]);
        assert Pairs(nodes)[..i + 1] == Pairs(nodes)[..i] + [Pairs(nodes)[i]];
      }
      assert Pairs(nodes)[..|nodes|] == Pairs(nodes);
      DistinctCovers(Pairs(nodes));
      assert nodes != [] ==> Pairs(nodes)[0] in vecEndpoints;
      cached := if vecEndpoints != [] then Some(vecEndpoints) else None;
    }

    /** None stands for a GetCache that fails. */
    method LoadBootstrapCache(cache: Option<seq<Endpoint>>)
      modifies this
      ensures match cache
              case None => publicEndpoints == old(publicEndpoints) && vecEndpoints == old(vecEndpoints)
              case Some(vec) => Lists(vec)
    {
      if cache.None? {
        return;
      }
      var vec := cache.value;
      publicEndpoints, vecEndpoints := [], [];
      for i := 0 to |vec|
        invariant Lists(vec[..i])
      {
        Remember(vec[i], vec[..i]);
        assert vec[..i + 1] == vec[..i] + [vec[i]];
      }
      assert vec[..|vec|] == vec;
    }
  }

  /** Loading what a dump handed out gives both lists back. */
  method DumpThenLoad(nodes: seq<NodeInfo>) returns (dumped: PublicEndpoints, loaded: PublicEndpoints)
    ensures dumped.publicEndpoints == loaded.publicEndpoints
    ensures dumped.vecEndpoints == loaded.vecEndpoints == Distinct(Pairs(nodes))
  {
    dumped := new PublicEndpoints();
    loaded := new PublicEndpoints();
    var cached := dumped.DumpPublicEndpoints(nodes);
    loaded.LoadBootstrapCache(cached);
    LoadAfterDump(nodes);
  }
}
