/** The proto2 messages AllNodes.Node and AllNodes (bench/node.pb.cc) as values:
    what a parse loop stores, what a serializer writes, what MergeFrom does. */
module NodeMessages {
  import opened Options
  import opened Wire

  /** A present field is `Some`: the has-bit and the value in one. */
  datatype Node = Node(localIp: Option<Bytes>, localPort: Option<Int32>,
                       publicIp: Option<Bytes>, publicPort: Option<Int32>,
                       serviceType: Option<UInt64>, natType: Option<Int32>,
                       nodeId: Option<Bytes>, unknown: seq<Field>)

  datatype AllNodes = AllNodes(nodes: seq<Node>, unknown: seq<Field>)

  const NO_NODE := Node(None, None, None, None, None, None, None, [])
  const NO_NODES := AllNodes([], [])

  // ---------------------------------------------------------------- AllNodes.Node

  /** The (number, wire type) pairs the parse loop knows. */
  predicate NodeKnows(f: Field) {
    || (f.LengthDelimited? && f.num in {1, 3, 10})
    || (f.VarintField? && f.num in {2, 4, 5, 6})
  }

  /** One round of the parse loop; a record it does not know is kept. */
  function Stored(m: Node, f: Field): Node {
    match f
    case LengthDelimited(1, d) => m.(localIp := Some(d))
    case VarintField(2, v) => m.(localPort := Some(ToInt32(v)))
    case LengthDelimited(3, d) => m.(publicIp := Some(d))
    case VarintField(4, v) => m.(publicPort := Some(ToInt32(v)))
    case VarintField(5, v) => m.(serviceType := Some(v))
    case VarintField(6, v) => m.(natType := Some(ToInt32(v)))
    case LengthDelimited(10, d) => m.(nodeId := Some(d))
    case _ => m.(unknown := m.unknown + [f])
  }

  function StoredAll(m: Node, fs: seq<Field>): Node
    decreases |fs|
  {
    if fs == [] then m else StoredAll(Stored(m, fs[0]), fs[1..])
  }

  /** MergePartialFromCodedStream on a message that holds `m`. */
  function ParsedInto(m: Node, b: Bytes, depth: nat): Option<Node> {
    match ReadFields(b, depth)
    case None => None
    case Some(fs) => Some(StoredAll(m, fs))
  }

  function ParsedNode(b: Bytes, depth: nat): Option<Node> {
    ParsedInto(NO_NODE, b, depth)
  }

  function Later<T>(a: Option<T>, b: Option<T>): Option<T> {
    if b.Some? then b else a
  }

  /** MergeFrom: present fields of `b` win, unknown records are appended. */
  function Merged(a: Node, b: Node): Node {
    Node(Later(a.localIp, b.localIp), Later(a.localPort, b.localPort),
         Later(a.publicIp, b.publicIp), Later(a.publicPort, b.publicPort),
         Later(a.serviceType, b.serviceType), Later(a.natType, b.natType),
         Later(a.nodeId, b.nodeId), a.unknown + b.unknown)
  }

  predicate Initialized(m: Node) {
    && m.localIp.Some? && m.localPort.Some? && m.publicIp.Some? && m.publicPort.Some?
    && m.serviceType.Some? && m.natType.Some? && m.nodeId.Some?
  }

  function BytesField(num: nat, v: Option<Bytes>): seq<Field> {
    if v.Some? then [LengthDelimited(num, v.value)] else []
  }

  function Int32Field(num: nat, v: Option<Int32>): seq<Field> {
    if v.Some? then [VarintField(num, SignExtended(v.value))] else []
  }

  function UInt64Field(num: nat, v: Option<UInt64>): seq<Field> {
    if v.Some? then [VarintField(num, v.value)] else []
  }

  function KnownFields(m: Node): seq<Field> {
    BytesField(1, m.localIp) + Int32Field(2, m.localPort) + BytesField(3, m.publicIp) + Int32Field(4, m.publicPort) +
    UInt64Field(5, m.serviceType) + Int32Field(6, m.natType) + BytesField(10, m.nodeId)
  }

  /** The records a serializer writes: present fields by number, then the unknown ones. */
  function NodeFields(m: Node): seq<Field> {
    KnownFields(m) + m.unknown
  }

  function NodeBytes(m: Node): Bytes {
    WriteFields(NodeFields(m))
  }

  predicate Short(v: Option<Bytes>) {
    v.Some? ==> |v.value| < TWO31
  }

  predicate NoneKnown(fs: seq<Field>) {
    forall i :: 0 <= i < |fs| ==> !NodeKnows(fs[i])
  }

  /** What every message built by setters and parses satisfies: strings within
      the 2 GiB that the format allows, and unknown records that are unknown. */
  predicate NodeOk(m: Node, depth: nat) {
    && Short(m.localIp) && Short(m.publicIp) && Short(m.nodeId)
    && FieldsOk(m.unknown, depth) && NoneKnown(m.unknown)
  }

  // ---------------------------------------------------------------- merging

  lemma StoredMerges(a: Node, x: Node, f: Field)
    ensures Stored(Merged(a, x), f) == Merged(a, Stored(x, f))
  {
    if NodeKnows(f) {
      if f.LengthDelimited? {
      } else {
      }
    } else {
      assert a.unknown + x.unknown + [f] == a.unknown + (x.unknown + [f]);
      assert Stored(x, f) == x.(unknown := x.unknown + [f]);
    }
  }

  lemma {:induction false} StoredAllMerges(a: Node, x: Node, fs: seq<Field>)
    ensures StoredAll(Merged(a, x), fs) == Merged(a, StoredAll(x, fs))
    decreases |fs|
  {
    if fs == [] {
    } else {
      StoredMerges(a, x, fs[0]);
      StoredAllMerges(a, Stored(x, fs[0]), fs[1..]);
    }
  }

  lemma {:induction false} StoredAllConcat(m: Node, fs: seq<Field>, gs: seq<Field>)
    ensures StoredAll(m, fs + gs) == StoredAll(StoredAll(m, fs), gs)
    decreases |fs|
  {
    if fs == [] {
      assert fs + gs == gs;
    } else {
      assert (fs + gs)[1..] == fs[1..] + gs;
      StoredAllConcat(Stored(m, fs[0]), fs[1..], gs);
    }
  }

  lemma MergedIntoNothing(m: Node)
    ensures Merged(m, NO_NODE) == m && Merged(NO_NODE, m) == m
  {
    assert [] + m.unknown == m.unknown && m.unknown + [] == m.unknown;
  }

  /** Parsing into a message is merging the parsed message into it. */
  lemma ParseIsMerge(m: Node, b: Bytes, depth: nat)
    ensures ParsedInto(m, b, depth) ==
            match ParsedNode(b, depth)
            case None => None
            case Some(x) => Some(Merged(m, x))
  {
    if ReadFields(b, depth).Some? {
      MergedIntoNothing(m);
      StoredAllMerges(m, NO_NODE, ReadFields(b, depth).value);
    }
  }

  /** Concatenation is merge, proto2: for all byte strings that parse. */
  lemma NodeConcatIsMerge(a: Bytes, b: Bytes, depth: nat)
    requires ParsedNode(a, depth).Some? && ParsedNode(b, depth).Some?
    ensures ParsedNode(a + b, depth) == Some(Merged(ParsedNode(a, depth).value, ParsedNode(b, depth).value))
  {
    var fs, gs := ReadFields(a, depth).value, ReadFields(b, depth).value;
    ReadFieldsConcat(a, b, depth);
    StoredAllConcat(NO_NODE, fs, gs);
    ParseIsMerge(ParsedNode(a, depth).value, b, depth);
  }

  // ---------------------------------------------------------------- round trip

  lemma StoredOne(m: Node, f: Field)
    ensures StoredAll(m, [f]) == Stored(m, f)
  {
    assert [f][1..] == [];
  }

  lemma {:induction false} StoredUnknown(m: Node, fs: seq<Field>)
    requires NoneKnown(fs)
    ensures StoredAll(m, fs) == m.(unknown := m.unknown + fs)
    decreases |fs|
  {
    if fs == [] {
      assert m.unknown + [] == m.unknown;
    } else {
      assert Stored(m, fs[0]) == m.(unknown := m.unknown + [fs[0]]);
      StoredUnknown(Stored(m, fs[0]), fs[1..]);
      assert m.unknown + [fs[0]] + fs[1..] == m.unknown + fs;
    }
  }

  lemma StoredBytes(m: Node, num: nat, v: Option<Bytes>)
    requires num in {1, 3, 10}
    ensures StoredAll(m, BytesField(num, v)) ==
            if v == None then m
            else if num == 1 then m.(localIp := v)
            else if num == 3 then m.(publicIp := v)
            else m.(nodeId := v)
  {
    if v.Some? {
      StoredOne(m, LengthDelimited(num, v.value));
    }
  }

  lemma StoredInt32(m: Node, num: nat, v: Option<Int32>)
    requires num in {2, 4, 6}
    ensures StoredAll(m, Int32Field(num, v)) ==
            if v == None then m
            else if num == 2 then m.(localPort := v)
            else if num == 4 then m.(publicPort := v)
            else m.(natType := v)
  {
    if v.Some? {
      Int32RoundTrip(v.value);
      StoredOne(m, VarintField(num, SignExtended(v.value)));
    }
  }

  lemma StoredUInt64(m: Node, v: Option<UInt64>)
    ensures StoredAll(m, UInt64Field(5, v)) == if v == None then m else m.(serviceType := v)
  {
    if v.Some? {
      StoredOne(m, VarintField(5, v.value));
    }
  }

  /** Storing the known records of a message rebuilds it up to unknown records. */
  lemma StoredKnown(m: Node)
    ensures StoredAll(NO_NODE, KnownFields(m)) == m.(unknown := [])
  {
    hide Stored;
    var f1, f2, f3 := BytesField(1, m.localIp), Int32Field(2, m.localPort), BytesField(3, m.publicIp);
    var f4, f5, f6 := Int32Field(4, m.publicPort), UInt64Field(5, m.serviceType), Int32Field(6, m.natType);
    var f7 := BytesField(10, m.nodeId);
    var m1 := NO_NODE.(localIp := m.localIp);
    var m2 := m1.(localPort := m.localPort);
    var m3 := m2.(publicIp := m.publicIp);
    var m4 := m3.(publicPort := m.publicPort);
    var m5 := m4.(serviceType := m.serviceType);
    var m6 := m5.(natType := m.natType);
    StoredBytes(NO_NODE, 1, m.localIp);
    StoredInt32(m1, 2, m.localPort);
    StoredAllConcat(NO_NODE, f1, f2);
    StoredBytes(m2, 3, m.publicIp);
    StoredAllConcat(NO_NODE, f1 + f2, f3);
    StoredInt32(m3, 4, m.publicPort);
    StoredAllConcat(NO_NODE, f1 + f2 + f3, f4);
    StoredUInt64(m4, m.serviceType);
    StoredAllConcat(NO_NODE, f1 + f2 + f3 + f4, f5);
    StoredInt32(m5, 6, m.natType);
    StoredAllConcat(NO_NODE, f1 + f2 + f3 + f4 + f5, f6);
    StoredBytes(m6, 10, m.nodeId);
    StoredAllConcat(NO_NODE, f1 + f2 + f3 + f4 + f5 + f6, f7);
  }

  /** Appending a field of at most one record keeps the records well formed. */
  lemma AppendOk(fs: seq<Field>, part: seq<Field>, depth: nat)
    requires FieldsOk(fs, depth) && |part| <= 1 && (part != [] ==> FieldOk(part[0], depth))
    ensures FieldsOk(fs + part, depth)
  {
    if part != [] {
      OneFieldOk(part[0], depth);
      assert part == [part[0]];
    }
    FieldsOkConcat(fs, part, depth);
  }

  lemma NodeFieldsOk(m: Node, depth: nat)
    requires NodeOk(m, depth)
    ensures FieldsOk(NodeFields(m), depth)
  {
    hide FieldsOk;
    var f1, f2, f3 := BytesField(1, m.localIp), Int32Field(2, m.localPort), BytesField(3, m.publicIp);
    var f4, f5, f6 := Int32Field(4, m.publicPort), UInt64Field(5, m.serviceType), Int32Field(6, m.natType);
    NoFieldsOk(depth);
    AppendOk([], f1, depth);
    assert [] + f1 == f1;
    AppendOk(f1, f2, depth);
    AppendOk(f1 + f2, f3, depth);
    AppendOk(f1 + f2 + f3, f4, depth);
    AppendOk(f1 + f2 + f3 + f4, f5, depth);
    AppendOk(f1 + f2 + f3 + f4 + f5, f6, depth);
    AppendOk(f1 + f2 + f3 + f4 + f5 + f6, BytesField(10, m.nodeId), depth);
    FieldsOkConcat(KnownFields(m), m.unknown, depth);
  }

  /** Every node is read back from its bytes, with each field present or absent
      as it was, and with its unknown records. */
  lemma NodeRoundTrip(m: Node, depth: nat)
    requires NodeOk(m, depth)
    ensures ParsedNode(NodeBytes(m), depth) == Some(m)
  {
    NodeFieldsOk(m, depth);
    FieldsRoundTrip(NodeFields(m), depth);
    StoredKnown(m);
    StoredAllConcat(NO_NODE, KnownFields(m), m.unknown);
    StoredUnknown(m.(unknown := []), m.unknown);
    assert [] + m.unknown == m.unknown;
  }

  /** Parsing only builds messages that can be written and read back. */
  lemma {:induction false} StoredAllOk(m: Node, fs: seq<Field>, depth: nat)
    requires NodeOk(m, depth) && FieldsOk(fs, depth)
    ensures NodeOk(StoredAll(m, fs), depth)
    decreases |fs|
  {
    if fs == [] {
    } else {
      StoredOk(m, fs[0], depth);
      StoredAllOk(Stored(m, fs[0]), fs[1..], depth);
    }
  }

  lemma StoredOk(m: Node, f: Field, depth: nat)
    requires NodeOk(m, depth) && FieldOk(f, depth)
    ensures NodeOk(Stored(m, f), depth)
  {
    if NodeKnows(f) {
    } else {
      assert Stored(m, f) == m.(unknown := m.unknown + [f]);
      assert FieldsOk([f], depth);
      FieldsOkConcat(m.unknown, [f], depth);
    }
  }

  /** Writing a parsed message is a canonical form of the bytes it came from: it
      parses to the same message. */
  lemma ReserializedNodeParsesSame(b: Bytes, depth: nat)
    requires ParsedNode(b, depth).Some?
    ensures NodeOk(ParsedNode(b, depth).value, depth)
    ensures ParsedNode(NodeBytes(ParsedNode(b, depth).value), depth) == ParsedNode(b, depth)
  {
    var fs := ReadFields(b, depth).value;
    ReadFieldsOk(b, depth);
    StoredAllOk(NO_NODE, fs, depth);
    NodeRoundTrip(ParsedNode(b, depth).value, depth);
  }

  // ---------------------------------------------------------------- AllNodes

  const NESTED: nat := RECURSION_LIMIT - 1

  function StoredNode(m: AllNodes, f: Field): Option<AllNodes> {
    match f
    case LengthDelimited(1, d) =>
      (match ParsedNode(d, NESTED)
       case None => None
       case Some(n) => Some(m.(nodes := m.nodes + [n])))
    case _ => Some(m.(unknown := m.unknown + [f]))
  }

  function StoredNodes(m: AllNodes, fs: seq<Field>): Option<AllNodes>
    decreases |fs|
  {
    if fs == [] then Some(m)
    else
      match StoredNode(m, fs[0])
      case None => None
      case Some(m') => StoredNodes(m', fs[1..])
  }

  /** ParsePartialFromString: the whole input, required fields not checked. */
  function ParsedAllNodes(b: Bytes): Option<AllNodes> {
    match ReadFields(b, RECURSION_LIMIT)
    case None => None
    case Some(fs) => StoredNodes(NO_NODES, fs)
  }

  predicate AllInitialized(m: AllNodes) {
    forall i :: 0 <= i < |m.nodes| ==> Initialized(m.nodes[i])
  }

  /** ParseFromString. */
  function ParseFromString(b: Bytes): Option<AllNodes> {
    match ParsedAllNodes(b)
    case None => None
    case Some(m) => if AllInitialized(m) then Some(m) else None
  }

  function MergedAll(a: AllNodes, b: AllNodes): AllNodes {
    AllNodes(a.nodes + b.nodes, a.unknown + b.unknown)
  }

  function NodeRecords(ns: seq<Node>): (r: seq<Field>)
    ensures |r| == |ns|
    ensures forall i :: 0 <= i < |r| ==> r[i] == LengthDelimited(1, NodeBytes(ns[i]))
  {
    seq(|ns|, i requires 0 <= i < |ns| => LengthDelimited(1, NodeBytes(ns[i])))
  }

  function AllNodesFields(m: AllNodes): seq<Field> {
    NodeRecords(m.nodes) + m.unknown
  }

  /** SerializeAsString. */
  function AllNodesBytes(m: AllNodes): Bytes {
    WriteFields(AllNodesFields(m))
  }

  predicate AllNodesKnows(f: Field) {
    f.LengthDelimited? && f.num == 1
  }

  predicate AllNodesOk(m: AllNodes) {
    && (forall i :: 0 <= i < |m.nodes| ==> NodeOk(m.nodes[i], NESTED) && |NodeBytes(m.nodes[i])| < TWO31)
    && FieldsOk(m.unknown, RECURSION_LIMIT)
    && (forall i :: 0 <= i < |m.unknown| ==> !AllNodesKnows(m.unknown[i]))
  }

  lemma {:induction false} StoredNodesMerges(a: AllNodes, x: AllNodes, fs: seq<Field>)
    ensures StoredNodes(MergedAll(a, x), fs) ==
            match StoredNodes(x, fs)
            case None => None
            case Some(y) => Some(MergedAll(a, y))
    decreases |fs|
  {
    if fs == [] {
    } else {
      var f := fs[0];
      match StoredNode(x, f) {
        case None =>
        case Some(x') =>
          if AllNodesKnows(f) {
            assert a.nodes + x.nodes + [ParsedNode(f.data, NESTED).value] == a.nodes + x'.nodes;
          } else {
            assert a.unknown + x.unknown + [f] == a.unknown + x'.unknown;
          }
          assert StoredNode(MergedAll(a, x), f) == Some(MergedAll(a, x'));
          StoredNodesMerges(a, x', fs[1..]);
      }
    }
  }

  lemma {:induction false} StoredNodesConcat(m: AllNodes, fs: seq<Field>, gs: seq<Field>)
    requires StoredNodes(m, fs).Some?
    ensures StoredNodes(m, fs + gs) == StoredNodes(StoredNodes(m, fs).value, gs)
    decreases |fs|
  {
    if fs == [] {
      assert fs + gs == gs;
    } else {
      assert (fs + gs)[1..] == fs[1..] + gs;
      StoredNodesConcat(StoredNode(m, fs[0]).value, fs[1..], gs);
    }
  }

  lemma MergedAllIntoNothing(m: AllNodes)
    ensures MergedAll(m, NO_NODES) == m && MergedAll(NO_NODES, m) == m
  {
    assert m.nodes + [] == m.nodes && [] + m.nodes == m.nodes;
    assert m.unknown + [] == m.unknown && [] + m.unknown == m.unknown;
  }

  /** Concatenation is merge for the list of nodes: when `a` parses, `a + b`
      parses exactly when `b` does, and then to the merge. */
  lemma AllNodesConcatIsMerge(a: Bytes, b: Bytes)
    requires ParsedAllNodes(a).Some?
    ensures ParsedAllNodes(a + b) ==
            match ParsedAllNodes(b)
            case None => None
            case Some(y) => Some(MergedAll(ParsedAllNodes(a).value, y))
  {
    ReadFieldsConcat(a, b, RECURSION_LIMIT);
    if ReadFields(b, RECURSION_LIMIT).Some? {
      var fs, gs := ReadFields(a, RECURSION_LIMIT).value, ReadFields(b, RECURSION_LIMIT).value;
      var x := ParsedAllNodes(a).value;
      StoredNodesConcat(NO_NODES, fs, gs);
      MergedAllIntoNothing(x);
      StoredNodesMerges(x, NO_NODES, gs);
    }
  }

  lemma StoredRecord(m: AllNodes, n: Node)
    requires NodeOk(n, NESTED)
    ensures StoredNode(m, LengthDelimited(1, NodeBytes(n))) == Some(m.(nodes := m.nodes + [n]))
  {
    NodeRoundTrip(n, NESTED);
    hide NodeOk, NodeBytes, ParsedNode;
  }

  lemma {:induction false} StoredNodeRecords(m: AllNodes, ns: seq<Node>)
    requires forall i :: 0 <= i < |ns| ==> NodeOk(ns[i], NESTED)
    ensures StoredNodes(m, NodeRecords(ns)) == Some(m.(nodes := m.nodes + ns))
    decreases |ns|
  {
    hide NodeOk, NodeBytes, StoredNode;
    if ns == [] {
      assert m.nodes + [] == m.nodes;
    } else {
      StoredRecord(m, ns[0]);
      var m' := m.(nodes := m.nodes + [ns[0]]);
      assert NodeRecords(ns)[1..] == NodeRecords(ns[1..]);
      StoredNodeRecords(m', ns[1..]);
      assert m.nodes + [ns[0]] + ns[1..] == m.nodes + ns;
    }
  }

  lemma {:induction false} StoredUnknownRecords(m: AllNodes, fs: seq<Field>)
    requires forall i :: 0 <= i < |fs| ==> !AllNodesKnows(fs[i])
    ensures StoredNodes(m, fs) == Some(m.(unknown := m.unknown + fs))
    decreases |fs|
  {
    if fs == [] {
      assert m.unknown + [] == m.unknown;
    } else {
      StoredUnknownRecords(m.(unknown := m.unknown + [fs[0]]), fs[1..]);
      assert m.unknown + [fs[0]] + fs[1..] == m.unknown + fs;
    }
  }

  lemma {:induction false} NodeRecordsOk(ns: seq<Node>)
    requires forall i :: 0 <= i < |ns| ==> |NodeBytes(ns[i])| < TWO31
    ensures FieldsOk(NodeRecords(ns), RECURSION_LIMIT)
    decreases |ns|
  {
    if ns == [] {
    } else {
      assert NodeRecords(ns)[1..] == NodeRecords(ns[1..]);
      NodeRecordsOk(ns[1..]);
    }
  }

  /** The wire round trip with nesting, and through the required-fields check. */
  lemma AllNodesRoundTrip(m: AllNodes)
    requires AllNodesOk(m)
    ensures ParsedAllNodes(AllNodesBytes(m)) == Some(m)
    ensures ParseFromString(AllNodesBytes(m)) == if AllInitialized(m) then Some(m) else None
  {
    NodeRecordsOk(m.nodes);
    FieldsOkConcat(NodeRecords(m.nodes), m.unknown, RECURSION_LIMIT);
    FieldsRoundTrip(AllNodesFields(m), RECURSION_LIMIT);
    StoredNodeRecords(NO_NODES, m.nodes);
    StoredNodesConcat(NO_NODES, NodeRecords(m.nodes), m.unknown);
    StoredUnknownRecords(AllNodes([] + m.nodes, []), m.unknown);
    assert [] + m.nodes == m.nodes && [] + m.unknown == m.unknown;
  }

  // ---------------------------------------------------------------- what a parse stores

  /** The value of an int32 record: the low 32 bits, as a signed number. */
  function AsInt32(u: Option<UInt64>): Option<Int32> {
    if u.Some? then Some(ToInt32(u.value)) else None
  }

  lemma StoresNewest(m: Node, f: Field, num: nat)
    ensures Stored(m, f).localIp == Later(m.localIp, LastData([f], 1))
    ensures Stored(m, f).publicIp == Later(m.publicIp, LastData([f], 3))
    ensures Stored(m, f).nodeId == Later(m.nodeId, LastData([f], 10))
    ensures Stored(m, f).localPort == Later(m.localPort, AsInt32(LastNumber([f], 2)))
    ensures Stored(m, f).publicPort == Later(m.publicPort, AsInt32(LastNumber([f], 4)))
    ensures Stored(m, f).serviceType == Later(m.serviceType, LastNumber([f], 5))
    ensures Stored(m, f).natType == Later(m.natType, AsInt32(LastNumber([f], 6)))
    ensures Stored(m, f).unknown == m.unknown + Kept([f], {1, 3, 10}, {2, 4, 5, 6})
  {
    hide ToInt32;
    assert [f][..0] == [] && [f][1..] == [];
    assert LastData([f], num) == if f.LengthDelimited? && f.num == num then Some(f.data) else None;
  }

  /** Each field is the last record of its number and kind, or what it was; every
      other record is kept, in order. */
  lemma {:induction false} NodeLastOneWins(m: Node, fs: seq<Field>)
    ensures var r := StoredAll(m, fs);
            && r.localIp == Later(m.localIp, LastData(fs, 1))
            && r.publicIp == Later(m.publicIp, LastData(fs, 3))
            && r.nodeId == Later(m.nodeId, LastData(fs, 10))
            && r.localPort == Later(m.localPort, AsInt32(LastNumber(fs, 2)))
            && r.publicPort == Later(m.publicPort, AsInt32(LastNumber(fs, 4)))
            && r.serviceType == Later(m.serviceType, LastNumber(fs, 5))
            && r.natType == Later(m.natType, AsInt32(LastNumber(fs, 6)))
            && r.unknown == m.unknown + Kept(fs, {1, 3, 10}, {2, 4, 5, 6})
    decreases |fs|
  {
    if fs == [] {
    } else {
      var f, rest := fs[0], fs[1..];
      StoresNewest(m, f, 1);
      NodeLastOneWins(Stored(m, f), rest);
      assert fs == [f] + rest;
      LastAppend(f, rest, 1);
      LastAppend(f, rest, 2);
      LastAppend(f, rest, 3);
      LastAppend(f, rest, 4);
      LastAppend(f, rest, 5);
      LastAppend(f, rest, 6);
      LastAppend(f, rest, 10);
      KeptCons(f, rest, {1, 3, 10}, {2, 4, 5, 6});
      hide Stored, LastData, LastNumber, Kept, ToInt32;
      assert m.unknown + Kept([f], {1, 3, 10}, {2, 4, 5, 6}) + Kept(rest, {1, 3, 10}, {2, 4, 5, 6})
          == m.unknown + (Kept([f], {1, 3, 10}, {2, 4, 5, 6}) + Kept(rest, {1, 3, 10}, {2, 4, 5, 6}));
    }
  }

  /** A list fails to parse exactly when a nested node does. */
  lemma {:induction false} ListFailsExactlyOnBadNode(m: AllNodes, fs: seq<Field>)
    ensures StoredNodes(m, fs) == None <==>
              exists i :: 0 <= i < |fs| && fs[i].LengthDelimited? && fs[i].num == 1
                          && ParsedNode(fs[i].data, NESTED) == None
    ensures StoredNodes(m, fs).Some? ==> StoredNodes(m, fs).value.unknown == m.unknown + Kept(fs, {1}, {})
    decreases |fs|
  {
    hide ParsedNode;
    if fs == [] {
    } else {
      assert fs == [fs[0]] + fs[1..];
      if StoredNode(m, fs[0]).Some? {
        ListFailsExactlyOnBadNode(StoredNode(m, fs[0]).value, fs[1..]);
        assert m.unknown + [fs[0]] + Kept(fs[1..], {1}, {}) == m.unknown + ([fs[0]] + Kept(fs[1..], {1}, {}));
      }
      assert forall i :: 0 < i < |fs| ==> fs[i] == fs[1..][i - 1];
    }
  }

  // ---------------------------------------------------------------- the layout of both messages

  function TextLaidOut(tag: Byte, v: Option<Bytes>): Bytes {
    if v.Some? then [tag] + Varint(|v.value|) + v.value else []
  }

  /** A negative number goes out as its 64-bit two's complement. */
  function NumberLaidOut(tag: Byte, v: Option<int>): Bytes
    requires v.Some? ==> -0x8000_0000_0000_0000 <= v.value < 0x1_0000_0000_0000_0000
  {
    if v.None? then []
    else if v.value < 0 then [tag] + Varint(v.value + 0x1_0000_0000_0000_0000)
    else [tag] + Varint(v.value)
  }

  lemma TextLayout(num: nat, v: Option<Bytes>)
    requires num < 16
    ensures WriteFields(BytesField(num, v)) == TextLaidOut(8 * num + 2, v)
  {
    if v.Some? {
      var f := LengthDelimited(num, v.value);
      assert [f][1..] == [] && WriteField(f) + [] == WriteField(f);
    }
  }

  lemma Int32Layout(num: nat, v: Option<Int32>)
    requires num < 16
    ensures WriteFields(Int32Field(num, v)) == NumberLaidOut(8 * num, v)
  {
    if v.Some? {
      var f := VarintField(num, SignExtended(v.value));
      assert [f][1..] == [] && WriteField(f) + [] == WriteField(f);
      assert Varint(8 * num) == [8 * num];
    }
  }

  lemma UInt64Layout(num: nat, v: Option<UInt64>)
    requires num < 16
    ensures WriteFields(UInt64Field(num, v)) == NumberLaidOut(8 * num, v)
  {
    if v.Some? {
      var f := VarintField(num, v.value);
      assert [f][1..] == [] && WriteField(f) + [] == WriteField(f);
      assert Varint(8 * num) == [8 * num];
    }
  }

  /** The bytes of a node: its present fields in this order under these tags, and
      then the unknown records. */
  lemma NodeLayout(m: Node)
    ensures NodeBytes(m) ==
            TextLaidOut(10, m.localIp) + NumberLaidOut(16, m.localPort) + TextLaidOut(26, m.publicIp)
            + NumberLaidOut(32, m.publicPort) + NumberLaidOut(40, m.serviceType) + NumberLaidOut(48, m.natType)
            + TextLaidOut(82, m.nodeId) + WriteFields(m.unknown)
  {
    hide WriteFields, BytesField, Int32Field, UInt64Field, TextLaidOut, NumberLaidOut;
    var f1, f2, f3 := BytesField(1, m.localIp), Int32Field(2, m.localPort), BytesField(3, m.publicIp);
    var f4, f5, f6 := Int32Field(4, m.publicPort), UInt64Field(5, m.serviceType), Int32Field(6, m.natType);
    var f7 := BytesField(10, m.nodeId);
    TextLayout(1, m.localIp);
    Int32Layout(2, m.localPort);
    TextLayout(3, m.publicIp);
    Int32Layout(4, m.publicPort);
    UInt64Layout(5, m.serviceType);
    Int32Layout(6, m.natType);
    TextLayout(10, m.nodeId);
    WriteFieldsConcat(f1, f2);
    WriteFieldsConcat(f1 + f2, f3);
    WriteFieldsConcat(f1 + f2 + f3, f4);
    WriteFieldsConcat(f1 + f2 + f3 + f4, f5);
    WriteFieldsConcat(f1 + f2 + f3 + f4 + f5, f6);
    WriteFieldsConcat(f1 + f2 + f3 + f4 + f5 + f6, f7);
    WriteFieldsConcat(KnownFields(m), m.unknown);
  }

  /** The nodes in order, tag 10 and its size before each. */
  function NodesLaidOut(ns: seq<Node>): Bytes {
    if ns == [] then []
    else ([10] + Varint(|NodeBytes(ns[0])|) + NodeBytes(ns[0])) + NodesLaidOut(ns[1..])
  }

  lemma {:induction false} NodeRecordsLayout(ns: seq<Node>)
    ensures WriteFields(NodeRecords(ns)) == NodesLaidOut(ns)
  {
    hide NodeBytes;
    if ns == [] {
    } else {
      NodeRecordsLayout(ns[1..]);
      var b := NodeBytes(ns[0]);
      assert NodeRecords(ns) == [LengthDelimited(1, b)] + NodeRecords(ns[1..]);
      WriteFieldsConcat([LengthDelimited(1, b)], NodeRecords(ns[1..]));
      TextLayout(1, Some(b));
    }
  }

  lemma AllNodesLayout(m: AllNodes)
    ensures AllNodesBytes(m) == NodesLaidOut(m.nodes) + WriteFields(m.unknown)
  {
    NodeRecordsLayout(m.nodes);
    WriteFieldsConcat(NodeRecords(m.nodes), m.unknown);
  }
}
