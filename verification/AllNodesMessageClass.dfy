/** AllNodes, the list of nodes that is saved to disk, as the object the
    generated code works on (bench/node.pb.cc). */
module AllNodesMessageClass {
  import opened Options
  import opened Wire
  import opened NodeMessages
  import opened NodeMessageClass
  import opened Buffers

  lemma NodeOkDeeper(m: Node)
    requires NodeOk(m, NESTED)
    ensures NodeOk(m, RECURSION_LIMIT)
  {
    DeeperAllOk(m.unknown, NESTED, RECURSION_LIMIT);
  }

  /** The record of one node: tag, size, bytes. */
  lemma NodeRecordBytes(n: Node)
    ensures WriteField(LengthDelimited(1, NodeBytes(n))) == [10] + Varint(|NodeBytes(n)|) + NodeBytes(n)
  {
    assert Varint(10) == [10];
  }

  lemma NodeRecordsSnoc(ns: seq<Node>, i: nat)
    requires i < |ns|
    ensures NodeRecords(ns[..i + 1]) == NodeRecords(ns[..i]) + [LengthDelimited(1, NodeBytes(ns[i]))]
    ensures WriteFields(NodeRecords(ns[..i + 1])) ==
            WriteFields(NodeRecords(ns[..i])) + WriteField(LengthDelimited(1, NodeBytes(ns[i])))
  {
    var f := LengthDelimited(1, NodeBytes(ns[i]));
    assert NodeRecords(ns[..i + 1]) == NodeRecords(ns[..i]) + [f];
    WriteFieldsConcat(NodeRecords(ns[..i]), [f]);
    assert [f][1..] == [];
    assert WriteFields([f]) == WriteField(f) + [];
  }

  /** A prefix of the nodes takes no more room than the whole message. */
  lemma NodeRecordsFit(m: AllNodes, i: nat)
    requires i <= |m.nodes|
    ensures |WriteFields(NodeRecords(m.nodes[..i]))| <= |AllNodesBytes(m)|
  {
    hide WriteFields, NodeBytes;
    var rest := NodeRecords(m.nodes[i..]) + m.unknown;
    assert AllNodesFields(m) == NodeRecords(m.nodes[..i]) + rest;
    WriteFieldsConcat(NodeRecords(m.nodes[..i]), rest);
  }

  /** Parsing into a message that already holds `m`. */
  function ParsedNodesInto(m: AllNodes, b: Bytes): Option<AllNodes> {
    match ReadFields(b, RECURSION_LIMIT)
    case None => None
    case Some(fs) => StoredNodes(m, fs)
  }

  /** What the parse loop leaves, and whether it used up its input. */
  function LoopedNodes(m: AllNodes, b: Bytes): Option<(AllNodes, bool)> {
    match ReadUntilStop(b, RECURSION_LIMIT)
    case None => None
    case Some((fs, end)) =>
      match StoredNodes(m, fs)
      case None => None
      case Some(m') => Some((m', end))
  }

  lemma LoopedNodesIsParsed(m: AllNodes, b: Bytes)
    ensures ParsedNodesInto(m, b) ==
            match LoopedNodes(m, b)
            case None => None
            case Some((m', end)) => if end then Some(m') else None
  {
    WholeIsUntilStop(b, RECURSION_LIMIT);
  }

  lemma LoopedNodesEnd(m: AllNodes)
    ensures LoopedNodes(m, []) == Some((m, true))
  {
  }

  /** One round of the parse loop. */
  lemma LoopedNodesRound(m: AllNodes, b: Bytes)
    requires b != []
    ensures match ReadTag(b)
            case None => LoopedNodes(m, b) == Some((m, false))
            case Some((tag, after)) =>
              if tag == 0 then LoopedNodes(m, b) == Some((m, false))
              else
                match ReadPayload(tag, after, RECURSION_LIMIT)
                case None => LoopedNodes(m, b) == None
                case Some((f, rest)) =>
                  LoopedNodes(m, b) == (
                  match StoredNode(m, f)
                  case None => None
                  case Some(m') => LoopedNodes(m', rest))
  {
    hide ReadPayload, StoredNode;
    if ReadTag(b).Some? && ReadTag(b).value.0 != 0 {
      var (tag, after) := ReadTag(b).value;
      if ReadPayload(tag, after, RECURSION_LIMIT).Some? {
        var (f, rest) := ReadPayload(tag, after, RECURSION_LIMIT).value;
        if ReadUntilStop(rest, RECURSION_LIMIT).Some? {
          var fs := ReadUntilStop(rest, RECURSION_LIMIT).value.0;
          assert ([f] + fs)[1..] == fs;
        }
      }
    }
  }

  class AllNodesMessage {
    var nodes: seq<Node>
    var unknown: seq<Field>

    ghost function View(): AllNodes
      reads this
    {
      AllNodes(nodes, unknown)
    }

    constructor ()
      ensures View() == NO_NODES
    {
      nodes, unknown := [], [];
    }

    method Clear()
      modifies this
      ensures View() == NO_NODES
    {
      nodes, unknown := [], [];
    }

    method AddNode(n: Node)
      modifies this
      ensures View() == old(View()).(nodes := old(View()).nodes + [n])
    {
      nodes := nodes + [n];
    }

    method MergeFrom(from: AllNodesMessage)
      requires from != this
      modifies this
      ensures View() == MergedAll(old(View()), from.View())
    {
      unknown := unknown + from.unknown;
      nodes := nodes + from.nodes;
    }

    method IsInitialized() returns (r: bool)
      ensures r <==> AllInitialized(View())
    {
      var i := 0;
      while i < |nodes|
        invariant 0 <= i <= |nodes|
        invariant forall k :: 0 <= k < i ==> Initialized(nodes[k])
      {
        var node := new NodeMessage.Copy(nodes[i]);
        var ok := node.IsInitialized();
        if !ok {
          return false;
        }
        i := i + 1;
      }
      r := true;
    }

    /** The switch of the parse loop: one record behind its tag. */
    method ReadOne(tag: UInt32, input: Bytes) returns (left: Option<Bytes>)
      modifies this
      ensures match ReadPayload(tag, input, RECURSION_LIMIT)
              case None => left == None
              case Some((f, rest)) =>
                match StoredNode(old(View()), f)
                case None => left == None
                case Some(m) => left == Some(rest) && View() == m
    {
      hide ReadVarint64, ReadLengthDelimited, ReadGroup, Take;
      left := None;
      if tag == 10 {
        match ReadLengthDelimited(input)
        case None =>
        case Some((d, rest)) =>
          var node := new NodeMessage();
          var ok, consumed := node.MergePartialFromCodedStream(d, NESTED);
          if ok && consumed {
            var value := node.Value();
            AddNode(value);
            left := Some(rest);
          }
      } else {
        match ReadPayload(tag, input, RECURSION_LIMIT)
        case None =>
        case Some((f, rest)) =>
          PayloadOk(tag, input, RECURSION_LIMIT);
          unknown := unknown + [f];
          left := Some(rest);
      }
    }

    method MergePartialFromCodedStream(input: Bytes) returns (ok: bool, consumed: bool)
      modifies this
      ensures LoopedNodes(old(View()), input) == if ok then Some((View(), consumed)) else None
      ensures ParsedNodesInto(old(View()), input) == if ok && consumed then Some(View()) else None
    {
      hide ReadPayload, StoredNode, LoopedNodes;
      ghost var goal := LoopedNodes(View(), input);
      LoopedNodesIsParsed(View(), input);
      var rest := input;
      while rest != []
        invariant goal == LoopedNodes(View(), rest)
        decreases |rest|
      {
        LoopedNodesRound(View(), rest);
        match ReadTag(rest)
        case None => return true, false;
        case Some((tag, after)) =>
          if tag == 0 {
            return true, false;
          }
          var left := ReadOne(tag, after);
          if left == None {
            return false, false;
          }
          rest := left.value;
      }
      LoopedNodesEnd(View());
      return true, true;
    }

    /** Replaces the content by what the bytes say; fails on malformed bytes and
        on a node that lacks a required field. */
    method ParseFromString(data: Bytes) returns (ok: bool)
      modifies this
      ensures NodeMessages.ParseFromString(data) == if ok then Some(View()) else None
    {
      Clear();
      var consumed;
      ok, consumed := MergePartialFromCodedStream(data);
      ok := ok && consumed;
      if ok {
        ok := IsInitialized();
      }
    }

    method ByteSizeLong() returns (totalSize: nat)
      requires AllNodesOk(View())
      ensures totalSize == |AllNodesBytes(View())|
    {
      totalSize := FieldsSize(unknown) + |nodes|;
      var i := 0;
      while i < |nodes|
        invariant 0 <= i <= |nodes|
        invariant totalSize == FieldsSize(unknown) + |WriteFields(NodeRecords(nodes[..i]))| + (|nodes| - i)
      {
        var node := new NodeMessage.Copy(nodes[i]);
        NodeOkDeeper(nodes[i]);
        var size := node.ByteSizeLong();
        totalSize := totalSize + VarintSize(size) + size;
        NodeRecordsSnoc(nodes, i);
        NodeRecordBytes(nodes[i]);
        VarintLength(size);
        i := i + 1;
      }
      assert nodes[..i] == nodes;
      WriteFieldsConcat(NodeRecords(nodes), unknown);
      FieldsLength(unknown, RECURSION_LIMIT);
    }

    /** The stream serializer: each node is its tag, its size and its bytes. */
    method SerializeWithCachedSizes(output: Bytes) returns (out: Bytes)
      requires AllNodesOk(View())
      ensures out == output + AllNodesBytes(View())
    {
      hide WriteFields, NodeRecords, NodeBytes, Varint, WriteField;
      NoRecords();
      out := output;
      var i := 0;
      while i < |nodes|
        invariant 0 <= i <= |nodes|
        invariant out == output + WriteFields(NodeRecords(nodes[..i]))
      {
        NodeOkDeeper(nodes[i]);
        var node := new NodeMessage.Copy(nodes[i]);
        var size := node.ByteSizeLong();
        NodeRecordsSnoc(nodes, i);
        NodeRecordBytes(nodes[i]);
        var framed := out + ([10] + Varint(size));
        out := node.SerializeWithCachedSizes(framed);
        assert out == output + (WriteFields(NodeRecords(nodes[..i])) + ([10] + Varint(size) + NodeBytes(nodes[i])));
        i := i + 1;
      }
      assert nodes[..i] == nodes;
      out := out + WriteFields(unknown);
      WriteFieldsConcat(NodeRecords(nodes), unknown);
    }

    /** The array serializer: the same bytes, in place. */
    method InternalSerializeWithCachedSizesToArray(target: array<Byte>, start: nat) returns (end: nat)
      requires AllNodesOk(View())
      requires start + |AllNodesBytes(View())| <= target.Length
      modifies target
      ensures end == start + |AllNodesBytes(View())|
      ensures Wrote(old(target[..]), target[..], start, AllNodesBytes(View()))
    {
      hide WriteFields, NodeRecords, NodeBytes, Varint, WriteField, Wrote;
      NoRecords();
      ghost var before := target[..];
      WroteNothing(before, start);
      end := start;
      var i := 0;
      while i < |nodes|
        invariant 0 <= i <= |nodes|
        invariant Wrote(before, target[..], start, WriteFields(NodeRecords(nodes[..i])))
        invariant end == start + |WriteFields(NodeRecords(nodes[..i]))|
      {
        NodeOkDeeper(nodes[i]);
        NodeRecordsFit(View(), i + 1);
        NodeRecordsSnoc(nodes, i);
        end := PutNode(nodes[i], target, end, before, start, WriteFields(NodeRecords(nodes[..i])));
        i := i + 1;
      }
      assert nodes[..i] == nodes;
      WriteFieldsConcat(NodeRecords(nodes), unknown);
      end := PutAfter(target, end, WriteFields(unknown), before, start, WriteFields(NodeRecords(nodes)));
    }
  }

  lemma NoRecords()
    ensures forall ns: seq<Node> :: WriteFields(NodeRecords(ns[..0])) == []
  {
  }

  /** InternalWriteMessageToArray for field 1: tag, size, and the node in place. */
  method PutNode(n: Node, target: array<Byte>, pos: nat,
                 ghost before: Bytes, ghost start: nat, ghost done: Bytes) returns (end: nat)
    requires NodeOk(n, RECURSION_LIMIT)
    requires Wrote(before, target[..], start, done) && pos == start + |done|
    requires pos + |WriteField(LengthDelimited(1, NodeBytes(n)))| <= target.Length
    modifies target
    ensures Wrote(before, target[..], start, done + WriteField(LengthDelimited(1, NodeBytes(n))))
    ensures end == pos + |WriteField(LengthDelimited(1, NodeBytes(n)))|
  {
    hide NodeBytes, Varint, WriteField, Wrote;
    NodeRecordBytes(n);
    var node := new NodeMessage.Copy(n);
    var size := node.ByteSizeLong();
    var head := [10] + Varint(size);
    end := PutAfter(target, pos, head, before, start, done);
    ghost var b := target[..];
    end := node.InternalSerializeWithCachedSizesToArray(target, end);
    WroteThen(before, b, target[..], start, done + head, NodeBytes(n));
    assert done + head + NodeBytes(n) == done + (head + NodeBytes(n));
  }
}
