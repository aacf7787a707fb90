/** AllNodes.Node as the object the generated code works on (bench/node.pb.cc):
    fields and has-bits updated in place, two serializers, sizes. */
module NodeMessageClass {
  import opened Options
  import opened Wire
  import opened NodeMessages
  import opened Buffers

  const HAS_LOCAL_IP: bv32 := 0x01
  const HAS_PUBLIC_IP: bv32 := 0x02
  const HAS_NODE_ID: bv32 := 0x04
  const HAS_LOCAL_PORT: bv32 := 0x08
  const HAS_PUBLIC_PORT: bv32 := 0x10
  const HAS_SERVICE_TYPE: bv32 := 0x20
  const HAS_NAT_TYPE: bv32 := 0x40
  const HAS_ALL: bv32 := 0x7f

  predicate Bit(bits: bv32, mask: bv32) {
    bits & mask != 0
  }

  function Union(a: bv32, b: bv32): bv32 {
    a | b
  }

  /** Merging unites the has-bits. */
  lemma BitUnited(a: bv32, b: bv32, mask: bv32)
    ensures Bit(Union(a, b), mask) <==> Bit(a, mask) || Bit(b, mask)
  {
    assert (a | b) & mask == (a & mask) | (b & mask);
  }

  /** No known bit lies outside the mask that MergeFrom tests first. */
  lemma BitOutside(b: bv32, mask: bv32)
    requires !Bit(b, HAS_ALL) && mask & HAS_ALL == mask
    ensures !Bit(b, mask)
  {
    assert b & mask == (b & HAS_ALL) & mask;
  }

  function When<T>(has: bool, v: T): Option<T> {
    if has then Some(v) else None
  }

  /** A field after a merge, whether or not the mask test let the merge happen. */
  lemma FieldMerged<T>(a: bv32, b: bv32, mask: bv32, x: T, y: T)
    requires mask & HAS_ALL == mask
    ensures When(Bit(Union(a, b), mask), MergedWord(b, mask, x, y)) == Later(When(Bit(a, mask), x), When(Bit(b, mask), y))
    ensures !Bit(b, HAS_ALL) ==> When(Bit(a, mask), x) == Later(When(Bit(a, mask), x), When(Bit(b, mask), y))
  {
    hide Bit;
    BitUnited(a, b, mask);
    if !Bit(b, HAS_ALL) {
      BitOutside(b, mask);
    }
  }

  /** The words of a message object. */
  datatype Words = Words(bits: bv32, localIp: Bytes, publicIp: Bytes, nodeId: Bytes, localPort: Int32,
                         publicPort: Int32, serviceType: UInt64, natType: Int32, unknown: seq<Field>)

  /** The message that the words stand for. */
  function Decoded(w: Words): Node {
    Node(When(Bit(w.bits, HAS_LOCAL_IP), w.localIp), When(Bit(w.bits, HAS_LOCAL_PORT), w.localPort),
         When(Bit(w.bits, HAS_PUBLIC_IP), w.publicIp), When(Bit(w.bits, HAS_PUBLIC_PORT), w.publicPort),
         When(Bit(w.bits, HAS_SERVICE_TYPE), w.serviceType), When(Bit(w.bits, HAS_NAT_TYPE), w.natType),
         When(Bit(w.bits, HAS_NODE_ID), w.nodeId), w.unknown)
  }

  function MergedWord<T>(b: bv32, mask: bv32, x: T, y: T): T {
    if Bit(b, mask) then y else x
  }

  /** The words that MergeFrom leaves. */
  function MergedWords(a: Words, b: Words): Words {
    if !Bit(b.bits, HAS_ALL) then a.(unknown := a.unknown + b.unknown)
    else
      Words(Union(a.bits, b.bits), MergedWord(b.bits, HAS_LOCAL_IP, a.localIp, b.localIp),
            MergedWord(b.bits, HAS_PUBLIC_IP, a.publicIp, b.publicIp), MergedWord(b.bits, HAS_NODE_ID, a.nodeId, b.nodeId),
            MergedWord(b.bits, HAS_LOCAL_PORT, a.localPort, b.localPort),
            MergedWord(b.bits, HAS_PUBLIC_PORT, a.publicPort, b.publicPort),
            MergedWord(b.bits, HAS_SERVICE_TYPE, a.serviceType, b.serviceType),
            MergedWord(b.bits, HAS_NAT_TYPE, a.natType, b.natType), a.unknown + b.unknown)
  }

  /** Merging words is merging messages. */
  lemma MergedWordsDecode(a: Words, b: Words)
    ensures Decoded(MergedWords(a, b)) == Merged(Decoded(a), Decoded(b))
  {
    hide Bit, When, Later, Union, MergedWord;
    FieldMerged(a.bits, b.bits, HAS_LOCAL_IP, a.localIp, b.localIp);
    FieldMerged(a.bits, b.bits, HAS_PUBLIC_IP, a.publicIp, b.publicIp);
    FieldMerged(a.bits, b.bits, HAS_NODE_ID, a.nodeId, b.nodeId);
    FieldMerged(a.bits, b.bits, HAS_LOCAL_PORT, a.localPort, b.localPort);
    FieldMerged(a.bits, b.bits, HAS_PUBLIC_PORT, a.publicPort, b.publicPort);
    FieldMerged(a.bits, b.bits, HAS_SERVICE_TYPE, a.serviceType, b.serviceType);
    FieldMerged(a.bits, b.bits, HAS_NAT_TYPE, a.natType, b.natType);
  }

  /** The k-th known field of a message, in the order of the serializers. */
  function Part(m: Node, k: nat): seq<Field> {
    if k == 0 then BytesField(1, m.localIp)
    else if k == 1 then Int32Field(2, m.localPort)
    else if k == 2 then BytesField(3, m.publicIp)
    else if k == 3 then Int32Field(4, m.publicPort)
    else if k == 4 then UInt64Field(5, m.serviceType)
    else if k == 5 then Int32Field(6, m.natType)
    else if k == 6 then BytesField(10, m.nodeId)
    else m.unknown
  }

  /** What has been written after `k` fields. */
  function Prefix(m: Node, k: nat): seq<Field> {
    if k == 0 then [] else Prefix(m, k - 1) + Part(m, k - 1)
  }

  lemma PrefixIsAll(m: Node)
    ensures Prefix(m, 7) == KnownFields(m) && Prefix(m, 8) == NodeFields(m)
  {
    assert Prefix(m, 1) == Part(m, 0);
    assert Prefix(m, 2) == Part(m, 0) + Part(m, 1);
    assert Prefix(m, 4) == Part(m, 0) + Part(m, 1) + Part(m, 2) + Part(m, 3);
    assert Prefix(m, 6) == Part(m, 0) + Part(m, 1) + Part(m, 2) + Part(m, 3) + Part(m, 4) + Part(m, 5);
  }

  lemma PrefixStep(m: Node, k: nat)
    ensures Prefix(m, k + 1) == Prefix(m, k) + Part(m, k)
    ensures WriteFields(Prefix(m, k + 1)) == WriteFields(Prefix(m, k)) + WriteFields(Part(m, k))
  {
    WriteFieldsConcat(Prefix(m, k), Part(m, k));
  }

  /** One more field is one more record, or none. */
  lemma PartBytes(m: Node, k: nat, has: bool, f: Field)
    requires Part(m, k) == if has then [f] else []
    ensures has ==> Prefix(m, k + 1) == Prefix(m, k) + [f]
    ensures has ==> WriteFields(Prefix(m, k + 1)) == WriteFields(Prefix(m, k)) + WriteField(f)
    ensures !has ==> Prefix(m, k + 1) == Prefix(m, k)
  {
    PrefixStep(m, k);
    if has {
      assert [f][1..] == [];
      assert WriteFields([f]) == WriteField(f) + [];
    } else {
      assert Prefix(m, k) + [] == Prefix(m, k);
    }
  }

  lemma PrefixStart(m: Node)
    ensures WriteFields(Prefix(m, 0)) == []
  {
  }

  lemma PartsOf(m: Node)
    ensures Part(m, 0) == if m.localIp.Some? then [LengthDelimited(1, m.localIp.value)] else []
    ensures Part(m, 1) == if m.localPort.Some? then [VarintField(2, SignExtended(m.localPort.value))] else []
    ensures Part(m, 2) == if m.publicIp.Some? then [LengthDelimited(3, m.publicIp.value)] else []
    ensures Part(m, 3) == if m.publicPort.Some? then [VarintField(4, SignExtended(m.publicPort.value))] else []
    ensures Part(m, 4) == if m.serviceType.Some? then [VarintField(5, m.serviceType.value)] else []
    ensures Part(m, 5) == if m.natType.Some? then [VarintField(6, SignExtended(m.natType.value))] else []
    ensures Part(m, 6) == if m.nodeId.Some? then [LengthDelimited(10, m.nodeId.value)] else []
    ensures Part(m, 7) == m.unknown
  {
  }

  lemma {:induction false} PrefixFits(m: Node, k: nat)
    requires k <= 8
    ensures |WriteFields(Prefix(m, k))| <= |NodeBytes(m)|
    decreases 8 - k
  {
    if k == 8 {
      PrefixIsAll(m);
    } else {
      WriteFieldsConcat(Prefix(m, k), Part(m, k));
      PrefixFits(m, k + 1);
    }
  }

  function StringSize(s: Bytes): nat {
    VarintSize(|s|) + |s|
  }

  function Int32Size(v: Int32): nat {
    VarintSize(SignExtended(v))
  }

  lemma BytesFieldSize(num: nat, v: Option<Bytes>)
    requires num < 16
    ensures FieldsSize(BytesField(num, v)) == if v.Some? then 1 + StringSize(v.value) else 0
  {
    if v.Some? {
      assert BytesField(num, v)[1..] == [];
    }
  }

  lemma Int32FieldSize(num: nat, v: Option<Int32>)
    requires num < 16
    ensures FieldsSize(Int32Field(num, v)) == if v.Some? then 1 + Int32Size(v.value) else 0
  {
    if v.Some? {
      assert Int32Field(num, v)[1..] == [];
    }
  }

  lemma UInt64FieldSize(num: nat, v: Option<UInt64>)
    requires num < 16
    ensures FieldsSize(UInt64Field(num, v)) == if v.Some? then 1 + VarintSize(v.value) else 0
  {
    if v.Some? {
      assert UInt64Field(num, v)[1..] == [];
    }
  }

  lemma KnownFieldsSize(m: Node)
    ensures FieldsSize(KnownFields(m)) ==
            (if m.localIp.Some? then 1 + StringSize(m.localIp.value) else 0)
            + (if m.publicIp.Some? then 1 + StringSize(m.publicIp.value) else 0)
            + (if m.nodeId.Some? then 1 + StringSize(m.nodeId.value) else 0)
            + (if m.localPort.Some? then 1 + Int32Size(m.localPort.value) else 0)
            + (if m.publicPort.Some? then 1 + Int32Size(m.publicPort.value) else 0)
            + (if m.serviceType.Some? then 1 + VarintSize(m.serviceType.value) else 0)
            + (if m.natType.Some? then 1 + Int32Size(m.natType.value) else 0)
  {
    hide FieldsSize, BytesField, Int32Field, UInt64Field, StringSize, Int32Size;
    var f1, f2, f3 := BytesField(1, m.localIp), Int32Field(2, m.localPort), BytesField(3, m.publicIp);
    var f4, f5, f6 := Int32Field(4, m.publicPort), UInt64Field(5, m.serviceType), Int32Field(6, m.natType);
    FieldsSizeConcat(f1, f2);
    FieldsSizeConcat(f1 + f2, f3);
    FieldsSizeConcat(f1 + f2 + f3, f4);
    FieldsSizeConcat(f1 + f2 + f3 + f4, f5);
    FieldsSizeConcat(f1 + f2 + f3 + f4 + f5, f6);
    FieldsSizeConcat(f1 + f2 + f3 + f4 + f5 + f6, BytesField(10, m.nodeId));
    BytesFieldSize(1, m.localIp);
    Int32FieldSize(2, m.localPort);
    BytesFieldSize(3, m.publicIp);
    Int32FieldSize(4, m.publicPort);
    UInt64FieldSize(5, m.serviceType);
    Int32FieldSize(6, m.natType);
    BytesFieldSize(10, m.nodeId);
  }

  lemma NodeSize(m: Node)
    requires NodeOk(m, RECURSION_LIMIT)
    ensures |NodeBytes(m)| == FieldsSize(KnownFields(m)) + FieldsSize(m.unknown)
  {
    NodeFieldsOk(m, RECURSION_LIMIT);
    FieldsLength(NodeFields(m), RECURSION_LIMIT);
    FieldsSizeConcat(KnownFields(m), m.unknown);
  }

  /** What the parse loop leaves, and whether it used up its input. */
  function LoopedInto(m: Node, b: Bytes, depth: nat): Option<(Node, bool)> {
    match ReadUntilStop(b, depth)
    case None => None
    case Some((fs, end)) => Some((StoredAll(m, fs), end))
  }

  lemma LoopedIsParsed(m: Node, b: Bytes, depth: nat)
    ensures ParsedInto(m, b, depth) ==
            match LoopedInto(m, b, depth)
            case None => None
            case Some((m', end)) => if end then Some(m') else None
  {
    WholeIsUntilStop(b, depth);
  }

  lemma LoopedEnd(m: Node, depth: nat)
    ensures LoopedInto(m, [], depth) == Some((m, true))
  {
  }

  /** One round of the parse loop. */
  lemma LoopedRound(m: Node, b: Bytes, depth: nat)
    requires b != []
    ensures match ReadTag(b)
            case None => LoopedInto(m, b, depth) == Some((m, false))
            case Some((tag, after)) =>
              if tag == 0 then LoopedInto(m, b, depth) == Some((m, false))
              else
                match ReadPayload(tag, after, depth)
                case None => LoopedInto(m, b, depth) == None
                case Some((f, rest)) => LoopedInto(m, b, depth) == LoopedInto(Stored(m, f), rest, depth)
  {
    hide ReadPayload, Stored;
    if ReadTag(b).Some? && ReadTag(b).value.0 != 0 {
      var (tag, after) := ReadTag(b).value;
      if ReadPayload(tag, after, depth).Some? {
        var (f, rest) := ReadPayload(tag, after, depth).value;
        if ReadUntilStop(rest, depth).Some? {
          var fs := ReadUntilStop(rest, depth).value.0;
          assert ([f] + fs)[1..] == fs;
        }
      }
    }
  }

  class NodeMessage {
    var hasBits: bv32
    var localIp: Bytes
    var publicIp: Bytes
    var nodeId: Bytes
    var localPort: Int32
    var publicPort: Int32
    var serviceType: UInt64
    var natType: Int32
    var unknown: seq<Field>

    ghost function State(): Words
      reads this
    {
      Words(hasBits, localIp, publicIp, nodeId, localPort, publicPort, serviceType, natType, unknown)
    }

    /** The message this object holds. */
    ghost function View(): Node
      reads this
    {
      Decoded(State())
    }

    constructor ()
      ensures View() == NO_NODE
    {
      hasBits := 0;
      localIp, publicIp, nodeId := [], [], [];
      localPort, publicPort, serviceType, natType := 0, 0, 0, 0;
      unknown := [];
    }

    /** The copy constructor. */
    constructor Copy(from: Node)
      ensures View() == from
    {
      hasBits := (if from.localIp.Some? then HAS_LOCAL_IP else 0) | (if from.publicIp.Some? then HAS_PUBLIC_IP else 0)
                 | (if from.nodeId.Some? then HAS_NODE_ID else 0) | (if from.localPort.Some? then HAS_LOCAL_PORT else 0)
                 | (if from.publicPort.Some? then HAS_PUBLIC_PORT else 0)
                 | (if from.serviceType.Some? then HAS_SERVICE_TYPE else 0)
                 | (if from.natType.Some? then HAS_NAT_TYPE else 0);
      localIp := if from.localIp.Some? then from.localIp.value else [];
      publicIp := if from.publicIp.Some? then from.publicIp.value else [];
      nodeId := if from.nodeId.Some? then from.nodeId.value else [];
      localPort := if from.localPort.Some? then from.localPort.value else 0;
      publicPort := if from.publicPort.Some? then from.publicPort.value else 0;
      serviceType := if from.serviceType.Some? then from.serviceType.value else 0;
      natType := if from.natType.Some? then from.natType.value else 0;
      unknown := from.unknown;
    }

    method Clear()
      modifies this
      ensures View() == NO_NODE
    {
      if hasBits & 7 != 0 {
        if hasBits & HAS_LOCAL_IP != 0 { localIp := []; }
        if hasBits & HAS_PUBLIC_IP != 0 { publicIp := []; }
        if hasBits & HAS_NODE_ID != 0 { nodeId := []; }
      }
      if hasBits & 120 != 0 {
        localPort, publicPort, serviceType, natType := 0, 0, 0, 0;
      }
      hasBits := 0;
      unknown := [];
    }

    method SetLocalIp(v: Bytes)
      modifies this
      ensures View() == old(View()).(localIp := Some(v))
    {
      hasBits := hasBits | HAS_LOCAL_IP;
      localIp := v;
    }

    method SetPublicIp(v: Bytes)
      modifies this
      ensures View() == old(View()).(publicIp := Some(v))
    {
      hasBits := hasBits | HAS_PUBLIC_IP;
      publicIp := v;
    }

    method SetNodeId(v: Bytes)
      modifies this
      ensures View() == old(View()).(nodeId := Some(v))
    {
      hasBits := hasBits | HAS_NODE_ID;
      nodeId := v;
    }

    method SetLocalPort(v: Int32)
      modifies this
      ensures View() == old(View()).(localPort := Some(v))
    {
      hasBits := hasBits | HAS_LOCAL_PORT;
      localPort := v;
    }

    method SetPublicPort(v: Int32)
      modifies this
      ensures View() == old(View()).(publicPort := Some(v))
    {
      hasBits := hasBits | HAS_PUBLIC_PORT;
      publicPort := v;
    }

    method SetServiceType(v: UInt64)
      modifies this
      ensures View() == old(View()).(serviceType := Some(v))
    {
      hasBits := hasBits | HAS_SERVICE_TYPE;
      serviceType := v;
    }

    method SetNatType(v: Int32)
      modifies this
      ensures View() == old(View()).(natType := Some(v))
    {
      hasBits := hasBits | HAS_NAT_TYPE;
      natType := v;
    }

    method Value() returns (m: Node)
      ensures m == View()
    {
      m := Decoded(Words(hasBits, localIp, publicIp, nodeId, localPort, publicPort, serviceType, natType, unknown));
    }

    method IsInitialized() returns (r: bool)
      ensures r <==> Initialized(View())
      ensures r <==>
                && View().localIp.Some? && View().localPort.Some? && View().publicIp.Some? && View().publicPort.Some?
                && View().serviceType.Some? && View().natType.Some? && View().nodeId.Some?
    {
      r := hasBits & HAS_ALL == HAS_ALL;
    }

    method MergeFrom(from: NodeMessage)
      requires from != this
      modifies this
      ensures View() == Merged(old(View()), from.View())
    {
      hide Bit, Decoded, Merged, Union;
      MergedWordsDecode(State(), from.State());
      unknown := unknown + from.unknown;
      if Bit(from.hasBits, HAS_ALL) {
        MergeStrings(from);
        MergeNumbers(from);
        hasBits := Union(hasBits, from.hasBits);
      }
    }

    method MergeStrings(from: NodeMessage)
      requires from != this
      modifies this`localIp, this`publicIp, this`nodeId
      ensures localIp == if Bit(from.hasBits, HAS_LOCAL_IP) then from.localIp else old(localIp)
      ensures publicIp == if Bit(from.hasBits, HAS_PUBLIC_IP) then from.publicIp else old(publicIp)
      ensures nodeId == if Bit(from.hasBits, HAS_NODE_ID) then from.nodeId else old(nodeId)
    {
      hide Bit;
      if Bit(from.hasBits, HAS_LOCAL_IP) { localIp := from.localIp; }
      if Bit(from.hasBits, HAS_PUBLIC_IP) { publicIp := from.publicIp; }
      if Bit(from.hasBits, HAS_NODE_ID) { nodeId := from.nodeId; }
    }

    method MergeNumbers(from: NodeMessage)
      requires from != this
      modifies this`localPort, this`publicPort, this`serviceType, this`natType
      ensures localPort == if Bit(from.hasBits, HAS_LOCAL_PORT) then from.localPort else old(localPort)
      ensures publicPort == if Bit(from.hasBits, HAS_PUBLIC_PORT) then from.publicPort else old(publicPort)
      ensures serviceType == if Bit(from.hasBits, HAS_SERVICE_TYPE) then from.serviceType else old(serviceType)
      ensures natType == if Bit(from.hasBits, HAS_NAT_TYPE) then from.natType else old(natType)
    {
      hide Bit;
      if Bit(from.hasBits, HAS_LOCAL_PORT) { localPort := from.localPort; }
      if Bit(from.hasBits, HAS_PUBLIC_PORT) { publicPort := from.publicPort; }
      if Bit(from.hasBits, HAS_SERVICE_TYPE) { serviceType := from.serviceType; }
      if Bit(from.hasBits, HAS_NAT_TYPE) { natType := from.natType; }
    }

    /** The switch of the parse loop: one record behind a tag that has been read.
        Returns the input left, or nothing when the record is malformed. */
    method ReadOne(tag: UInt32, input: Bytes, depth: nat) returns (left: Option<Bytes>)
      modifies this
      ensures match ReadPayload(tag, input, depth)
              case None => left == None
              case Some((f, rest)) =>
                left == Some(rest) && View() == Stored(old(View()), f)
    {
      hide Decoded, ReadVarint64, ReadLengthDelimited, ReadGroup, Take;
      left := None;
      if ReadPayload(tag, input, depth).Some? {
        PayloadOk(tag, input, depth);
      }
      if tag == 10 || tag == 26 || tag == 82 {
        match ReadLengthDelimited(input)
        case None =>
        case Some((d, rest)) =>
          if tag == 10 { SetLocalIp(d); } else if tag == 26 { SetPublicIp(d); } else { SetNodeId(d); }
          left := Some(rest);
      } else if tag == 16 || tag == 32 || tag == 40 || tag == 48 {
        match ReadVarint64(input)
        case None =>
        case Some((v, rest)) =>
          if tag == 16 { SetLocalPort(ToInt32(v)); }
          else if tag == 32 { SetPublicPort(ToInt32(v)); }
          else if tag == 40 { SetServiceType(v); }
          else { SetNatType(ToInt32(v)); }
          left := Some(rest);
      } else {
        match ReadPayload(tag, input, depth)
        case None =>
        case Some((f, rest)) =>
          AddUnknown(f);
          left := Some(rest);
      }
    }

    method AddUnknown(f: Field)
      modifies this
      ensures View() == old(View()).(unknown := old(View()).unknown + [f])
    {
      unknown := unknown + [f];
    }

    /** The parse loop.  A tag that is zero, or that cannot be read, ends it like
        the end of the input; `consumed` is what ConsumedEntireMessage tells the
        callers afterwards. */
    method MergePartialFromCodedStream(input: Bytes, depth: nat) returns (ok: bool, consumed: bool)
      modifies this
      ensures LoopedInto(old(View()), input, depth) == if ok then Some((View(), consumed)) else None
      ensures ParsedInto(old(View()), input, depth) == if ok && consumed then Some(View()) else None
    {
      hide Decoded, ReadPayload, Stored, LoopedInto;
      ghost var goal := LoopedInto(View(), input, depth);
      LoopedIsParsed(View(), input, depth);
      var rest := input;
      while rest != []
        invariant goal == LoopedInto(View(), rest, depth)
        decreases |rest|
      {
        LoopedRound(View(), rest, depth);
        match ReadTag(rest)
        case None => return true, false;
        case Some((tag, after)) =>
          if tag == 0 {
            return true, false;
          }
          var left := ReadOne(tag, after, depth);
          if left == None {
            return false, false;
          }
          rest := left.value;
      }
      LoopedEnd(View(), depth);
      return true, true;
    }

    method RequiredFieldsByteSizeFallback() returns (totalSize: nat)
      ensures totalSize == FieldsSize(KnownFields(View()))
    {
      hide Bit, StringSize, Int32Size, VarintSize, FieldsSize, KnownFields;
      KnownFieldsSize(View());
      totalSize := 0;
      if Bit(hasBits, HAS_LOCAL_IP) { totalSize := totalSize + 1 + StringSize(localIp); }
      if Bit(hasBits, HAS_PUBLIC_IP) { totalSize := totalSize + 1 + StringSize(publicIp); }
      if Bit(hasBits, HAS_NODE_ID) { totalSize := totalSize + 1 + StringSize(nodeId); }
      if Bit(hasBits, HAS_LOCAL_PORT) { totalSize := totalSize + 1 + Int32Size(localPort); }
      if Bit(hasBits, HAS_PUBLIC_PORT) { totalSize := totalSize + 1 + Int32Size(publicPort); }
      if Bit(hasBits, HAS_SERVICE_TYPE) { totalSize := totalSize + 1 + VarintSize(serviceType); }
      if Bit(hasBits, HAS_NAT_TYPE) { totalSize := totalSize + 1 + Int32Size(natType); }
    }

    /** The size is the number of bytes both serializers write, on the fast path
        for complete messages as on the other. */
    method ByteSizeLong() returns (totalSize: nat)
      requires NodeOk(View(), RECURSION_LIMIT)
      ensures totalSize == |NodeBytes(View())|
    {
      totalSize := FieldsSize(unknown);
      if (hasBits & HAS_ALL) ^ HAS_ALL == 0 {
        totalSize := totalSize + 1 + StringSize(localIp) + 1 + StringSize(publicIp) + 1 + StringSize(nodeId)
                     + 1 + Int32Size(localPort) + 1 + Int32Size(publicPort) + 1 + VarintSize(serviceType)
                     + 1 + Int32Size(natType);
        KnownFieldsSize(View());
      } else {
        var known := RequiredFieldsByteSizeFallback();
        totalSize := totalSize + known;
      }
      NodeSize(View());
    }

    /** The stream serializer. */
    method SerializeWithCachedSizes(output: Bytes) returns (out: Bytes)
      ensures out == output + NodeBytes(View())
    {
      hide Bit, Prefix, Part, WriteFields, NodeFields, SignExtended;
      ghost var m := View();
      PartsOf(m);
      PrefixStart(m);
      out := EmitField(output, Bit(hasBits, HAS_LOCAL_IP), LengthDelimited(1, localIp), output, m, 0);
      out := EmitField(out, Bit(hasBits, HAS_LOCAL_PORT), VarintField(2, SignExtended(localPort)), output, m, 1);
      out := EmitField(out, Bit(hasBits, HAS_PUBLIC_IP), LengthDelimited(3, publicIp), output, m, 2);
      out := EmitField(out, Bit(hasBits, HAS_PUBLIC_PORT), VarintField(4, SignExtended(publicPort)), output, m, 3);
      out := EmitField(out, Bit(hasBits, HAS_SERVICE_TYPE), VarintField(5, serviceType), output, m, 4);
      out := EmitField(out, Bit(hasBits, HAS_NAT_TYPE), VarintField(6, SignExtended(natType)), output, m, 5);
      out := EmitField(out, Bit(hasBits, HAS_NODE_ID), LengthDelimited(10, nodeId), output, m, 6);
      out := out + WriteFields(unknown);
      PrefixStep(m, 7);
      PrefixIsAll(m);
    }

    /** The array serializer writes the same bytes at the position it is given,
        touches nothing else, and returns the position behind them. */
    method InternalSerializeWithCachedSizesToArray(target: array<Byte>, start: nat) returns (end: nat)
      requires start + |NodeBytes(View())| <= target.Length
      modifies target
      ensures end == start + |NodeBytes(View())|
      ensures Wrote(old(target[..]), target[..], start, NodeBytes(View()))
    {
      hide Bit, Prefix, Part, WriteFields, NodeFields, SignExtended, Wrote;
      ghost var m, before := View(), target[..];
      PartsOf(m);
      PrefixStart(m);
      WroteNothing(before, start);
      end := start;
      end := PutPart(target, end, Bit(hasBits, HAS_LOCAL_IP), LengthDelimited(1, localIp), before, start, m, 0);
      end := PutPart(target, end, Bit(hasBits, HAS_LOCAL_PORT), VarintField(2, SignExtended(localPort)),
                     before, start, m, 1);
      end := PutPart(target, end, Bit(hasBits, HAS_PUBLIC_IP), LengthDelimited(3, publicIp), before, start, m, 2);
      end := PutPart(target, end, Bit(hasBits, HAS_PUBLIC_PORT), VarintField(4, SignExtended(publicPort)),
                     before, start, m, 3);
      end := PutPart(target, end, Bit(hasBits, HAS_SERVICE_TYPE), VarintField(5, serviceType), before, start, m, 4);
      end := PutPart(target, end, Bit(hasBits, HAS_NAT_TYPE), VarintField(6, SignExtended(natType)),
                     before, start, m, 5);
      end := PutPart(target, end, Bit(hasBits, HAS_NODE_ID), LengthDelimited(10, nodeId), before, start, m, 6);
      PrefixStep(m, 7);
      PrefixIsAll(m);
      end := PutAfter(target, end, WriteFields(unknown), before, start, WriteFields(Prefix(m, 7)));
    }
  }

  /** Writes the k-th known field to a stream if it is present. */
  method EmitField(output: Bytes, has: bool, f: Field, ghost base: Bytes, ghost m: Node, ghost k: nat)
    returns (out: Bytes)
    requires output == base + WriteFields(Prefix(m, k)) && Part(m, k) == if has then [f] else []
    ensures out == base + WriteFields(Prefix(m, k + 1))
  {
    hide Part, Prefix, WriteFields, WriteField;
    PartBytes(m, k, has, f);
    out := if has then output + WriteField(f) else output;
  }

  /** Writes the k-th known field to an array if it is present. */
  method PutPart(target: array<Byte>, pos: nat, has: bool, f: Field,
                 ghost before: Bytes, ghost start: nat, ghost m: Node, ghost k: nat) returns (end: nat)
    requires k < 7 && Part(m, k) == if has then [f] else []
    requires Wrote(before, target[..], start, WriteFields(Prefix(m, k)))
    requires pos == start + |WriteFields(Prefix(m, k))| && start + |NodeBytes(m)| <= target.Length
    modifies target
    ensures Wrote(before, target[..], start, WriteFields(Prefix(m, k + 1)))
    ensures end == start + |WriteFields(Prefix(m, k + 1))|
  {
    hide Part, Prefix, WriteFields, WriteField, Wrote;
    PartBytes(m, k, has, f);
    PrefixFits(m, k + 1);
    end := pos;
    if has {
      end := PutField(target, pos, f, before, start, Prefix(m, k));
    }
  }
}
