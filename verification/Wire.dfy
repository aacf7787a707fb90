/** The protocol-buffer wire format as the generated parsers use it: base-128
    varints, tags and the five kinds of record, including unknown groups, with
    the recursion limit of the reader (Protocol Buffers Encoding, "Base 128
    Varints", "Message Structure", "Length-Delimited Records"). */
module Wire {
  import opened Options

  type Byte = b: int | 0 <= b < 256
  type Bytes = seq<Byte>
  type UInt16 = n: int | 0 <= n < 0x1_0000
  type UInt32 = n: int | 0 <= n < 0x1_0000_0000
  type UInt64 = n: int | 0 <= n < 0x1_0000_0000_0000_0000
  type Int32 = n: int | -0x8000_0000 <= n < 0x8000_0000

  const TWO16 := 0x1_0000
  const TWO29 := 0x2000_0000
  const TWO31 := 0x8000_0000
  const TWO32 := 0x1_0000_0000
  const TWO64 := 0x1_0000_0000_0000_0000

  /** A varint is at most this many bytes. */
  const MAX_VARINT: nat := 10
  /** How deep messages and groups may nest. */
  const RECURSION_LIMIT: nat := 100

  // ---------------------------------------------------------------- varints

  function Varint(v: nat): (b: Bytes)
    ensures b != []
  {
    if v < 128 then [v] else [128 + v % 128] + Varint(v / 128)
  }

  function VarintSize(v: nat): nat {
    if v < 128 then 1 else 1 + VarintSize(v / 128)
  }

  /** Reads a varint of at most `k` bytes: its value and what follows. */
  function ReadVarint(b: Bytes, k: nat): (r: Option<(nat, Bytes)>)
    ensures r.Some? ==> |r.value.1| < |b|
  {
    if k == 0 || b == [] then None
    else if b[0] < 128 then Some((b[0], b[1..]))
    else
      match ReadVarint(b[1..], k - 1)
      case None => None
      case Some((v, rest)) => Some((b[0] - 128 + 128 * v, rest))
  }

  /** The bits beyond the 64th are lost. */
  function ReadVarint64(b: Bytes): (r: Option<(UInt64, Bytes)>)
    ensures r.Some? ==> |r.value.1| < |b|
  {
    match ReadVarint(b, MAX_VARINT)
    case None => None
    case Some((v, rest)) => Some((v % TWO64, rest))
  }

  function ReadTag(b: Bytes): (r: Option<(UInt32, Bytes)>)
    ensures r.Some? ==> |r.value.1| < |b|
  {
    match ReadVarint(b, MAX_VARINT)
    case None => None
    case Some((v, rest)) => Some((v % TWO32, rest))
  }

  function Pow128(k: nat): nat {
    if k == 0 then 1 else 128 * Pow128(k - 1)
  }

  lemma SmallerPower(v: nat, k: nat)
    requires 128 <= v < Pow128(k) && k > 0
    ensures k > 1 && v / 128 < Pow128(k - 1)
  {
  }

  lemma {:induction false} VarintReads(v: nat, k: nat, rest: Bytes)
    requires v < Pow128(k) && k > 0
    ensures ReadVarint(Varint(v) + rest, k) == Some((v, rest))
    decreases k
  {
    var b := Varint(v) + rest;
    if v < 128 {
      assert b[1..] == rest;
    } else {
      SmallerPower(v, k);
      hide Pow128;
      assert b[1..] == Varint(v / 128) + rest;
      VarintReads(v / 128, k - 1, rest);
    }
  }

  lemma Pow128Of10()
    ensures TWO64 <= Pow128(MAX_VARINT)
  {
    assert Pow128(2) == 128 * 128;
    assert Pow128(4) == 128 * 128 * Pow128(2);
    assert Pow128(6) == 128 * 128 * Pow128(4);
    assert Pow128(8) == 128 * 128 * Pow128(6);
    assert Pow128(10) == 128 * 128 * Pow128(8);
  }

  /** Every 64-bit value is read back from its varint. */
  lemma VarintRoundTrip(v: UInt64, rest: Bytes)
    ensures ReadVarint64(Varint(v) + rest) == Some((v, rest))
    ensures v < TWO32 ==> ReadTag(Varint(v) + rest) == Some((v, rest))
  {
    hide Varint, ReadVarint, Pow128;
    Pow128Of10();
    VarintReads(v, MAX_VARINT, rest);
  }

  lemma {:induction false} VarintLength(v: nat)
    ensures |Varint(v)| == VarintSize(v)
  {
    if v >= 128 {
      VarintLength(v / 128);
    }
  }

  /** Reading looks at no byte behind the varint. */
  lemma {:induction false} ReadVarintLocal(b: Bytes, k: nat, c: Bytes)
    requires ReadVarint(b, k).Some?
    ensures ReadVarint(b + c, k) == Some((ReadVarint(b, k).value.0, ReadVarint(b, k).value.1 + c))
    decreases k
  {
    if b[0] < 128 {
      assert (b + c)[1..] == b[1..] + c;
    } else {
      assert (b + c)[1..] == b[1..] + c;
      ReadVarintLocal(b[1..], k - 1, c);
    }
  }

  // ---------------------------------------------------------------- base 128

  /** The number that k bytes spell in base 128, the first byte lowest and the
      top bit of each left out. */
  function Spelled(b: Bytes, k: nat): nat
    requires k <= |b|
  {
    if k == 0 then 0 else Spelled(b, k - 1) + (b[k - 1] % 128) * Pow128(k - 1)
  }

  /** The top bit is set in every byte but the last. */
  predicate IsVarint(b: Bytes) {
    b != [] && b[|b| - 1] < 128 && forall i :: 0 <= i < |b| - 1 ==> b[i] >= 128
  }

  lemma {:induction false} SpelledCons(x: Byte, b: Bytes, k: nat)
    requires k <= |b|
    ensures Spelled([x] + b, k + 1) == x % 128 + 128 * Spelled(b, k)
  {
    if k == 0 {
      assert Pow128(0) == 1;
    } else {
      SpelledCons(x, b, k - 1);
      assert ([x] + b)[k] == b[k - 1];
      TimesPower(b[k - 1] % 128, k - 1);
      hide Pow128;
    }
  }

  lemma TimesPower(d: nat, k: nat)
    ensures d * Pow128(k + 1) == 128 * (d * Pow128(k))
  {
  }

  lemma {:induction false} SpelledPrefix(b: Bytes, c: Bytes, k: nat)
    requires k <= |b|
    ensures Spelled(b + c, k) == Spelled(b, k)
  {
    if k == 0 {
    } else {
      SpelledPrefix(b, c, k - 1);
    }
  }

  /** A varint spells its number in base 128, in as few bytes as that takes. */
  lemma {:induction false} VarintSpells(v: nat)
    ensures IsVarint(Varint(v)) && Spelled(Varint(v), |Varint(v)|) == v
    ensures |Varint(v)| > 1 ==> Varint(v)[|Varint(v)| - 1] != 0
  {
    if v < 128 {
      assert Spelled([v], 0) == 0 && Pow128(0) == 1;
    } else {
      var tail := Varint(v / 128);
      VarintSpells(v / 128);
      SpelledCons(128 + v % 128, tail, |tail|);
      assert Varint(v) == [128 + v % 128] + tail;
      hide Varint, Spelled;
      assert forall i :: 0 < i < |Varint(v)| ==> Varint(v)[i] == tail[i - 1];
    }
  }

  /** A reader accepts whatever spells a number, in more bytes than needed too,
      and reads the number spelled. */
  lemma {:induction false} ReadsSpelled(b: Bytes, k: nat, m: nat)
    requires m <= |b| && m <= k && IsVarint(b[..m])
    ensures ReadVarint(b, k) == Some((Spelled(b, m), b[m..]))
    decreases k
  {
    var b' := b[1..];
    assert b == [b[0]] + b';
    if m == 1 {
      assert b[..1][0] == b[0];
      assert Pow128(0) == 1 && Spelled(b, 0) == 0;
      assert Spelled(b, 1) == b[0];
    } else {
      assert b[..m][0] == b[0];
      assert b'[..m - 1] == b[..m][1..];
      ReadsSpelled(b', k - 1, m - 1);
      SpelledCons(b[0], b', m - 1);
      assert b'[m - 1..] == b[m..];
    }
  }

  /** It accepts nothing else. */
  lemma {:induction false} ReadsNothingElse(b: Bytes, k: nat) returns (m: nat)
    requires ReadVarint(b, k).Some?
    ensures m <= |b| && m <= k && IsVarint(b[..m])
    decreases k
  {
    if b[0] < 128 {
      m := 1;
    } else {
      var n := ReadsNothingElse(b[1..], k - 1);
      m := n + 1;
      assert b[..m] == [b[0]] + b[1..][..n];
    }
  }

  /** Every kind of number on the wire, for any bytes that spell one in at most
      ten: 64-bit values and tags are cut to their width, and a length is followed
      by that many bytes. */
  lemma ReadsCutToWidth(b: Bytes, m: nat)
    requires m <= |b| && m <= 10 && IsVarint(b[..m])
    ensures ReadVarint64(b) == Some((Spelled(b, m) % 0x1_0000_0000_0000_0000, b[m..]))
    ensures ReadTag(b) == Some((Spelled(b, m) % 0x1_0000_0000, b[m..]))
    ensures var n := Spelled(b, m) % 0x1_0000_0000_0000_0000;
            ReadLengthDelimited(b) ==
            if n < 0x8000_0000 && m + n <= |b| then Some((b[m..m + n], b[m + n..])) else None
  {
    ReadsSpelled(b, MAX_VARINT, m);
    hide Spelled, ReadVarint, IsVarint;
    var n := Spelled(b, m) % 0x1_0000_0000_0000_0000;
    if m + n <= |b| {
      assert b[m..][..n] == b[m..m + n] && b[m..][n..] == b[m + n..];
    }
  }

  lemma NoNumberWithoutVarint(b: Bytes)
    requires forall m :: 0 <= m <= |b| && m <= 10 ==> !IsVarint(b[..m])
    ensures ReadVarint64(b) == None && ReadTag(b) == None && ReadLengthDelimited(b) == None
  {
    if ReadVarint(b, MAX_VARINT).Some? {
      var m := ReadsNothingElse(b, MAX_VARINT);
    }
  }

  // ---------------------------------------------------------------- integers on the wire

  /** A negative int32 goes out as the ten-byte varint of its 64-bit sign extension. */
  function SignExtended(v: Int32): UInt64 {
    if v < 0 then v + TWO64 else v
  }

  /** Reading an int32 keeps the low 32 bits. */
  function ToInt32(u: UInt64): Int32 {
    var w := u % TWO32;
    if w < TWO31 then w else w - TWO32
  }

  function ToUInt32(u: nat): UInt32 {
    u % TWO32
  }

  lemma Int32RoundTrip(v: Int32)
    ensures ToInt32(SignExtended(v)) == v
  {
  }

  /** On the wire a negative int32 is its 64-bit two's complement; reading keeps
      the number modulo 2^32. */
  lemma Int32IsTwosComplement(v: Int32, u: UInt64)
    ensures var b := Varint(SignExtended(v));
            IsVarint(b) && Spelled(b, |b|) == if v < 0 then 0x1_0000_0000_0000_0000 + v else v
    ensures (u - ToInt32(u)) % 0x1_0000_0000 == 0
    ensures (u - ToUInt32(u)) % 0x1_0000_0000 == 0
  {
    VarintSpells(SignExtended(v));
  }

  lemma {:induction false} VarintSizeIn(v: nat, k: nat)
    requires Pow128(k) <= v < Pow128(k + 1)
    ensures VarintSize(v) == k + 1
  {
    if k == 0 {
    } else {
      VarintSizeIn(v / 128, k - 1);
    }
  }

  lemma NegativeTakesTenBytes(v: Int32)
    requires v < 0
    ensures |Varint(SignExtended(v))| == 10
  {
    Pow128Of10();
    assert Pow128(9) == 128 * 128 * Pow128(7) && Pow128(7) == 128 * 128 * Pow128(5);
    assert Pow128(5) == 128 * 128 * Pow128(3) && Pow128(3) == 128 * 128 * 128;
    VarintSizeIn(SignExtended(v), 9);
    VarintLength(SignExtended(v));
  }

  // ---------------------------------------------------------------- records

  datatype Field =
    | VarintField(num: nat, value: UInt64)
    | Fixed64(num: nat, data: Bytes)
    | LengthDelimited(num: nat, data: Bytes)
    | Group(num: nat, body: seq<Field>)
    | Fixed32(num: nat, data: Bytes)

  const VARINT: nat := 0
  const FIXED64: nat := 1
  const LENGTH_DELIMITED: nat := 2
  const START_GROUP: nat := 3
  const END_GROUP: nat := 4
  const FIXED32: nat := 5

  function WireType(f: Field): nat {
    match f
    case VarintField(_, _) => VARINT
    case Fixed64(_, _) => FIXED64
    case LengthDelimited(_, _) => LENGTH_DELIMITED
    case Group(_, _) => START_GROUP
    case Fixed32(_, _) => FIXED32
  }

  function MakeTag(num: nat, wireType: nat): nat {
    num * 8 + wireType
  }

  function TagOf(f: Field): nat {
    MakeTag(f.num, WireType(f))
  }

  predicate FieldOk(f: Field, depth: nat)
    decreases f, 1
  {
    && 1 <= f.num < TWO29
    && match f
       case VarintField(_, _) => true
       case Fixed64(_, d) => |d| == 8
       case LengthDelimited(_, d) => |d| < TWO31
       case Group(_, body) => depth > 0 && FieldsOk(body, depth - 1)
       case Fixed32(_, d) => |d| == 4
  }

  predicate FieldsOk(fs: seq<Field>, depth: nat)
    decreases fs, 0
  {
    fs == [] || (FieldOk(fs[0], depth) && FieldsOk(fs[1..], depth))
  }

  // ---------------------------------------------------------------- writing

  function WriteField(f: Field): (b: Bytes)
    ensures b != []
    decreases f, 2
  {
    Varint(TagOf(f)) + Payload(f)
  }

  function Payload(f: Field): Bytes
    decreases f, 1
  {
    match f
    case VarintField(_, v) => Varint(v)
    case Fixed64(_, d) => d
    case LengthDelimited(_, d) => Varint(|d|) + d
    case Group(num, body) => WriteFields(body) + Varint(MakeTag(num, END_GROUP))
    case Fixed32(_, d) => d
  }

  function WriteFields(fs: seq<Field>): Bytes
    decreases fs, 0
  {
    if fs == [] then [] else WriteField(fs[0]) + WriteFields(fs[1..])
  }

  function FieldSize(f: Field): nat
    decreases f, 1
  {
    VarintSize(TagOf(f)) +
    match f
    case VarintField(_, v) => VarintSize(v)
    case Fixed64(_, _) => 8
    case LengthDelimited(_, d) => VarintSize(|d|) + |d|
    case Group(num, body) => FieldsSize(body) + VarintSize(MakeTag(num, END_GROUP))
    case Fixed32(_, _) => 4
  }

  function FieldsSize(fs: seq<Field>): nat
    decreases fs, 0
  {
    if fs == [] then 0 else FieldSize(fs[0]) + FieldsSize(fs[1..])
  }

  // ---------------------------------------------------------------- reading

  function Take(b: Bytes, n: nat): (r: Option<(Bytes, Bytes)>)
    ensures r.Some? ==> |r.value.1| <= |b|
  {
    if n <= |b| then Some((b[..n], b[n..])) else None
  }

  /** A length and that many bytes; lengths that do not fit an int are refused. */
  function ReadLengthDelimited(b: Bytes): (r: Option<(Bytes, Bytes)>)
    ensures r.Some? ==> |r.value.1| < |b|
  {
    match ReadVarint64(b)
    case None => None
    case Some((n, rest)) => if n >= TWO31 then None else Take(rest, n)
  }

  /** The record behind a tag that has been read (`WireFormat::SkipField`). */
  function ReadPayload(tag: UInt32, b: Bytes, depth: nat): (r: Option<(Field, Bytes)>)
    ensures r.Some? ==> |r.value.1| <= |b|
    decreases |b|, 1
  {
    var num, wireType := tag / 8, tag % 8;
    if num == 0 then None
    else if wireType == VARINT then
      match ReadVarint64(b)
      case None => None
      case Some((v, rest)) => Some((VarintField(num, v), rest))
    else if wireType == FIXED64 then
      match Take(b, 8)
      case None => None
      case Some((d, rest)) => Some((Fixed64(num, d), rest))
    else if wireType == LENGTH_DELIMITED then
      match ReadLengthDelimited(b)
      case None => None
      case Some((d, rest)) => Some((LengthDelimited(num, d), rest))
    else if wireType == START_GROUP then
      if depth == 0 then None
      else
        match ReadGroup(b, num, depth - 1)
        case None => None
        case Some((body, rest)) => Some((Group(num, body), rest))
    else if wireType == FIXED32 then
      match Take(b, 4)
      case None => None
      case Some((d, rest)) => Some((Fixed32(num, d), rest))
    else None
  }

  /** The records of a group up to the end tag of the same number. */
  function ReadGroup(b: Bytes, num: nat, depth: nat): (r: Option<(seq<Field>, Bytes)>)
    ensures r.Some? ==> |r.value.1| < |b|
    decreases |b|, 0
  {
    match ReadTag(b)
    case None => None
    case Some((tag, rest)) =>
      if tag == MakeTag(num, END_GROUP) then Some(([], rest))
      else
        match ReadPayload(tag, rest, depth)
        case None => None
        case Some((f, rest')) =>
          match ReadGroup(rest', num, depth)
          case None => None
          case Some((fs, rest'')) => Some(([f] + fs, rest''))
  }

  function ReadField(b: Bytes, depth: nat): (r: Option<(Field, Bytes)>)
    ensures r.Some? ==> |r.value.1| < |b|
  {
    match ReadTag(b)
    case None => None
    case Some((tag, rest)) => ReadPayload(tag, rest, depth)
  }

  /** A whole message as the list of its records. */
  function ReadFields(b: Bytes, depth: nat): Option<seq<Field>>
    decreases |b|
  {
    if b == [] then Some([])
    else
      match ReadField(b, depth)
      case None => None
      case Some((f, rest)) => Prepended([f], ReadFields(rest, depth))
  }

  /** What a generated parse loop sees: the records up to a tag that is zero or
      cannot be read, and whether the input is used up there. */
  function ReadUntilStop(b: Bytes, depth: nat): Option<(seq<Field>, bool)>
    decreases |b|
  {
    if b == [] then Some(([], true))
    else
      match ReadTag(b)
      case None => Some(([], false))
      case Some((tag, after)) =>
        if tag == 0 then Some(([], false))
        else
          match ReadPayload(tag, after, depth)
          case None => None
          case Some((f, rest)) =>
            match ReadUntilStop(rest, depth)
            case None => None
            case Some((fs, end)) => Some(([f] + fs, end))
  }

  function Prepended(fs: seq<Field>, r: Option<seq<Field>>): Option<seq<Field>> {
    match r
    case None => None
    case Some(gs) => Some(fs + gs)
  }

  // ---------------------------------------------------------------- what is read is well formed

  lemma {:induction false} PayloadOk(tag: UInt32, b: Bytes, depth: nat)
    requires ReadPayload(tag, b, depth).Some?
    ensures FieldOk(ReadPayload(tag, b, depth).value.0, depth)
    ensures TagOf(ReadPayload(tag, b, depth).value.0) == tag
    decreases |b|, 1
  {
    if tag % 8 == START_GROUP {
      GroupOk(b, tag / 8, depth - 1);
    }
  }

  lemma {:induction false} GroupOk(b: Bytes, num: nat, depth: nat)
    requires ReadGroup(b, num, depth).Some?
    ensures FieldsOk(ReadGroup(b, num, depth).value.0, depth)
    decreases |b|, 0
  {
    var (tag, rest) := ReadTag(b).value;
    if tag != MakeTag(num, END_GROUP) {
      PayloadOk(tag, rest, depth);
      GroupOk(ReadPayload(tag, rest, depth).value.1, num, depth);
    }
  }

  lemma {:induction false} ReadFieldsOk(b: Bytes, depth: nat)
    requires ReadFields(b, depth).Some?
    ensures FieldsOk(ReadFields(b, depth).value, depth)
    decreases |b|
  {
    if b == [] {
    } else {
      var (tag, rest) := ReadTag(b).value;
      PayloadOk(tag, rest, depth);
      ReadFieldsOk(ReadField(b, depth).value.1, depth);
    }
  }

  /** A record that nests no deeper than `d` nests no deeper than more. */
  lemma {:induction false} DeeperOk(f: Field, d: nat, e: nat)
    requires FieldOk(f, d) && d <= e
    ensures FieldOk(f, e)
    decreases f, 1
  {
    if f.Group? {
      DeeperAllOk(f.body, d - 1, e - 1);
    }
  }

  lemma {:induction false} DeeperAllOk(fs: seq<Field>, d: nat, e: nat)
    requires FieldsOk(fs, d) && d <= e
    ensures FieldsOk(fs, e)
    decreases fs, 0
  {
    if fs == [] {
    } else {
      DeeperOk(fs[0], d, e);
      DeeperAllOk(fs[1..], d, e);
    }
  }

  // ---------------------------------------------------------------- reading undoes writing

  lemma {:induction false} PayloadRoundTrip(f: Field, depth: nat, rest: Bytes)
    requires FieldOk(f, depth)
    ensures ReadPayload(TagOf(f), Payload(f) + rest, depth) == Some((f, rest))
    decreases f, 1
  {
    assert TagOf(f) / 8 == f.num && TagOf(f) % 8 == WireType(f);
    match f
    case VarintField(_, v) =>
      VarintRoundTrip(v, rest);
    case Fixed64(_, d) =>
      assert (d + rest)[..8] == d && (d + rest)[8..] == rest;
    case LengthDelimited(_, d) =>
      assert Payload(f) + rest == Varint(|d|) + (d + rest);
      VarintRoundTrip(|d|, d + rest);
      assert (d + rest)[..|d|] == d && (d + rest)[|d|..] == rest;
    case Group(num, body) =>
      var end := Varint(MakeTag(num, END_GROUP));
      assert Payload(f) + rest == WriteFields(body) + (end + rest);
      GroupRoundTrip(body, num, depth - 1, rest);
    case Fixed32(_, d) =>
      assert (d + rest)[..4] == d && (d + rest)[4..] == rest;
  }

  lemma {:induction false} GroupRoundTrip(fs: seq<Field>, num: nat, depth: nat, rest: Bytes)
    requires FieldsOk(fs, depth) && 1 <= num < TWO29
    ensures ReadGroup(WriteFields(fs) + (Varint(MakeTag(num, END_GROUP)) + rest), num, depth) == Some((fs, rest))
    decreases fs, 0
  {
    hide ReadPayload, ReadVarint, Varint, Payload;
    var end := Varint(MakeTag(num, END_GROUP)) + rest;
    if fs == [] {
      assert WriteFields(fs) + end == end;
      VarintRoundTrip(MakeTag(num, END_GROUP), rest);
    } else {
      var f := fs[0];
      var tail := WriteFields(fs[1..]) + end;
      assert WriteFields(fs) + end == Varint(TagOf(f)) + (Payload(f) + tail);
      VarintRoundTrip(TagOf(f), Payload(f) + tail);
      PayloadRoundTrip(f, depth, tail);
      assert TagOf(f) % 8 == WireType(f) != END_GROUP;
      GroupRoundTrip(fs[1..], num, depth, rest);
      assert [f] + fs[1..] == fs;
    }
  }

  lemma FieldRoundTrip(f: Field, depth: nat, rest: Bytes)
    requires FieldOk(f, depth)
    ensures ReadField(WriteField(f) + rest, depth) == Some((f, rest))
  {
    assert WriteField(f) + rest == Varint(TagOf(f)) + (Payload(f) + rest);
    VarintRoundTrip(TagOf(f), Payload(f) + rest);
    PayloadRoundTrip(f, depth, rest);
  }

  /** Records survive the wire. */
  lemma {:induction false} FieldsRoundTrip(fs: seq<Field>, depth: nat)
    requires FieldsOk(fs, depth)
    ensures ReadFields(WriteFields(fs), depth) == Some(fs)
    decreases |fs|
  {
    if fs == [] {
    } else {
      FieldRoundTrip(fs[0], depth, WriteFields(fs[1..]));
      FieldsRoundTrip(fs[1..], depth);
      assert [fs[0]] + fs[1..] == fs;
    }
  }

  lemma {:induction false} FieldLength(f: Field, depth: nat)
    requires FieldOk(f, depth)
    ensures |WriteField(f)| == FieldSize(f)
    decreases f, 1
  {
    VarintLength(TagOf(f));
    match f
    case VarintField(_, v) => VarintLength(v);
    case Fixed64(_, d) =>
    case LengthDelimited(_, d) => VarintLength(|d|);
    case Group(num, body) =>
      VarintLength(MakeTag(num, END_GROUP));
      FieldsLength(body, depth - 1);
    case Fixed32(_, d) =>
  }

  lemma {:induction false} FieldsLength(fs: seq<Field>, depth: nat)
    requires FieldsOk(fs, depth)
    ensures |WriteFields(fs)| == FieldsSize(fs)
    decreases fs, 0
  {
    if fs == [] {
    } else {
      FieldLength(fs[0], depth);
      FieldsLength(fs[1..], depth);
    }
  }

  // ---------------------------------------------------------------- concatenation

  lemma {:induction false} FieldsSizeConcat(a: seq<Field>, b: seq<Field>)
    ensures FieldsSize(a + b) == FieldsSize(a) + FieldsSize(b)
    decreases |a|
  {
    if a == [] {
      assert a + b == b;
    } else {
      assert (a + b)[1..] == a[1..] + b;
      FieldsSizeConcat(a[1..], b);
    }
  }

  lemma TakeLocal(b: Bytes, n: nat, c: Bytes)
    requires Take(b, n).Some?
    ensures Take(b + c, n) == Some((Take(b, n).value.0, Take(b, n).value.1 + c))
  {
    assert (b + c)[..n] == b[..n] && (b + c)[n..] == b[n..] + c;
  }

  lemma LengthDelimitedLocal(b: Bytes, c: Bytes)
    requires ReadLengthDelimited(b).Some?
    ensures ReadLengthDelimited(b + c) ==
            Some((ReadLengthDelimited(b).value.0, ReadLengthDelimited(b).value.1 + c))
  {
    ReadVarintLocal(b, MAX_VARINT, c);
    var (n, rest) := ReadVarint64(b).value;
    TakeLocal(rest, n, c);
  }

  lemma {:induction false} PayloadLocal(tag: UInt32, b: Bytes, depth: nat, c: Bytes)
    requires ReadPayload(tag, b, depth).Some?
    ensures ReadPayload(tag, b + c, depth) ==
            Some((ReadPayload(tag, b, depth).value.0, ReadPayload(tag, b, depth).value.1 + c))
    decreases |b|, 1
  {
    hide ReadGroup, ReadVarint, Take, ReadLengthDelimited;
    var wireType := tag % 8;
    if wireType == VARINT {
      ReadVarintLocal(b, MAX_VARINT, c);
    } else if wireType == FIXED64 {
      TakeLocal(b, 8, c);
    } else if wireType == LENGTH_DELIMITED {
      LengthDelimitedLocal(b, c);
    } else if wireType == START_GROUP {
      GroupLocal(b, tag / 8, depth - 1, c);
    } else {
      TakeLocal(b, 4, c);
    }
  }

  lemma {:induction false} GroupLocal(b: Bytes, num: nat, depth: nat, c: Bytes)
    requires ReadGroup(b, num, depth).Some?
    ensures ReadGroup(b + c, num, depth) ==
            Some((ReadGroup(b, num, depth).value.0, ReadGroup(b, num, depth).value.1 + c))
    decreases |b|, 0
  {
    ReadVarintLocal(b, MAX_VARINT, c);
    var (tag, rest) := ReadTag(b).value;
    if tag != MakeTag(num, END_GROUP) {
      PayloadLocal(tag, rest, depth, c);
      GroupLocal(ReadPayload(tag, rest, depth).value.1, num, depth, c);
    }
  }

  lemma FieldLocal(b: Bytes, depth: nat, c: Bytes)
    requires ReadField(b, depth).Some?
    ensures ReadField(b + c, depth) == Some((ReadField(b, depth).value.0, ReadField(b, depth).value.1 + c))
  {
    ReadVarintLocal(b, MAX_VARINT, c);
    var (tag, rest) := ReadTag(b).value;
    PayloadLocal(tag, rest, depth, c);
  }

  /** The records of `a + b` are those of `a` followed by those of `b`. */
  lemma {:induction false} ReadFieldsConcat(a: Bytes, b: Bytes, depth: nat)
    requires ReadFields(a, depth).Some?
    ensures ReadFields(a + b, depth) == Prepended(ReadFields(a, depth).value, ReadFields(b, depth))
    decreases |a|
  {
    hide ReadField;
    if a == [] {
      assert a + b == b;
      assert ReadFields(b, depth).Some? ==> [] + ReadFields(b, depth).value == ReadFields(b, depth).value;
    } else {
      FieldLocal(a, depth, b);
      var (f, rest) := ReadField(a, depth).value;
      ReadFieldsConcat(rest, b, depth);
      PrependedAssoc(f, ReadFields(rest, depth).value, ReadFields(b, depth));
    }
  }

  lemma PrependedAssoc(f: Field, fs: seq<Field>, r: Option<seq<Field>>)
    ensures Prepended([f], Prepended(fs, r)) == Prepended([f] + fs, r)
  {
    if r.Some? {
      assert [f] + (fs + r.value) == ([f] + fs) + r.value;
    }
  }

  lemma {:induction false} WriteFieldsConcat(a: seq<Field>, b: seq<Field>)
    ensures WriteFields(a + b) == WriteFields(a) + WriteFields(b)
    decreases |a|
  {
    if a == [] {
      assert a + b == b;
    } else {
      assert (a + b)[1..] == a[1..] + b;
      WriteFieldsConcat(a[1..], b);
    }
  }

  lemma NoFieldsOk(depth: nat)
    ensures FieldsOk([], depth)
  {
  }

  lemma OneFieldOk(f: Field, depth: nat)
    ensures FieldsOk([f], depth) <==> FieldOk(f, depth)
  {
    hide FieldOk;
    assert [f][1..] == [];
  }

  lemma {:induction false} FieldsOkConcat(a: seq<Field>, b: seq<Field>, depth: nat)
    requires FieldsOk(a, depth) && FieldsOk(b, depth)
    ensures FieldsOk(a + b, depth)
    decreases |a|
  {
    if a == [] {
      assert a + b == b;
    } else {
      assert (a + b)[1..] == a[1..] + b;
      FieldsOkConcat(a[1..], b, depth);
    }
  }

  /** A message is well formed exactly when the loop comes to the end of its input. */
  lemma {:induction false} WholeIsUntilStop(b: Bytes, depth: nat)
    ensures ReadFields(b, depth) ==
            match ReadUntilStop(b, depth)
            case None => None
            case Some((fs, end)) => if end then Some(fs) else None
    decreases |b|
  {
    hide ReadPayload;
    if b == [] {
    } else {
      if ReadTag(b).Some? {
        var (tag, after) := ReadTag(b).value;
        if tag == 0 {
          NoZeroField(after, depth);
        } else if ReadPayload(tag, after, depth).Some? {
          WholeIsUntilStop(ReadPayload(tag, after, depth).value.1, depth);
        }
      }
    }
  }

  /** Behind well-formed records the loop goes on as it would without them. */
  lemma {:induction false} UntilStopBehindRecords(a: Bytes, b: Bytes, depth: nat)
    requires ReadFields(a, depth).Some?
    ensures ReadUntilStop(a + b, depth) ==
            match ReadUntilStop(b, depth)
            case None => None
            case Some((fs, end)) => Some((ReadFields(a, depth).value + fs, end))
    decreases |a|
  {
    hide ReadPayload;
    if a == [] {
      assert a + b == b;
      assert ReadUntilStop(b, depth).Some? ==> [] + ReadUntilStop(b, depth).value.0 == ReadUntilStop(b, depth).value.0;
    } else {
      var (tag, after) := ReadTag(a).value;
      var (f, rest) := ReadField(a, depth).value;
      FieldLocal(a, depth, b);
      ReadVarintLocal(a, MAX_VARINT, b);
      NoZeroField(after, depth);
      PayloadLocal(tag, after, depth, b);
      UntilStopBehindRecords(rest, b, depth);
      if ReadUntilStop(b, depth).Some? {
        var fs := ReadUntilStop(b, depth).value.0;
        assert [f] + (ReadFields(rest, depth).value + fs) == ReadFields(a, depth).value + fs;
      }
    }
  }

  /** There it stops without an error at a zero or unreadable tag, and fails at a
      record that is malformed. */
  lemma UntilStopAtOnce(b: Bytes, depth: nat)
    requires b != []
    ensures ReadTag(b) == None || ReadTag(b).value.0 == 0 ==> ReadUntilStop(b, depth) == Some(([], false))
    ensures ReadTag(b).Some? && ReadTag(b).value.0 != 0 ==>
              var (tag, after) := ReadTag(b).value;
              ReadPayload(tag, after, depth) == None ==> ReadUntilStop(b, depth) == None
  {
  }

  lemma NoZeroField(b: Bytes, depth: nat)
    ensures ReadPayload(0, b, depth) == None
  {
  }

  // ---------------------------------------------------------------- the layout of records

  /** Field number and kind in the tag, then the payload, as the specification
      numbers the kinds. */
  lemma RecordLayout(f: Field)
    ensures WriteField(f) ==
            match f
            case VarintField(n, v) => Varint(8 * n + 0) + Varint(v)
            case Fixed64(n, d) => Varint(8 * n + 1) + d
            case LengthDelimited(n, d) => Varint(8 * n + 2) + (Varint(|d|) + d)
            case Group(n, body) => Varint(8 * n + 3) + (WriteFields(body) + Varint(8 * n + 4))
            case Fixed32(n, d) => Varint(8 * n + 5) + d
  {
  }

  /** What a record read says of its tag, and the bytes it took. */
  lemma PayloadShape(tag: UInt32, b: Bytes, depth: nat)
    ensures tag < 8 || tag % 8 == 4 || tag % 8 > 5 ==> ReadPayload(tag, b, depth) == None
    ensures tag >= 8 && tag % 8 == 1 ==>
              ReadPayload(tag, b, depth) == if |b| < 8 then None else Some((Fixed64(tag / 8, b[..8]), b[8..]))
    ensures tag >= 8 && tag % 8 == 5 ==>
              ReadPayload(tag, b, depth) == if |b| < 4 then None else Some((Fixed32(tag / 8, b[..4]), b[4..]))
    ensures tag % 8 == 3 && depth == 0 ==> ReadPayload(tag, b, depth) == None
    ensures ReadPayload(tag, b, depth).Some? ==>
              var f := ReadPayload(tag, b, depth).value.0;
              f.num == tag / 8 && (f.VarintField? <==> tag % 8 == 0) && (f.LengthDelimited? <==> tag % 8 == 2)
              && (f.Group? <==> tag % 8 == 3)
  {
  }

  // ---------------------------------------------------------------- the last of several

  /** The last length-delimited record of this number. */
  function LastData(fs: seq<Field>, num: nat): Option<Bytes> {
    if fs == [] then None
    else
      var f := fs[|fs| - 1];
      if f.LengthDelimited? && f.num == num then Some(f.data) else LastData(fs[..|fs| - 1], num)
  }

  /** The last varint record of this number. */
  function LastNumber(fs: seq<Field>, num: nat): Option<UInt64> {
    if fs == [] then None
    else
      var f := fs[|fs| - 1];
      if f.VarintField? && f.num == num then Some(f.value) else LastNumber(fs[..|fs| - 1], num)
  }

  lemma {:induction false} LastAppend(f: Field, fs: seq<Field>, num: nat)
    ensures LastData([f] + fs, num) == if LastData(fs, num).Some? then LastData(fs, num) else LastData([f], num)
    ensures LastNumber([f] + fs, num) == if LastNumber(fs, num).Some? then LastNumber(fs, num) else LastNumber([f], num)
    decreases |fs|
  {
    if fs == [] {
      assert [f] + fs == [f];
    } else {
      assert ([f] + fs)[..|fs|] == [f] + fs[..|fs| - 1];
      assert ([f] + fs)[|fs|] == fs[|fs| - 1];
      LastAppend(f, fs[..|fs| - 1], num);
    }
  }

  /** The records but for the length-delimited ones of the numbers `data` and the
      varints of the numbers `numbers`, in order. */
  function Kept(fs: seq<Field>, data: set<nat>, numbers: set<nat>): seq<Field> {
    if fs == [] then []
    else
      var known := (fs[0].LengthDelimited? && fs[0].num in data) || (fs[0].VarintField? && fs[0].num in numbers);
      (if known then [] else [fs[0]]) + Kept(fs[1..], data, numbers)
  }

  lemma KeptCons(f: Field, fs: seq<Field>, data: set<nat>, numbers: set<nat>)
    ensures Kept([f] + fs, data, numbers) == Kept([f], data, numbers) + Kept(fs, data, numbers)
  {
    assert ([f] + fs)[1..] == fs && [f][1..] == [];
  }

  function OrDefault<T>(v: Option<T>, d: T): T {
    if v.Some? then v.value else d
  }
}
