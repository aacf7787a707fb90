/** The proto3 messages PbBootstrapEndpoint and PbBootstrapCache
    (proto/ledger.pb.cc) as values.  Fields have no has-bits: an empty ip and a
    zero port are the defaults and are not written.  `utf8` is the library's
    UTF-8 check, which fails a parse; the statements hold for any check.
    `preserve` is the library's switch for writing unknown records. */
module LedgerMessages {
  import opened Options
  import opened Wire

  datatype Endpoint = Endpoint(ip: Bytes, port: UInt32, unknown: seq<Field>)

  datatype Cache = Cache(endpoints: seq<Endpoint>, unknown: seq<Field>)

  const NO_ENDPOINT := Endpoint([], 0, [])
  const NO_CACHE := Cache([], [])

  // ---------------------------------------------------------------- PbBootstrapEndpoint

  predicate EndpointKnows(f: Field) {
    (f.LengthDelimited? && f.num == 1) || (f.VarintField? && f.num == 2)
  }

  /** One round of the parse loop. */
  function Stored(m: Endpoint, f: Field, utf8: Bytes -> bool): Option<Endpoint> {
    match f
    case LengthDelimited(1, d) => if utf8(d) then Some(m.(ip := d)) else None
    case VarintField(2, v) => Some(m.(port := ToUInt32(v)))
    case _ => Some(m.(unknown := m.unknown + [f]))
  }

  function StoredAll(m: Endpoint, fs: seq<Field>, utf8: Bytes -> bool): Option<Endpoint>
    decreases |fs|
  {
    if fs == [] then Some(m)
    else
      match Stored(m, fs[0], utf8)
      case None => None
      case Some(m') => StoredAll(m', fs[1..], utf8)
  }

  function ParsedInto(m: Endpoint, b: Bytes, depth: nat, utf8: Bytes -> bool): Option<Endpoint> {
    match ReadFields(b, depth)
    case None => None
    case Some(fs) => StoredAll(m, fs, utf8)
  }

  function ParsedEndpoint(b: Bytes, depth: nat, utf8: Bytes -> bool): Option<Endpoint> {
    ParsedInto(NO_ENDPOINT, b, depth, utf8)
  }

  /** MergeFrom: only values that differ from the default are taken. */
  function Merged(a: Endpoint, b: Endpoint): Endpoint {
    Endpoint(if b.ip != [] then b.ip else a.ip, if b.port != 0 then b.port else a.port, a.unknown + b.unknown)
  }

  function KnownFields(m: Endpoint): seq<Field> {
    (if m.ip != [] then [LengthDelimited(1, m.ip)] else []) +
    (if m.port != 0 then [VarintField(2, m.port)] else [])
  }

  function EndpointFields(m: Endpoint, preserve: bool): seq<Field> {
    KnownFields(m) + if preserve then m.unknown else []
  }

  function EndpointBytes(m: Endpoint, preserve: bool): Bytes {
    WriteFields(EndpointFields(m, preserve))
  }

  predicate EndpointOk(m: Endpoint, depth: nat, utf8: Bytes -> bool) {
    && |m.ip| < TWO31 && (m.ip != [] ==> utf8(m.ip))
    && FieldsOk(m.unknown, depth) && (forall i :: 0 <= i < |m.unknown| ==> !EndpointKnows(m.unknown[i]))
  }

  // ---------------------------------------------------------------- what a run of records stores

  lemma StoresNewest(m: Endpoint, f: Field, utf8: Bytes -> bool)
    requires Stored(m, f, utf8).Some?
    ensures var r := Stored(m, f, utf8).value;
            && r.ip == OrDefault(LastData([f], 1), m.ip)
            && r.port == (if LastNumber([f], 2).Some? then LastNumber([f], 2).value % 0x1_0000_0000 else m.port)
            && r.unknown == m.unknown + Kept([f], {1}, {2})
  {
    assert [f][..0] == [] && [f][1..] == [];
  }

  /** A parse that succeeds stores the last value of each field it mentions. */
  lemma {:induction false} LastOneWins(m: Endpoint, fs: seq<Field>, utf8: Bytes -> bool)
    requires StoredAll(m, fs, utf8).Some?
    ensures var r := StoredAll(m, fs, utf8).value;
            && r.ip == OrDefault(LastData(fs, 1), m.ip)
            && r.port == (if LastNumber(fs, 2).Some? then LastNumber(fs, 2).value % 0x1_0000_0000 else m.port)
            && r.unknown == m.unknown + Kept(fs, {1}, {2})
    decreases |fs|
  {
    if fs == [] {
    } else {
      var f, rest := fs[0], fs[1..];
      LastOneWins(Stored(m, f, utf8).value, rest, utf8);
      StoresNewest(m, f, utf8);
      assert fs == [f] + rest;
      LastAppend(f, rest, 1);
      LastAppend(f, rest, 2);
      KeptCons(f, rest, {1}, {2});
      hide Stored, LastData, LastNumber, Kept;
      assert m.unknown + Kept([f], {1}, {2}) + Kept(rest, {1}, {2})
          == m.unknown + (Kept([f], {1}, {2}) + Kept(rest, {1}, {2}));
    }
  }

  /** A parse of well-formed records fails exactly when some ip is not UTF-8. */
  lemma {:induction false} FailsExactlyOnBadText(m: Endpoint, fs: seq<Field>, utf8: Bytes -> bool)
    ensures StoredAll(m, fs, utf8) == None <==>
              exists i :: 0 <= i < |fs| && fs[i].LengthDelimited? && fs[i].num == 1 && !utf8(fs[i].data)
    decreases |fs|
  {
    if fs == [] {
    } else {
      assert fs == [fs[0]] + fs[1..];
      if Stored(m, fs[0], utf8).Some? {
        FailsExactlyOnBadText(Stored(m, fs[0], utf8).value, fs[1..], utf8);
      }
      assert forall i :: 0 < i < |fs| ==> fs[i] == fs[1..][i - 1];
    }
  }

  /** Success does not depend on the message parsed into, and unknown records
      are appended to it. */
  lemma {:induction false} SameSuccess(m: Endpoint, x: Endpoint, fs: seq<Field>, utf8: Bytes -> bool)
    ensures StoredAll(m, fs, utf8).Some? <==> StoredAll(x, fs, utf8).Some?
    ensures m.unknown == x.unknown && StoredAll(m, fs, utf8).Some? ==>
              StoredAll(m, fs, utf8).value.unknown == StoredAll(x, fs, utf8).value.unknown
    decreases |fs|
  {
    if fs == [] {
    } else {
      var m', x' := Stored(m, fs[0], utf8), Stored(x, fs[0], utf8);
      assert m'.Some? <==> x'.Some?;
      if m'.Some? {
        SameSuccess(m'.value, x'.value, fs[1..], utf8);
      }
    }
  }

  lemma {:induction false} UnknownAppended(m: Endpoint, fs: seq<Field>, utf8: Bytes -> bool)
    requires StoredAll(m, fs, utf8).Some?
    ensures StoredAll(NO_ENDPOINT, fs, utf8).Some?
    ensures StoredAll(m, fs, utf8).value.unknown == m.unknown + StoredAll(NO_ENDPOINT, fs, utf8).value.unknown
  {
    SameSuccess(m, NO_ENDPOINT, fs, utf8);
    UnknownTail(m, NO_ENDPOINT, m.unknown, fs, utf8);
  }

  lemma {:induction false} UnknownTail(m: Endpoint, x: Endpoint, u: seq<Field>, fs: seq<Field>, utf8: Bytes -> bool)
    requires StoredAll(m, fs, utf8).Some? && StoredAll(x, fs, utf8).Some?
    requires m.unknown == u + x.unknown
    ensures StoredAll(m, fs, utf8).value.unknown == u + StoredAll(x, fs, utf8).value.unknown
    decreases |fs|
  {
    if fs == [] {
    } else {
      assert u + x.unknown + [fs[0]] == u + (x.unknown + [fs[0]]);
      UnknownTail(Stored(m, fs[0], utf8).value, Stored(x, fs[0], utf8).value, u, fs[1..], utf8);
    }
  }

  lemma {:induction false} StoredAllConcat(m: Endpoint, fs: seq<Field>, gs: seq<Field>, utf8: Bytes -> bool)
    requires StoredAll(m, fs, utf8).Some?
    ensures StoredAll(m, fs + gs, utf8) == StoredAll(StoredAll(m, fs, utf8).value, gs, utf8)
    decreases |fs|
  {
    if fs == [] {
      assert fs + gs == gs;
    } else {
      assert (fs + gs)[1..] == fs[1..] + gs;
      StoredAllConcat(Stored(m, fs[0], utf8).value, fs[1..], gs, utf8);
    }
  }

  // ---------------------------------------------------------------- concatenation against merge

  /** `b` ends up saying an explicit default for a field that `a` has set. */
  predicate ResetsTo(a: Endpoint, b: Bytes, depth: nat)
    requires ReadFields(b, depth).Some?
  {
    var gs := ReadFields(b, depth).value;
    (LastData(gs, 1) == Some([]) && a.ip != []) ||
    (LastNumber(gs, 2).Some? && LastNumber(gs, 2).value % 0x1_0000_0000 == 0 && a.port != 0)
  }

  /** Concatenation is merge, proto3, exactly when the second string does not
      reset to its default a field that the first has set. */
  lemma EndpointConcatIsMergeUnlessReset(a: Bytes, b: Bytes, depth: nat, utf8: Bytes -> bool)
    requires ParsedEndpoint(a, depth, utf8).Some? && ParsedEndpoint(b, depth, utf8).Some?
    ensures ParsedEndpoint(a + b, depth, utf8).Some?
    ensures ParsedEndpoint(a + b, depth, utf8).value ==
              Merged(ParsedEndpoint(a, depth, utf8).value, ParsedEndpoint(b, depth, utf8).value)
            <==> !ResetsTo(ParsedEndpoint(a, depth, utf8).value, b, depth)
  {
    var fs, gs := ReadFields(a, depth).value, ReadFields(b, depth).value;
    ReadFieldsConcat(a, b, depth);
    StoredAllConcat(NO_ENDPOINT, fs, gs, utf8);
    var x := ParsedEndpoint(a, depth, utf8).value;
    SameSuccess(x, NO_ENDPOINT, gs, utf8);
    UnknownAppended(x, gs, utf8);
    LastOneWins(x, gs, utf8);
    LastOneWins(NO_ENDPOINT, gs, utf8);
  }

  /** The condition is needed: an explicit zero port behind port 80. */
  lemma ExplicitZeroResetsPort(utf8: Bytes -> bool)
    ensures ParsedEndpoint([16, 80], 0, utf8) == Some(Endpoint([], 80, []))
    ensures ParsedEndpoint([16, 0], 0, utf8) == Some(NO_ENDPOINT)
    ensures ParsedEndpoint([16, 80] + [16, 0], 0, utf8) == Some(NO_ENDPOINT)
    ensures Merged(Endpoint([], 80, []), NO_ENDPOINT) == Endpoint([], 80, [])
  {
    PortRecord(80);
    PortRecord(0);
    ReadFieldsConcat([16, 80], [16, 0], 0);
    assert [VarintField(2, 80)] + [VarintField(2, 0)] == [VarintField(2, 80), VarintField(2, 0)];
    assert [VarintField(2, 80)][1..] == [] && [VarintField(2, 0)][1..] == [];
    assert [VarintField(2, 80), VarintField(2, 0)][1..] == [VarintField(2, 0)];
  }

  lemma PortRecord(p: UInt32)
    requires p < 128
    ensures ReadFields([16, p], 0) == Some([VarintField(2, p)])
  {
    var f := VarintField(2, p);
    OneFieldOk(f, 0);
    assert [f][1..] == [];
    assert WriteFields([f]) == WriteField(f) + [] == [16, p];
    FieldsRoundTrip([f], 0);
  }

  // ---------------------------------------------------------------- round trip

  lemma KnownFieldsOk(m: Endpoint, depth: nat)
    requires |m.ip| < TWO31
    ensures FieldsOk(KnownFields(m), depth)
  {
    hide FieldsOk;
    var ip := if m.ip == [] then [] else [LengthDelimited(1, m.ip)];
    var port := if m.port == 0 then [] else [VarintField(2, m.port)];
    OneFieldOk(LengthDelimited(1, m.ip), depth);
    OneFieldOk(VarintField(2, m.port), depth);
    NoFieldsOk(depth);
    assert KnownFields(m) == ip + port;
    FieldsOkConcat(ip, port, depth);
  }

  lemma {:induction false} StoredUnknown(m: Endpoint, fs: seq<Field>, utf8: Bytes -> bool)
    requires forall i :: 0 <= i < |fs| ==> !EndpointKnows(fs[i])
    ensures StoredAll(m, fs, utf8) == Some(m.(unknown := m.unknown + fs))
    decreases |fs|
  {
    if fs == [] {
      assert m.unknown + [] == m.unknown;
    } else {
      assert Stored(m, fs[0], utf8) == Some(m.(unknown := m.unknown + [fs[0]]));
      StoredUnknown(m.(unknown := m.unknown + [fs[0]]), fs[1..], utf8);
      assert m.unknown + [fs[0]] + fs[1..] == m.unknown + fs;
    }
  }

  lemma StoredKnown(m: Endpoint, x: Endpoint, utf8: Bytes -> bool)
    requires m.ip != [] ==> utf8(m.ip)
    ensures StoredAll(x, KnownFields(m), utf8) == Some(Merged(x, m).(unknown := x.unknown))
  {
    var ip := LengthDelimited(1, m.ip);
    var port := VarintField(2, m.port);
    var x' := x.(ip := m.ip);
    assert m.ip != [] ==> Stored(x, ip, utf8) == Some(x');
    assert Stored(x, port, utf8) == Some(x.(port := m.port));
    assert Stored(x', port, utf8) == Some(x'.(port := m.port));
    hide Stored;
    if m.ip != [] && m.port != 0 {
      assert KnownFields(m) == [ip, port] && [ip, port][1..] == [port];
      StoredOne(x', port, utf8);
    } else if m.ip != [] {
      assert KnownFields(m) == [ip];
      StoredOne(x, ip, utf8);
    } else if m.port != 0 {
      assert KnownFields(m) == [port];
      StoredOne(x, port, utf8);
    }
  }

  lemma StoredOne(x: Endpoint, f: Field, utf8: Bytes -> bool)
    ensures StoredAll(x, [f], utf8) == Stored(x, f, utf8)
  {
    hide Stored;
    assert [f][1..] == [];
  }

  /** Parsing the bytes of `m` into `x` merges `m` into `x`. */
  lemma ParsedSerialized(m: Endpoint, x: Endpoint, depth: nat, utf8: Bytes -> bool)
    requires EndpointOk(m, depth, utf8)
    ensures ParsedInto(x, EndpointBytes(m, true), depth, utf8) == Some(Merged(x, m))
  {
    KnownFieldsOk(m, depth);
    FieldsOkConcat(KnownFields(m), m.unknown, depth);
    FieldsRoundTrip(EndpointFields(m, true), depth);
    StoredKnown(m, x, utf8);
    StoredAllConcat(x, KnownFields(m), m.unknown, utf8);
    StoredUnknown(Merged(x, m).(unknown := x.unknown), m.unknown, utf8);
  }

  /** The round trip: omitted defaults come back as defaults.  Without the
      unknown records, everything else comes back. */
  lemma EndpointRoundTrip(m: Endpoint, depth: nat, utf8: Bytes -> bool, preserve: bool)
    requires EndpointOk(m, depth, utf8)
    ensures ParsedEndpoint(EndpointBytes(m, preserve), depth, utf8) == Some(if preserve then m else m.(unknown := []))
  {
    var w := if preserve then m else m.(unknown := []);
    assert EndpointFields(m, preserve) == EndpointFields(w, true);
    ParsedSerialized(w, NO_ENDPOINT, depth, utf8);
    assert [] + w.unknown == w.unknown;
  }

  /** For the bytes that the serializer writes, concatenation is always merge. */
  lemma CanonicalConcatIsMerge(a: Endpoint, b: Endpoint, depth: nat, utf8: Bytes -> bool)
    requires EndpointOk(a, depth, utf8) && EndpointOk(b, depth, utf8)
    ensures ParsedEndpoint(EndpointBytes(a, true) + EndpointBytes(b, true), depth, utf8) == Some(Merged(a, b))
  {
    var x, y := EndpointBytes(a, true), EndpointBytes(b, true);
    EndpointRoundTrip(a, depth, utf8, true);
    ReadFieldsConcat(x, y, depth);
    ParsedSerialized(b, a, depth, utf8);
    StoredAllConcat(NO_ENDPOINT, ReadFields(x, depth).value, ReadFields(y, depth).value, utf8);
  }

  // ---------------------------------------------------------------- PbBootstrapCache

  const NESTED: nat := RECURSION_LIMIT - 1

  function StoredEndpoint(m: Cache, f: Field, utf8: Bytes -> bool): Option<Cache> {
    match f
    case LengthDelimited(1, d) =>
      (match ParsedEndpoint(d, NESTED, utf8)
       case None => None
       case Some(e) => Some(m.(endpoints := m.endpoints + [e])))
    case _ => Some(m.(unknown := m.unknown + [f]))
  }

  function StoredEndpoints(m: Cache, fs: seq<Field>, utf8: Bytes -> bool): Option<Cache>
    decreases |fs|
  {
    if fs == [] then Some(m)
    else
      match StoredEndpoint(m, fs[0], utf8)
      case None => None
      case Some(m') => StoredEndpoints(m', fs[1..], utf8)
  }

  function ParsedCache(b: Bytes, utf8: Bytes -> bool): Option<Cache> {
    match ReadFields(b, RECURSION_LIMIT)
    case None => None
    case Some(fs) => StoredEndpoints(NO_CACHE, fs, utf8)
  }

  function MergedCache(a: Cache, b: Cache): Cache {
    Cache(a.endpoints + b.endpoints, a.unknown + b.unknown)
  }

  function EndpointRecords(es: seq<Endpoint>, preserve: bool): (r: seq<Field>)
    ensures |r| == |es|
    ensures forall i :: 0 <= i < |r| ==> r[i] == LengthDelimited(1, EndpointBytes(es[i], preserve))
  {
    seq(|es|, i requires 0 <= i < |es| => LengthDelimited(1, EndpointBytes(es[i], preserve)))
  }

  function CacheBytes(m: Cache, preserve: bool): Bytes {
    WriteFields(EndpointRecords(m.endpoints, preserve) + if preserve then m.unknown else [])
  }

  predicate CacheKnows(f: Field) {
    f.LengthDelimited? && f.num == 1
  }

  predicate CacheOk(m: Cache, utf8: Bytes -> bool) {
    && (forall i :: 0 <= i < |m.endpoints| ==>
          EndpointOk(m.endpoints[i], NESTED, utf8) && |EndpointBytes(m.endpoints[i], true)| < TWO31)
    && FieldsOk(m.unknown, RECURSION_LIMIT) && (forall i :: 0 <= i < |m.unknown| ==> !CacheKnows(m.unknown[i]))
  }

  lemma {:induction false} StoredEndpointsMerges(a: Cache, x: Cache, fs: seq<Field>, utf8: Bytes -> bool)
    ensures StoredEndpoints(MergedCache(a, x), fs, utf8) ==
            match StoredEndpoints(x, fs, utf8)
            case None => None
            case Some(y) => Some(MergedCache(a, y))
    decreases |fs|
  {
    if fs == [] {
    } else {
      var f := fs[0];
      match StoredEndpoint(x, f, utf8) {
        case None =>
        case Some(x') =>
          if CacheKnows(f) {
            assert a.endpoints + x.endpoints + [ParsedEndpoint(f.data, NESTED, utf8).value] == a.endpoints + x'.endpoints;
          } else {
            assert a.unknown + x.unknown + [f] == a.unknown + x'.unknown;
          }
          assert StoredEndpoint(MergedCache(a, x), f, utf8) == Some(MergedCache(a, x'));
          StoredEndpointsMerges(a, x', fs[1..], utf8);
      }
    }
  }

  lemma {:induction false} StoredEndpointsConcat(m: Cache, fs: seq<Field>, gs: seq<Field>, utf8: Bytes -> bool)
    requires StoredEndpoints(m, fs, utf8).Some?
    ensures StoredEndpoints(m, fs + gs, utf8) == StoredEndpoints(StoredEndpoints(m, fs, utf8).value, gs, utf8)
    decreases |fs|
  {
    if fs == [] {
      assert fs + gs == gs;
    } else {
      assert (fs + gs)[1..] == fs[1..] + gs;
      StoredEndpointsConcat(StoredEndpoint(m, fs[0], utf8).value, fs[1..], gs, utf8);
    }
  }

  /** For the cache, concatenation of any well-formed bytes is concatenation of
      the endpoint lists: an endpoint record is never merged into another. */
  lemma CacheConcatIsMerge(a: Bytes, b: Bytes, utf8: Bytes -> bool)
    requires ParsedCache(a, utf8).Some?
    ensures ParsedCache(a + b, utf8) ==
            match ParsedCache(b, utf8)
            case None => None
            case Some(y) => Some(MergedCache(ParsedCache(a, utf8).value, y))
  {
    ReadFieldsConcat(a, b, RECURSION_LIMIT);
    if ReadFields(b, RECURSION_LIMIT).Some? {
      var fs, gs := ReadFields(a, RECURSION_LIMIT).value, ReadFields(b, RECURSION_LIMIT).value;
      var x := ParsedCache(a, utf8).value;
      StoredEndpointsConcat(NO_CACHE, fs, gs, utf8);
      assert x.endpoints + [] == x.endpoints && x.unknown + [] == x.unknown;
      assert MergedCache(x, NO_CACHE) == x;
      StoredEndpointsMerges(x, NO_CACHE, gs, utf8);
    }
  }

  lemma StoredRecord(m: Cache, e: Endpoint, utf8: Bytes -> bool)
    requires EndpointOk(e, NESTED, utf8)
    ensures StoredEndpoint(m, LengthDelimited(1, EndpointBytes(e, true)), utf8)
         == Some(m.(endpoints := m.endpoints + [e]))
  {
    EndpointRoundTrip(e, NESTED, utf8, true);
    hide EndpointOk, EndpointBytes, ParsedEndpoint;
  }

  lemma {:induction false} StoredEndpointRecords(m: Cache, es: seq<Endpoint>, utf8: Bytes -> bool)
    requires forall i :: 0 <= i < |es| ==> EndpointOk(es[i], NESTED, utf8)
    ensures StoredEndpoints(m, EndpointRecords(es, true), utf8) == Some(m.(endpoints := m.endpoints + es))
    decreases |es|
  {
    hide EndpointOk, EndpointBytes, StoredEndpoint;
    if es == [] {
      assert m.endpoints + [] == m.endpoints;
    } else {
      StoredRecord(m, es[0], utf8);
      assert EndpointRecords(es, true)[1..] == EndpointRecords(es[1..], true);
      StoredEndpointRecords(m.(endpoints := m.endpoints + [es[0]]), es[1..], utf8);
      assert m.endpoints + [es[0]] + es[1..] == m.endpoints + es;
    }
  }

  lemma {:induction false} StoredUnknownRecords(m: Cache, fs: seq<Field>, utf8: Bytes -> bool)
    requires forall i :: 0 <= i < |fs| ==> !CacheKnows(fs[i])
    ensures StoredEndpoints(m, fs, utf8) == Some(m.(unknown := m.unknown + fs))
    decreases |fs|
  {
    if fs == [] {
      assert m.unknown + [] == m.unknown;
    } else {
      StoredUnknownRecords(m.(unknown := m.unknown + [fs[0]]), fs[1..], utf8);
      assert m.unknown + [fs[0]] + fs[1..] == m.unknown + fs;
    }
  }

  lemma {:induction false} EndpointRecordsOk(es: seq<Endpoint>)
    requires forall i :: 0 <= i < |es| ==> |EndpointBytes(es[i], true)| < TWO31
    ensures FieldsOk(EndpointRecords(es, true), RECURSION_LIMIT)
    decreases |es|
  {
    if es == [] {
    } else {
      assert EndpointRecords(es, true)[1..] == EndpointRecords(es[1..], true);
      EndpointRecordsOk(es[1..]);
    }
  }

  lemma CacheRoundTrip(m: Cache, utf8: Bytes -> bool)
    requires CacheOk(m, utf8)
    ensures ParsedCache(CacheBytes(m, true), utf8) == Some(m)
  {
    var rs := EndpointRecords(m.endpoints, true);
    EndpointRecordsOk(m.endpoints);
    FieldsOkConcat(rs, m.unknown, RECURSION_LIMIT);
    FieldsRoundTrip(rs + m.unknown, RECURSION_LIMIT);
    StoredEndpointRecords(NO_CACHE, m.endpoints, utf8);
    StoredEndpointsConcat(NO_CACHE, rs, m.unknown, utf8);
    StoredUnknownRecords(Cache([] + m.endpoints, []), m.unknown, utf8);
    assert [] + m.endpoints == m.endpoints && [] + m.unknown == m.unknown;
  }

  // ---------------------------------------------------------------- the layout of both messages

  lemma OneWritten(f: Field)
    ensures WriteFields([f]) == WriteField(f)
  {
    assert [f][1..] == [] && WriteField(f) + [] == WriteField(f);
  }

  /** Tag 10 before the ip, tag 16 before the port, defaults left out. */
  lemma EndpointLayout(m: Endpoint, preserve: bool)
    ensures EndpointBytes(m, preserve) ==
            (if m.ip == [] then [] else [10] + Varint(|m.ip|) + m.ip) +
            (if m.port == 0 then [] else [16] + Varint(m.port)) +
            (if preserve then WriteFields(m.unknown) else [])
  {
    var ip := if m.ip == [] then [] else [LengthDelimited(1, m.ip)];
    var port := if m.port == 0 then [] else [VarintField(2, m.port)];
    assert Varint(10) == [10] && Varint(16) == [16];
    OneWritten(LengthDelimited(1, m.ip));
    OneWritten(VarintField(2, m.port));
    WriteFieldsConcat(ip, port);
    WriteFieldsConcat(ip + port, if preserve then m.unknown else []);
    assert KnownFields(m) == ip + port;
  }

  /** The endpoints in order, tag 10 and its size before each. */
  function EndpointsLaidOut(es: seq<Endpoint>, preserve: bool): Bytes {
    if es == [] then []
    else
      var b := EndpointBytes(es[0], preserve);
      ([10] + Varint(|b|) + b) + EndpointsLaidOut(es[1..], preserve)
  }

  lemma {:induction false} EndpointRecordsLayout(es: seq<Endpoint>, preserve: bool)
    ensures WriteFields(EndpointRecords(es, preserve)) == EndpointsLaidOut(es, preserve)
  {
    hide EndpointBytes;
    if es == [] {
    } else {
      EndpointRecordsLayout(es[1..], preserve);
      var b := EndpointBytes(es[0], preserve);
      assert EndpointRecords(es, preserve) == [LengthDelimited(1, b)] + EndpointRecords(es[1..], preserve);
      WriteFieldsConcat([LengthDelimited(1, b)], EndpointRecords(es[1..], preserve));
      OneWritten(LengthDelimited(1, b));
      assert Varint(10) == [10];
      assert WriteField(LengthDelimited(1, b)) == [10] + Varint(|b|) + b;
    }
  }

  lemma CacheLayout(m: Cache, preserve: bool)
    ensures CacheBytes(m, preserve) ==
            EndpointsLaidOut(m.endpoints, preserve) + if preserve then WriteFields(m.unknown) else []
  {
    EndpointRecordsLayout(m.endpoints, preserve);
    WriteFieldsConcat(EndpointRecords(m.endpoints, preserve), if preserve then m.unknown else []);
  }

  /** A list fails to parse exactly when a nested endpoint does. */
  lemma {:induction false} ListFailsExactlyOnBadEndpoint(m: Cache, fs: seq<Field>, utf8: Bytes -> bool)
    ensures StoredEndpoints(m, fs, utf8) == None <==>
              exists i :: 0 <= i < |fs| && fs[i].LengthDelimited? && fs[i].num == 1
                          && ParsedEndpoint(fs[i].data, NESTED, utf8) == None
    ensures StoredEndpoints(m, fs, utf8).Some? ==>
              StoredEndpoints(m, fs, utf8).value.unknown == m.unknown + Kept(fs, {1}, {})
    decreases |fs|
  {
    hide ParsedEndpoint;
    if fs == [] {
    } else {
      assert fs == [fs[0]] + fs[1..];
      if StoredEndpoint(m, fs[0], utf8).Some? {
        ListFailsExactlyOnBadEndpoint(StoredEndpoint(m, fs[0], utf8).value, fs[1..], utf8);
        assert m.unknown + [fs[0]] + Kept(fs[1..], {1}, {}) == m.unknown + ([fs[0]] + Kept(fs[1..], {1}, {}));
      }
      assert forall i :: 0 < i < |fs| ==> fs[i] == fs[1..][i - 1];
    }
  }
}
