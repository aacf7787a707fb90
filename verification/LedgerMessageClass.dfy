/** PbBootstrapEndpoint and PbBootstrapCache as the objects the generated code
    works on (proto/ledger.pb.cc). */
module LedgerMessageClass {
  import opened Options
  import opened Wire
  import opened LedgerMessages
  import opened Buffers

  lemma OneRecord(f: Field)
    ensures WriteFields([f]) == WriteField(f) && FieldsSize([f]) == FieldSize(f)
  {
    assert [f][1..] == [];
    assert WriteFields([f]) == WriteField(f) + [];
  }

  /** The known records one by one, as both serializers and the size add them. */
  lemma KnownParts(m: Endpoint)
    ensures WriteFields(KnownFields(m)) ==
            (if m.ip != [] then WriteField(LengthDelimited(1, m.ip)) else []) +
            (if m.port != 0 then WriteField(VarintField(2, m.port)) else [])
    ensures FieldsSize(KnownFields(m)) ==
            (if m.ip != [] then 1 + (VarintSize(|m.ip|) + |m.ip|) else 0) +
            (if m.port != 0 then 1 + VarintSize(m.port) else 0)
  {
    var ip := if m.ip != [] then [LengthDelimited(1, m.ip)] else [];
    var port := if m.port != 0 then [VarintField(2, m.port)] else [];
    WriteFieldsConcat(ip, port);
    FieldsSizeConcat(ip, port);
    OneRecord(LengthDelimited(1, m.ip));
    OneRecord(VarintField(2, m.port));
  }

  lemma EndpointParts(m: Endpoint, preserve: bool)
    ensures EndpointBytes(m, preserve) == WriteFields(KnownFields(m)) + if preserve then WriteFields(m.unknown) else []
    ensures |WriteFields(KnownFields(m))| <= |EndpointBytes(m, preserve)|
  {
    WriteFieldsConcat(KnownFields(m), if preserve then m.unknown else []);
  }

  /** What the parse loop leaves, and whether it used up its input. */
  function LoopedEndpoint(m: Endpoint, b: Bytes, depth: nat, utf8: Bytes -> bool): Option<(Endpoint, bool)> {
    match ReadUntilStop(b, depth)
    case None => None
    case Some((fs, end)) =>
      match StoredAll(m, fs, utf8)
      case None => None
      case Some(m') => Some((m', end))
  }

  lemma LoopedEndpointIsParsed(m: Endpoint, b: Bytes, depth: nat, utf8: Bytes -> bool)
    ensures ParsedInto(m, b, depth, utf8) ==
            match LoopedEndpoint(m, b, depth, utf8)
            case None => None
            case Some((m', end)) => if end then Some(m') else None
  {
    WholeIsUntilStop(b, depth);
  }

  lemma LoopedEndpointEnd(m: Endpoint, depth: nat, utf8: Bytes -> bool)
    ensures LoopedEndpoint(m, [], depth, utf8) == Some((m, true))
  {
  }

  /** One round of the parse loop. */
  lemma LoopedEndpointRound(m: Endpoint, b: Bytes, depth: nat, utf8: Bytes -> bool)
    requires b != []
    ensures match ReadTag(b)
            case None => LoopedEndpoint(m, b, depth, utf8) == Some((m, false))
            case Some((tag, after)) =>
              if tag == 0 then LoopedEndpoint(m, b, depth, utf8) == Some((m, false))
              else
                match ReadPayload(tag, after, depth)
                case None => LoopedEndpoint(m, b, depth, utf8) == None
                case Some((f, rest)) =>
                  LoopedEndpoint(m, b, depth, utf8) == (
                  match Stored(m, f, utf8)
                  case None => None
                  case Some(m') => LoopedEndpoint(m', rest, depth, utf8))
  {
    hide ReadPayload, Stored;
    if ReadTag(b).Some? && ReadTag(b).value.0 != 0 {
      var (tag, after) := ReadTag(b).value;
      if ReadPayload(tag, after, depth).Some? {
        var (f, rest) := ReadPayload(tag, after, depth).value;
        if ReadUntilStop(rest, depth).Some? {
          var fs := ReadUntilStop(rest, depth).value.0;
          assert ([f] + fs)[1..] == fs;
        }
      }
    }
  }

  class EndpointMessage {
    var ip: Bytes
    var port: UInt32
    var unknown: seq<Field>

    ghost function View(): Endpoint
      reads this
    {
      Endpoint(ip, port, unknown)
    }

    constructor ()
      ensures View() == NO_ENDPOINT
    {
      ip, port, unknown := [], 0, [];
    }

    constructor Copy(from: Endpoint)
      ensures View() == from
    {
      ip, port, unknown := from.ip, from.port, from.unknown;
    }

    method MergeFrom(from: EndpointMessage)
      requires from != this
      modifies this
      ensures View() == Merged(old(View()), from.View())
    {
      unknown := unknown + from.unknown;
      if |from.ip| > 0 {
        ip := from.ip;
      }
      if from.port != 0 {
        port := from.port;
      }
    }

    /** The switch of the parse loop; an ip that is not UTF-8 fails the parse. */
    method ReadOne(tag: UInt32, input: Bytes, depth: nat, utf8: Bytes -> bool) returns (left: Option<Bytes>)
      modifies this
      ensures match ReadPayload(tag, input, depth)
              case None => left == None
              case Some((f, rest)) =>
                match Stored(old(View()), f, utf8)
                case None => left == None
                case Some(m) => left == Some(rest) && View() == m
    {
      hide ReadVarint64, ReadLengthDelimited, ReadGroup, Take;
      left := None;
      if tag == 10 {
        match ReadLengthDelimited(input)
        case None =>
        case Some((d, rest)) =>
          ip := d;
          if utf8(ip) {
            left := Some(rest);
          }
      } else if tag == 16 {
        match ReadVarint64(input)
        case None =>
        case Some((v, rest)) =>
          port := ToUInt32(v);
          left := Some(rest);
      } else {
        match ReadPayload(tag, input, depth)
        case None =>
        case Some((f, rest)) =>
          PayloadOk(tag, input, depth);
          unknown := unknown + [f];
          left := Some(rest);
      }
    }

    method MergePartialFromCodedStream(input: Bytes, depth: nat, utf8: Bytes -> bool) returns (ok: bool, consumed: bool)
      modifies this
      ensures LoopedEndpoint(old(View()), input, depth, utf8) == if ok then Some((View(), consumed)) else None
      ensures ParsedInto(old(View()), input, depth, utf8) == if ok && consumed then Some(View()) else None
    {
      hide ReadPayload, Stored, LoopedEndpoint;
      ghost var goal := LoopedEndpoint(View(), input, depth, utf8);
      LoopedEndpointIsParsed(View(), input, depth, utf8);
      var rest := input;
      while rest != []
        invariant goal == LoopedEndpoint(View(), rest, depth, utf8)
        decreases |rest|
      {
        LoopedEndpointRound(View(), rest, depth, utf8);
        match ReadTag(rest)
        case None => return true, false;
        case Some((tag, after)) =>
          if tag == 0 {
            return true, false;
          }
          var left := ReadOne(tag, after, depth, utf8);
          if left == None {
            return false, false;
          }
          rest := left.value;
      }
      LoopedEndpointEnd(View(), depth, utf8);
      return true, true;
    }

    method ByteSizeLong(preserve: bool) returns (totalSize: nat)
      requires |ip| < TWO31 && FieldsOk(unknown, RECURSION_LIMIT)
      ensures totalSize == |EndpointBytes(View(), preserve)|
    {
      totalSize := 0;
      if |unknown| > 0 && preserve {
        totalSize := totalSize + FieldsSize(unknown);
      }
      if |ip| > 0 {
        totalSize := totalSize + 1 + (VarintSize(|ip|) + |ip|);
      }
      if port != 0 {
        totalSize := totalSize + 1 + VarintSize(port);
      }
      KnownParts(View());
      EndpointParts(View(), preserve);
      KnownFieldsOk(View(), RECURSION_LIMIT);
      FieldsLength(KnownFields(View()), RECURSION_LIMIT);
      FieldsLength(unknown, RECURSION_LIMIT);
    }

    method SerializeWithCachedSizes(output: Bytes, preserve: bool) returns (out: Bytes)
      ensures out == output + EndpointBytes(View(), preserve)
    {
      hide WriteField, WriteFields, KnownFields, EndpointBytes;
      KnownParts(View());
      EndpointParts(View(), preserve);
      NoUnknown(View());
      ghost var done: Bytes := [];
      out := output;
      if |ip| > 0 {
        out := out + WriteField(LengthDelimited(1, ip));
        done := done + WriteField(LengthDelimited(1, ip));
      }
      if port != 0 {
        out := out + WriteField(VarintField(2, port));
        done := done + WriteField(VarintField(2, port));
      }
      assert done == WriteFields(KnownFields(View()));
      if |unknown| > 0 && preserve {
        out := out + WriteFields(unknown);
        done := done + WriteFields(unknown);
      }
      assert out == output + done;
      assert done == EndpointBytes(View(), preserve);
    }

    method InternalSerializeWithCachedSizesToArray(target: array<Byte>, start: nat, preserve: bool) returns (end: nat)
      requires start + |EndpointBytes(View(), preserve)| <= target.Length
      modifies target
      ensures end == start + |EndpointBytes(View(), preserve)|
      ensures Wrote(old(target[..]), target[..], start, EndpointBytes(View(), preserve))
    {
      hide WriteField, WriteFields, KnownFields, EndpointBytes, Wrote;
      KnownParts(View());
      EndpointParts(View(), preserve);
      NoUnknown(View());
      ghost var before := target[..];
      WroteNothing(before, start);
      ghost var done: Bytes := [];
      end := start;
      if |ip| > 0 {
        end := PutAfter(target, end, WriteField(LengthDelimited(1, ip)), before, start, done);
        done := done + WriteField(LengthDelimited(1, ip));
      }
      if port != 0 {
        end := PutAfter(target, end, WriteField(VarintField(2, port)), before, start, done);
        done := done + WriteField(VarintField(2, port));
      }
      assert done == WriteFields(KnownFields(View()));
      if |unknown| > 0 && preserve {
        end := PutAfter(target, end, WriteFields(unknown), before, start, done);
        done := done + WriteFields(unknown);
      }
      assert done == EndpointBytes(View(), preserve);
    }
  }

  lemma NoUnknown(m: Endpoint)
    ensures m.unknown == [] ==> WriteFields(m.unknown) == []
  {
  }

  /** The record of one endpoint: tag, size, bytes. */
  lemma EndpointRecordBytes(e: Endpoint, preserve: bool)
    ensures WriteField(LengthDelimited(1, EndpointBytes(e, preserve))) ==
            [10] + Varint(|EndpointBytes(e, preserve)|) + EndpointBytes(e, preserve)
  {
    assert Varint(10) == [10];
  }

  lemma EndpointRecordsSnoc(es: seq<Endpoint>, i: nat, preserve: bool)
    requires i < |es|
    ensures WriteFields(EndpointRecords(es[..i + 1], preserve)) ==
            WriteFields(EndpointRecords(es[..i], preserve))
            + ([10] + Varint(|EndpointBytes(es[i], preserve)|) + EndpointBytes(es[i], preserve))
  {
    hide WriteField, WriteFields, EndpointBytes;
    var f := LengthDelimited(1, EndpointBytes(es[i], preserve));
    assert EndpointRecords(es[..i + 1], preserve) == EndpointRecords(es[..i], preserve) + [f];
    WriteFieldsConcat(EndpointRecords(es[..i], preserve), [f]);
    OneRecord(f);
    EndpointRecordBytes(es[i], preserve);
  }

  class CacheMessage {
    var endpoints: seq<Endpoint>
    var unknown: seq<Field>

    ghost function View(): Cache
      reads this
    {
      Cache(endpoints, unknown)
    }

    constructor ()
      ensures View() == NO_CACHE
    {
      endpoints, unknown := [], [];
    }

    method MergeFrom(from: CacheMessage)
      requires from != this
      modifies this
      ensures View() == MergedCache(old(View()), from.View())
    {
      unknown := unknown + from.unknown;
      endpoints := endpoints + from.endpoints;
    }

    method ByteSizeLong(preserve: bool) returns (totalSize: nat)
      requires forall i :: 0 <= i < |endpoints| ==>
                 |endpoints[i].ip| < TWO31 && FieldsOk(endpoints[i].unknown, RECURSION_LIMIT)
      requires FieldsOk(unknown, RECURSION_LIMIT)
      ensures totalSize == |CacheBytes(View(), preserve)|
    {
      hide WriteFields, EndpointRecords, EndpointBytes, FieldsOk;
      totalSize := (if preserve then FieldsSize(unknown) else 0) + |endpoints|;
      NoRecords(preserve);
      var i := 0;
      while i < |endpoints|
        invariant 0 <= i <= |endpoints|
        invariant totalSize == (if preserve then FieldsSize(unknown) else 0)
                               + |WriteFields(EndpointRecords(endpoints[..i], preserve))| + (|endpoints| - i)
      {
        var endpoint := new EndpointMessage.Copy(endpoints[i]);
        var size := endpoint.ByteSizeLong(preserve);
        totalSize := totalSize + VarintSize(size) + size;
        EndpointRecordsSnoc(endpoints, i, preserve);
        VarintLength(size);
        i := i + 1;
      }
      assert endpoints[..i] == endpoints;
      CacheParts(View(), preserve);
      FieldsLength(unknown, RECURSION_LIMIT);
    }

    method SerializeWithCachedSizes(output: Bytes, preserve: bool) returns (out: Bytes)
      requires forall i :: 0 <= i < |endpoints| ==>
                 |endpoints[i].ip| < TWO31 && FieldsOk(endpoints[i].unknown, RECURSION_LIMIT)
      ensures out == output + CacheBytes(View(), preserve)
    {
      hide WriteFields, EndpointRecords, EndpointBytes, Varint, FieldsOk;
      NoRecords(preserve);
      out := output;
      var i := 0;
      while i < |endpoints|
        invariant 0 <= i <= |endpoints|
        invariant out == output + WriteFields(EndpointRecords(endpoints[..i], preserve))
      {
        var endpoint := new EndpointMessage.Copy(endpoints[i]);
        var size := endpoint.ByteSizeLong(preserve);
        EndpointRecordsSnoc(endpoints, i, preserve);
        var framed := out + ([10] + Varint(size));
        ghost var before := WriteFields(EndpointRecords(endpoints[..i], preserve));
        out := endpoint.SerializeWithCachedSizes(framed, preserve);
        assert out == output + (before + ([10] + Varint(size) + EndpointBytes(endpoints[i], preserve)));
        i := i + 1;
      }
      assert endpoints[..i] == endpoints;
      if |unknown| > 0 && preserve {
        out := out + WriteFields(unknown);
      }
      CacheParts(View(), preserve);
    }

    /** The switch of the parse loop. */
    method ReadOne(tag: UInt32, input: Bytes, utf8: Bytes -> bool) returns (left: Option<Bytes>)
      modifies this
      ensures match ReadPayload(tag, input, RECURSION_LIMIT)
              case None => left == None
              case Some((f, rest)) =>
                match StoredEndpoint(old(View()), f, utf8)
                case None => left == None
                case Some(m) => left == Some(rest) && View() == m
    {
      hide ReadVarint64, ReadLengthDelimited, ReadGroup, Take;
      left := None;
      if tag == 10 {
        match ReadLengthDelimited(input)
        case None =>
        case Some((d, rest)) =>
          var endpoint := new EndpointMessage();
          var ok, consumed := endpoint.MergePartialFromCodedStream(d, NESTED, utf8);
          if ok && consumed {
            endpoints := endpoints + [Endpoint(endpoint.ip, endpoint.port, endpoint.unknown)];
            left := Some(rest);
          }
      } else {
        match ReadPayload(tag, input, RECURSION_LIMIT)
        case None =>
        case Some((f, rest)) =>
          PayloadOk(tag, input, RECURSION_LIMIT);
          unknown := unknown + [f];
          left := Some(rest);
      }
    }

    method MergePartialFromCodedStream(input: Bytes, utf8: Bytes -> bool) returns (ok: bool, consumed: bool)
      modifies this
      ensures LoopedCache(old(View()), input, utf8) == if ok then Some((View(), consumed)) else None
      ensures ParsedCacheInto(old(View()), input, utf8) == if ok && consumed then Some(View()) else None
    {
      hide ReadPayload, StoredEndpoint, LoopedCache;
      ghost var goal := LoopedCache(View(), input, utf8);
      LoopedCacheIsParsed(View(), input, utf8);
      var rest := input;
      while rest != []
        invariant goal == LoopedCache(View(), rest, utf8)
        decreases |rest|
      {
        LoopedCacheRound(View(), rest, utf8);
        match ReadTag(rest)
        case None => return true, false;
        case Some((tag, after)) =>
          if tag == 0 {
            return true, false;
          }
          var left := ReadOne(tag, after, utf8);
          if left == None {
            return false, false;
          }
          rest := left.value;
      }
      LoopedCacheEnd(View(), utf8);
      return true, true;
    }
  }

  lemma NoRecords(preserve: bool)
    ensures forall es: seq<Endpoint> :: WriteFields(EndpointRecords(es[..0], preserve)) == []
  {
  }

  lemma CacheParts(m: Cache, preserve: bool)
    ensures CacheBytes(m, preserve) ==
            WriteFields(EndpointRecords(m.endpoints, preserve)) + if preserve then WriteFields(m.unknown) else []
    ensures m.unknown == [] ==> WriteFields(m.unknown) == []
  {
    WriteFieldsConcat(EndpointRecords(m.endpoints, preserve), if preserve then m.unknown else []);
  }

  /** Parsing into a message that already holds `m`. */
  function ParsedCacheInto(m: Cache, b: Bytes, utf8: Bytes -> bool): Option<Cache> {
    match ReadFields(b, RECURSION_LIMIT)
    case None => None
    case Some(fs) => StoredEndpoints(m, fs, utf8)
  }

  /** What the parse loop leaves, and whether it used up its input. */
  function LoopedCache(m: Cache, b: Bytes, utf8: Bytes -> bool): Option<(Cache, bool)> {
    match ReadUntilStop(b, RECURSION_LIMIT)
    case None => None
    case Some((fs, end)) =>
      match StoredEndpoints(m, fs, utf8)
      case None => None
      case Some(m') => Some((m', end))
  }

  lemma LoopedCacheIsParsed(m: Cache, b: Bytes, utf8: Bytes -> bool)
    ensures ParsedCacheInto(m, b, utf8) ==
            match LoopedCache(m, b, utf8)
            case None => None
            case Some((m', end)) => if end then Some(m') else None
  {
    WholeIsUntilStop(b, RECURSION_LIMIT);
  }

  lemma LoopedCacheEnd(m: Cache, utf8: Bytes -> bool)
    ensures LoopedCache(m, [], utf8) == Some((m, true))
  {
  }

  /** One round of the parse loop. */
  lemma LoopedCacheRound(m: Cache, b: Bytes, utf8: Bytes -> bool)
    requires b != []
    ensures match ReadTag(b)
            case None => LoopedCache(m, b, utf8) == Some((m, false))
            case Some((tag, after)) =>
              if tag == 0 then LoopedCache(m, b, utf8) == Some((m, false))
              else
                match ReadPayload(tag, after, RECURSION_LIMIT)
                case None => LoopedCache(m, b, utf8) == None
                case Some((f, rest)) =>
                  LoopedCache(m, b, utf8) == (
                  match StoredEndpoint(m, f, utf8)
                  case None => None
                  case Some(m') => LoopedCache(m', rest, utf8))
  {
    hide ReadPayload, StoredEndpoint;
    if ReadTag(b).Some? && ReadTag(b).value.0 != 0 {
      var (tag, after) := ReadTag(b).value;
      if ReadPayload(tag, after, RECURSION_LIMIT).Some? {
        var (f, rest) := ReadPayload(tag, after, RECURSION_LIMIT).value;
        if ReadUntilStop(rest, RECURSION_LIMIT).Some? {
          var fs := ReadUntilStop(rest, RECURSION_LIMIT).value.0;
          assert ([f] + fs)[1..] == fs;
        }
      }
    }
  }
}
