/** Writing records one after another into an array, as the serializers that
    advance an output pointer do. */
module Buffers {
  import opened Wire

  /** `after` is `before` with `bytes` written at `pos`. */
  ghost predicate Wrote(before: Bytes, after: Bytes, pos: nat, bytes: Bytes) {
    && pos + |bytes| <= |before|
    && after == before[..pos] + bytes + before[pos + |bytes|..]
  }

  lemma WroteNothing(before: Bytes, pos: nat)
    requires pos <= |before|
    ensures Wrote(before, before, pos, [])
  {
  }

  lemma WroteThen(a: Bytes, b: Bytes, c: Bytes, pos: nat, x: Bytes, y: Bytes)
    requires Wrote(a, b, pos, x) && Wrote(b, c, pos + |x|, y)
    ensures Wrote(a, c, pos, x + y)
  {
    assert b[..pos + |x|] == a[..pos] + x;
    assert b[pos + |x| + |y|..] == a[pos + |x| + |y|..];
  }

  /** Copies bytes to the array and returns the advanced position. */
  method PutBytes(target: array<Byte>, pos: nat, bytes: Bytes) returns (end: nat)
    requires pos + |bytes| <= target.Length
    modifies target
    ensures end == pos + |bytes|
    ensures Wrote(old(target[..]), target[..], pos, bytes)
  {
    var i := 0;
    while i < |bytes|
      invariant 0 <= i <= |bytes|
      invariant Wrote(old(target[..]), target[..], pos, bytes[..i])
    {
      target[pos + i] := bytes[i];
      i := i + 1;
      assert target[..] == old(target[..])[..pos] + bytes[..i] + old(target[..])[pos + i..];
    }
    assert bytes[..i] == bytes;
    end := pos + |bytes|;
  }

  /** Writes bytes behind the bytes `done`, which started at `start`. */
  method PutAfter(target: array<Byte>, pos: nat, bytes: Bytes,
                  ghost before: Bytes, ghost start: nat, ghost done: Bytes) returns (end: nat)
    requires Wrote(before, target[..], start, done) && pos == start + |done|
    requires pos + |bytes| <= target.Length
    modifies target
    ensures Wrote(before, target[..], start, done + bytes)
    ensures end == pos + |bytes|
  {
    hide Wrote;
    ghost var mid := target[..];
    end := PutBytes(target, pos, bytes);
    WroteThen(before, mid, target[..], start, done, bytes);
  }

  /** Writes one record behind those of `done`, which started at `start`. */
  method PutField(target: array<Byte>, pos: nat, f: Field,
                  ghost before: Bytes, ghost start: nat, ghost done: seq<Field>) returns (end: nat)
    requires Wrote(before, target[..], start, WriteFields(done)) && pos == start + |WriteFields(done)|
    requires start + |WriteFields(done + [f])| <= target.Length
    modifies target
    ensures Wrote(before, target[..], start, WriteFields(done + [f]))
    ensures end == start + |WriteFields(done + [f])|
  {
    hide Wrote, WriteField;
    WriteFieldsConcat(done, [f]);
    assert [f][1..] == [];
    assert WriteFields([f]) == WriteField(f) + [];
    assert WriteFields(done + [f]) == WriteFields(done) + WriteField(f);
    hide WriteFields;
    end := PutAfter(target, pos, WriteField(f), before, start, WriteFields(done));
  }
}
