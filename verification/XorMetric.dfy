/** The xor order on node ids (src/routing_table.cc): which of two ids is closer
    to a target, and in which bucket of a table an id falls. */
module XorMetric {

  /** Node ids are byte strings of one fixed size, kNodeIdSize. */
  type NodeId = seq<bv8>

  // ---------------------------------------------------------------- bytes

  /** The xor under a name, to keep bit operations out of longer proofs. */
  function Xor(a: bv8, b: bv8): bv8 {
    a ^ b
  }

  function ByteGap(a: bv8, b: bv8): nat {
    Xor(a, b) as nat
  }

  /** Equal bits at the top of two bytes, from their xor. */
  function LeadingZeros(x: bv8): nat {
    if x >= 0x80 then 0
    else if x >= 0x40 then 1
    else if x >= 0x20 then 2
    else if x >= 0x10 then 3
    else if x >= 0x08 then 4
    else if x >= 0x04 then 5
    else if x >= 0x02 then 6
    else if x >= 0x01 then 7
    else 8
  }

  function EqualBits(a: bv8, b: bv8): (n: nat)
    ensures n <= 8 && (n < 8 <==> a != b)
  {
    assert Xor(a, b) == 0 <==> a == b;
    LeadingZeros(Xor(a, b))
  }

  function Pow2(n: nat): nat {
    if n == 0 then 1 else 2 * Pow2(n - 1)
  }

  lemma XorFacts(a: bv8, b: bv8, t: bv8)
    ensures Xor(a, b) == Xor(b, a)
    ensures Xor(a, b) == 0 <==> a == b
    ensures Xor(a, t) == Xor(b, t) <==> a == b
  {
  }

  lemma ByteRange(x: bv8)
    ensures x as nat < 256
    ensures x as nat == 0 <==> x == 0
  {
  }

  lemma GapIsMetric(a: bv8, b: bv8, t: bv8)
    ensures ByteGap(a, b) < 256 && ByteGap(a, b) == ByteGap(b, a)
    ensures ByteGap(a, b) == 0 <==> a == b
    ensures ByteGap(a, t) == ByteGap(b, t) <==> a == b
  {
    hide Xor;
    XorFacts(a, b, t);
    ByteRange(Xor(a, b));
    ByteLess(Xor(a, t), Xor(b, t));
  }

  lemma GapHasBits(a: bv8, b: bv8)
    requires a != b
    ensures Pow2(7 - EqualBits(a, b)) <= ByteGap(a, b) < Pow2(8 - EqualBits(a, b))
  {
    assert Pow2(0) == 1 && Pow2(1) == 2 && Pow2(2) == 4 && Pow2(3) == 8 && Pow2(4) == 16;
    assert Pow2(5) == 32 && Pow2(6) == 64 && Pow2(7) == 128 && Pow2(8) == 256;
  }

  /** Whether a flip makes a byte smaller depends on its highest bit only. */
  lemma TopBitDecides(g: bv8, x: bv8, y: bv8)
    requires x != 0 && LeadingZeros(x) == LeadingZeros(y)
    ensures Xor(g, x) < g <==> Xor(g, y) < g
  {
  }

  lemma XorThrough(u: bv8, v: bv8, t: bv8)
    ensures Xor(v, t) == Xor(Xor(u, t), Xor(u, v))
  {
  }

  lemma ByteLess(x: bv8, y: bv8)
    ensures x < y <==> x as nat < y as nat
    ensures x == y <==> x as nat == y as nat
  {
  }

  lemma XorSides(u: bv8, v: bv8, w: bv8, t: bv8)
    requires u != v && LeadingZeros(Xor(u, v)) == LeadingZeros(Xor(u, w))
    ensures Xor(v, t) < Xor(u, t) <==> Xor(w, t) < Xor(u, t)
  {
    hide LeadingZeros, Xor;
    XorFacts(u, v, t);
    TopBitDecides(Xor(u, t), Xor(u, v), Xor(u, w));
    XorThrough(u, v, t);
    XorThrough(u, w, t);
  }

  lemma GapPeers(u: bv8, v: bv8, w: bv8, t: bv8)
    requires u != v && EqualBits(u, v) == EqualBits(u, w)
    ensures ByteGap(v, t) < ByteGap(u, t) <==> ByteGap(w, t) < ByteGap(u, t)
  {
    hide LeadingZeros, Xor;
    XorSides(u, v, w, t);
    ByteLess(Xor(v, t), Xor(u, t));
    ByteLess(Xor(w, t), Xor(u, t));
  }

  // ---------------------------------------------------------------- distance

  /** CloserToTarget: the first differing byte of the two xors decides. */
  predicate Closer(a: NodeId, b: NodeId, target: NodeId)
    requires |a| == |b| == |target|
  {
    a != [] &&
    var x, y := ByteGap(a[0], target[0]), ByteGap(b[0], target[0]);
    if x != y then x < y else Closer(a[1..], b[1..], target[1..])
  }

  /** The xor of two ids, read as one big-endian number. */
  function Distance(a: NodeId, b: NodeId): nat
    requires |a| == |b|
  {
    if a == [] then 0
    else ByteGap(a[0], b[0]) * Pow2(8 * (|a| - 1)) + Distance(a[1..], b[1..])
  }

  lemma {:induction false} Pow2Adds(m: nat, n: nat)
    ensures Pow2(m + n) == Pow2(m) * Pow2(n)
  {
    if m == 0 {
    } else {
      Pow2Adds(m - 1, n);
      assert Pow2(m + n) == 2 * Pow2(m - 1 + n);
      Regroup(Pow2(m - 1), Pow2(n));
    }
  }

  lemma Regroup(a: nat, b: nat)
    ensures 2 * (a * b) == (2 * a) * b
  {
  }

  lemma {:induction false} Pow2Grows(m: nat, n: nat)
    requires m <= n
    ensures 0 < Pow2(m) <= Pow2(n)
  {
    if m < n {
      Pow2Grows(m, n - 1);
    } else if m > 0 {
      Pow2Grows(m - 1, n - 1);
    }
  }

  lemma Carries(x: nat, p: nat, d: nat, limit: nat)
    requires x < limit && d < p
    ensures x * p + d < limit * p
  {
    assert x * p + d < x * p + p == (x + 1) * p;
    MulMonotone(x + 1, limit, p);
  }

  lemma MulMonotone(x: nat, y: nat, p: nat)
    requires x <= y
    ensures x * p <= y * p
  {
  }

  lemma {:induction false} DistanceBound(a: NodeId, b: NodeId)
    requires |a| == |b|
    ensures Distance(a, b) < Pow2(8 * |a|)
  {
    hide ByteGap;
    if a == [] {
    } else {
      DistanceBound(a[1..], b[1..]);
      GapIsMetric(a[0], b[0], b[0]);
      Carries(ByteGap(a[0], b[0]), Pow2(8 * (|a| - 1)), Distance(a[1..], b[1..]), 256);
      Pow2Adds(8, 8 * (|a| - 1));
      assert Pow2(8) == 256;
    }
  }

  /** The distance by place: earlier bytes count more, each 256 times the next. */
  lemma {:induction false} DistanceOfConcat(a: NodeId, b: NodeId, c: NodeId, d: NodeId)
    requires |a| == |c| && |b| == |d|
    ensures Distance(a + b, c + d) == Distance(a, c) * Pow2(8 * |b|) + Distance(b, d)
  {
    hide ByteGap, Pow2;
    if a == [] {
      assert a + b == b && c + d == d;
    } else {
      assert (a + b)[1..] == a[1..] + b && (c + d)[1..] == c[1..] + d;
      DistanceOfConcat(a[1..], b, c[1..], d);
      var m, n := 8 * (|a| - 1), 8 * |b|;
      Pow2Adds(m, n);
      Spread(ByteGap(a[0], c[0]), Pow2(m), Distance(a[1..], c[1..]), Pow2(n));
      assert 8 * (|a + b| - 1) == m + n;
    }
  }

  lemma Spread(x: nat, p: nat, d: nat, q: nat)
    ensures x * (p * q) + d * q == (x * p + d) * q
  {
  }

  lemma DistanceOfBytes(x: bv8, y: bv8)
    ensures Distance([x], [y]) == (x ^ y) as nat
  {
    assert Pow2(0) == 1;
  }

  /** CloserToTarget compares the distances to the target. */
  lemma {:induction false} CloserComparesDistances(a: NodeId, b: NodeId, target: NodeId)
    requires |a| == |b| == |target|
    ensures Closer(a, b, target) <==> Distance(a, target) < Distance(b, target)
  {
    hide ByteGap, Pow2;
    if a == [] {
    } else {
      var p, x, y := Pow2(8 * (|a| - 1)), ByteGap(a[0], target[0]), ByteGap(b[0], target[0]);
      var d, e := Distance(a[1..], target[1..]), Distance(b[1..], target[1..]);
      DistanceBound(a[1..], target[1..]);
      DistanceBound(b[1..], target[1..]);
      if x == y {
        CloserComparesDistances(a[1..], b[1..], target[1..]);
      } else if x < y {
        Carries(x, p, d, y);
      } else {
        Carries(y, p, e, x);
      }
    }
  }

  /** Different ids are at different distances from every target. */
  lemma {:induction false} DistanceTells(a: NodeId, b: NodeId, target: NodeId)
    requires |a| == |b| == |target|
    ensures Distance(a, target) == Distance(b, target) <==> a == b
  {
    if Distance(a, target) == Distance(b, target) {
      CloserComparesDistances(a, b, target);
      CloserComparesDistances(b, a, target);
      NeitherCloser(a, b, target);
    }
  }

  lemma {:induction false} NeitherCloser(a: NodeId, b: NodeId, target: NodeId)
    requires |a| == |b| == |target|
    requires !Closer(a, b, target) && !Closer(b, a, target)
    ensures a == b
  {
    hide ByteGap;
    if a == [] {
    } else {
      GapIsMetric(a[0], b[0], target[0]);
      NeitherCloser(a[1..], b[1..], target[1..]);
      assert a == [a[0]] + a[1..] && b == [b[0]] + b[1..];
    }
  }

  lemma {:induction false} DistanceSymmetric(a: NodeId, b: NodeId)
    requires |a| == |b|
    ensures Distance(a, b) == Distance(b, a)
    ensures a == b ==> Distance(a, b) == 0
  {
    hide ByteGap, Pow2;
    if a == [] {
    } else {
      GapIsMetric(a[0], b[0], b[0]);
      DistanceSymmetric(a[1..], b[1..]);
    }
  }

  // ---------------------------------------------------------------- buckets

  /** The bucket index SetNodeBucket computes; 0 for the local id itself. */
  function Bucket(local: NodeId, node: NodeId): nat
    requires |local| == |node|
  {
    if local == [] then 0
    else if local[0] != node[0] then 8 * |local| - EqualBits(local[0], node[0])
    else Bucket(local[1..], node[1..])
  }

  lemma {:induction false} BucketRange(a: NodeId, b: NodeId)
    requires |a| == |b|
    ensures Bucket(a, b) <= 8 * |a|
    ensures Bucket(a, b) == 0 <==> a == b
  {
    hide EqualBits;
    if a == [] {
    } else {
      BucketRange(a[1..], b[1..]);
      assert a == [a[0]] + a[1..] && b == [b[0]] + b[1..];
    }
  }

  lemma TopByteBits(x: nat, k: nat, n: nat, low: nat)
    requires Pow2(k) <= x < Pow2(k + 1) && low < Pow2(n)
    ensures Pow2(k + n) <= x * Pow2(n) + low < Pow2(k + 1 + n)
  {
    hide Pow2;
    Carries(x, Pow2(n), low, Pow2(k + 1));
    MulMonotone(Pow2(k), x, Pow2(n));
    Pow2Adds(k + 1, n);
    Pow2Adds(k, n);
  }

  /** The bucket index is the bit length of the distance. */
  lemma {:induction false} BucketIsBitLength(a: NodeId, b: NodeId)
    requires |a| == |b| && a != b
    ensures Bucket(a, b) > 0
    ensures Pow2(Bucket(a, b) - 1) <= Distance(a, b) < Pow2(Bucket(a, b))
  {
    hide EqualBits, ByteGap, Pow2;
    BucketRange(a, b);
    GapIsMetric(a[0], b[0], b[0]);
    if a[0] == b[0] {
      assert a == [a[0]] + a[1..] && b == [b[0]] + b[1..];
      BucketIsBitLength(a[1..], b[1..]);
    } else {
      GapHasBits(a[0], b[0]);
      DistanceBound(a[1..], b[1..]);
      TopByteBits(ByteGap(a[0], b[0]), 7 - EqualBits(a[0], b[0]), 8 * (|a| - 1), Distance(a[1..], b[1..]));
    }
  }

  /** Of two ids the one closer to the local id is in no higher a bucket. */
  lemma CloserIsInNoHigherBucket(local: NodeId, a: NodeId, b: NodeId)
    requires |local| == |a| == |b|
    requires Closer(a, b, local)
    ensures Bucket(local, a) <= Bucket(local, b)
  {
    hide EqualBits, ByteGap, Pow2, Distance, Closer, Bucket;
    CloserComparesDistances(a, b, local);
    DistanceSymmetric(a, local);
    DistanceSymmetric(b, local);
    BucketRange(local, a);
    if a != local {
      BucketIsBitLength(local, a);
      BucketIsBitLength(local, b);
      if Bucket(local, b) < Bucket(local, a) {
        Pow2Grows(Bucket(local, b), Bucket(local, a) - 1);
      }
    }
  }

  /** Ids in one bucket of u are on one side of it: if one is closer than u to a
      target then all are. */
  lemma {:induction false} BucketPeersAgree(u: NodeId, v: NodeId, w: NodeId, target: NodeId)
    requires |u| == |v| == |w| == |target|
    requires u != v && Bucket(u, v) == Bucket(u, w)
    ensures Closer(v, u, target) <==> Closer(w, u, target)
  {
    hide EqualBits, ByteGap;
    BucketRange(u[1..], v[1..]);
    BucketRange(u[1..], w[1..]);
    if u[0] != v[0] {
      assert u[0] != w[0] && EqualBits(u[0], v[0]) == EqualBits(u[0], w[0]);
      GapPeers(u[0], v[0], w[0], target[0]);
      GapIsMetric(v[0], u[0], target[0]);
      GapIsMetric(w[0], u[0], target[0]);
    } else {
      assert u[0] == w[0];
      assert u == [u[0]] + u[1..] && v == [v[0]] + v[1..];
      BucketPeersAgree(u[1..], v[1..], w[1..], target[1..]);
    }
  }

  // ---------------------------------------------------------------- the loops

  method CloserToTarget(id1: NodeId, id2: NodeId, target: NodeId) returns (closer: bool)
    requires |id1| == |id2| == |target|
    ensures closer <==> Closer(id1, id2, target)
  {
    for i := 0 to |target|
      invariant Closer(id1, id2, target) <==> Closer(id1[i..], id2[i..], target[i..])
    {
      var result1, result2 := Xor(id1[i], target[i]), Xor(id2[i], target[i]);
      ByteLess(result1, result2);
      assert id1[i..][1..] == id1[i + 1..] && id2[i..][1..] == id2[i + 1..];
      assert target[i..][1..] == target[i + 1..];
      if result1 != result2 {
        return result1 < result2;
      }
    }
    return false;
  }

  /** Bit j of a byte, the highest being 0. */
  predicate TopBit(x: bv8, j: nat) {
    match j
    case 0 => x & 0x80 != 0
    case 1 => x & 0x40 != 0
    case 2 => x & 0x20 != 0
    case 3 => x & 0x10 != 0
    case 4 => x & 0x08 != 0
    case 5 => x & 0x04 != 0
    case 6 => x & 0x02 != 0
    case _ => x & 0x01 != 0
  }

  lemma FirstDifferentBit(a: bv8, b: bv8, k: nat)
    requires k < 8 && TopBit(a, k) != TopBit(b, k)
    requires forall j :: 0 <= j < k ==> TopBit(a, j) == TopBit(b, j)
    ensures EqualBits(a, b) == k
  {
    assert k > 0 ==> TopBit(a, 0) == TopBit(b, 0);
    assert k > 1 ==> TopBit(a, 1) == TopBit(b, 1);
    assert k > 2 ==> TopBit(a, 2) == TopBit(b, 2);
    assert k > 3 ==> TopBit(a, 3) == TopBit(b, 3);
    assert k > 4 ==> TopBit(a, 4) == TopBit(b, 4);
    assert k > 5 ==> TopBit(a, 5) == TopBit(b, 5);
    assert k > 6 ==> TopBit(a, 6) == TopBit(b, 6);
  }

  lemma DifferentBytesDifferInABit(a: bv8, b: bv8)
    requires forall j :: 0 <= j < 8 ==> TopBit(a, j) == TopBit(b, j)
    ensures a == b
  {
    assert TopBit(a, 0) == TopBit(b, 0) && TopBit(a, 1) == TopBit(b, 1);
    assert TopBit(a, 2) == TopBit(b, 2) && TopBit(a, 3) == TopBit(b, 3);
    assert TopBit(a, 4) == TopBit(b, 4) && TopBit(a, 5) == TopBit(b, 5);
    assert TopBit(a, 6) == TopBit(b, 6) && TopBit(a, 7) == TopBit(b, 7);
  }

  /** The inner loop: the first bit, from the top, in which two bytes differ. */
  method FirstBit(holderByte: bv8, nodeByte: bv8) returns (bitIndex: nat)
    ensures bitIndex == EqualBits(holderByte, nodeByte)
  {
    hide TopBit, EqualBits;
    bitIndex := 0;
    while bitIndex != 8
      invariant bitIndex <= 8
      invariant forall j :: 0 <= j < bitIndex ==> TopBit(holderByte, j) == TopBit(nodeByte, j)
    {
      if TopBit(holderByte, bitIndex) != TopBit(nodeByte, bitIndex) {
        FirstDifferentBit(holderByte, nodeByte, bitIndex);
        return;
      }
      bitIndex := bitIndex + 1;
    }
    DifferentBytesDifferInABit(holderByte, nodeByte);
  }

  /** The bucket index of a node, which is the bit length of its distance, and
      whether it is another node at all. */
  method SetNodeBucket(local: NodeId, node: NodeId) returns (ok: bool, bucketIndex: nat)
    requires |local| == |node|
    ensures bucketIndex == Bucket(local, node)
    ensures ok <==> local != node
    ensures ok ==> bucketIndex > 0 && Pow2(bucketIndex - 1) <= Distance(local, node) < Pow2(bucketIndex)
  {
    hide Distance, Pow2, EqualBits;
    var idBitIndex := 0;
    while idBitIndex != |local|
      invariant idBitIndex <= |local|
      invariant local[..idBitIndex] == node[..idBitIndex]
      invariant Bucket(local, node) == Bucket(local[idBitIndex..], node[idBitIndex..])
    {
      if local[idBitIndex] != node[idBitIndex] {
        var bitIndex := FirstBit(local[idBitIndex], node[idBitIndex]);
        BucketIsBitLength(local, node);
        return true, 8 * (|local| - idBitIndex) - bitIndex;
      }
      assert local[idBitIndex..][1..] == local[idBitIndex + 1..];
      assert node[idBitIndex..][1..] == node[idBitIndex + 1..];
      idBitIndex := idBitIndex + 1;
    }
    assert local == local[..|local|] == node[..|node|] == node;
    return false, 0;
  }
}
