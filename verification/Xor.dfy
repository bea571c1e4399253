/** The XOR metric on identifiers and the bucket an identifier falls into (src/network/kademlia.cpp). */
module Xor {
  import opened Bytes
  import opened Arithmetic

  /** Bitwise exclusive or of the n low bits. */
  function XorBits(a: nat, b: nat, n: nat): (x: nat)
    ensures x < Pow2(n)
  {
    if n == 0 then 0 else 2 * XorBits(a / 2, b / 2, n - 1) + (if a % 2 == b % 2 then 0 else 1)
  }

  function ByteXor(a: byte, b: byte): byte {
    Pow2Values();
    XorBits(a, b, 8)
  }

  /** The number of bits up to the highest one set; std::countl_zero of a byte is 8 minus this. */
  function BitLength(x: nat): nat {
    if x == 0 then 0 else 1 + BitLength(x / 2)
  }

  function CountLeadingZeros(x: byte): nat {
    BitLengthBound(x, 8);
    Pow2Values();
    8 - BitLength(x)
  }

  lemma {:induction false} BitLengthBound(x: nat, n: nat)
    requires x < Pow2(n)
    ensures BitLength(x) <= n
  {
    if x > 0 {
      BitLengthBound(x / 2, n - 1);
    }
  }

  lemma {:induction false} XorInverts(a: nat, b: nat, n: nat)
    requires a < Pow2(n)
    ensures XorBits(XorBits(a, b, n), b, n) == a
  {
    if n > 0 {
      XorInverts(a / 2, b / 2, n - 1);
      assert XorBits(a, b, n) / 2 == XorBits(a / 2, b / 2, n - 1);
    }
  }

  lemma {:induction false} XorSelf(a: nat, n: nat)
    ensures XorBits(a, a, n) == 0
  {
    if n > 0 {
      XorSelf(a / 2, n - 1);
    }
  }

  lemma ByteXorInjective(a: byte, b: byte, t: byte)
    ensures ByteXor(a, t) == ByteXor(b, t) <==> a == b
  {
    Pow2Values();
    XorInverts(a, t, 8);
    XorInverts(b, t, 8);
  }

  lemma ByteXorZero(a: byte, t: byte)
    ensures ByteXor(t, a) == 0 <==> a == t
  {
    XorSelf(t, 8);
    Pow2Values();
    XorInverts(t, a, 8);
    XorSelf(a, 8);
    XorInverts(a, a, 8);
  }

  /** Fewer significant bits mean a smaller number. */
  lemma {:induction false} BitLengthOrders(x: nat, y: nat)
    requires BitLength(x) < BitLength(y)
    ensures x < y
  {
    if x > 0 {
      BitLengthOrders(x / 2, y / 2);
    }
  }

  /** kademlia_distance. */
  function Distance(a: NodeId, b: NodeId): NodeId {
    seq(32, i requires 0 <= i < 32 => ByteXor(a[i], b[i]))
  }

  /** The comparison kademlia_find_closest sorts by: byte-wise on the distances to the target. */
  predicate Closer(target: NodeId, a: NodeId, b: NodeId) {
    LexicographicLess(Distance(a, target), Distance(b, target))
  }

  /** The distance to the target as a number. */
  function Gap(target: NodeId, a: NodeId): nat {
    Value(Distance(a, target))
  }

  lemma CloserIsSmallerGap(target: NodeId, a: NodeId, b: NodeId)
    ensures Closer(target, a, b) <==> Gap(target, a) < Gap(target, b)
  {
    LexicographicIsNumeric(Distance(a, target), Distance(b, target));
  }

  /** Different identifiers are at different distances from any target. */
  lemma GapInjective(target: NodeId, a: NodeId, b: NodeId)
    requires Gap(target, a) == Gap(target, b)
    ensures a == b
  {
    ValueInjective(Distance(a, target), Distance(b, target));
    forall i | 0 <= i < 32 ensures a[i] == b[i] {
      assert Distance(a, target)[i] == Distance(b, target)[i];
      ByteXorInjective(a[i], b[i], target[i]);
    }
  }

  // ---------- the bucket index ----------

  function FirstDifference(local: NodeId, remote: NodeId, i: nat): (k: nat)
    requires i <= 32
    ensures k <= 32
    decreases 32 - i, local, remote
  {
    if i == 32 || local[i] != remote[i] then i else FirstDifference(local, remote, i + 1)
  }

  lemma {:induction false} FirstDifferenceIsFirst(local: NodeId, remote: NodeId, i: nat)
    requires i <= 32
    ensures var k := FirstDifference(local, remote, i);
            i <= k && (forall j | i <= j < k :: local[j] == remote[j]) && (k < 32 ==> local[k] != remote[k])
    decreases 32 - i
  {
    if i < 32 {
      FirstDifferenceIsFirst(local, remote, i + 1);
    }
  }

  /** kademlia_bucket_index: the length of the common prefix in bits; 256 for the local identifier itself. */
  function BucketIndex(local: NodeId, remote: NodeId): nat {
    var k := FirstDifference(local, remote, 0);
    if k == 32 then 256 else k * 8 + CountLeadingZeros(ByteXor(local[k], remote[k]))
  }

  method ComputeBucketIndex(local: NodeId, remote: NodeId) returns (index: nat)
    ensures index == BucketIndex(local, remote) <= 256
    ensures forall j | 0 <= j < index :: IdBit(local, j) == IdBit(remote, j)
    ensures if index < 256 then IdBit(local, index) != IdBit(remote, index) else local == remote
  {
    BucketIndexIsCommonPrefix(local, remote);
    BucketIndexRange(local, remote);
    var i := 0;
    while i < 32
      invariant 0 <= i <= 32
      invariant FirstDifference(local, remote, 0) == FirstDifference(local, remote, i)
    {
      var difference := ByteXor(local[i], remote[i]);
      ByteXorZero(remote[i], local[i]);
      if difference != 0 {
        return i * 8 + CountLeadingZeros(difference);
      }
      i := i + 1;
    }
    return 256;
  }

  lemma BucketIndexRange(local: NodeId, remote: NodeId)
    ensures BucketIndex(local, remote) == 256 <==> remote == local
    ensures BucketIndex(local, remote) <= 256
  {
    var k := FirstDifference(local, remote, 0);
    FirstDifferenceIsFirst(local, remote, 0);
    if k < 32 {
      ByteXorZero(remote[k], local[k]);
      assert BitLength(ByteXor(local[k], remote[k])) >= 1;
    } else {
      assert local == remote;
    }
  }

  // ---------- what the index means, bit by bit ----------

  /** Bit j of an identifier, counted from the highest of its first byte. */
  function IdBit(id: NodeId, j: nat): nat
    requires j < 256
  {
    BitAt(id[j / 8], 7 - j % 8)
  }

  /** Exclusive or marks the bits that differ. */
  lemma {:induction false} XorMarksDifferences(a: nat, b: nat, n: nat, k: nat)
    requires k < n
    ensures BitAt(XorBits(a, b, n), k) == if BitAt(a, k) == BitAt(b, k) then 0 else 1
  {
    if k > 0 {
      XorMarksDifferences(a / 2, b / 2, n - 1, k - 1);
      assert XorBits(a, b, n) / 2 == XorBits(a / 2, b / 2, n - 1);
    }
  }

  /** The highest bit set is set, and those above it are not. */
  lemma {:induction false} BitLengthMarksHighest(x: nat, k: nat)
    ensures BitLength(x) <= k ==> BitAt(x, k) == 0
    ensures BitLength(x) == k + 1 ==> BitAt(x, k) == 1
  {
    if k > 0 {
      BitLengthMarksHighest(x / 2, k - 1);
    } else {
      assert BitLength(x / 2) == 0 <==> x / 2 == 0;
    }
  }

  /** The leading zeros of an exclusive or count the leading bits that agree. */
  lemma LeadingZerosAgree(a: byte, b: byte, k: nat)
    requires k < 8
    ensures k < CountLeadingZeros(ByteXor(a, b)) ==> BitAt(a, 7 - k) == BitAt(b, 7 - k)
    ensures k == CountLeadingZeros(ByteXor(a, b)) ==> BitAt(a, 7 - k) != BitAt(b, 7 - k)
  {
    BitLengthMarksHighest(ByteXor(a, b), 7 - k);
    XorMarksDifferences(a, b, 8, 7 - k);
  }

  lemma BitOfByte(i: nat, k: nat)
    requires i < 32 && k < 8
    ensures (i * 8 + k) / 8 == i && (i * 8 + k) % 8 == k
  {
  }

  /** The bucket index is the length of the common prefix in bits: every bit before it agrees, and the bit there differs
      unless the identifiers are the same. */
  lemma BucketIndexIsCommonPrefix(local: NodeId, remote: NodeId)
    ensures BucketIndex(local, remote) <= 256
    ensures forall j | 0 <= j < BucketIndex(local, remote) :: IdBit(local, j) == IdBit(remote, j)
    ensures var n := BucketIndex(local, remote); n < 256 ==> IdBit(local, n) != IdBit(remote, n)
  {
    var k, n := FirstDifference(local, remote, 0), BucketIndex(local, remote);
    FirstDifferenceIsFirst(local, remote, 0);
    BucketIndexRange(local, remote);
    if k < 32 {
      var z := CountLeadingZeros(ByteXor(local[k], remote[k]));
      LeadingZerosBelow(local, remote, k);
      BitOfByte(k, z);
      LeadingZerosAgree(local[k], remote[k], z);
      forall j | 0 <= j < n ensures IdBit(local, j) == IdBit(remote, j) {
        BitBeforeAgrees(local, remote, k, z, j);
      }
    }
  }

  lemma BitBeforeAgrees(local: NodeId, remote: NodeId, k: nat, z: nat, j: nat)
    requires k < 32 && local[..k] == remote[..k] && z == CountLeadingZeros(ByteXor(local[k], remote[k])) < 8
    requires j < 8 * k + z
    ensures IdBit(local, j) == IdBit(remote, j)
  {
    if j / 8 == k {
      LeadingZerosAgree(local[k], remote[k], j % 8);
    } else {
      assert local[j / 8] == local[..k][j / 8] && remote[j / 8] == remote[..k][j / 8];
    }
  }

  lemma {:induction false} LexicographicAt(a: seq<byte>, b: seq<byte>, k: nat)
    requires k < |a| && k < |b| && a[..k] == b[..k] && a[k] < b[k]
    ensures LexicographicLess(a, b)
  {
    if k > 0 {
      assert a[0] == a[..k][0] && b[0] == b[..k][0];
      assert a[1..][..k - 1] == a[..k][1..] && b[1..][..k - 1] == b[..k][1..];
      LexicographicAt(a[1..], b[1..], k - 1);
    }
  }

  /** A contact in a higher bucket is strictly closer to the local node than any in a lower one. */
  lemma HigherBucketIsCloser(local: NodeId, a: NodeId, b: NodeId)
    requires BucketIndex(local, a) > BucketIndex(local, b)
    ensures Closer(local, a, b)
  {
    var ka, kb := FirstDifference(local, a, 0), FirstDifference(local, b, 0);
    FirstDifferenceIsFirst(local, a, 0);
    FirstDifferenceIsFirst(local, b, 0);
    BucketIndexRange(local, a);
    BucketIndexRange(local, b);
    assert kb < 32;
    LeadingZerosBelow(local, b, kb);
    if ka < 32 {
      LeadingZerosBelow(local, a, ka);
    }
    assert kb <= ka;
    forall j | 0 <= j < kb ensures Distance(a, local)[j] == Distance(b, local)[j] {
      assert a[j] == b[j];
    }
    assert Distance(a, local)[..kb] == Distance(b, local)[..kb];
    XorCommutes(a[kb], local[kb], 8);
    XorCommutes(b[kb], local[kb], 8);
    var x, y := ByteXor(local[kb], a[kb]), ByteXor(local[kb], b[kb]);
    ByteXorZero(a[kb], local[kb]);
    ByteXorZero(b[kb], local[kb]);
    if ka == kb {
      BitLengthOrders(x, y);
    }
    assert Distance(a, local)[kb] == x && Distance(b, local)[kb] == y;
    LexicographicAt(Distance(a, local), Distance(b, local), kb);
  }

  lemma LeadingZerosBelow(local: NodeId, remote: NodeId, k: nat)
    requires k < 32 && local[k] != remote[k]
    ensures CountLeadingZeros(ByteXor(local[k], remote[k])) < 8
  {
    ByteXorZero(remote[k], local[k]);
    assert BitLength(ByteXor(local[k], remote[k])) >= 1;
  }

  lemma {:induction false} XorCommutes(a: nat, b: nat, n: nat)
    ensures XorBits(a, b, n) == XorBits(b, a, n)
  {
    if n > 0 {
      XorCommutes(a / 2, b / 2, n - 1);
    }
  }

  // ---------- closeness, bit by bit ----------

  /** The numbers agree in all bits from k up. */
  ghost predicate SameFrom(x: nat, y: nat, k: nat, n: nat) {
    forall q | k <= q < n :: BitAt(x, q) == BitAt(y, q)
  }

  lemma SameHalves(x: nat, y: nat, k: nat, n: nat)
    requires n > 0 && SameFrom(x, y, k, n)
    ensures SameFrom(x / 2, y / 2, if k > 0 then k - 1 else 0, n - 1)
  {
    forall q | (if k > 0 then k - 1 else 0) <= q < n - 1 ensures BitAt(x / 2, q) == BitAt(y / 2, q) {
      assert BitAt(x, q + 1) == BitAt(x / 2, q) && BitAt(y, q + 1) == BitAt(y / 2, q);
    }
  }

  lemma {:induction false} SameBits(x: nat, y: nat, n: nat)
    requires x < Pow2(n) && y < Pow2(n) && SameFrom(x, y, 0, n)
    ensures x == y
  {
    if n > 0 {
      SameHalves(x, y, 0, n);
      SameBits(x / 2, y / 2, n - 1);
      assert BitAt(x, 0) == BitAt(y, 0);
    }
  }

  /** Of two numbers the one without the highest bit in which they differ is the smaller one. */
  lemma {:induction false} HighestDifferenceDecides(x: nat, y: nat, k: nat, n: nat)
    requires k < n && x < Pow2(n) && y < Pow2(n) && SameFrom(x, y, k + 1, n)
    requires BitAt(x, k) == 0 && BitAt(y, k) == 1
    ensures x < y
  {
    SameHalves(x, y, k + 1, n);
    if k > 0 {
      HighestDifferenceDecides(x / 2, y / 2, k - 1, n - 1);
    } else {
      SameBits(x / 2, y / 2, n - 1);
    }
  }

  /** Bytes that differ first in bit j: exclusive or with t orders them by whether they agree with t there. */
  lemma ByteCloser(a: byte, b: byte, t: byte, k: nat)
    requires k < 8 && SameFrom(a, b, k + 1, 8) && BitAt(a, k) == BitAt(t, k) && BitAt(b, k) != BitAt(t, k)
    ensures ByteXor(a, t) < ByteXor(b, t)
  {
    Pow2Values();
    XorMarksDifferences(a, t, 8, k);
    XorMarksDifferences(b, t, 8, k);
    forall q | k + 1 <= q < 8 ensures BitAt(ByteXor(a, t), q) == BitAt(ByteXor(b, t), q) {
      XorMarksDifferences(a, t, 8, q);
      XorMarksDifferences(b, t, 8, q);
    }
    HighestDifferenceDecides(ByteXor(a, t), ByteXor(b, t), k, 8);
  }

  ghost predicate FirstDifferentBit(a: NodeId, b: NodeId, j: nat) {
    j < 256 && IdBit(a, j) != IdBit(b, j) && forall i | 0 <= i < j :: IdBit(a, i) == IdBit(b, i)
  }

  lemma BytesBefore(a: NodeId, b: NodeId, j: nat)
    requires FirstDifferentBit(a, b, j)
    ensures a[..j / 8] == b[..j / 8] && SameFrom(a[j / 8], b[j / 8], 8 - j % 8, 8)
  {
    Pow2Values();
    forall m | 0 <= m < j / 8 ensures a[m] == b[m] {
      forall q | 0 <= q < 8 ensures BitAt(a[m], q) == BitAt(b[m], q) {
        BitOfByte(m, 7 - q);
        assert IdBit(a, m * 8 + (7 - q)) == IdBit(b, m * 8 + (7 - q));
      }
      SameBits(a[m], b[m], 8);
    }
    forall q | 8 - j % 8 <= q < 8 ensures BitAt(a[j / 8], q) == BitAt(b[j / 8], q) {
      BitOfByte(j / 8, 7 - q);
      assert IdBit(a, j / 8 * 8 + (7 - q)) == IdBit(b, j / 8 * 8 + (7 - q));
    }
  }

  lemma AgreeingIsCloser(target: NodeId, a: NodeId, b: NodeId, j: nat)
    requires FirstDifferentBit(a, b, j) && IdBit(a, j) == IdBit(target, j)
    ensures Closer(target, a, b)
  {
    var k := j / 8;
    BytesBefore(a, b, j);
    ByteCloser(a[k], b[k], target[k], 7 - j % 8);
    var x, y := Distance(a, target), Distance(b, target);
    forall m | 0 <= m < k ensures x[m] == y[m] {
      assert a[m] == a[..k][m] && b[m] == b[..k][m];
    }
    LexicographicAt(x, y, k);
  }

  /** Of two identifiers the one is closer that agrees with the target in the first bit in which they differ. */
  lemma CloserIff(target: NodeId, a: NodeId, b: NodeId, j: nat)
    requires FirstDifferentBit(a, b, j)
    ensures Closer(target, a, b) <==> IdBit(a, j) == IdBit(target, j)
  {
    if IdBit(a, j) == IdBit(target, j) {
      AgreeingIsCloser(target, a, b, j);
    } else {
      BitsAreBits(a, j);
      BitsAreBits(b, j);
      BitsAreBits(target, j);
      AgreeingIsCloser(target, b, a, j);
      CloserIsSmallerGap(target, a, b);
      CloserIsSmallerGap(target, b, a);
    }
  }

  lemma BitsAreBits(id: NodeId, j: nat)
    requires j < 256
    ensures IdBit(id, j) < 2
  {
    BitIsBit(id[j / 8], 7 - j % 8);
  }

  lemma {:induction false} BitIsBit(x: nat, k: nat)
    ensures BitAt(x, k) < 2
  {
    if k > 0 {
      BitIsBit(x / 2, k - 1);
    }
  }
}
