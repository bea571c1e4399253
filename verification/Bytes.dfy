/** Bytes, fixed-width integers, node identifiers and virtual addresses (include/core/config.hpp). */
module Bytes {
  type byte = x: int | 0 <= x < 256
  type uint16 = x: int | 0 <= x < 0x1_0000
  type uint32 = x: int | 0 <= x < 0x1_0000_0000
  type uint64 = x: int | 0 <= x < 0x1_0000_0000_0000_0000

  type NodeId = s: seq<byte> | |s| == 32 witness seq(32, _ => 0)
  type IPv6 = s: seq<byte> | |s| == 16 witness seq(16, _ => 0)

  const EMPTY_NODE_ID: NodeId :=
    [0, 0, 0, 0, 0, 0, 0, 0, 0, 0, 0, 0, 0, 0, 0, 0, 0, 0, 0, 0, 0, 0, 0, 0, 0, 0, 0, 0, 0, 0, 0, 0]

  lemma EmptyIsZeros(id: NodeId)
    ensures id == EMPTY_NODE_ID <==> forall i | 0 <= i < 32 :: id[i] == 0
  {
  }

  datatype Option<+T> = None | Some(value: T)

  /** The number a byte string denotes when read most significant byte first. */
  function Value(s: seq<byte>): nat {
    if s == [] then 0 else Value(s[..|s| - 1]) * 256 + s[|s| - 1]
  }

  lemma ValueOfOne(s: seq<byte>)
    requires |s| == 1
    ensures Value(s) == s[0]
  {
    assert s[..0] == [];
  }

  lemma ValueOfTwo(s: seq<byte>)
    requires |s| == 2
    ensures Value(s) == (s[0] as int) * 256 + s[1]
  {
    ValueOfOne(s[..1]);
  }

  /** std::lexicographical_compare on byte strings. */
  predicate LexicographicLess(a: seq<byte>, b: seq<byte>) {
    if b == [] then false
    else if a == [] then true
    else if a[0] != b[0] then a[0] < b[0]
    else LexicographicLess(a[1..], b[1..])
  }

  /** The order every comparison of node identifiers uses; LexicographicIsNumeric ties it to the byte-wise test. */
  predicate NodeLess(a: NodeId, b: NodeId) {
    Value(a) < Value(b)
  }

  lemma {:induction false} ValueInjective(a: seq<byte>, b: seq<byte>)
    requires |a| == |b| && Value(a) == Value(b)
    ensures a == b
  {
    if a != [] {
      var n := |a| - 1;
      ValueInjective(a[..n], b[..n]);
      assert a == a[..n] + [a[n]] && b == b[..n] + [b[n]];
    }
  }

  lemma {:induction false} LexicographicSnoc(a: seq<byte>, b: seq<byte>, x: byte, y: byte)
    requires |a| == |b|
    ensures LexicographicLess(a + [x], b + [y]) <==> LexicographicLess(a, b) || (a == b && x < y)
  {
    if a == [] {
      assert a + [x] == [x] && b + [y] == [y];
    } else {
      assert (a + [x])[1..] == a[1..] + [x] && (b + [y])[1..] == b[1..] + [y];
      assert a == [a[0]] + a[1..] && b == [b[0]] + b[1..];
      LexicographicSnoc(a[1..], b[1..], x, y);
    }
  }

  lemma {:induction false} LexicographicIsNumeric(a: seq<byte>, b: seq<byte>)
    requires |a| == |b|
    ensures LexicographicLess(a, b) <==> Value(a) < Value(b)
  {
    if a != [] {
      var n := |a| - 1;
      assert a == a[..n] + [a[n]] && b == b[..n] + [b[n]];
      LexicographicSnoc(a[..n], b[..n], a[n], b[n]);
      LexicographicIsNumeric(a[..n], b[..n]);
      if Value(a[..n]) == Value(b[..n]) {
        ValueInjective(a[..n], b[..n]);
      }
    }
  }

  /** NodeLess is total: two different identifiers never tie. */
  lemma NodeOrderTotal()
    ensures forall a: NodeId, b: NodeId {:trigger NodeLess(a, b)} :: NodeLess(a, b) || a == b || NodeLess(b, a)
  {
    forall a: NodeId, b: NodeId | Value(a) == Value(b) ensures a == b {
      ValueInjective(a, b);
    }
  }

  /** virtual_address: the network's first 8 bytes followed by the identifier's first 8 (src/core/config.cpp). */
  function VirtualAddress(network: IPv6, id: NodeId): IPv6 {
    network[..8] + id[..8]
  }
}
