/** Big-endian integers in byte buffers (src/network/serialization.cpp, src/security/invite.cpp). Bytes.Value reads
    them. */
module BigEndianBytes {
  import opened Bytes
  import opened Arithmetic

  function Pow256(n: nat): (p: nat)
    ensures p > 0
  {
    if n == 0 then 1 else 256 * Pow256(n - 1)
  }

  /** The n low bytes of v, most significant first. */
  function BigEndian(v: nat, n: nat): (s: seq<byte>)
    ensures |s| == n
  {
    if n == 0 then [] else BigEndian(v / 256, n - 1) + [v % 256]
  }

  lemma {:induction false} ReadWritten(v: nat, n: nat)
    requires v < Pow256(n)
    ensures Value(BigEndian(v, n)) == v
  {
    if n > 0 {
      ReadWritten(v / 256, n - 1);
      assert BigEndian(v, n)[..n - 1] == BigEndian(v / 256, n - 1);
    }
  }

  lemma {:induction false} WriteRead(s: seq<byte>)
    ensures Value(s) < Pow256(|s|) && BigEndian(Value(s), |s|) == s
  {
    if s != [] {
      var init, last := s[..|s| - 1], s[|s| - 1];
      WriteRead(init);
      assert s == init + [last];
    }
  }

  /** The widths the wire formats use. */
  lemma Widths()
    ensures Pow256(2) == 0x1_0000 && Pow256(4) == 0x1_0000_0000 && Pow256(8) == 0x1_0000_0000_0000_0000
  {
    assert Pow256(4) == 256 * Pow256(3) && Pow256(6) == 256 * Pow256(5);
  }

  lemma ReadU16(v: uint16)
    ensures Value(BigEndian(v, 2)) == v
  {
    Widths();
    ReadWritten(v, 2);
  }

  lemma ReadU32(v: uint32)
    ensures Value(BigEndian(v, 4)) == v
  {
    Widths();
    ReadWritten(v, 4);
  }

  lemma ReadU64(v: uint64)
    ensures Value(BigEndian(v, 8)) == v
  {
    Widths();
    ReadWritten(v, 8);
  }

  /** The bytes of v above position k. */
  function Shifted(v: nat, k: nat): nat {
    Quotient(v, Pow256(k))
  }

  lemma ShiftedStep(v: nat, k: nat, i: nat)
    ensures BigEndian(Shifted(v, k), i + 1) == BigEndian(Shifted(v, k + 1), i) + [Shifted(v, k) % 256]
  {
    DivDiv(v, Pow256(k));
  }

  /** write_u16_be, write_u32_be, write_u64_be: one byte per step, highest first. */
  method AppendBigEndian(buffer: seq<byte>, v: nat, n: nat) returns (out: seq<byte>)
    ensures out == buffer + BigEndian(v, n)
  {
    out := buffer;
    var i := 0;
    while i < n
      invariant 0 <= i <= n
      invariant out == buffer + BigEndian(Shifted(v, n - i), i)
    {
      ShiftedStep(v, n - i - 1, i);
      out := out + [Shifted(v, n - i - 1) % 256];
      i := i + 1;
    }
  }

  /** read_u16_be, read_u32_be, read_u64_be on the bytes of one field. */
  method ReadBigEndian(data: seq<byte>) returns (v: nat)
    ensures v == Value(data)
  {
    v := 0;
    var i := 0;
    while i < |data|
      invariant 0 <= i <= |data|
      invariant v == Value(data[..i])
    {
      assert data[..i + 1][..i] == data[..i];
      v := v * 256 + data[i];
      i := i + 1;
    }
    assert data[..i] == data;
  }
}
