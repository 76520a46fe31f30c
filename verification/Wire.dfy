/** Big-endian fields at positions of a buffer. */
module Wire {
  import opened Common

  predicate At(data: seq<byte>, pos: nat, bytes: seq<byte>) {
    pos + |bytes| <= |data| && data[pos..pos + |bytes|] == bytes
  }

  lemma AtSplit(data: seq<byte>, pos: nat, a: seq<byte>, b: seq<byte>)
    ensures At(data, pos, a + b) <==> At(data, pos, a) && At(data, pos + |a|, b)
  {
    if pos + |a| + |b| <= |data| {
      SliceJoin(data, pos, pos + |a|, pos + |a| + |b|);
      assert data[pos..pos + |a| + |b|][..|a|] == data[pos..pos + |a|];
      assert data[pos..pos + |a| + |b|][|a|..] == data[pos + |a|..pos + |a| + |b|];
      if At(data, pos, a + b) {
        assert (a + b)[..|a|] == a && (a + b)[|a|..] == b;
      }
    }
  }

  function U16At(data: seq<byte>, pos: nat): u16
    requires pos + 2 <= |data|
  {
    data[pos] as int * 256 + data[pos + 1]
  }

  function U32At(data: seq<byte>, pos: nat): u32
    requires pos + 4 <= |data|
  {
    data[pos] as int * 0x100_0000 + data[pos + 1] as int * 0x1_0000 + data[pos + 2] as int * 0x100 + data[pos + 3]
  }

  function U16Bytes(n: u16): seq<byte> {
    [n / 256, n % 256]
  }

  function U32Bytes(n: u32): seq<byte> {
    [n / 0x100_0000, n / 0x1_0000 % 256, n / 0x100 % 256, n % 256]
  }

  lemma ByteReadsBack(data: seq<byte>, pos: nat, b: byte)
    requires At(data, pos, [b])
    ensures data[pos] == b
  {
    assert data[pos..pos + 1][0] == b;
  }

  lemma U16ReadsBack(data: seq<byte>, pos: nat, n: u16)
    requires At(data, pos, U16Bytes(n))
    ensures U16At(data, pos) == n
  {
    assert data[pos..pos + 2][0] == n / 256 && data[pos..pos + 2][1] == n % 256;
  }

  lemma U32ReadsBack(data: seq<byte>, pos: nat, n: u32)
    requires At(data, pos, U32Bytes(n))
    ensures U32At(data, pos) == n
  {
    var s := data[pos..pos + 4];
    assert s[0] == data[pos] && s[1] == data[pos + 1] && s[2] == data[pos + 2] && s[3] == data[pos + 3];
    BytesOfU32(n);
  }

  lemma BytesOfU32(n: u32)
    ensures n / 0x100_0000 * 0x100_0000 + n / 0x1_0000 % 256 * 0x1_0000 + n / 0x100 % 256 * 0x100 + n % 256 == n
  {
    assert n / 0x100 / 0x100 == n / 0x1_0000 && n / 0x1_0000 / 0x100 == n / 0x100_0000;
  }
}
