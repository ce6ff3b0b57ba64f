/**
 * Go's `BigEndian` and `LittleEndian` fixed-width readers.  Their
 * implementations are not part of this model; each is given the contract its
 * name promises (the first n bytes, as an unsigned or two's-complement
 * integer), and these contracts are assumptions about that code.
 */
module BigEndian {
  import opened Bytes

  function Int8(b: seq<Byte>): (r: int)
    requires |b| >= 1
    ensures -0x80 <= r < 0x80
    ensures r % 0x100 == b[0]
  {
    Pow256Table();
    SignedBigEndian(b[..1])
  }

  function Int16(b: seq<Byte>): (r: int)
    requires |b| >= 2
    ensures -0x8000 <= r < 0x8000
  {
    Pow256Table();
    SignedBigEndian(b[..2])
  }

  function Int24(b: seq<Byte>): (r: int)
    requires |b| >= 3
    ensures -0x80_0000 <= r < 0x80_0000
  {
    Pow256Table();
    SignedBigEndian(b[..3])
  }

  function Int32(b: seq<Byte>): (r: int)
    requires |b| >= 4
    ensures -0x8000_0000 <= r < 0x8000_0000
  {
    Pow256Table();
    SignedBigEndian(b[..4])
  }

  function Uint40(b: seq<Byte>): (r: nat)
    requires |b| >= 5
    ensures r < 0x100_0000_0000
  {
    Pow256Table();
    BigEndianValue(b[..5])
  }
}

module LittleEndian {
  import opened Bytes

  function Uint32(b: seq<Byte>): (r: nat)
    requires |b| >= 4
    ensures r < 0x1_0000_0000
  {
    Pow256Table();
    LittleEndianValue(b[..4])
  }

  function Uint64(b: seq<Byte>): (r: nat)
    requires |b| >= 8
    ensures r < 0x1_0000_0000_0000_0000
  {
    Pow256Table();
    LittleEndianValue(b[..8])
  }
}
