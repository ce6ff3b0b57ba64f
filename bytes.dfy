/**
 * Byte sequences and the unsigned / two's-complement integers they encode.
 * Go's `[]byte` becomes `seq<Byte>`; `readSlice` is the byte cursor step.
 */
module Bytes {
  import opened Common

  type Byte = x: int | 0 <= x < 256

  /** 256 to the power n: one more than the largest n-byte unsigned value. */
  function Pow256(n: nat): (r: nat)
    ensures r > 0
  {
    if n == 0 then 1 else 256 * Pow256(n - 1)
  }

  lemma Pow256Table()
    ensures Pow256(1) == 0x100 && Pow256(2) == 0x1_0000 && Pow256(3) == 0x100_0000
    ensures Pow256(4) == 0x1_0000_0000 && Pow256(5) == 0x100_0000_0000
    ensures Pow256(8) == 0x1_0000_0000_0000_0000
  {
  }

  /** The unsigned value of b read most-significant byte first. */
  function BigEndianValue(b: seq<Byte>): (r: nat)
    ensures r < Pow256(|b|)
  {
    if b == [] then 0 else BigEndianValue(b[..|b| - 1]) * 256 + b[|b| - 1]
  }

  lemma BigEndianValue3(b: seq<Byte>)
    requires |b| >= 3
    ensures BigEndianValue(b[..3]) == b[0] as int * 0x1_0000 + b[1] as int * 0x100 + b[2] as int
  {
    var b1, b2, b3 := b[..1], b[..2], b[..3];
    assert b1[..0] == [] && b2[..1] == b1 && b3[..2] == b2;
    assert BigEndianValue(b1) == b[0] as int;
    assert BigEndianValue(b2) == b[0] as int * 0x100 + b[1] as int;
  }

  lemma LittleEndianValue3(b: seq<Byte>)
    requires |b| >= 3
    ensures LittleEndianValue(b[..3]) == b[0] as int + b[1] as int * 0x100 + b[2] as int * 0x1_0000
  {
    var c := b[..3];
    assert c[1..][1..][1..] == [];
    assert LittleEndianValue(c[1..][1..]) == b[2] as int;
    assert LittleEndianValue(c[1..]) == b[1] as int + 0x100 * b[2] as int;
  }

  /** The unsigned value of b read least-significant byte first. */
  function LittleEndianValue(b: seq<Byte>): (r: nat)
    ensures r < Pow256(|b|)
  {
    if b == [] then 0 else b[0] + 256 * LittleEndianValue(b[1..])
  }

  /** The n-byte big-endian encoding of v. */
  function EncodeBigEndian(v: nat, n: nat): (r: seq<Byte>)
    requires v < Pow256(n)
    ensures |r| == n && BigEndianValue(r) == v
  {
    if n == 0 then []
    else
      var high := EncodeBigEndian(v / 256, n - 1);
      assert (high + [v % 256])[..n - 1] == high;
      high + [v % 256]
  }

  /** The n-byte little-endian encoding of v. */
  function EncodeLittleEndian(v: nat, n: nat): (r: seq<Byte>)
    requires v < Pow256(n)
    ensures |r| == n && LittleEndianValue(r) == v
  {
    if n == 0 then []
    else
      var high := EncodeLittleEndian(v / 256, n - 1);
      assert ([v % 256] + high)[1..] == high;
      [v % 256] + high
  }

  /** Encoding is also a left inverse: no two byte strings share a value. */
  lemma {:induction false} BigEndianEncodeOfValue(b: seq<Byte>)
    ensures EncodeBigEndian(BigEndianValue(b), |b|) == b
  {
    if b != [] {
      var init := b[..|b| - 1];
      BigEndianEncodeOfValue(init);
      var v := BigEndianValue(b);
      assert v / 256 == BigEndianValue(init) && v % 256 == b[|b| - 1];
      assert init + [b[|b| - 1]] == b;
    }
  }

  lemma {:induction false} LittleEndianEncodeOfValue(b: seq<Byte>)
    ensures EncodeLittleEndian(LittleEndianValue(b), |b|) == b
  {
    if b != [] {
      LittleEndianEncodeOfValue(b[1..]);
      var v := LittleEndianValue(b);
      assert v / 256 == LittleEndianValue(b[1..]) && v % 256 == b[0];
      assert [b[0]] + b[1..] == b;
    }
  }

  /** The two's-complement value of b read big-endian (0 for no bytes). */
  function SignedBigEndian(b: seq<Byte>): (r: int)
    ensures 0 <= 2 * r + Pow256(|b|) && 2 * r < Pow256(|b|)
    ensures r == BigEndianValue(b) || r == BigEndianValue(b) - Pow256(|b|)
  {
    var u := BigEndianValue(b);
    if 2 * u >= Pow256(|b|) then u - Pow256(|b|) else u
  }

  /** The n-byte big-endian two's-complement encoding of v. */
  function EncodeSignedBigEndian(v: int, n: nat): (r: seq<Byte>)
    requires 0 <= 2 * v + Pow256(n) && 2 * v < Pow256(n)
    ensures |r| == n && SignedBigEndian(r) == v
  {
    EncodeBigEndian(if v < 0 then v + Pow256(n) else v, n)
  }

  /**
   * Go's `readSlice(data, n)`: the first n bytes and the rest, or
   * TruncatedBuffer when fewer than n bytes remain.  The Go helper is not
   * part of this model; this contract is what its name and its callers assume.
   */
  function ReadSlice(data: seq<Byte>, n: nat): (r: Result<(seq<Byte>, seq<Byte>)>)
    ensures r.Ok? <==> n <= |data|
    ensures r.Err? ==> r.error == TruncatedBuffer
    ensures r.Ok? ==> |r.value.0| == n && r.value.0 + r.value.1 == data
  {
    if |data| < n then Err(TruncatedBuffer)
    else
      assert data[..n] + data[n..] == data;
      Ok((data[..n], data[n..]))
  }
}
