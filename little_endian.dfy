/** Little-endian encoding of unsigned integers as bytes: the host byte order assumed for the
    status word the interrupt handler queues and for the fields of an event record. */
module LittleEndian {

  import opened Types

  function Pow256(n: nat): (p: nat)
    ensures p >= 1
  {
    if n == 0 then 1 else 256 * Pow256(n - 1)
  }

  /** The value of a little-endian byte string: byte 0 is the least significant. */
  function Decode(bs: seq<Byte>): (v: nat)
    ensures v < Pow256(|bs|)
  {
    if bs == [] then 0 else bs[0] + 256 * Decode(bs[1..])
  }

  /** The n low-order bytes of v, least significant first. */
  function Encode(v: nat, n: nat): (bs: seq<Byte>)
    ensures |bs| == n
  {
    if n == 0 then [] else [v % 256] + Encode(v / 256, n - 1)
  }

  lemma Pow256Of4()
    ensures Pow256(4) == 0x1_0000_0000
  {
    assert Pow256(1) == 256;
    assert Pow256(2) == 0x1_0000;
    assert Pow256(3) == 0x100_0000;
  }

  /** Decoding recovers any value that fits in n bytes. */
  lemma {:induction false} DecodeEncode(v: nat, n: nat)
    requires v < Pow256(n)
    ensures Decode(Encode(v, n)) == v
  {
    if n > 0 {
      var bs := Encode(v, n);
      assert bs[1..] == Encode(v / 256, n - 1);
      DecodeEncode(v / 256, n - 1);
      assert Decode(bs) == v % 256 + 256 * (v / 256);
    }
  }

  /** Encoding the value of a byte string gives that byte string back. */
  lemma {:induction false} EncodeDecode(bs: seq<Byte>)
    ensures Encode(Decode(bs), |bs|) == bs
  {
    if bs != [] {
      var d := Decode(bs[1..]);
      var v := Decode(bs);
      assert v == bs[0] + 256 * d;
      assert v % 256 == bs[0];
      assert v / 256 == d;
      EncodeDecode(bs[1..]);
    }
  }
}
