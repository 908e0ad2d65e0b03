/** The observable behaviour of the kernel's byte kfifo used as the event FIFO: a bounded queue
    that copies as much as fits on the way in and as much as is there on the way out. */
module Kfifo {

  import opened Types

  /** kfifo_in: queue the longest prefix of data that fits into a FIFO of `size` bytes.
      Returns the new contents and the number of bytes copied. */
  function In(fifo: seq<Byte>, data: seq<Byte>, size: nat): (r: (seq<Byte>, nat))
    requires |fifo| <= size
    ensures |r.0| <= size
    ensures r.1 <= |data|
    ensures |r.0| == |fifo| + r.1
    ensures r.0[..|fifo|] == fifo
    ensures r.0[|fifo|..] == data[..r.1]
    ensures r.1 < |data| ==> |r.0| == size
  {
    var n := Min(|data|, size - |fifo|);
    (fifo + data[..n], n)
  }

  /** kfifo_out: take up to n bytes from the front. Returns the bytes taken and what remains. */
  function Out(fifo: seq<Byte>, n: nat): (r: (seq<Byte>, seq<Byte>))
    ensures r.0 + r.1 == fifo
    ensures |r.0| == Min(n, |fifo|)
  {
    if n <= |fifo| then (fifo[..n], fifo[n..]) else (fifo, [])
  }

  /** A push into a FIFO with room for all of data queues it whole behind what was there. */
  lemma InFits(fifo: seq<Byte>, data: seq<Byte>, size: nat)
    requires |fifo| + |data| <= size
    ensures In(fifo, data, size) == (fifo + data, |data|)
  {
    var r := In(fifo, data, size);
    assert r.1 == |data|;
    assert data[..r.1] == data;
    assert r.0 == r.0[..|fifo|] + r.0[|fifo|..];
  }

  /** A push into a full FIFO copies nothing and changes nothing. */
  lemma InFull(fifo: seq<Byte>, data: seq<Byte>, size: nat)
    requires |fifo| == size
    ensures In(fifo, data, size) == (fifo, 0)
  {
    var r := In(fifo, data, size);
    assert r.0 == r.0[..|fifo|];
  }
}
