/**
 The byte buffers of the MakeCode (PXT) runtime: every element is a byte,
 a read outside the buffer yields 0 and a write outside it is ignored.
 The register accessors rely on both rules when an index they compute
 falls outside the buffer.
 */
module Pxt {

  type Byte = x: nat | x < 256

  /** `buf[i]` */
  function Get(buf: seq<Byte>, i: int): Byte
  {
    if 0 <= i < |buf| then buf[i] else 0
  }

  /** `buf[i] = v` */
  function Set(buf: seq<Byte>, i: int, v: Byte): (r: seq<Byte>)
    ensures |r| == |buf|
    ensures forall p :: 0 <= p < |buf| ==> r[p] == (if p == i then v else buf[p])
  {
    if 0 <= i < |buf| then buf[i := v] else buf
  }

  /** Writing back the byte just read changes nothing. */
  lemma SetGet(buf: seq<Byte>, i: int)
    ensures Set(buf, i, Get(buf, i)) == buf
  {
  }
}
