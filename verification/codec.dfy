/**
 The byte cursor and integer codec the record layer reads through. Their implementation is
 not part of this model; this module states the behaviour the model relies on: a reader is
 a byte string plus an offset, fixed-width integers are big-endian and a read fails, without
 consuming anything, when too few bytes remain.
 */
module Codec {
  import opened Bytes
  import opened Wrappers

  datatype Reader = Reader(data: seq<uint8>, cursor: nat) {
    predicate Valid() {
      cursor <= |data|
    }

    function Remaining(): nat
      requires Valid()
    {
      |data| - cursor
    }

    /** The bytes not yet consumed. */
    function Rest(): seq<uint8>
      requires Valid()
    {
      data[cursor..]
    }
  }

  /** A reader positioned at the start of `data`. */
  function Init(data: seq<uint8>): (r: Reader)
    ensures r.Valid() && r.Rest() == data
  {
    Reader(data, 0)
  }

  /** `take(n)`: the next n bytes, or `None` when fewer than n remain. */
  function Take(r: Reader, n: nat): (o: Option<(seq<uint8>, Reader)>)
    requires r.Valid()
    ensures o.Some? ==> o.value.1.Valid() && o.value.1.data == r.data
  {
    if r.Remaining() < n then None
    else Some((r.data[r.cursor..r.cursor + n], Reader(r.data, r.cursor + n)))
  }

  /** `u8::read` / `u16::read`: an n-byte big-endian integer, or `None` when fewer than n remain. */
  function ReadUint(r: Reader, n: nat): (o: Option<(nat, Reader)>)
    requires r.Valid()
    ensures o.Some? ==> o.value.0 < Pow256(n) && o.value.1.Valid() && o.value.1.data == r.data
  {
    if r.Remaining() < n then None
    else Some((FromBigEndian(r.data[r.cursor..r.cursor + n]), Reader(r.data, r.cursor + n)))
  }

  /** `u8::encode` / `u16::encode`: append the n-byte big-endian form of x. */
  function EncodeUint(x: nat, n: nat, bytes: seq<uint8>): (out: seq<uint8>)
    requires x < Pow256(n)
    ensures |out| == |bytes| + n
  {
    bytes + ToBigEndian(x, n)
  }
}
