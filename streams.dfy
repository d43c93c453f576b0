/** The two sides of `System.IO.Stream` the codec uses: appending bytes
    (WriteByte, Write) and reading one byte at a time (ReadByte, which yields
    -1, here EndOfData, once the stream is exhausted). */
module Streams {

  /** What one ReadByte call yields: a byte, or the -1 that signals an
      exhausted stream. */
  datatype StreamByte = Data(octet: bv8) | EndOfData

  /** The result of ReadByte at `pos`: the byte there, or EndOfData past the
      end of the data. */
  function ReadByteAt(data: seq<bv8>, pos: nat): (r: StreamByte)
    ensures r.EndOfData? <==> pos >= |data|
    ensures r.Data? ==> r.octet == data[pos]
  {
    if pos < |data| then Data(data[pos]) else EndOfData
  }

  /** The position after `k` ReadByte calls from `pos`: reads at the end of
      the data do not move it. */
  function Skip(data: seq<bv8>, pos: nat, k: nat): (p: nat)
    requires pos <= |data|
    ensures pos <= p <= |data|
    ensures p == pos + k || p == |data|
  {
    if pos + k <= |data| then pos + k else |data|
  }

  /** After `k` reads from `pos`, the next read yields the byte at `pos + k`
      and the position moves as if `k + 1` reads had been made. */
  lemma SkipStep(data: seq<bv8>, pos: nat, k: nat)
    requires pos <= |data|
    ensures ReadByteAt(data, Skip(data, pos, k)) == ReadByteAt(data, pos + k)
    ensures Skip(data, Skip(data, pos, k), 1) == Skip(data, pos, k + 1)
  {
  }

  /** Appending is associative: how a run of writes adds up to one
      appended block. */
  lemma AppendAssoc<T>(a: seq<T>, b: seq<T>, c: seq<T>)
    ensures a + b + c == a + (b + c)
  {
  }

  /** An append-only byte sink. */
  class OutputStream {
    var bytes: seq<bv8>

    constructor ()
      ensures bytes == []
    {
      bytes := [];
    }

    method WriteByte(b: bv8)
      modifies this
      ensures bytes == old(bytes) + [b]
    {
      bytes := bytes + [b];
    }

    method Write(buffer: seq<bv8>)
      modifies this
      ensures bytes == old(bytes) + buffer
    {
      bytes := bytes + buffer;
    }
  }

  /** A byte source read from its current position. */
  class InputStream {
    const data: seq<bv8>
    var pos: nat

    ghost predicate Valid()
      reads this
    {
      pos <= |data|
    }

    constructor (data: seq<bv8>)
      ensures Valid() && this.data == data && pos == 0
    {
      this.data := data;
      pos := 0;
    }

    method ReadByte() returns (r: StreamByte)
      requires Valid()
      modifies this
      ensures Valid()
      ensures r == ReadByteAt(data, old(pos))
      ensures pos == Skip(data, old(pos), 1)
    {
      if pos < |data| {
        r := Data(data[pos]);
        pos := pos + 1;
      } else {
        r := EndOfData;
      }
    }
  }
}
