/** The serial connection as `_cmd` uses it: `write`, `flushOutput` and
    `read(size)`. Reads are scripted: each read may see the bytes left over
    from earlier reads plus the next chunk that arrives before the read
    times out, and hands back at most `size` of them. */
module Serial {
  import opened Hex

  /** What happened on the connection, in order. */
  datatype Event = Wrote(data: seq<byte>) | Flushed | Received(size: nat, data: seq<byte>)

  /** Bytes already buffered by the port, and the chunk that arrives during
      each later read (an empty chunk is a read that times out). */
  datatype Input = Input(buffered: seq<byte>, arrivals: seq<seq<byte>>)

  /** The result of one read: the bytes handed back and what remains. */
  datatype Taken = Taken(data: seq<byte>, rest: Input)

  /** Everything a read can see: the buffer and the next arrival. */
  function Available(input: Input): seq<byte> {
    input.buffered + (if input.arrivals == [] then [] else input.arrivals[0])
  }

  /** `read(size)`: up to `size` of the available bytes, oldest first; the
      remainder stays buffered and the arrival is used up. */
  function Take(input: Input, size: nat): (t: Taken)
    ensures |t.data| <= size
    ensures |t.data| == size || t.rest.buffered == []
    ensures t.rest.arrivals == if input.arrivals == [] then [] else input.arrivals[1..]
  {
    var avail := Available(input);
    var n := if size < |avail| then size else |avail|;
    Taken(avail[..n], Input(avail[n..], if input.arrivals == [] then [] else input.arrivals[1..]))
  }

  /** A read splits what it can see: the bytes handed back, then what
      stays buffered, make up all of it, oldest first. */
  lemma TakeSplits(input: Input, size: nat)
    ensures Take(input, size).data + Take(input, size).rest.buffered == Available(input)
  {
    var avail := Available(input);
    var n := if size < |avail| then size else |avail|;
    assert avail[..n] + avail[n..] == avail;
  }

  /** A read comes back empty exactly when nothing is available (or no
      byte was asked for). */
  lemma TakeEmpty(input: Input, size: nat)
    ensures Take(input, size).data == [] <==> size == 0 || Available(input) == []
  {
  }

  /** An open connection. */
  class Channel {
    var log: seq<Event>
    var input: Input

    constructor(arrivals: seq<seq<byte>>)
      ensures log == [] && input == Input([], arrivals)
    {
      log := [];
      input := Input([], arrivals);
    }

    method Write(data: seq<byte>)
      modifies this
      ensures log == old(log) + [Wrote(data)] && input == old(input)
    {
      log := log + [Wrote(data)];
    }

    method FlushOutput()
      modifies this
      ensures log == old(log) + [Flushed] && input == old(input)
    {
      log := log + [Flushed];
    }

    method Read(size: nat) returns (data: seq<byte>)
      modifies this
      ensures Take(old(input), size) == Taken(data, input)
      ensures log == old(log) + [Received(size, data)]
    {
      var avail := Available(input);
      var n := if size < |avail| then size else |avail|;
      data := avail[..n];
      input := Input(avail[n..], if input.arrivals == [] then [] else input.arrivals[1..]);
      log := log + [Received(size, data)];
    }
  }
}
