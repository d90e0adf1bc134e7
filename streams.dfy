/**
 * The underlying streams the modelled code reads and writes.
 *
 * SharpFileSystem hands around `System.IO.Stream` objects whose
 * implementation lives outside the repository. The model keeps of them only
 * what the modelled code observes: a readable stream is a fixed sequence of
 * bytes with a movable position, and a writable stream collects the bytes
 * written to it. Both can be closed.
 */
module Streams {

  newtype byte = x: int | 0 <= x < 256

  function Min(a: int, b: int): int { if a <= b then a else b }

  /**
   * How many bytes a read of at most `count` bytes returns from a stream of
   * `length` bytes whose position is `position`: all that is left, up to
   * `count`, and nothing at or past the end.
   */
  function Available(count: nat, length: nat, position: nat): (n: nat)
    ensures n <= count
    ensures n == 0 <==> count == 0 || position >= length
    ensures n > 0 ==> position + n <= length
    ensures n < count ==> n == 0 || position + n == length
  {
    if position < length then Min(count, length - position) else 0
  }

  /** A readable, seekable stream over a fixed sequence of bytes. */
  class Stream {
    const content: seq<byte>
    var position: nat
    var closed: bool

    constructor (content: seq<byte>)
      ensures this.content == content && position == 0 && !closed
    {
      this.content := content;
      position := 0;
      closed := false;
    }

    function Length(): nat { |content| }

    /** The `Position` setter; a position past the end is allowed. */
    method SetPosition(value: nat)
      modifies this`position
      ensures position == value
    {
      position := value;
    }

    /**
     * Reads at most `count` bytes into `buffer[offset..]` and returns how
     * many it read; zero means the end of the stream (or `count == 0`).
     */
    method Read(buffer: array<byte>, offset: nat, count: nat) returns (n: nat)
      requires offset + count <= buffer.Length
      modifies this`position, buffer
      ensures n == Available(count, |content|, old(position))
      ensures position == old(position) + n
      ensures n > 0 ==> buffer[offset..offset + n] == content[old(position)..old(position) + n]
      ensures buffer[..offset] == old(buffer[..offset])
      ensures buffer[offset + n..] == old(buffer[offset + n..])
    {
      n := Available(count, |content|, position);
      forall i | 0 <= i < n {
        buffer[offset + i] := content[position + i];
      }
      position := position + n;
    }

    method Close()
      modifies this`closed
      ensures closed
    {
      closed := true;
    }
  }

  /** A writable stream: it collects, in order, the bytes written to it. */
  class Sink {
    var written: seq<byte>
    var closed: bool

    constructor ()
      ensures written == [] && !closed
    {
      written := [];
      closed := false;
    }

    method Write(buffer: array<byte>, offset: nat, count: nat)
      requires offset + count <= buffer.Length
      modifies this`written
      ensures written == old(written) + buffer[offset..offset + count]
    {
      written := written + buffer[offset..offset + count];
    }

    method Close()
      modifies this`closed
      ensures closed
    {
      closed := true;
    }
  }
}
