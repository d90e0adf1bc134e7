/**
 * The read- and seek-only concatenation of streams in
 * SharpFileSystem/IO/ConcatStream.cs.
 *
 * The constructor records, for every underlying stream, the logical position
 * at which it starts (`offsets`, the sums of the lengths before it) and the
 * total length. A cursor `streamIndex` names the current stream; the logical
 * position is the current stream's offset plus its own position.
 */
module ConcatStreams {
  import opened Exceptions
  import opened Streams

  /** The sum of `xs`, taken from the end so that prefixes extend by one element. */
  function Sum(xs: seq<nat>): nat
  {
    if xs == [] then 0 else Sum(xs[..|xs| - 1]) + xs[|xs| - 1]
  }

  /** The lengths of the streams, in order. */
  function Lengths(streams: seq<Stream>): (r: seq<nat>)
    ensures |r| == |streams|
    ensures forall i :: 0 <= i < |streams| ==> r[i] == streams[i].Length()
  {
    seq(|streams|, i requires 0 <= i < |streams| => streams[i].Length())
  }

  lemma SumStep(xs: seq<nat>, i: int)
    requires 0 <= i < |xs|
    ensures Sum(xs[..i + 1]) == Sum(xs[..i]) + xs[i]
  {
    assert xs[..i + 1][..i] == xs[..i];
  }

  /** Prefix sums grow with the prefix. */
  lemma {:induction false} SumMonotone(xs: seq<nat>, i: int, j: int)
    requires 0 <= i <= j <= |xs|
    ensures Sum(xs[..i]) <= Sum(xs[..j])
    decreases j - i
  {
    if i < j {
      SumStep(xs, j - 1);
      SumMonotone(xs, i, j - 1);
    }
  }

  /**
   * The ranges `[Sum(xs[..i]), Sum(xs[..i + 1]))` of two streams are
   * disjoint: a position inside the range of stream `i` lies before the
   * start of every later stream.
   */
  lemma RangeBeforeLater(xs: seq<nat>, i: int, j: int, v: int)
    requires 0 <= i < j < |xs|
    requires v < Sum(xs[..i]) + xs[i]
    ensures v < Sum(xs[..j])
  {
    SumStep(xs, i);
    SumMonotone(xs, i + 1, j);
  }

  /** At most one stream's range holds a given logical position. */
  lemma ContainingStreamUnique(xs: seq<nat>, i: int, j: int, v: int)
    requires 0 <= i < |xs| && 0 <= j < |xs|
    requires Sum(xs[..i]) <= v < Sum(xs[..i]) + xs[i]
    requires Sum(xs[..j]) <= v < Sum(xs[..j]) + xs[j]
    ensures i == j
  {
    if i < j {
      RangeBeforeLater(xs, i, j, v);
    } else if j < i {
      RangeBeforeLater(xs, j, i, v);
    }
  }

  /** The last stream's range ends at the total length. */
  lemma LastRangeEnd(xs: seq<nat>)
    requires |xs| > 0
    ensures Sum(xs[..|xs| - 1]) + xs[|xs| - 1] == Sum(xs)
  {
    assert xs[..|xs|] == xs;
    SumStep(xs, |xs| - 1);
  }

  /** Every logical position in `[0, Sum(xs))` lies in the range of some stream. */
  lemma {:induction false} SomeStreamContains(xs: seq<nat>, v: int)
    requires 0 <= v < Sum(xs)
    ensures exists i :: 0 <= i < |xs| && Sum(xs[..i]) <= v < Sum(xs[..i]) + xs[i]
  {
    var n := |xs| - 1;
    LastRangeEnd(xs);
    if v < Sum(xs[..n]) {
      var ys := xs[..n];
      SomeStreamContains(ys, v);
      var i :| 0 <= i < |ys| && Sum(ys[..i]) <= v < Sum(ys[..i]) + ys[i];
      assert ys[..i] == xs[..i];
    } else {
      assert Sum(xs[..n]) <= v < Sum(xs[..n]) + xs[n];
    }
  }

  datatype SeekOrigin = Begin | Current | End

  /** The position `Seek` assigns: note that `End` counts `offset` backwards. */
  function SeekTarget(offset: int, origin: SeekOrigin, position: int, length: int): int
  {
    match origin
    case Begin => offset
    case Current => position + offset
    case End => length - offset
  }

  class ConcatStream {
    const streams: seq<Stream>
    const offsets: array<int>
    const length: int
    var streamIndex: int
    var closed: bool

    /**
     * The offset table holds the prefix sums of the lengths, and the cursor
     * names a stream; the latter needs at least one stream.
     */
    ghost predicate Valid()
      reads this, offsets
    {
      && |streams| > 0
      && offsets.Length == |streams|
      && 0 <= streamIndex < |streams|
      && (forall i :: 0 <= i < |streams| ==> offsets[i] == Sum(Lengths(streams)[..i]))
      && length == Sum(Lengths(streams))
    }

    constructor (streams: seq<Stream>)
      ensures this.streams == streams && fresh(offsets) && offsets.Length == |streams|
      ensures forall i :: 0 <= i < |streams| ==> offsets[i] == Sum(Lengths(streams)[..i])
      ensures length == Sum(Lengths(streams))
      ensures streamIndex == 0 && !closed
      ensures |streams| > 0 ==> Valid()
    {
      var lens := Lengths(streams);
      var table := new int[|streams|];
      var offset := 0;
      var total := 0;
      for i := 0 to |streams|
        invariant offset == Sum(lens[..i]) && total == offset
        invariant forall j :: 0 <= j < i ==> table[j] == Sum(lens[..j])
      {
        table[i] := offset;
        SumStep(lens, i);
        offset := offset + streams[i].Length();
        total := total + streams[i].Length();
      }
      assert lens[..|streams|] == lens;
      this.streams := streams;
      offsets := table;
      length := total;
      streamIndex := 0;
      closed := false;
    }

    /** The stream the cursor names. */
    function CurrentStream(): (s: Stream)
      reads this, offsets
      requires Valid()
      ensures s in streams
    {
      streams[streamIndex]
    }

    /**
     * The logical position at which the current stream starts: the lengths
     * of the streams before it, so its range lies within the total length.
     */
    function CurrentStreamOffset(): (r: int)
      reads this, offsets
      requires Valid()
      ensures r == Sum(Lengths(streams)[..streamIndex])
      ensures 0 <= r && r + CurrentStream().Length() <= length
    {
      SumStep(Lengths(streams), streamIndex);
      SumMonotone(Lengths(streams), streamIndex + 1, |streams|);
      assert Lengths(streams)[..|streams|] == Lengths(streams);
      offsets[streamIndex]
    }

    function CanRead(): bool { true }
    function CanSeek(): bool { true }
    function CanWrite(): bool { false }

    /**
     * The `Position` getter: the current stream's offset plus its own
     * position, so it stays within the total length while the current
     * stream's position stays within that stream.
     */
    function Position(): (r: int)
      reads this, offsets, streams
      requires Valid()
      ensures r >= CurrentStreamOffset()
      ensures CurrentStream().position <= CurrentStream().Length() ==> r <= length
    {
      CurrentStreamOffset() + CurrentStream().position
    }

    /** The backward do-while of the `Position` setter, entered when `value` lies before the current stream. */
    method ScanBackward(value: int)
      requires Valid() && 0 <= value < offsets[streamIndex]
      modifies this`streamIndex
      ensures Valid() && streamIndex < old(streamIndex)
      ensures offsets[streamIndex] <= value < offsets[streamIndex] + CurrentStream().Length()
    {
      ghost var lens := Lengths(streams);
      assert streamIndex > 0 by {
        assert lens[..0] == [];
      }
      streamIndex := streamIndex - 1;
      SumStep(lens, streamIndex);
      while value < offsets[streamIndex]
        invariant 0 <= streamIndex < old(streamIndex)
        invariant value < offsets[streamIndex] + lens[streamIndex]
        decreases streamIndex
      {
        assert streamIndex > 0 by {
          assert lens[..0] == [];
        }
        streamIndex := streamIndex - 1;
        SumStep(lens, streamIndex);
      }
    }

    /**
     * The forward do-while of the `Position` setter, entered when `value`
     * lies at or past the end of the current stream, which is not the last.
     */
    method ScanForward(value: int)
      requires Valid() && streamIndex < |streams| - 1
      requires value >= offsets[streamIndex] + CurrentStream().Length()
      modifies this`streamIndex
      ensures Valid() && streamIndex > old(streamIndex)
      ensures offsets[streamIndex] <= value
      ensures value < offsets[streamIndex] + CurrentStream().Length() || streamIndex == |streams| - 1
    {
      ghost var lens := Lengths(streams);
      var last := |streams| - 1;
      SumStep(lens, streamIndex);
      streamIndex := streamIndex + 1;
      while value >= offsets[streamIndex] + streams[streamIndex].Length() && streamIndex < last
        invariant old(streamIndex) < streamIndex <= last
        invariant offsets[streamIndex] <= value
        decreases last - streamIndex
      {
        SumStep(lens, streamIndex);
        streamIndex := streamIndex + 1;
      }
    }

    /**
     * The `Position` setter: a scan moves the cursor to the stream holding
     * `value`, whose own position becomes the distance from its start. The
     * scans only stop inside the table when `value >= 0` (the backward scan)
     * and when they do not start on the last stream with `value >= length`
     * (the forward scan tests its bound after stepping):
     * `BackwardScanUnderflows` and `ForwardScanOverruns` show that the index
     * leaves the table otherwise.
     */
    method SetPosition(value: int)
      requires Valid()
      requires value >= 0
      requires !(streamIndex == |streams| - 1 && value >= length)
      modifies this`streamIndex, streams`position
      ensures Valid()
      ensures offsets[streamIndex] <= value
      ensures value < offsets[streamIndex] + CurrentStream().Length() || streamIndex == |streams| - 1
      ensures value < length ==> value < offsets[streamIndex] + CurrentStream().Length()
      ensures CurrentStream().position == value - offsets[streamIndex]
      ensures Position() == value
      ensures forall s :: s in streams && s != CurrentStream() ==> s.position == old(s.position)
    {
      if value < offsets[streamIndex] {
        ScanBackward(value);
      } else if value >= offsets[streamIndex] + streams[streamIndex].Length() {
        assert streamIndex < |streams| - 1 by {
          LastRangeEnd(Lengths(streams));
        }
        ScanForward(value);
      }
      var i := streamIndex;
      assert value < length ==> value < offsets[i] + streams[i].Length() by {
        if value < length && i == |streams| - 1 {
          LastRangeEnd(Lengths(streams));
        }
      }
      streams[i].SetPosition(value - offsets[i]);
    }

    /**
     * `Read`: reads from the current stream until it returns data or the
     * cursor is on the last stream. The cursor never moves, so on any but the
     * last stream the loop ends only if the first read returns data; the
     * precondition says so (a current stream at its end, other than the last,
     * would make the source spin forever).
     */
    method Read(buffer: array<byte>, offset: nat, count: nat) returns (readBytes: nat)
      requires Valid()
      requires offset + count <= buffer.Length
      requires streamIndex == |streams| - 1
        || Available(count, CurrentStream().Length(), CurrentStream().position) > 0
      modifies CurrentStream()`position, buffer
      ensures readBytes == Available(count, CurrentStream().Length(), old(CurrentStream().position))
      ensures readBytes > 0 || streamIndex == |streams| - 1
      ensures CurrentStream().position == old(CurrentStream().position) + readBytes
      ensures readBytes > 0 ==>
        buffer[offset..offset + readBytes]
        == CurrentStream().content[old(CurrentStream().position)..old(CurrentStream().position) + readBytes]
      ensures buffer[..offset] == old(buffer[..offset])
      ensures buffer[offset + readBytes..] == old(buffer[offset + readBytes..])
    {
      var s := streams[streamIndex];
      ghost var p0 := s.position;
      ghost var amount := Available(count, s.Length(), p0);
      // The source's do-while: `first` marks the round before the first test.
      var first := true;
      readBytes := 0;
      while first || (readBytes == 0 && streamIndex < |streams| - 1)
        invariant first ==> readBytes == 0
        invariant readBytes == 0 ==> s.position == p0 && buffer[..] == old(buffer[..])
        invariant !first && readBytes == 0 && streamIndex == |streams| - 1 ==> amount == 0
        invariant readBytes > 0 ==> && readBytes == amount
                                    && s.position == p0 + readBytes
                                    && buffer[offset..offset + readBytes] == s.content[p0..p0 + readBytes]
                                    && buffer[..offset] == old(buffer[..offset])
                                    && buffer[offset + readBytes..] == old(buffer[offset + readBytes..])
        decreases first, readBytes == 0
      {
        readBytes := s.Read(buffer, offset, count);
        first := false;
      }
    }

    /** `Seek`: assigns `SeekTarget` to the position and returns it. */
    method Seek(offset: int, origin: SeekOrigin) returns (p: int)
      requires Valid()
      requires var target := SeekTarget(offset, origin, Position(), length);
        target >= 0 && !(streamIndex == |streams| - 1 && target >= length)
      modifies this`streamIndex, streams`position
      ensures Valid()
      ensures p == SeekTarget(offset, origin, old(Position()), length)
      ensures offsets[streamIndex] <= p
      ensures p < offsets[streamIndex] + CurrentStream().Length() || streamIndex == |streams| - 1
      ensures p < length ==> p < offsets[streamIndex] + CurrentStream().Length()
      ensures CurrentStream().position == p - offsets[streamIndex]
      ensures Position() == p
      ensures forall s :: s in streams && s != CurrentStream() ==> s.position == old(s.position)
    {
      match origin {
        case Begin =>
          SetPosition(offset);
          p := offset;
        case Current =>
          p := Position() + offset;
          SetPosition(p);
        case End =>
          SetPosition(length - offset);
          p := length - offset;
      }
    }

    method SetLength(value: int) returns (outcome: Outcome)
      ensures outcome == Fail(NotSupported)
    {
      outcome := Fail(NotSupported);
    }

    method Write(buffer: array<byte>, offset: int, count: int) returns (outcome: Outcome)
      ensures outcome == Fail(NotSupported)
    {
      outcome := Fail(NotSupported);
    }

    /** Closes every underlying stream, then this one. */
    method Close()
      modifies this`closed, streams`closed
      ensures closed
      ensures forall s :: s in streams ==> s.closed
    {
      for i := 0 to |streams|
        invariant forall j :: 0 <= j < i ==> streams[j].closed
      {
        streams[i].Close();
      }
      closed := true;
    }
  }

  /**
   * The backward scan cannot stop for a negative position: every stream
   * starts at or after 0, so the index is decremented past the first stream.
   */
  lemma BackwardScanUnderflows(xs: seq<nat>, i: int, v: int)
    requires 0 <= i <= |xs| && v < 0
    ensures v < Sum(xs[..i])
  {
  }

  /**
   * On the last stream, a position at or past the total length always passes
   * the forward scan's first test, so the index is stepped past the table.
   */
  lemma ForwardScanOverruns(xs: seq<nat>, v: int)
    requires |xs| > 0 && v >= Sum(xs)
    ensures v >= Sum(xs[..|xs| - 1]) + xs[|xs| - 1]
  {
    LastRangeEnd(xs);
  }

  /**
   * Seeking to 6 from the beginning over streams of lengths 5 and 7 puts the
   * cursor on the second stream, at its own position 1, and leaves the first
   * stream where it was.
   */
  method SeekIntoSecondStream() returns (c: ConcatStream, a: Stream, b: Stream)
    ensures c.Valid() && c.streams == [a, b]
    ensures c.streamIndex == 1 && b.position == 1 && a.position == 0 && c.Position() == 6
  {
    a := new Stream(seq(5, _ => 0));
    b := new Stream(seq(7, _ => 1));
    c := new ConcatStream([a, b]);
    assert Lengths([a, b]) == [5, 7];
    assert Lengths([a, b])[..1] == [5] && Lengths([a, b])[..2] == [5, 7];
    var p := c.Seek(6, Begin);
  }
}
