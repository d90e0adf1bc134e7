/**
 * The fixed-capacity ring buffer of SharpFileSystem/IO/CircularBuffer.cs.
 *
 * The buffer keeps a head (next slot to read), a tail (next slot to write)
 * and a size. Its loops wrap lazily: they compare an index with the capacity
 * BEFORE each access and increment it after, so head and tail may rest at
 * `capacity` itself; a resting index `capacity` means slot 0. The logical
 * contents are the `size` elements read from head onwards.
 *
 * The first half of the module states that behaviour on plain values; the
 * class at the end is the object the source updates in place, and its
 * methods are proved against those functions.
 */
module CircularBuffers {
  import opened Exceptions

  function Min(a: int, b: int): int { if a <= b then a else b }

  /** The index a loop actually uses for `i`: a resting `capacity` means 0. */
  function Lazy(i: int, capacity: int): int { if i == capacity then 0 else i }

  /** The slot of position `k` counted from slot 0, for `k < 2 * capacity`. */
  function Wrap(k: int, capacity: int): int { if k >= capacity then k - capacity else k }

  /**
   * The value of an index after `n` rounds of the loops' step
   * "if (i == capacity) i = 0; <access slot i>; i++".
   */
  function Advance(i: int, n: nat, capacity: int): (r: int)
    requires 0 <= i <= capacity
    requires n > 0 ==> capacity > 0
    ensures 0 <= r <= capacity
    ensures n > 0 ==> 1 <= r
  {
    if n == 0 then i else Lazy(Advance(i, n - 1, capacity), capacity) + 1
  }

  /** The logical contents of a buffer array: `size` elements read from `head`. */
  function View<T>(a: seq<T>, head: int, size: int): (r: seq<T>)
    requires 0 <= head <= |a| && 0 <= size <= |a|
    ensures |r| == size
  {
    seq(size, k requires 0 <= k < size => a[Wrap(head + k, |a|)])
  }

  /** The array after the write loop of `Put` has stored `xs` from index `t` on. */
  function Written<T>(a: seq<T>, t: int, xs: seq<T>): (r: seq<T>)
    requires 0 <= t <= |a|
    requires |xs| > 0 ==> |a| > 0
    ensures |r| == |a|
    decreases |xs|
  {
    if xs == [] then a
    else
      var n := |xs| - 1;
      Written(a, t, xs[..n])[Lazy(Advance(t, n, |a|), |a|) := xs[n]]
  }

  /** One more round of the write loop stores `x` at the slot the index points to. */
  lemma WrittenStep<T>(a: seq<T>, t: int, xs: seq<T>, x: T)
    requires 0 <= t <= |a| && |a| > 0
    ensures Written(a, t, xs + [x]) == Written(a, t, xs)[Lazy(Advance(t, |xs|, |a|), |a|) := x]
  {
    assert (xs + [x])[..|xs|] == xs;
  }

  /**
   * The tail sits where the head plus the size points to. Writes and reads
   * without overflow keep this relation; an overflowing write, `Skip` and the
   * capacity setter do not.
   */
  predicate TailFollowsHead(capacity: int, head: int, size: int, tail: int)
    requires 0 <= head <= capacity && 0 <= size <= capacity
  {
    Lazy(tail, capacity) == Lazy(Wrap(head + size, capacity), capacity)
  }

  /** After `n >= 1` steps from `i` the index points just past slot `Wrap(i + n - 1)`. */
  lemma {:induction false} AdvanceClosed(i: int, n: nat, capacity: int)
    requires 0 <= i <= capacity && 1 <= n && i + n <= 2 * capacity
    ensures Advance(i, n, capacity) == Wrap(i + n - 1, capacity) + 1
  {
    if n > 1 {
      AdvanceClosed(i, n - 1, capacity);
    }
  }

  /** The slot a loop accesses in its round `k` (counted from 0) is `Wrap(i + k)`. */
  lemma SlotOf(i: int, k: nat, capacity: int)
    requires 0 <= i <= capacity && i + k < 2 * capacity
    ensures Lazy(Advance(i, k, capacity), capacity) == Wrap(i + k, capacity)
  {
    if k > 0 {
      AdvanceClosed(i, k, capacity);
    }
  }

  /**
   * `w` is what a write of at most `|a|` elements `xs` from index `t` leaves
   * in `a`: the run `[t, t + |xs|)` and, when it wraps, the run
   * `[0, t + |xs| - |a|)` hold `xs` in order; every other slot keeps its old
   * element.
   */
  ghost predicate StoredFrom<T>(a: seq<T>, t: int, xs: seq<T>, w: seq<T>)
    requires 0 <= t <= |a| && |xs| <= |a|
  {
    && |w| == |a|
    && forall j :: 0 <= j < |a| ==>
      w[j] == if t <= j < t + |xs| then xs[j - t]
              else if j + |a| < t + |xs| then xs[j + |a| - t]
              else a[j]
  }

  /** The write loop of `Put`, for at most `capacity` elements, stores as `StoredFrom` says. */
  lemma {:induction false} WrittenAt<T>(a: seq<T>, t: int, xs: seq<T>)
    requires 0 <= t <= |a| && |xs| <= |a|
    ensures StoredFrom(a, t, xs, Written(a, t, xs))
  {
    if xs != [] {
      var n := |xs| - 1;
      WrittenAt(a, t, xs[..n]);
      SlotOf(t, n, |a|);
    }
  }

  /**
   * Index arithmetic behind `PutAppends`: when the tail follows the head, the
   * slot of the `k`-th logical element lies outside the run a write of `m`
   * elements fills if `k < size`, and holds its `(k - size)`-th element otherwise.
   */
  lemma SlotAfterWrite(c: int, head: int, size: int, tail: int, m: int, k: int)
    requires 0 <= head <= c && 0 <= tail <= c && 0 <= size && 0 <= m && size + m <= c
    requires TailFollowsHead(c, head, size, tail)
    requires 0 <= k < size + m
    ensures var j := Wrap(head + k, c);
      if k < size then !(tail <= j < tail + m) && !(j + c < tail + m)
      else if tail <= j < tail + m then j - tail == k - size
      else j + c < tail + m && j + c - tail == k - size
  {
  }

  /** Storing `xs` into the free part of a buffer whose tail follows its head appends `xs`. */
  lemma StoredAppends<T>(a: seq<T>, w: seq<T>, head: int, size: int, tail: int, xs: seq<T>)
    requires 0 <= head <= |a| && 0 <= tail <= |a| && 0 <= size
    requires size + |xs| <= |a|
    requires TailFollowsHead(|a|, head, size, tail)
    requires StoredFrom(a, tail, xs, w)
    ensures View(w, head, size + |xs|) == View(a, head, size) + xs
  {
    var m := |xs|;
    forall k | 0 <= k < size + m
      ensures View(w, head, size + m)[k] == (View(a, head, size) + xs)[k]
    {
      var j := Wrap(head + k, |a|);
      SlotAfterWrite(|a|, head, size, tail, m, k);
      assert View(w, head, size + m)[k] == w[j];
      if k < size {
        assert View(a, head, size)[k] == a[j];
      }
    }
  }

  /**
   * A write of `xs` into the free part of a buffer whose tail follows its head
   * appends `xs` to the contents and keeps the tail following the head.
   */
  lemma PutAppends<T>(a: seq<T>, head: int, size: int, tail: int, xs: seq<T>)
    requires 0 <= head <= |a| && 0 <= tail <= |a| && 0 <= size
    requires size + |xs| <= |a|
    requires TailFollowsHead(|a|, head, size, tail)
    ensures View(Written(a, tail, xs), head, size + |xs|) == View(a, head, size) + xs
    ensures |xs| > 0 ==> TailFollowsHead(|a|, head, size + |xs|, Advance(tail, |xs|, |a|))
  {
    WrittenAt(a, tail, xs);
    StoredAppends(a, Written(a, tail, xs), head, size, tail, xs);
    if |xs| > 0 {
      AdvanceClosed(tail, |xs|, |a|);
    }
  }

  /** Reading `r` elements drops exactly the first `r` of the contents. */
  lemma GetDrops<T>(a: seq<T>, head: int, size: int, r: nat)
    requires 0 <= head <= |a| && r <= size <= |a|
    ensures View(a, Advance(head, r, |a|), size - r) == View(a, head, size)[r..]
  {
    if r > 0 {
      AdvanceClosed(head, r, |a|);
      var h := Wrap(head + r - 1, |a|) + 1;
      assert h == Advance(head, r, |a|);
      var v, w := View(a, h, size - r), View(a, head, size);
      forall k | 0 <= k < size - r
        ensures v[k] == w[r + k]
      {
        assert Wrap(h + k, |a|) == Wrap(head + r + k, |a|);
      }
      assert v == w[r..];
    }
  }

  /** Reading keeps the tail following the head. */
  lemma GetKeepsTailFollowing(capacity: int, head: int, size: int, tail: int, r: nat)
    requires 0 <= head <= capacity && r <= size <= capacity
    requires TailFollowsHead(capacity, head, size, tail)
    ensures TailFollowsHead(capacity, Advance(head, r, capacity), size - r, tail)
  {
    if r > 0 {
      AdvanceClosed(head, r, capacity);
    }
  }

  /**
   * `Skip(count)` moves only the head: the contents become the `size` stored
   * slots that follow the `count` skipped ones, not the old contents less
   * `count` elements.
   */
  lemma SkipShiftsWindow<T>(a: seq<T>, head: int, size: int, count: nat)
    requires 0 <= head <= |a| && 0 <= size && size + count <= |a|
    ensures View(a, Wrap(head + count, |a|), size) == View(a, head, size + count)[count..]
  {
    var h := Wrap(head + count, |a|);
    forall k | 0 <= k < size
      ensures View(a, h, size)[k] == View(a, head, size + count)[count..][k]
    {
      assert Wrap(h + k, |a|) == Wrap(head + count + k, |a|);
    }
  }

  /** Because `Skip` leaves the size alone, it breaks the tail-follows-head relation. */
  lemma SkipBreaksTailFollowing(capacity: int, head: int, size: int, tail: int, count: int)
    requires 0 <= head <= capacity && 0 <= size <= capacity && 0 <= tail <= capacity
    requires 0 < count < capacity
    requires TailFollowsHead(capacity, head, size, tail)
    ensures !TailFollowsHead(capacity, Wrap(head + count, capacity), size, tail)
  {
  }

  /**
   * The loop of the bulk `Put`: stores `src[offset..offset + n)` into `a`
   * from index `t` on, wrapping lazily, and returns where the index ends.
   */
  method StoreRun<T>(a: array<T>, t: int, src: array<T>, offset: nat, n: nat) returns (end: int)
    requires a != src && 0 <= t <= a.Length && offset + n <= src.Length
    requires n > 0 ==> a.Length > 0
    modifies a
    ensures a[..] == Written(old(a[..]), t, src[offset..offset + n])
    ensures end == Advance(t, n, a.Length)
  {
    end := t;
    var srcIndex := offset;
    var i := 0;
    while i < n
      invariant 0 <= i <= n
      invariant srcIndex == offset + i
      invariant end == Advance(t, i, a.Length)
      invariant a[..] == Written(old(a[..]), t, src[offset..offset + i])
    {
      if end == a.Length {
        end := 0;
      }
      WrittenStep(old(a[..]), t, src[offset..offset + i], src[srcIndex]);
      assert src[offset..offset + i + 1] == src[offset..offset + i] + [src[srcIndex]];
      a[end] := src[srcIndex];
      i, end, srcIndex := i + 1, end + 1, srcIndex + 1;
    }
  }

  /**
   * The read loop of the bulk `Get`: `n` elements of `a` from index `h` on,
   * wrapping at the end of `a`, go to `dst[offset..]`; the result is where
   * the index stops.
   */
  method LoadRun<T>(a: array<T>, h: int, dst: array<T>, offset: nat, n: nat) returns (end: int)
    requires a != dst && 0 <= h <= a.Length && n <= a.Length && offset + n <= dst.Length
    modifies dst
    ensures end == Advance(h, n, a.Length)
    ensures dst[offset..offset + n] == View(a[..], h, n)
    ensures dst[..offset] == old(dst[..offset])
    ensures dst[offset + n..] == old(dst[offset + n..])
  {
    end := h;
    var dstIndex := offset;
    var i := 0;
    while i < n
      invariant 0 <= i <= n
      invariant dstIndex == offset + i
      invariant end == Advance(h, i, a.Length)
      invariant forall k :: offset <= k < offset + i ==> dst[k] == a[Wrap(h + k - offset, a.Length)]
      invariant dst[..offset] == old(dst[..offset])
      invariant dst[offset + n..] == old(dst[offset + n..])
    {
      SlotOf(h, i, a.Length);
      if end == a.Length {
        end := 0;
      }
      dst[dstIndex] := a[end];
      i, end, dstIndex := i + 1, end + 1, dstIndex + 1;
    }
  }

  class CircularBuffer<T(0,==)> {
    var buffer: array<T>
    var capacity: int
    var head: int
    var tail: int
    var size: int
    const allowOverflow: bool

    /** The invariant the source's index arithmetic relies on. */
    ghost predicate Valid()
      reads this
    {
      && buffer.Length == capacity
      && 0 <= head <= capacity
      && 0 <= tail <= capacity
      && 0 <= size <= capacity
    }

    /** The elements a reader would obtain, oldest first. */
    ghost function Contents(): seq<T>
      reads this, buffer
      requires Valid()
    {
      View(buffer[..], head, size)
    }

    ghost predicate TailFollows()
      reads this
      requires Valid()
    {
      TailFollowsHead(capacity, head, size, tail)
    }

    constructor (capacity: nat, allowOverflow: bool)
      ensures Valid() && fresh(buffer)
      ensures this.capacity == capacity && this.allowOverflow == allowOverflow
      ensures size == 0 && head == 0 && tail == 0
      ensures Contents() == [] && TailFollows()
    {
      this.capacity := capacity;
      size := 0;
      head := 0;
      tail := 0;
      buffer := new T[capacity];
      this.allowOverflow := allowOverflow;
    }

    /** The public constructor: a negative capacity is rejected. */
    static method Create(capacity: int, allowOverflow: bool) returns (r: Result<CircularBuffer<T>>)
      ensures r.Failure? <==> capacity < 0
      ensures r.Failure? ==> r.error == ArgumentError
      ensures r.Success? ==>
        && fresh(r.value) && fresh(r.value.buffer) && r.value.Valid()
        && r.value.capacity == capacity && r.value.allowOverflow == allowOverflow
        && r.value.size == 0 && r.value.head == 0 && r.value.tail == 0
    {
      if capacity < 0 {
        return Failure(ArgumentError);
      }
      var b := new CircularBuffer(capacity, allowOverflow);
      return Success(b);
    }

    /**
     * The `Capacity` setter. Equal capacity: nothing happens. Below the size:
     * rejected. Otherwise the contents are repacked into a new array from
     * index 0 on, while head and tail keep their old values.
     */
    method SetCapacity(value: int) returns (outcome: Outcome)
      requires Valid()
      requires value == capacity || value < size || (head <= value && tail <= value)
      modifies this
      ensures Valid()
      ensures outcome == if value != old(capacity) && value < old(size) then Fail(ArgumentOutOfRange) else Pass
      ensures value == old(capacity) || value < old(size) ==>
        buffer == old(buffer) && capacity == old(capacity)
      ensures value != old(capacity) && value >= old(size) ==>
        && fresh(buffer) && capacity == value
        && buffer[..size] == old(Contents())
      ensures head == old(head) && tail == old(tail) && size == old(size)
      ensures old(head) == 0 ==> Contents() == old(Contents())
    {
      if value == capacity {
        return Pass;
      }
      if value < size {
        return Fail(ArgumentOutOfRange);
      }
      var dst := new T[value];
      if size > 0 {
        var _ := CopyTo(dst, 0, size);
      }
      assert dst[..size] == dst[0..size];
      buffer := dst;
      capacity := value;
      if head == 0 {
        forall k | 0 <= k < size
          ensures Contents()[k] == old(Contents())[k]
        {
          assert Contents() == View(dst[..], 0, size);
          assert View(dst[..], 0, size)[k] == dst[..][Wrap(0 + k, value)];
        }
      }
      return Pass;
    }

    /**
     * The `Capacity` setter with the indices reset after the repack: the
     * contents move to slots `0 .. size - 1`, so the head is set to 0 and the
     * tail to `size`, and the contents survive whatever the old head was.
     */
    method SetCapacityRepacking(value: int) returns (outcome: Outcome)
      requires Valid()
      modifies this
      ensures Valid()
      ensures outcome == if value != old(capacity) && value < old(size) then Fail(ArgumentOutOfRange) else Pass
      ensures value == old(capacity) || value < old(size) ==>
        buffer == old(buffer) && capacity == old(capacity) && head == old(head) && tail == old(tail)
      ensures value != old(capacity) && value >= old(size) ==>
        fresh(buffer) && capacity == value && head == 0 && tail == size && TailFollows()
      ensures size == old(size) && Contents() == old(Contents())
    {
      if value == capacity {
        return Pass;
      }
      if value < size {
        return Fail(ArgumentOutOfRange);
      }
      var dst := new T[value];
      if size > 0 {
        var _ := CopyTo(dst, 0, size);
      }
      assert dst[..size] == dst[0..size];
      buffer := dst;
      capacity := value;
      head := 0;
      tail := size;
      forall k | 0 <= k < size
        ensures Contents()[k] == old(Contents())[k]
      {
        assert Contents() == View(dst[..], 0, size);
        assert View(dst[..], 0, size)[k] == dst[..][Wrap(0 + k, value)];
      }
      return Pass;
    }

    /** Linear search over the `size` logical elements. */
    method Contains(item: T) returns (found: bool)
      requires Valid()
      ensures found <==> item in Contents()
    {
      var bufferIndex := head;
      var i := 0;
      while i < size
        invariant 0 <= i <= size
        invariant bufferIndex == Advance(head, i, capacity)
        invariant forall k :: 0 <= k < i ==> Contents()[k] != item
      {
        SlotOf(head, i, capacity);
        if bufferIndex == capacity {
          bufferIndex := 0;
        }
        if buffer[bufferIndex] == item {
          assert Contents()[i] == item;
          return true;
        }
        i, bufferIndex := i + 1, bufferIndex + 1;
      }
      return false;
    }

    /** Empties the buffer without touching the array. */
    method Clear()
      requires Valid()
      modifies this
      ensures Valid() && buffer == old(buffer) && capacity == old(capacity)
      ensures buffer[..] == old(buffer[..])
      ensures size == 0 && head == 0 && tail == 0
      ensures Contents() == [] && TailFollows()
    {
      size := 0;
      head := 0;
      tail := 0;
    }

    /** The public `CopyTo(array, arrayIndex)`: copies all `size` elements. */
    method CopyAllTo(target: array<T>, arrayIndex: nat) returns (outcome: Outcome)
      requires Valid() && target != buffer
      requires arrayIndex + size <= target.Length
      modifies target
      ensures outcome == Pass
      ensures target[arrayIndex..arrayIndex + size] == Contents()
      ensures target[..arrayIndex] == old(target[..arrayIndex])
      ensures target[arrayIndex + size..] == old(target[arrayIndex + size..])
    {
      outcome := CopyTo(target, arrayIndex, size);
    }

    /** Copies the first `count` logical elements; more than `size` is rejected. */
    method CopyTo(target: array<T>, arrayIndex: nat, count: nat) returns (outcome: Outcome)
      requires Valid() && target != buffer
      requires count <= size ==> arrayIndex + count <= target.Length
      modifies target
      ensures outcome == if count > size then Fail(ArgumentOutOfRange) else Pass
      ensures outcome.Fail? ==> target[..] == old(target[..])
      ensures outcome.Pass? ==>
        && target[arrayIndex..arrayIndex + count] == Contents()[..count]
        && target[..arrayIndex] == old(target[..arrayIndex])
        && target[arrayIndex + count..] == old(target[arrayIndex + count..])
    {
      if count > size {
        return Fail(ArgumentOutOfRange);
      }
      var bufferIndex := head;
      var index := arrayIndex;
      var i := 0;
      while i < count
        invariant 0 <= i <= count
        invariant index == arrayIndex + i
        invariant bufferIndex == Advance(head, i, capacity)
        invariant forall k :: 0 <= k < i ==> target[arrayIndex + k] == Contents()[k]
        invariant target[..arrayIndex] == old(target[..arrayIndex])
        invariant target[arrayIndex + count..] == old(target[arrayIndex + count..])
      {
        SlotOf(head, i, capacity);
        if bufferIndex == capacity {
          bufferIndex := 0;
        }
        target[index] := buffer[bufferIndex];
        i, bufferIndex, index := i + 1, bufferIndex + 1, index + 1;
      }
      assert target[arrayIndex..arrayIndex + count] == Contents()[..count];
      return Pass;
    }

    /**
     * Bulk write of `count` elements of `src` from `offset`. Without overflow
     * only the free room is filled; with overflow everything is written,
     * the size is clamped and the head does not move.
     */
    method Put(src: array<T>, offset: nat, count: nat) returns (written: int)
      requires Valid() && src != buffer
      requires allowOverflow && count > 0 ==> capacity > 0
      requires offset + (if allowOverflow then count else Min(count, capacity - size)) <= src.Length
      modifies this, buffer
      ensures Valid() && buffer == old(buffer) && capacity == old(capacity)
      ensures written == if allowOverflow then count else Min(count, capacity - old(size))
      ensures buffer[..] == Written(old(buffer[..]), old(tail), src[offset..offset + written])
      ensures tail == Advance(old(tail), written, capacity)
      ensures size == Min(old(size) + written, capacity)
      ensures head == old(head)
      ensures !allowOverflow && old(TailFollows()) ==>
        TailFollows() && Contents() == old(Contents()) + src[offset..offset + written]
    {
      written := if allowOverflow then count else Min(count, capacity - size);
      ghost var a0, t0, s0 := buffer[..], tail, size;
      ghost var before := Contents();
      ghost var follows := TailFollows();
      tail := StoreRun(buffer, tail, src, offset, written);
      size := Min(size + written, capacity);
      ghost var xs := src[offset..offset + written];
      if !allowOverflow && follows {
        assert TailFollows() && Contents() == before + xs by {
          assert size == s0 + |xs|;
          PutAppends(a0, head, s0, t0, xs);
        }
      }
    }

    /**
     * The single-element `Put(T)` as written: it stores at `tail` without
     * wrapping first, so it needs `tail < capacity`, and in overflow mode on
     * a full buffer its `Size++` would exceed the capacity.
     */
    method PutItem(item: T) returns (outcome: Outcome)
      requires Valid()
      requires size < capacity ==> tail < capacity
      requires allowOverflow ==> size < capacity
      modifies this, buffer
      ensures Valid() && buffer == old(buffer) && capacity == old(capacity) && head == old(head)
      ensures outcome == if !allowOverflow && old(size) == capacity then Fail(BufferOverflow) else Pass
      ensures outcome.Fail? ==>
        buffer[..] == old(buffer[..]) && tail == old(tail) && size == old(size)
      ensures outcome.Pass? ==>
        && buffer[..] == old(buffer[..])[old(tail) := item]
        && tail == old(tail) + 1 && size == old(size) + 1
      ensures outcome.Pass? && old(TailFollows()) ==>
        TailFollows() && Contents() == old(Contents()) + [item]
    {
      if !allowOverflow && size == capacity {
        return Fail(BufferOverflow);
      }
      ghost var a0 := buffer[..];
      buffer[tail] := item;
      tail := if tail == capacity then 0 else tail + 1;
      size := size + 1;
      if TailFollowsHead(capacity, head, old(size), old(tail)) {
        assert buffer[..] == Written(a0, old(tail), [item]);
        PutAppends(a0, head, old(size), old(tail), [item]);
      }
      return Pass;
    }

    /**
     * The single-element `Put(T)` with the wrap done before the store, as the
     * bulk `Put` does it; it accepts a tail resting at `capacity`.
     */
    method PutItemWrapping(item: T) returns (outcome: Outcome)
      requires Valid()
      requires allowOverflow ==> size < capacity
      modifies this, buffer
      ensures Valid() && buffer == old(buffer) && capacity == old(capacity) && head == old(head)
      ensures outcome == if !allowOverflow && old(size) == capacity then Fail(BufferOverflow) else Pass
      ensures outcome.Fail? ==>
        buffer[..] == old(buffer[..]) && tail == old(tail) && size == old(size)
      ensures outcome.Pass? ==>
        && buffer[..] == old(buffer[..])[Lazy(old(tail), capacity) := item]
        && tail == Lazy(old(tail), capacity) + 1 && size == old(size) + 1
      ensures outcome.Pass? && old(TailFollows()) ==>
        TailFollows() && Contents() == old(Contents()) + [item]
    {
      if !allowOverflow && size == capacity {
        return Fail(BufferOverflow);
      }
      ghost var a0 := buffer[..];
      if tail == capacity {
        tail := 0;
      }
      buffer[tail] := item;
      tail := tail + 1;
      size := size + 1;
      if TailFollowsHead(capacity, head, old(size), old(tail)) {
        assert buffer[..] == Written(a0, old(tail), [item]);
        PutAppends(a0, head, old(size), old(tail), [item]);
      }
      return Pass;
    }

    /** Moves the head by `count` with at most one subtraction of the capacity. */
    method Skip(count: int)
      requires Valid()
      requires 0 <= head + count <= 2 * capacity
      modifies this
      ensures Valid() && buffer == old(buffer) && capacity == old(capacity)
      ensures head == if old(head) + count >= capacity then old(head) + count - capacity else old(head) + count
      ensures size == old(size) && tail == old(tail)
      ensures 0 <= count && size + count <= capacity ==>
        Contents() == View(buffer[..], old(head), size + count)[count..]
    {
      head := head + count;
      if head >= capacity {
        head := head - capacity;
      }
      if 0 <= count && size + count <= capacity {
        SkipShiftsWindow(buffer[..], old(head), size, count);
      }
    }

    /** Bulk read of up to `count` elements into `dst` from `offset`. */
    method Get(dst: array<T>, offset: nat, count: nat) returns (r: int)
      requires Valid() && dst != buffer
      requires offset + Min(count, size) <= dst.Length
      modifies this, dst
      ensures Valid() && buffer == old(buffer) && capacity == old(capacity)
      ensures r == Min(count, old(size))
      ensures dst[offset..offset + r] == old(Contents())[..r]
      ensures dst[..offset] == old(dst[..offset])
      ensures dst[offset + r..] == old(dst[offset + r..])
      ensures size == old(size) - r && tail == old(tail)
      ensures head == Advance(old(head), r, capacity)
      ensures Contents() == old(Contents())[r..]
      ensures old(TailFollows()) ==> TailFollows()
    {
      r := Min(count, size);
      ghost var c0 := Contents();
      ghost var h0 := head;
      head := LoadRun(buffer, head, dst, offset, r);
      assert dst[offset..offset + r] == c0[..r];
      size := size - r;
      assert Contents() == c0[r..] by {
        GetDrops(buffer[..], h0, old(size), r);
      }
      if TailFollowsHead(capacity, h0, old(size), tail) {
        assert TailFollows() by {
          GetKeepsTailFollowing(capacity, h0, old(size), tail, r);
        }
      }
    }

    /**
     * The single-element `Get()` as written: it reads at `head` without
     * wrapping first, so it needs `head < capacity` on a non-empty buffer.
     */
    method GetItem() returns (r: Result<T>)
      requires Valid()
      requires size > 0 ==> head < capacity
      modifies this
      ensures Valid() && buffer == old(buffer) && capacity == old(capacity) && tail == old(tail)
      ensures r == if old(size) == 0 then Failure(InvalidOperation) else Success(old(Contents())[0])
      ensures r.Failure? ==> head == old(head) && size == old(size)
      ensures r.Success? ==> head == old(head) + 1 && size == old(size) - 1
      ensures Contents() == if r.Success? then old(Contents())[1..] else old(Contents())
      ensures old(TailFollows()) ==> TailFollows()
    {
      if size == 0 {
        return Failure(InvalidOperation);
      }
      ghost var c0 := Contents();
      assert c0 == View(buffer[..], head, size);
      assert View(buffer[..], head, size)[0] == buffer[..][Wrap(head + 0, capacity)];
      assert c0[0] == buffer[head];
      var item := buffer[head];
      head := if head == capacity then 0 else head + 1;
      size := size - 1;
      GetDrops(buffer[..], old(head), old(size), 1);
      if TailFollowsHead(capacity, old(head), old(size), tail) {
        GetKeepsTailFollowing(capacity, old(head), old(size), tail, 1);
      }
      return Success(item);
    }

    /** The single-element `Get()` with the wrap done before the read. */
    method GetItemWrapping() returns (r: Result<T>)
      requires Valid()
      modifies this
      ensures Valid() && buffer == old(buffer) && capacity == old(capacity) && tail == old(tail)
      ensures r == if old(size) == 0 then Failure(InvalidOperation) else Success(old(Contents())[0])
      ensures r.Failure? ==> head == old(head) && size == old(size)
      ensures r.Success? ==> head == Lazy(old(head), capacity) + 1 && size == old(size) - 1
      ensures Contents() == if r.Success? then old(Contents())[1..] else old(Contents())
      ensures old(TailFollows()) ==> TailFollows()
    {
      if size == 0 {
        return Failure(InvalidOperation);
      }
      ghost var c0 := Contents();
      assert c0 == View(buffer[..], head, size);
      assert View(buffer[..], head, size)[0] == buffer[..][Wrap(head + 0, capacity)];
      assert c0[0] == buffer[Lazy(head, capacity)];
      if head == capacity {
        head := 0;
      }
      var item := buffer[head];
      head := head + 1;
      size := size - 1;
      GetDrops(buffer[..], old(head), old(size), 1);
      if TailFollowsHead(capacity, old(head), old(size), tail) {
        GetKeepsTailFollowing(capacity, old(head), old(size), tail, 1);
      }
      return Success(item);
    }

    /** A fresh array holding the contents in order. */
    method ToArray() returns (dst: array<T>)
      requires Valid()
      ensures fresh(dst) && dst[..] == Contents()
    {
      dst := new T[size];
      var _ := CopyTo(dst, 0, size);
      assert dst[..] == dst[0..size];
    }
  }

  /**
   * A one-slot buffer after `Put(T)` and `Get()` as written is empty, yet its
   * tail rests at the capacity: the next `Put(T)` as written would store at
   * index 1 of a one-slot array.
   */
  method SinglePutPastArray() returns (b: CircularBuffer<int>)
    ensures b.Valid() && b.capacity == 1 && b.size == 0 && b.tail == b.capacity
  {
    b := new CircularBuffer(1, false);
    var put := b.PutItem(5);
    var got := b.GetItem();
  }

  /**
   * A one-slot buffer after `Put(T)`, `Get()` and a bulk `Put` of one element
   * holds that element, yet its head rests at the capacity: `Get()` as
   * written would read index 1 of a one-slot array.
   */
  method SingleGetPastArray() returns (b: CircularBuffer<int>)
    ensures b.Valid() && b.capacity == 1 && b.size == 1 && b.head == b.capacity
  {
    b := new CircularBuffer(1, false);
    var put := b.PutItem(5);
    var got := b.GetItem();
    var src := new int[1];
    src[0] := 7;
    var written := b.Put(src, 0, 1);
  }

  /**
   * A three-slot buffer holding 6 then 7 with its head at 1, grown to four
   * slots by the `Capacity` setter as written: the array holds 6 and 7 at
   * slots 0 and 1, but the head still points at slot 1, so 7 now comes first.
   */
  method RepackKeepsStaleHead() returns (b: CircularBuffer<int>)
    ensures b.Valid() && b.size == 2 && b.head == 1
    ensures b.buffer[..2] == [6, 7] && b.Contents()[0] == 7
  {
    b := new CircularBuffer(3, false);
    var put := b.PutItem(5);
    assert b.Contents() == [5];
    put := b.PutItem(6);
    assert b.Contents() == [5, 6];
    put := b.PutItem(7);
    assert b.Contents() == [5, 6, 7];
    var got := b.GetItem();
    assert b.Contents() == [6, 7] && b.head == 1 && b.tail == 3;
    var outcome := b.SetCapacity(4);
    assert b.buffer[1] == b.buffer[..2][1] == 7;
    assert b.Contents()[0] == b.buffer[..][Wrap(1 + 0, 4)];
  }
}
