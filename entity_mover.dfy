/**
 * SharpFileSystem/StandardEntityMover.cs: moving a file or a directory tree
 * from one file system to another.
 *
 * A file is copied through a buffer of `BufferSize` bytes and then deleted
 * from the source. A directory is created at the destination, each entity
 * listed below it in the source is moved in turn to the same name below the
 * destination, and the source directory is deleted afterwards, unless it is
 * the root.
 */
module EntityMovers {
  import opened Exceptions
  import opened Streams
  import opened Paths
  import opened MemoryFileSystems

  const BufferSize: nat := 65536

  /**
   * The copy loop: reads into `buffer` until a read returns nothing, and
   * writes each chunk read. `sizes` are the lengths of the writes, in order:
   * each is at most the buffer's length, and every one but the last fills it.
   */
  method CopyAll(sourceStream: Stream, destinationStream: Sink, buffer: array<byte>)
    returns (ghost sizes: seq<nat>)
    requires buffer.Length > 0 && sourceStream.position <= |sourceStream.content|
    modifies sourceStream`position, destinationStream`written, buffer
    ensures sourceStream.position == |sourceStream.content|
    ensures destinationStream.written
         == old(destinationStream.written) + sourceStream.content[old(sourceStream.position)..]
    ensures forall i :: 0 <= i < |sizes| ==> 0 < sizes[i] <= buffer.Length
    ensures forall i :: 0 <= i < |sizes| - 1 ==> sizes[i] == buffer.Length
  {
    ghost var content := sourceStream.content;
    ghost var start := sourceStream.position;
    ghost var before := destinationStream.written;
    sizes := [];
    while true
      invariant start <= sourceStream.position <= |content|
      invariant destinationStream.written == before + content[start..sourceStream.position]
      invariant forall i :: 0 <= i < |sizes| ==> 0 < sizes[i] <= buffer.Length
      invariant forall i :: 0 <= i < |sizes| && sizes[i] < buffer.Length ==>
        i == |sizes| - 1 && sourceStream.position == |content|
      decreases |content| - sourceStream.position
    {
      ghost var done := sourceStream.position;
      var readBytes := sourceStream.Read(buffer, 0, buffer.Length);
      if readBytes == 0 {
        break;
      }
      destinationStream.Write(buffer, 0, readBytes);
      assert content[start..done + readBytes] == content[start..done] + content[done..done + readBytes];
      sizes := sizes + [readBytes];
    }
  }

  /** `k`, which lies at or below `p`, moved to the same place below `q`. */
  function Rebase(k: seq<string>, p: seq<string>, q: seq<string>): (r: seq<string>)
    requires p <= k
    ensures q <= r && Origin(r, p, q) == k
  {
    assert k == p + k[|p|..];
    q + k[|p|..]
  }

  /** The key below `p` that `x`, which lies at or below `q`, is moved from. */
  function Origin(x: seq<string>, p: seq<string>, q: seq<string>): seq<string>
    requires q <= x
  {
    p + x[|q|..]
  }

  /** Where the keys of `s` at or below `p` go when that subtree is placed at `q`. */
  function Targets(s: Entries, p: seq<string>, q: seq<string>): set<seq<string>>
  {
    set k | k in s && p <= k :: Rebase(k, p, q)
  }

  /** The subtree of `s` at `p`, placed at `q`. */
  function Graft(s: Entries, p: seq<string>, q: seq<string>): Entries
  {
    map x | x in Targets(s, p, q) && q <= x && Origin(x, p, q) in s :: s[Origin(x, p, q)]
  }

  /** The keys strictly below `p` whose child of `p` is one of `moved`. */
  predicate InMoved(p: seq<string>, k: seq<string>, moved: set<seq<string>>)
  {
    p <= k && |p| < |k| && k[..|p| + 1] in moved
  }

  /** The source while a directory's children are moved: the moved subtrees are gone. */
  function PruneChildren(s: Entries, p: seq<string>, moved: set<seq<string>>): Entries
  {
    map k | k in s && !InMoved(p, k, moved) :: s[k]
  }

  /** The destination's new entities while a directory's children are moved. */
  function GraftChildren(s: Entries, p: seq<string>, q: seq<string>, moved: set<seq<string>>): Entries
  {
    map x | x in Targets(s, p, q) && q <= x && Origin(x, p, q) in s && InMoved(p, Origin(x, p, q), moved)
      :: s[Origin(x, p, q)]
  }

  /** A key moved from `p` to `q` and back is itself. */
  lemma RebaseOrigin(x: seq<string>, p: seq<string>, q: seq<string>)
    requires q <= x
    ensures p <= Origin(x, p, q) && Rebase(Origin(x, p, q), p, q) == x
  {
    assert x == q + x[|q|..];
  }

  /** The graft, pointwise: a key is grafted exactly when its origin is stored. */
  lemma GraftAt(s: Entries, p: seq<string>, q: seq<string>)
    ensures forall x :: x in Graft(s, p, q) <==> q <= x && Origin(x, p, q) in s
  {
    forall x | q <= x && Origin(x, p, q) in s
      ensures x in Targets(s, p, q)
    {
      RebaseOrigin(x, p, q);
    }
  }

  /** The grafted children, pointwise. */
  lemma GraftChildrenAt(s: Entries, p: seq<string>, q: seq<string>, moved: set<seq<string>>)
    ensures forall x :: x in GraftChildren(s, p, q, moved) <==>
      q <= x && |q| < |x| && Origin(x, p, q) in s && p + [x[|q|]] in moved
  {
    forall x | q <= x
      ensures InMoved(p, Origin(x, p, q), moved) <==> |q| < |x| && p + [x[|q|]] in moved
    {
      var k := Origin(x, p, q);
      if |q| < |x| {
        assert k[..|p| + 1] == p + [k[|p|]];
      }
    }
    forall x | q <= x && Origin(x, p, q) in s
      ensures x in Targets(s, p, q)
    {
      RebaseOrigin(x, p, q);
    }
  }

  /** Below a child `p + [n]` and `q + [n]`, origins are those below `p` and `q`. */
  lemma OriginChild(x: seq<string>, p: seq<string>, q: seq<string>, n: string)
    requires q + [n] <= x
    ensures q <= x && |q| < |x| && x[|q|] == n
    ensures Origin(x, p + [n], q + [n]) == Origin(x, p, q)
  {
    assert x[..|q| + 1] == q + [n];
    assert x[..|q|] == x[..|q| + 1][..|q|];
    assert x[|q|..] == [n] + x[|q| + 1..];
  }

  /** A key strictly below `p` lies below the child of `p` it starts with. */
  lemma ChildPrefix(k: seq<string>, p: seq<string>)
    requires p <= k && |p| < |k|
    ensures k[..|p| + 1] == p + [k[|p|]] && p + [k[|p|]] <= k
  {
    assert k[..|p|] == p;
  }

  /** After moving child `p + [n]`, the pruned source has lost its subtree too. */
  lemma PruneStep(s: Entries, p: seq<string>, moved: set<seq<string>>, n: string)
    ensures Remove(PruneChildren(s, p, moved), p + [n]) == PruneChildren(s, p, moved + {p + [n]})
  {
    var c := p + [n];
    forall k | k in s
      ensures c <= k <==> InMoved(p, k, {c})
    {
      if c <= k {
        assert k[..|c|] == c;
        assert k[..|p|] == c[..|p|];
      }
      if InMoved(p, k, {c}) {
        assert k[..|c|] == c;
      }
    }
  }

  /** What lies below an unmoved child is still in the pruned source. */
  lemma GraftUnpruned(s: Entries, p: seq<string>, moved: set<seq<string>>, n: string, q: seq<string>)
    requires p + [n] !in moved
    ensures Graft(PruneChildren(s, p, moved), p + [n], q) == Graft(s, p + [n], q)
  {
    var c := p + [n];
    GraftAt(s, c, q);
    GraftAt(PruneChildren(s, p, moved), c, q);
    forall x | q <= x
      ensures !InMoved(p, Origin(x, c, q), moved)
    {
      var k := Origin(x, c, q);
      assert k[..|p| + 1] == c;
    }
  }

  /** Later updates win, whichever way they are grouped. */
  lemma UnionAssociative(a: Entries, b: Entries, c: Entries)
    ensures a + b + c == a + (b + c)
  {
  }

  /** After moving child `p + [n]` to `q + [n]`, its subtree is part of the grafted children. */
  lemma GraftStep(s: Entries, p: seq<string>, q: seq<string>, moved: set<seq<string>>, n: string)
    ensures GraftChildren(s, p, q, moved) + Graft(s, p + [n], q + [n])
         == GraftChildren(s, p, q, moved + {p + [n]})
  {
    GraftChildInChildren(s, p, q, moved, n);
    ChildrenInGraftChild(s, p, q, moved, n);
  }

  /** What is grafted from child `p + [n]` is among the grafted children once it is moved. */
  lemma GraftChildInChildren(s: Entries, p: seq<string>, q: seq<string>, moved: set<seq<string>>, n: string)
    ensures forall x :: x in Graft(s, p + [n], q + [n]) ==>
      x in GraftChildren(s, p, q, moved + {p + [n]}) && GraftChildren(s, p, q, moved + {p + [n]})[x] == Graft(s, p + [n], q + [n])[x]
  {
    GraftChildrenAt(s, p, q, moved + {p + [n]});
    GraftAt(s, p + [n], q + [n]);
    forall x | x in Graft(s, p + [n], q + [n])
      ensures x in GraftChildren(s, p, q, moved + {p + [n]})
      ensures GraftChildren(s, p, q, moved + {p + [n]})[x] == Graft(s, p + [n], q + [n])[x]
    {
      OriginChild(x, p, q, n);
    }
  }

  /** A grafted child is one grafted before, or one grafted from child `p + [n]`, with its value. */
  lemma ChildrenInGraftChild(s: Entries, p: seq<string>, q: seq<string>, moved: set<seq<string>>, n: string)
    ensures forall x :: x in GraftChildren(s, p, q, moved + {p + [n]}) ==>
      (x in GraftChildren(s, p, q, moved) && GraftChildren(s, p, q, moved)[x] == GraftChildren(s, p, q, moved + {p + [n]})[x])
      || x in Graft(s, p + [n], q + [n])
  {
    GraftChildrenAt(s, p, q, moved);
    GraftChildrenAt(s, p, q, moved + {p + [n]});
    GraftAt(s, p + [n], q + [n]);
    forall x | x in GraftChildren(s, p, q, moved + {p + [n]}) && x !in GraftChildren(s, p, q, moved)
      ensures x in Graft(s, p + [n], q + [n])
    {
      ChildPrefix(x, q);
      OriginChild(x, p, q, n);
    }
  }

  /** A child's subtree is a proper part of its parent's. */
  lemma SubtreeShrinks(s: Entries, p: seq<string>, moved: set<seq<string>>, n: string)
    requires p in s
    ensures Subtree(PruneChildren(s, p, moved), p + [n]) < Subtree(s, p)
  {
    var c := p + [n];
    forall k | k in Subtree(PruneChildren(s, p, moved), c)
      ensures k in Subtree(s, p)
    {
      assert k[..|c|] == c;
      assert k[..|p|] == c[..|p|];
    }
    assert p !in Subtree(PruneChildren(s, p, moved), c);
  }

  /** Below a stored key, the child it starts with is stored. */
  lemma HeadStored(s: Entries, p: seq<string>, k: seq<string>)
    requires IsTree(s) && k in s && p <= k && |p| < |k|
    ensures InMoved(p, k, ChildKeys(s, p))
  {
    AncestorIn(s, k, |p| + 1);
    assert k[..|p| + 1][..|p|] == p;
  }

  /** Once every child is moved, only `p` is left of its subtree. */
  lemma PruneAll(s: Entries, p: seq<string>)
    requires IsTree(s)
    ensures forall k :: k in PruneChildren(s, p, ChildKeys(s, p)) ==> !(p <= k) || k == p
  {
    forall k | k in s && p <= k && k != p
      ensures InMoved(p, k, ChildKeys(s, p))
    {
      HeadStored(s, p, k);
    }
  }

  /** Once every child is moved, what is grafted below `q` is every grafted child. */
  lemma GraftedBelow(s: Entries, p: seq<string>, q: seq<string>)
    requires IsTree(s)
    ensures forall x :: x in Graft(s, p, q) && x != q ==> x in GraftChildren(s, p, q, ChildKeys(s, p))
  {
    GraftAt(s, p, q);
    GraftChildrenAt(s, p, q, ChildKeys(s, p));
    forall x | x in Graft(s, p, q) && x != q
      ensures x in GraftChildren(s, p, q, ChildKeys(s, p))
    {
      RebaseOrigin(x, p, q);
      var k := Origin(x, p, q);
      assert |x| > |q| by {
        assert x == q + x[|q|..];
      }
      HeadStored(s, p, k);
    }
  }

  /** Once every child is moved, the grafted children are the graft of all below `p`. */
  lemma GraftAll(s: Entries, p: seq<string>, q: seq<string>)
    requires IsTree(s) && p in s && s[p] == Directory
    ensures q !in GraftChildren(s, p, q, ChildKeys(s, p))
    ensures Graft(s, p, q) == GraftChildren(s, p, q, ChildKeys(s, p))[q := Directory]
  {
    var g := GraftChildren(s, p, q, ChildKeys(s, p));
    var h := Graft(s, p, q);
    assert forall x :: x in h && x != q ==> x in g by {
      GraftedBelow(s, p, q);
    }
    assert q in h && h[q] == Directory by {
      GraftAt(s, p, q);
      assert Origin(q, p, q) == p;
    }
    assert q !in g by {
      GraftChildrenAt(s, p, q, ChildKeys(s, p));
    }
    assert forall x :: x in g ==> x in h && g[x] == h[x];
    UpdateEquals(h, g, q, Directory);
  }

  /** A map is another updated at one key when they agree everywhere else. */
  lemma UpdateEquals(h: Entries, g: Entries, q: seq<string>, e: Entity)
    requires q in h && h[q] == e && q !in g
    requires forall x :: x in h && x != q ==> x in g
    requires forall x :: x in g ==> x in h && g[x] == h[x]
    ensures h == g[q := e]
  {
  }

  /** An entry set before a union survives it when the union does not touch its key. */
  lemma UpdateBeforeUnion(d: Entries, g: Entries, q: seq<string>, e: Entity)
    requires q !in g
    ensures d[q := e] + g == d + g[q := e]
  {
  }

  /** A file's graft is the file alone. */
  lemma GraftFile(d: Entries, s: Entries, p: seq<string>, q: seq<string>)
    requires IsTree(s) && p in s && s[p].File?
    ensures d[q := s[p]] == d + Graft(s, p, q)
  {
    FileHasNoSubtree(s, p);
    GraftAt(s, p, q);
    assert Origin(q, p, q) == p;
    forall x | x in Graft(s, p, q)
      ensures x == q
    {
      RebaseOrigin(x, p, q);
      assert Origin(x, p, q) in Subtree(s, p);
      assert x == q + x[|q|..];
    }
    assert Graft(s, p, q) == map[q := s[p]];
  }
  /** Deleting the directory after its children are moved deletes its whole subtree. */
  lemma RemovePruned(s: Entries, p: seq<string>, moved: set<seq<string>>)
    ensures Remove(PruneChildren(s, p, moved), p) == Remove(s, p)
  {
  }

  /** Once every child is moved from the root, the root directory alone is left. */
  lemma PruneRoot(s: Entries)
    requires IsTree(s)
    ensures PruneChildren(s, [], ChildKeys(s, [])) == map[[] := Directory]
  {
    PruneAll(s, []);
    var r := PruneChildren(s, [], ChildKeys(s, []));
    assert [] in r;
    forall k | k in r
      ensures k == []
    {
      assert [] <= k;
    }
  }

  /**
   * `StandardEntityMover.Move`. An entity of one kind cannot be moved to a
   * path of the other; otherwise the file or the directory tree at
   * `sourcePath` ends up at `destinationPath` and is gone from the source,
   * except that the root is left there, empty.
   */
  method Move(source: MemoryFileSystem, sourcePath: FileSystemPath,
              destination: MemoryFileSystem, destinationPath: FileSystemPath)
    returns (outcome: Outcome)
    requires source != destination
    requires source.Valid() && source.Idle() && destination.Idle()
    requires sourcePath.Valid() && destinationPath.Valid()
    modifies source, destination
    ensures outcome == Fail(ArgumentError) <==> sourcePath.IsFile() != destinationPath.IsFile()
    ensures outcome == Fail(NotFound) <==>
      sourcePath.IsFile() == destinationPath.IsFile() && !old(source.Exists(sourcePath))
    ensures outcome.Pass? || outcome == Fail(ArgumentError) || outcome == Fail(NotFound)
    ensures outcome.Fail? ==> source.entries == old(source.entries)
    ensures outcome.Fail? ==> (destination.entries ==
      if outcome == Fail(NotFound) && sourcePath.isDirectory
      then old(destination.entries)[destinationPath.segments := Directory]
      else old(destination.entries))
    ensures outcome.Pass? ==> (source.entries ==
      if sourcePath.IsRoot() then map[[] := Directory] else Remove(old(source.entries), sourcePath.segments))
    ensures outcome.Pass? ==> (destination.entries ==
      old(destination.entries) + Graft(old(source.entries), sourcePath.segments, destinationPath.segments))
    ensures source.Valid() && source.Idle() && destination.Idle()
    decreases Subtree(source.entries, sourcePath.segments), 2
  {
    if sourcePath.IsFile() != destinationPath.IsFile() {
      return Fail(ArgumentError);
    }
    if sourcePath.IsFile() {
      outcome := MoveFile(source, sourcePath, destination, destinationPath);
    } else {
      outcome := MoveDirectory(source, sourcePath, destination, destinationPath);
    }
  }

  /**
   * The outer `using` block of the file branch of `Move`: the source file is
   * opened, copied to a new file at the destination, and its stream closed.
   */
  method CopyFile(source: MemoryFileSystem, sourcePath: FileSystemPath,
                  destination: MemoryFileSystem, destinationPath: FileSystemPath)
    returns (outcome: Outcome)
    requires source != destination && source.Idle() && destination.Idle()
    requires sourcePath.IsFile() && destinationPath.IsFile()
    modifies source`readers, destination`entries, destination`writers
    ensures outcome == Fail(NotFound) <==> !source.Exists(sourcePath)
    ensures outcome.Pass? || outcome == Fail(NotFound)
    ensures outcome.Fail? ==> destination.entries == old(destination.entries)
    ensures outcome.Pass? ==> (destination.entries ==
      old(destination.entries)[destinationPath.segments := source.entries[sourcePath.segments]])
    ensures source.Idle() && destination.Idle()
  {
    var openResult := source.OpenFile(sourcePath);
    if openResult.Failure? {
      return Fail(openResult.error);
    }
    var sourceStream := openResult.value;
    CopyToNewFile(sourceStream, destination, destinationPath);
    sourceStream.Close();
    outcome := Pass;
  }

  /**
   * The inner `using` block: a new file is created at `destinationPath`, the
   * rest of `sourceStream` is copied into it through a buffer of
   * `BufferSize` bytes, and closing its stream stores what was written.
   */
  method CopyToNewFile(sourceStream: Stream, destination: MemoryFileSystem, destinationPath: FileSystemPath)
    requires destination.Idle() && destinationPath.IsFile()
    requires sourceStream.position <= |sourceStream.content|
    modifies sourceStream`position, destination`entries, destination`writers
    ensures sourceStream.position == |sourceStream.content|
    ensures destination.entries ==
      old(destination.entries)[destinationPath.segments := File(sourceStream.content[old(sourceStream.position)..])]
    ensures destination.Idle()
  {
    ghost var start := sourceStream.position;
    var destinationStream := destination.CreateFile(destinationPath);
    var buffer := new byte[BufferSize];
    ghost var sizes := CopyAll(sourceStream, destinationStream, buffer);
    assert destinationStream.written == sourceStream.content[start..];
    destination.CloseFile(destinationPath, destinationStream);
  }

  /** The file branch of `Move`: the file is copied, then deleted from the source. */
  method MoveFile(source: MemoryFileSystem, sourcePath: FileSystemPath,
                  destination: MemoryFileSystem, destinationPath: FileSystemPath)
    returns (outcome: Outcome)
    requires source != destination
    requires source.Valid() && source.Idle() && destination.Idle()
    requires sourcePath.Valid() && sourcePath.IsFile() && destinationPath.IsFile()
    modifies source, destination
    ensures outcome == Fail(NotFound) <==> !old(source.Exists(sourcePath))
    ensures outcome.Pass? || outcome == Fail(NotFound)
    ensures outcome.Fail? ==> source.entries == old(source.entries) && destination.entries == old(destination.entries)
    ensures outcome.Pass? ==> source.entries == Remove(old(source.entries), sourcePath.segments)
    ensures outcome.Pass? ==> (destination.entries ==
      old(destination.entries) + Graft(old(source.entries), sourcePath.segments, destinationPath.segments))
    ensures source.Valid() && source.Idle() && destination.Idle()
  {
    ghost var s0 := source.entries;
    ghost var d0 := destination.entries;
    outcome := CopyFile(source, sourcePath, destination, destinationPath);
    if outcome.Fail? {
      return;
    }
    source.Delete(sourcePath);
    GraftFile(d0, s0, sourcePath.segments, destinationPath.segments);
    RemoveKeepsTree(s0, sourcePath.segments);
  }

  /**
   * The directory branch of `Move`: the directory is created at the
   * destination, each entity the source lists below it is moved to the same
   * name below the destination, and the source directory is deleted unless
   * it is the root. When the source directory is not there, the destination
   * directory has already been created.
   */
  method MoveDirectory(source: MemoryFileSystem, sourcePath: FileSystemPath,
                       destination: MemoryFileSystem, destinationPath: FileSystemPath)
    returns (outcome: Outcome)
    requires source != destination
    requires source.Valid() && source.Idle() && destination.Idle()
    requires sourcePath.Valid() && sourcePath.isDirectory && destinationPath.Valid() && destinationPath.isDirectory
    modifies source, destination
    ensures outcome == Fail(NotFound) <==> !old(source.Exists(sourcePath))
    ensures outcome.Pass? || outcome == Fail(NotFound)
    ensures outcome.Fail? ==> source.entries == old(source.entries)
    ensures outcome.Fail? ==> destination.entries == old(destination.entries)[destinationPath.segments := Directory]
    ensures outcome.Pass? ==> (source.entries ==
      if sourcePath.IsRoot() then map[[] := Directory] else Remove(old(source.entries), sourcePath.segments))
    ensures outcome.Pass? ==> (destination.entries ==
      old(destination.entries) + Graft(old(source.entries), sourcePath.segments, destinationPath.segments))
    ensures source.Valid() && source.Idle() && destination.Idle()
    decreases Subtree(source.entries, sourcePath.segments), 1
  {
    ghost var s0 := source.entries;
    ghost var d0 := destination.entries;
    destination.CreateDirectory(destinationPath);
    var listed := source.GetEntities(sourcePath);
    if listed.Failure? {
      return Fail(listed.error);
    }
    var children := listed.value;
    ghost var p := sourcePath.segments;
    ghost var q := destinationPath.segments;
    ghost var d1 := destination.entries;
    ghost var done: set<seq<string>> := {};
    for i := 0 to |children|
      invariant done == set j | 0 <= j < i :: children[j].segments
      invariant source.entries == PruneChildren(s0, p, done)
      invariant destination.entries == d1 + GraftChildren(s0, p, q, done)
      invariant source.Valid() && source.Idle() && destination.Idle()
    {
      assert children[i].segments !in done;
      MoveChild(source, children[i], destination, destinationPath, s0, p, d1, done);
      done := done + {children[i].segments};
    }
    assert done == ChildKeys(s0, p);
    if !sourcePath.IsRoot() {
      source.Delete(sourcePath);
      RemovePruned(s0, p, done);
      RemoveKeepsTree(s0, p);
    } else {
      PruneRoot(s0);
    }
    GraftAll(s0, p, q);
    UpdateBeforeUnion(d0, GraftChildren(s0, p, q, done), q, Directory);
    outcome := Pass;
  }

  /**
   * One turn of the directory branch's loop: the listed child `ep` of the
   * source directory `p` is moved below `destinationPath` under its own name,
   * as a file path exactly when it is a file. `moved` are the children moved
   * before it.
   */
  method MoveChild(source: MemoryFileSystem, ep: FileSystemPath,
                   destination: MemoryFileSystem, destinationPath: FileSystemPath,
                   ghost s0: Entries, ghost p: seq<string>, ghost d1: Entries, ghost moved: set<seq<string>>)
    requires source != destination
    requires source.Valid() && source.Idle() && destination.Idle()
    requires destinationPath.Valid() && destinationPath.isDirectory
    requires IsTree(s0) && p in s0
    requires ep.segments in ChildKeys(s0, p) && ep.segments !in moved
    requires ep.isDirectory == s0[ep.segments].Directory?
    requires source.entries == PruneChildren(s0, p, moved)
    requires destination.entries == d1 + GraftChildren(s0, p, destinationPath.segments, moved)
    modifies source, destination
    ensures source.entries == PruneChildren(s0, p, moved + {ep.segments})
    ensures destination.entries == d1 + GraftChildren(s0, p, destinationPath.segments, moved + {ep.segments})
    ensures source.Valid() && source.Idle() && destination.Idle()
    decreases Subtree(s0, p), 0
  {
    ghost var c := ep.segments;
    ghost var n := c[|p|];
    ghost var q := destinationPath.segments;
    ChildPrefix(c, p);
    assert c == p + [n] by {
      assert c[..|p| + 1] == c;
    }
    assert ValidNames(c);
    var destinationEntityPath := if ep.IsFile()
      then destinationPath.AppendFile(ep.EntityName())
      else destinationPath.AppendDirectory(ep.EntityName());
    assert destinationEntityPath.segments == q + [n];
    assert source.Exists(ep);
    SubtreeShrinks(s0, p, moved, n);
    var inner := Move(source, ep, destination, destinationEntityPath);
    assert inner.Pass?;
    PruneStep(s0, p, moved, n);
    GraftUnpruned(s0, p, moved, n, q + [n]);
    UnionAssociative(d1, GraftChildren(s0, p, q, moved), Graft(s0, c, q + [n]));
    GraftStep(s0, p, q, moved, n);
  }
}
