/**
 * An in-memory file system, the stand-in for the `IFileSystem` the entity
 * mover is given.
 *
 * Its state is a map from a path's segments to what is stored there: a file
 * with its bytes, or a directory. The operations the mover calls behave as
 * those of SharpFileSystem/FileSystems/PhysicalFileSystem.cs do on disk:
 * listing gives the directories and then the files directly below a
 * directory, and deleting a directory deletes everything below it.
 * Open streams are tracked, so that "nothing is deleted while a stream is
 * open" is a precondition the mover is checked against.
 */
module MemoryFileSystems {
  import opened Exceptions
  import opened Streams
  import opened Paths

  datatype Entity = File(content: seq<byte>) | Directory

  type Entries = map<seq<string>, Entity>

  /**
   * A well-formed store: the root directory is present, every name is valid,
   * and every entity other than the root lies in a directory that is present.
   */
  ghost predicate IsTree(s: Entries)
  {
    && [] in s && s[[]] == Directory
    && (forall k :: k in s ==> ValidNames(k))
    && (forall k, n :: k + [n] in s ==> k in s && s[k] == Directory)
  }

  /** The parent of a stored key other than the root is a stored directory. */
  lemma ParentStored(s: Entries, k: seq<string>)
    requires IsTree(s) && k in s && k != []
    ensures k[..|k| - 1] in s && s[k[..|k| - 1]] == Directory
  {
    assert k == k[..|k| - 1] + [k[|k| - 1]];
  }

  /** The keys at or below `p`. */
  function Subtree(s: Entries, p: seq<string>): set<seq<string>>
  {
    set k | k in s && p <= k
  }

  /** The keys directly below `p`. */
  function ChildKeys(s: Entries, p: seq<string>): set<seq<string>>
  {
    set k | k in s && |k| == |p| + 1 && p <= k
  }

  /** The store without `p` and everything below it. */
  function Remove(s: Entries, p: seq<string>): Entries
  {
    map k | k in s && !(p <= k) :: s[k]
  }

  /** Every ancestor of a stored key is a stored directory. */
  lemma {:induction false} AncestorIn(s: Entries, k: seq<string>, m: nat)
    requires IsTree(s) && k in s && m <= |k|
    ensures k[..m] in s
    ensures m < |k| ==> s[k[..m]] == Directory
    decreases |k| - m
  {
    if m < |k| {
      var parent := k[..|k| - 1];
      ParentStored(s, k);
      AncestorIn(s, parent, m);
      assert parent[..m] == k[..m];
    } else {
      assert k[..m] == k;
    }
  }

  /** Removing a whole subtree, other than the root's, leaves a well-formed store. */
  lemma RemoveKeepsTree(s: Entries, p: seq<string>)
    requires IsTree(s) && p != []
    ensures IsTree(Remove(s, p))
  {
    var r := Remove(s, p);
    forall k, n | k + [n] in r
      ensures k in r && r[k] == Directory
    {
      assert !(p <= k + [n]);
    }
  }

  /** A stored file has nothing below it. */
  lemma FileHasNoSubtree(s: Entries, p: seq<string>)
    requires IsTree(s) && p in s && s[p].File?
    ensures Subtree(s, p) == {p}
  {
    forall k | k in s && p <= k
      ensures k == p
    {
      if k != p {
        assert k[..|p|] == p;
        AncestorIn(s, k, |p|);
      }
    }
  }

  class MemoryFileSystem {
    var entries: Entries
    /** The streams opened for reading, and the ones created for writing. */
    ghost var readers: set<Stream>
    ghost var writers: set<Sink>

    /** An empty file system: the root directory alone. */
    constructor ()
      ensures entries == map[[] := Directory] && readers == {} && writers == {}
      ensures Valid() && Idle()
    {
      entries := map[[] := Directory];
      readers := {};
      writers := {};
    }

    ghost predicate Valid()
      reads this`entries
    {
      IsTree(entries)
    }

    /** No stream of this file system is open. */
    ghost predicate Idle()
      reads this`readers, this`writers, readers`closed, writers`closed
    {
      && (forall r :: r in readers ==> r.closed)
      && (forall w :: w in writers ==> w.closed)
    }

    predicate Exists(p: FileSystemPath)
      reads this
    {
      p.segments in entries && entries[p.segments].Directory? == p.isDirectory
    }

    /**
     * The entities directly below the directory `p`, each once, with its
     * kind: the directories first, then the files. It fails for a file path,
     * and for a directory that is not there.
     */
    method GetEntities(p: FileSystemPath) returns (r: Result<seq<FileSystemPath>>)
      ensures r == Failure(ArgumentError) <==> !p.isDirectory
      ensures r == Failure(NotFound) <==> p.isDirectory && !Exists(p)
      ensures r.Failure? ==> r.error == ArgumentError || r.error == NotFound
      ensures r.Success? ==> Lists(r.value, ChildKeys(entries, p.segments))
      ensures r.Success? ==> forall i :: 0 <= i < |r.value| ==>
        r.value[i].segments in entries && r.value[i].isDirectory == entries[r.value[i].segments].Directory?
      ensures r.Success? ==> forall i, j :: 0 <= i < j < |r.value| && r.value[j].isDirectory ==> r.value[i].isDirectory
    {
      if !p.isDirectory {
        return Failure(ArgumentError);
      }
      if !Exists(p) {
        return Failure(NotFound);
      }
      var keys := ChildKeys(entries, p.segments);
      var directoryKeys := set k | k in keys && entries[k].Directory?;
      var fileKeys := set k | k in keys && entries[k].File?;
      var directories := ListKeys(directoryKeys, true);
      var files := ListKeys(fileKeys, false);
      ListsConcat(directories, files, directoryKeys, fileKeys);
      assert directoryKeys + fileKeys == keys;
      r := Success(directories + files);
    }

    /**
     * A stream of the file `p`'s bytes, positioned at the start. It fails
     * for a directory path, and for a file that is not there.
     */
    method OpenFile(p: FileSystemPath) returns (r: Result<Stream>)
      modifies this`readers
      ensures r == Failure(ArgumentError) <==> !p.IsFile()
      ensures r == Failure(NotFound) <==> p.IsFile() && !Exists(p)
      ensures r.Failure? ==> (r.error == ArgumentError || r.error == NotFound) && readers == old(readers)
      ensures r.Success? ==> fresh(r.value) && readers == old(readers) + {r.value}
      ensures r.Success? ==> r.value.content == entries[p.segments].content && r.value.position == 0 && !r.value.closed
    {
      if !p.IsFile() {
        return Failure(ArgumentError);
      }
      if !Exists(p) {
        return Failure(NotFound);
      }
      var s := new Stream(entries[p.segments].content);
      readers := readers + {s};
      r := Success(s);
    }

    /** Creates (or truncates) the file `p` and returns a stream writing to it. */
    method CreateFile(p: FileSystemPath) returns (w: Sink)
      requires p.IsFile()
      modifies this`entries, this`writers
      ensures fresh(w) && writers == old(writers) + {w}
      ensures w.written == [] && !w.closed
      ensures entries == old(entries)[p.segments := File([])]
    {
      w := new Sink();
      writers := writers + {w};
      entries := entries[p.segments := File([])];
    }

    /** Closing a stream made by `CreateFile(p)` stores what was written to it. */
    method CloseFile(p: FileSystemPath, w: Sink)
      requires p.IsFile() && w in writers
      modifies this`entries, w`closed
      ensures w.closed
      ensures entries == old(entries)[p.segments := File(w.written)]
    {
      w.Close();
      entries := entries[p.segments := File(w.written)];
    }

    method CreateDirectory(p: FileSystemPath)
      requires p.isDirectory
      modifies this`entries
      ensures entries == old(entries)[p.segments := Directory]
    {
      entries := entries[p.segments := Directory];
    }

    /**
     * Deletes `p` and, for a directory, everything below it. The root cannot
     * be deleted, and nothing can while a stream is open.
     */
    method Delete(p: FileSystemPath)
      requires !p.IsRoot() && Idle()
      modifies this`entries
      ensures entries == Remove(old(entries), p.segments)
    {
      entries := Remove(entries, p.segments);
    }
  }

  /** `paths` names every key of `keys` exactly once, and nothing else. */
  ghost predicate Lists(paths: seq<FileSystemPath>, keys: set<seq<string>>)
  {
    && (forall i :: 0 <= i < |paths| ==> paths[i].segments in keys)
    && (forall i, j :: 0 <= i < j < |paths| ==> paths[i].segments != paths[j].segments)
    && (forall k :: k in keys ==> exists i :: 0 <= i < |paths| && paths[i].segments == k)
  }

  /** Listings of disjoint key sets concatenate to a listing of their union. */
  lemma ListsConcat(a: seq<FileSystemPath>, b: seq<FileSystemPath>, ka: set<seq<string>>, kb: set<seq<string>>)
    requires Lists(a, ka) && Lists(b, kb) && ka !! kb
    ensures Lists(a + b, ka + kb)
  {
    var c := a + b;
    forall k | k in ka + kb
      ensures exists i :: 0 <= i < |c| && c[i].segments == k
    {
      if k in ka {
        var i :| 0 <= i < |a| && a[i].segments == k;
        assert c[i] == a[i];
      } else {
        var i :| 0 <= i < |b| && b[i].segments == k;
        assert c[|a| + i] == b[i];
      }
    }
  }

  /** Paths of the given kind for the given keys, each key once, in some order. */
  method ListKeys(keys: set<seq<string>>, isDirectory: bool) returns (paths: seq<FileSystemPath>)
    ensures Lists(paths, keys)
    ensures forall i :: 0 <= i < |paths| ==> paths[i].isDirectory == isDirectory
  {
    paths := [];
    var rest := keys;
    while rest != {}
      invariant rest <= keys
      invariant forall i :: 0 <= i < |paths| ==>
        paths[i].segments in keys && paths[i].segments !in rest && paths[i].isDirectory == isDirectory
      invariant forall i, j :: 0 <= i < j < |paths| ==> paths[i].segments != paths[j].segments
      invariant forall k :: k in keys && k !in rest ==> exists i :: 0 <= i < |paths| && paths[i].segments == k
      decreases rest
    {
      var k :| k in rest;
      ghost var before := paths;
      paths := paths + [FileSystemPath(k, isDirectory)];
      rest := rest - {k};
      forall k' | k' in keys && k' !in rest
        ensures exists i :: 0 <= i < |paths| && paths[i].segments == k'
      {
        if k' == k {
          assert paths[|before|].segments == k;
        } else {
          var i :| 0 <= i < |before| && before[i].segments == k';
          assert paths[i] == before[i];
        }
      }
    }
  }
}
