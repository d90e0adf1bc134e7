/**
 * The path mapping of SharpFileSystem/FileSystems/PhysicalFileSystem.cs.
 *
 * A physical file system serves the virtual tree from a directory of the
 * host, its root. A virtual path maps to the root followed by the path's
 * text without its leading separator, with the virtual separator `/`
 * replaced by the host's `\`; a host path under the root maps back by the
 * reverse replacement. The host calls themselves are not modelled: the
 * operations that would perform them return the host path they would act
 * on, after the argument checks the source makes first.
 */
module PhysicalFileSystems {
  import opened Exceptions
  import opened Paths

  /** The host's `Path.DirectorySeparatorChar`, distinct from `Separator`. */
  const LocalSeparator: char := '\\'

  /** `String.Replace(char, char)`. */
  function Replace(s: string, from: char, to: char): (r: string)
    ensures |r| == |s|
    ensures from != to ==> from !in r
  {
    seq(|s|, i requires 0 <= i < |s| => if s[i] == from then to else s[i])
  }

  /** Replacing back undoes a replacement when the target character did not occur. */
  lemma ReplaceBack(s: string, from: char, to: char)
    requires to !in s
    ensures Replace(Replace(s, from, to), to, from) == s
  {
    var r := Replace(s, from, to);
    forall i | 0 <= i < |s|
      ensures Replace(r, to, from)[i] == s[i]
    {
      assert s[i] in s;
    }
  }

  /** Replacing is done character by character, so it distributes over concatenation. */
  lemma ReplaceConcat(s: string, t: string, from: char, to: char)
    ensures Replace(s + t, from, to) == Replace(s, from, to) + Replace(t, from, to)
  {
  }

  /** `StartsWith(prefix, InvariantCultureIgnoreCase)`, with `fold` the case folding. */
  predicate StartsWithIgnoringCase(s: string, prefix: string, fold: char -> char)
  {
    |prefix| <= |s| && forall i :: 0 <= i < |prefix| ==> fold(s[i]) == fold(prefix[i])
  }

  /** A character other than the separator in no name is in none of their joins. */
  lemma {:induction false} JoinAvoids(names: seq<string>, c: char)
    requires c != Separator
    requires forall i :: 0 <= i < |names| ==> c !in names[i]
    ensures c !in Join(names)
  {
    if |names| > 1 {
      JoinAvoids(names[..|names| - 1], c);
    }
  }

  /** The text of a path whose names avoid the host separator avoids it too. */
  lemma TextAvoidsLocal(p: FileSystemPath)
    requires forall i :: 0 <= i < |p.segments| ==> LocalSeparator !in p.segments[i]
    ensures LocalSeparator !in Text(p)
  {
    JoinAvoids(p.segments, LocalSeparator);
  }

  datatype PhysicalFileSystem = PhysicalFileSystem(physicalRoot: string)
  {
    /** What the constructor establishes: the root ends with the host separator. */
    predicate Valid()
    {
      |physicalRoot| > 0 && physicalRoot[|physicalRoot| - 1] == LocalSeparator
    }

    /**
     * `GetPhysicalPath`, with `Path.Combine` of the root and a relative path
     * as concatenation, which it is for a root ending with the host separator.
     */
    function GetPhysicalPath(p: FileSystemPath): (r: string)
      requires Valid()
      ensures |r| == |physicalRoot| + |Text(p)| - 1 && r[..|physicalRoot|] == physicalRoot
      ensures Separator !in r[|physicalRoot|..]
    {
      physicalRoot + Replace(Text(p)[1..], Separator, LocalSeparator)
    }

    /** The virtual text of a host path under the root. */
    function VirtualText(physicalPath: string): (r: string)
      requires |physicalRoot| <= |physicalPath|
      ensures |r| > 0 && r[0] == Separator
      ensures LocalSeparator !in r
    {
      [Separator] + Replace(physicalPath[|physicalRoot|..], LocalSeparator, Separator)
    }

    /** `GetVirtualFilePath`: rejects a host path outside the root, then parses its virtual text. */
    function GetVirtualFilePath(physicalPath: string, fold: char -> char): (r: Result<FileSystemPath>)
      ensures !StartsWithIgnoringCase(physicalPath, physicalRoot, fold) <==> r == Failure(ArgumentError)
      ensures r.Success? ==> r.value.Valid() && Text(r.value) == VirtualText(physicalPath)
    {
      if !StartsWithIgnoringCase(physicalPath, physicalRoot, fold) then Failure(ArgumentError)
      else
        var text := VirtualText(physicalPath);
        var r := Parse(text);
        if r.Success? then
          ParsedValid(text);
          TextParse(text);
          r
        else r
    }

    /**
     * `GetVirtualDirectoryPath`: as `GetVirtualFilePath`, but a separator is
     * appended to the virtual text when it does not already end with one,
     * so that the result is a directory.
     */
    function GetVirtualDirectoryPath(physicalPath: string, fold: char -> char): (r: Result<FileSystemPath>)
      ensures !StartsWithIgnoringCase(physicalPath, physicalRoot, fold) <==> r == Failure(ArgumentError)
      ensures r.Success? ==> r.value.Valid() && r.value.isDirectory
      ensures r.Success? ==> Text(r.value) == DirectoryText(VirtualText(physicalPath))
    {
      if !StartsWithIgnoringCase(physicalPath, physicalRoot, fold) then Failure(ArgumentError)
      else
        var text := DirectoryText(VirtualText(physicalPath));
        var r := Parse(text);
        if r.Success? then
          ParsedValid(text);
          TextParse(text);
          DirectoryTextParses(text);
          r
        else r
    }

    /** `CreateFile` rejects a directory path before the host creates the file at the returned path. */
    function CreateFile(p: FileSystemPath): (r: Result<string>)
      requires Valid()
      ensures r.Failure? <==> !p.IsFile()
      ensures r.Failure? ==> r.error == ArgumentError
      ensures r.Success? ==> r.value == GetPhysicalPath(p)
    {
      if !p.IsFile() then Failure(ArgumentError) else Success(GetPhysicalPath(p))
    }

    /** `OpenFile` rejects a directory path before the host opens the file at the returned path. */
    function OpenFile(p: FileSystemPath): (r: Result<string>)
      requires Valid()
      ensures r.Failure? <==> !p.IsFile()
      ensures r.Failure? ==> r.error == ArgumentError
      ensures r.Success? ==> r.value == GetPhysicalPath(p)
    {
      if !p.IsFile() then Failure(ArgumentError) else Success(GetPhysicalPath(p))
    }

    /** `CreateDirectory` rejects a file path before the host creates the directory at the returned path. */
    function CreateDirectory(p: FileSystemPath): (r: Result<string>)
      requires Valid()
      ensures r.Failure? <==> !p.isDirectory
      ensures r.Failure? ==> r.error == ArgumentError
      ensures r.Success? ==> r.value == GetPhysicalPath(p)
    {
      if !p.isDirectory then Failure(ArgumentError) else Success(GetPhysicalPath(p))
    }
  }

  /** A virtual text with a trailing separator. */
  function DirectoryText(text: string): (r: string)
    requires |text| > 0
    ensures |r| > 0 && r[|r| - 1] == Separator
  {
    if text[|text| - 1] != Separator then text + [Separator] else text
  }

  /** A text that ends with a separator parses to a directory. */
  lemma DirectoryTextParses(text: string)
    requires |text| > 0 && text[|text| - 1] == Separator
    requires Parse(text).Success?
    ensures Parse(text).value.isDirectory
  {
  }

  /**
   * The constructor's normalisation of a root that is already a full path:
   * the host separator is appended unless present. An empty root is rejected
   * (`Path.GetFullPath` refuses it).
   */
  function Create(physicalRoot: string): (r: Result<PhysicalFileSystem>)
    ensures r.Failure? <==> physicalRoot == []
    ensures r.Failure? ==> r.error == ArgumentError
    ensures r.Success? ==> r.value.Valid()
    ensures r.Success? ==>
      r.value.physicalRoot
        == if physicalRoot[|physicalRoot| - 1] == LocalSeparator then physicalRoot else physicalRoot + [LocalSeparator]
  {
    if physicalRoot == [] then Failure(ArgumentError)
    else if physicalRoot[|physicalRoot| - 1] != LocalSeparator then Success(PhysicalFileSystem(physicalRoot + [LocalSeparator]))
    else Success(PhysicalFileSystem(physicalRoot))
  }

  /** Every physical path lies under the root, whatever the case folding. */
  lemma PhysicalPathUnderRoot(fs: PhysicalFileSystem, p: FileSystemPath, fold: char -> char)
    requires fs.Valid()
    ensures StartsWithIgnoringCase(fs.GetPhysicalPath(p), fs.physicalRoot, fold)
  {
    var r := fs.GetPhysicalPath(p);
    assert forall i :: 0 <= i < |fs.physicalRoot| ==> r[i] == r[..|fs.physicalRoot|][i];
  }

  /** The virtual text of the physical path of `p` is the text of `p`, when no name holds the host separator. */
  lemma VirtualTextOfPhysical(fs: PhysicalFileSystem, p: FileSystemPath)
    requires fs.Valid()
    requires forall i :: 0 <= i < |p.segments| ==> LocalSeparator !in p.segments[i]
    ensures fs.VirtualText(fs.GetPhysicalPath(p)) == Text(p)
  {
    var t := Text(p);
    TextAvoidsLocal(p);
    assert LocalSeparator !in t[1..] by {
      forall c | c in t[1..] ensures c != LocalSeparator {
        var i :| 0 <= i < |t[1..]| && t[1..][i] == c;
        assert t[i + 1] == c;
      }
    }
    ReplaceBack(t[1..], Separator, LocalSeparator);
    assert t == [Separator] + t[1..];
  }

  /**
   * Round trip of a file: mapping a valid file path to the host and back
   * gives the path again, when no name holds the host separator.
   */
  lemma FilePathRoundTrip(fs: PhysicalFileSystem, p: FileSystemPath, fold: char -> char)
    requires fs.Valid()
    requires p.Valid() && p.IsFile()
    requires forall i :: 0 <= i < |p.segments| ==> LocalSeparator !in p.segments[i]
    ensures fs.GetVirtualFilePath(fs.GetPhysicalPath(p), fold) == Success(p)
  {
    PhysicalPathUnderRoot(fs, p, fold);
    VirtualTextOfPhysical(fs, p);
    ParseText(p);
  }

  /** Round trip of a directory through `GetVirtualDirectoryPath`. */
  lemma DirectoryPathRoundTrip(fs: PhysicalFileSystem, p: FileSystemPath, fold: char -> char)
    requires fs.Valid()
    requires p.Valid() && p.isDirectory
    requires forall i :: 0 <= i < |p.segments| ==> LocalSeparator !in p.segments[i]
    ensures fs.GetVirtualDirectoryPath(fs.GetPhysicalPath(p), fold) == Success(p)
  {
    PhysicalPathUnderRoot(fs, p, fold);
    VirtualTextOfPhysical(fs, p);
    ParseText(p);
    var t := Text(p);
    if !p.IsRoot() {
      assert t[|t| - 1] == Separator;
    }
  }

  /**
   * A host listing names a directory without a trailing separator: that name
   * is still under the root, and its virtual text is the directory's text
   * without the trailing separator.
   */
  lemma ListedVirtualText(fs: PhysicalFileSystem, p: FileSystemPath, fold: char -> char)
    requires fs.Valid()
    requires p.isDirectory && !p.IsRoot()
    requires forall i :: 0 <= i < |p.segments| ==> LocalSeparator !in p.segments[i]
    ensures var listed := fs.GetPhysicalPath(p)[..|fs.GetPhysicalPath(p)| - 1];
      && StartsWithIgnoringCase(listed, fs.physicalRoot, fold)
      && fs.VirtualText(listed) == [Separator] + Join(p.segments)
  {
    var full := fs.GetPhysicalPath(p);
    var listed := full[..|full| - 1];
    var j := Join(p.segments);
    assert Text(p)[1..] == j + [Separator];
    ReplaceConcat(j, [Separator], Separator, LocalSeparator);
    assert listed == fs.physicalRoot + Replace(j, Separator, LocalSeparator);
    assert listed[|fs.physicalRoot|..] == Replace(j, Separator, LocalSeparator);
    JoinAvoids(p.segments, LocalSeparator);
    ReplaceBack(j, Separator, LocalSeparator);
    assert StartsWithIgnoringCase(listed, fs.physicalRoot, fold) by {
      assert forall i :: 0 <= i < |fs.physicalRoot| ==> listed[i] == fs.physicalRoot[i];
    }
  }

  /**
   * The directory mapping restores the trailing separator a host listing
   * drops, so such a name maps back to the directory.
   */
  lemma ListedDirectoryRoundTrip(fs: PhysicalFileSystem, p: FileSystemPath, fold: char -> char)
    requires fs.Valid()
    requires p.Valid() && p.isDirectory && !p.IsRoot()
    requires forall i :: 0 <= i < |p.segments| ==> LocalSeparator !in p.segments[i]
    ensures var listed := fs.GetPhysicalPath(p)[..|fs.GetPhysicalPath(p)| - 1];
      fs.GetVirtualDirectoryPath(listed, fold) == Success(p)
  {
    ListedVirtualText(fs, p, fold);
    var body := [Separator] + Join(p.segments);
    JoinEnd(p.segments);
    var last := p.segments[|p.segments| - 1];
    assert last[|last| - 1] in last;
    assert DirectoryText(body) == Text(p);
    ParseText(p);
  }
}
