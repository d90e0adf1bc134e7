/**
 * Virtual paths, as the modelled code uses them.
 *
 * The `FileSystemPath` type itself is not part of this model; what the
 * modelled code relies on is kept: a path is a sequence of segment names
 * plus a flag telling a directory from a file, the root is the directory
 * with no segments, and the text form separates segments by `/`, starts
 * with `/` and ends with `/` exactly for a directory other than the root.
 */
module Paths {
  import opened Exceptions

  const Separator: char := '/'

  predicate ValidName(name: string)
  {
    |name| > 0 && Separator !in name
  }

  predicate ValidNames(names: seq<string>)
  {
    forall i :: 0 <= i < |names| ==> ValidName(names[i])
  }

  datatype FileSystemPath = FileSystemPath(segments: seq<string>, isDirectory: bool)
  {
    /** The root is a directory, and every segment is a valid name. */
    predicate Valid()
    {
      && (segments == [] ==> isDirectory)
      && ValidNames(segments)
    }

    predicate IsRoot() { segments == [] }

    predicate IsFile() { !isDirectory }

    function EntityName(): string
      requires !IsRoot()
    {
      segments[|segments| - 1]
    }

    function ParentPath(): FileSystemPath
      requires !IsRoot()
    {
      FileSystemPath(segments[..|segments| - 1], true)
    }

    /** Only a directory has children. */
    function AppendFile(name: string): (r: FileSystemPath)
      requires isDirectory && ValidName(name)
      ensures Valid() ==> r.Valid()
      ensures r.IsFile() && !r.IsRoot()
      ensures r.EntityName() == name && r.ParentPath() == this
    {
      FileSystemPath(segments + [name], false)
    }

    function AppendDirectory(name: string): (r: FileSystemPath)
      requires isDirectory && ValidName(name)
      ensures Valid() ==> r.Valid()
      ensures r.isDirectory && !r.IsRoot()
      ensures r.EntityName() == name && r.ParentPath() == this
    {
      FileSystemPath(segments + [name], true)
    }
  }

  const Root: FileSystemPath := FileSystemPath([], true)

  /** Appending a name loses nothing: parent, name and kind give the path back. */
  lemma AppendInjective(p: FileSystemPath, q: FileSystemPath, a: string, b: string, fileA: bool, fileB: bool)
    requires p.isDirectory && q.isDirectory && ValidName(a) && ValidName(b)
    requires (if fileA then p.AppendFile(a) else p.AppendDirectory(a))
          == (if fileB then q.AppendFile(b) else q.AppendDirectory(b))
    ensures p == q && a == b && fileA == fileB
  {
    var r := if fileA then p.AppendFile(a) else p.AppendDirectory(a);
    assert r.ParentPath() == p && r.EntityName() == a;
  }

  /** The names joined by single separators. */
  function Join(names: seq<string>): string
  {
    if |names| == 0 then ""
    else if |names| == 1 then names[0]
    else Join(names[..|names| - 1]) + [Separator] + names[|names| - 1]
  }

  /** The pieces of `s` between separators (`String.Split`): one more than there are separators. */
  function Split(s: string): (r: seq<string>)
    ensures |r| >= 1
  {
    SplitPrefix(s, |s|)
  }

  /** The pieces of the first `n` characters of `s`. */
  function SplitPrefix(s: string, n: nat): (r: seq<string>)
    requires n <= |s|
    ensures |r| >= 1
  {
    if n == 0 then [""]
    else
      var init := SplitPrefix(s, n - 1);
      if s[n - 1] == Separator then init + [""]
      else Extend(init, [s[n - 1]])
  }

  /** The pieces with `w` added to the last one. */
  function Extend(pieces: seq<string>, w: string): (r: seq<string>)
    requires |pieces| >= 1
    ensures |r| == |pieces|
  {
    pieces[..|pieces| - 1] + [pieces[|pieces| - 1] + w]
  }

  /** The pieces of a prefix depend on that prefix only. */
  lemma {:induction false} SplitPrefixSame(s: string, t: string, n: nat)
    requires n <= |s| && n <= |t| && s[..n] == t[..n]
    ensures SplitPrefix(s, n) == SplitPrefix(t, n)
  {
    if n > 0 {
      assert s[..n - 1] == s[..n][..n - 1] && t[..n - 1] == t[..n][..n - 1];
      assert s[n - 1] == s[..n][n - 1] && t[n - 1] == t[..n][n - 1];
      SplitPrefixSame(s, t, n - 1);
    }
  }

  /** Joining the pieces of a prefix gives back the prefix. */
  lemma {:induction false} JoinSplitPrefix(s: string, n: nat)
    requires n <= |s|
    ensures Join(SplitPrefix(s, n)) == s[..n]
  {
    if n > 0 {
      var init := SplitPrefix(s, n - 1);
      JoinSplitPrefix(s, n - 1);
      assert s[..n] == s[..n - 1] + [s[n - 1]];
      if s[n - 1] == Separator {
        JoinEmptyLast(init);
      } else {
        JoinExtend(init, s[n - 1]);
      }
    }
  }

  /** An empty last piece adds one separator to the joined text. */
  lemma JoinEmptyLast(r: seq<string>)
    requires |r| >= 1
    ensures Join(r + [""]) == Join(r) + [Separator]
  {
    var t := r + [""];
    assert t[..|t| - 1] == r;
  }

  /** A character added to the last piece is added to the joined text. */
  lemma JoinExtend(r: seq<string>, c: char)
    requires |r| >= 1
    ensures Join(Extend(r, [c])) == Join(r) + [c]
  {
    var k := |r| - 1;
    var t := Extend(r, [c]);
    if k > 0 {
      assert t[..k] == r[..k];
      assert Join(t) == Join(r[..k]) + [Separator] + (r[k] + [c]);
    }
  }

  /** Joining the pieces of a split gives back the text. */
  lemma JoinSplit(s: string)
    ensures Join(Split(s)) == s
  {
    JoinSplitPrefix(s, |s|);
    assert s[..|s|] == s;
  }

  /** Separator-free characters after the first `m` extend the last piece. */
  lemma {:induction false} SplitPrefixExtend(s: string, m: nat, n: nat)
    requires m <= n <= |s| && Separator !in s[m..n]
    ensures SplitPrefix(s, n) == Extend(SplitPrefix(s, m), s[m..n])
    decreases n
  {
    var r := SplitPrefix(s, m);
    if n == m {
      ExtendNothing(r);
      assert s[m..n] == [];
    } else {
      var c := s[n - 1];
      assert s[m..n] == s[m..n - 1] + [c];
      SplitPrefixExtend(s, m, n - 1);
      ExtendTwice(r, s[m..n - 1], c);
    }
  }

  /** Adding nothing to the last piece changes nothing. */
  lemma ExtendNothing(r: seq<string>)
    requires |r| >= 1
    ensures Extend(r, []) == r
  {
    assert r[|r| - 1] + [] == r[|r| - 1];
  }

  /** Extending the last piece twice extends it by both parts. */
  lemma ExtendTwice(r: seq<string>, w: string, c: char)
    requires |r| >= 1
    ensures Extend(Extend(r, w), [c]) == Extend(r, w + [c])
  {
    var t := Extend(r, w);
    assert t[..|t| - 1] == r[..|r| - 1];
    assert t[|t| - 1] + [c] == r[|r| - 1] + (w + [c]);
  }

  /** Extending the text by separator-free characters extends its last piece. */
  lemma SplitExtend(s: string, w: string)
    requires Separator !in w
    ensures Split(s + w) == Extend(Split(s), w)
  {
    var t := s + w;
    var n := |t|;
    assert t[|s|..n] == w;
    SplitPrefixExtend(t, |s|, n);
    assert t[..|s|] == s[..|s|];
    SplitPrefixSame(t, s, |s|);
    assert t[|s|..n] == w;
  }

  /** A separator ends a piece and starts an empty one. */
  lemma SplitSeparator(s: string)
    ensures Split(s + [Separator]) == Split(s) + [""]
  {
    var t := s + [Separator];
    assert t[..|s|] == s[..|s|];
    SplitPrefixSame(t, s, |s|);
  }

  /** Splitting joined separator-free names gives back the names. */
  lemma {:induction false} SplitJoin(names: seq<string>)
    requires |names| >= 1
    requires forall i :: 0 <= i < |names| ==> Separator !in names[i]
    ensures Split(Join(names)) == names
  {
    var n := |names| - 1;
    if n == 0 {
      SplitName(names[0]);
    } else {
      var init := names[..n];
      SplitJoin(init);
      SplitJoinStep(init, names[n]);
      assert names == init + [names[n]];
    }
  }

  /** A single name splits to itself. */
  lemma SplitName(name: string)
    requires Separator !in name
    ensures Split(Join([name])) == [name]
  {
    SplitExtend([], name);
    assert [] + name == name;
    assert "" + name == name;
  }

  /** Joining one more name adds that piece to the split. */
  lemma SplitJoinStep(init: seq<string>, name: string)
    requires |init| >= 1 && Separator !in name
    requires Split(Join(init)) == init
    ensures Split(Join(init + [name])) == init + [name]
  {
    var names := init + [name];
    assert names[..|init|] == init;
    var prefix := Join(init) + [Separator];
    assert Join(names) == prefix + name;
    SplitSeparator(Join(init));
    SplitExtend(prefix, name);
    var r := init + [""];
    assert r[..|init|] == init && r[|init|] == "";
    assert "" + name == name;
  }

  /** Joined names end with the last name's last character. */
  lemma JoinEnd(names: seq<string>)
    requires |names| >= 1 && |names[|names| - 1]| > 0
    ensures var j := Join(names); var last := names[|names| - 1];
      |j| > 0 && j[|j| - 1] == last[|last| - 1]
  {
  }

  /** The text form (`ToString`). */
  function Text(p: FileSystemPath): string
  {
    [Separator] + Join(p.segments) + (if p.isDirectory && !p.IsRoot() then [Separator] else [])
  }

  /** The parser: fails unless the text is absolute and has no empty segment. */
  function Parse(text: string): Result<FileSystemPath>
  {
    if text == [] || text[0] != Separator then Failure(MalformedPath)
    else if |text| == 1 then Success(Root)
    else ParseSegments(text[1..])
  }

  /** The text after the leading separator: a trailing separator marks a directory. */
  function ParseSegments(rest: string): Result<FileSystemPath>
    requires rest != []
  {
    var isDirectory := rest[|rest| - 1] == Separator;
    var names := Split(if isDirectory then rest[..|rest| - 1] else rest);
    if ValidNames(names) then Success(FileSystemPath(names, isDirectory))
    else Failure(MalformedPath)
  }

  /** Parsing the text of a valid path gives the path back. */
  lemma ParseText(p: FileSystemPath)
    requires p.Valid()
    ensures Parse(Text(p)) == Success(p)
  {
    if !p.IsRoot() {
      var t := Text(p);
      var suffix := if p.isDirectory then [Separator] else [];
      assert t[1..] == Join(p.segments) + suffix;
      ParseJoined(p.segments, p.isDirectory);
    }
  }

  /** The segment part of a path's text parses back to the path. */
  lemma ParseJoined(names: seq<string>, isDirectory: bool)
    requires |names| >= 1 && ValidNames(names)
    ensures var rest := Join(names) + (if isDirectory then [Separator] else []);
      rest != [] && ParseSegments(rest) == Success(FileSystemPath(names, isDirectory))
  {
    var body := Join(names);
    assert forall i :: 0 <= i < |names| ==> Separator !in names[i];
    SplitJoin(names);
    JoinEnd(names);
    var last := names[|names| - 1];
    assert last[|last| - 1] in last;
    if isDirectory {
      var rest := body + [Separator];
      assert rest[..|rest| - 1] == body;
    } else {
      assert body + [] == body;
    }
  }

  /** A parsed path is valid. */
  lemma ParsedValid(text: string)
    requires Parse(text).Success?
    ensures Parse(text).value.Valid()
  {
    if |text| > 1 {
      var rest := text[1..];
      var isDirectory := rest[|rest| - 1] == Separator;
      var names := Split(if isDirectory then rest[..|rest| - 1] else rest);
      assert ParseSegments(rest) == Success(FileSystemPath(names, isDirectory));
    }
  }

  /** The text of the path parsed from `rest` is `rest` behind the leading separator. */
  lemma SegmentsText(rest: string)
    requires rest != [] && ParseSegments(rest).Success?
    ensures Text(ParseSegments(rest).value) == [Separator] + rest
  {
    var isDirectory := rest[|rest| - 1] == Separator;
    var body := if isDirectory then rest[..|rest| - 1] else rest;
    var suffix := if isDirectory then [Separator] else [];
    var p := ParseSegments(rest).value;
    assert p == FileSystemPath(Split(body), isDirectory);
    JoinSplit(body);
    assert Text(p) == [Separator] + body + suffix;
    TrailingSeparator(rest);
    AppendAssociative([Separator], body, suffix);
  }

  /** A text is its body followed by its trailing separator, if it has one. */
  lemma TrailingSeparator(rest: string)
    requires rest != []
    ensures var isDirectory := rest[|rest| - 1] == Separator;
      rest == (if isDirectory then rest[..|rest| - 1] else rest) + (if isDirectory then [Separator] else [])
  {
    if rest[|rest| - 1] == Separator {
      assert rest == rest[..|rest| - 1] + [rest[|rest| - 1]];
    } else {
      assert rest == rest + [];
    }
  }

  lemma AppendAssociative(a: string, b: string, c: string)
    ensures a + b + c == a + (b + c)
  {
  }

  /** A text that parses is the text of the path it parses to. */
  lemma TextParse(text: string)
    requires Parse(text).Success?
    ensures Text(Parse(text).value) == text
  {
    if |text| > 1 {
      SegmentsText(text[1..]);
      assert text == [Separator] + text[1..];
    }
  }
}
