/**
 * `path.util.ts`: splitting a directory into its folder names and decoding
 * the list of Markdown files into file records. The Node `path` functions
 * the file wraps are taken as given functions.
 */
module PathUtil {
  import opened Js

  /** `path.sep`, fixed to the POSIX separator. */
  const Sep: char := '/'

  /** What `path.parse` returns that the core reads. */
  datatype ParsedPath = ParsedPath(dir: string, name: string)

  /** The Node `path` functions the core calls, left uninterpreted. */
  datatype NodePath = NodePath(
    parse: string -> ParsedPath,
    resolve: string -> string,
    relative: (string, string) -> string)

  /** `IFileInfo`: a Markdown file, the folders between the base and it, and its bare name. */
  datatype FileInfo = FileInfo(path: string, dirs: seq<string>, fileName: string)

  /** `filter(item => item)` on strings: drops the empty ones. */
  function NonEmpty(xs: seq<string>): (r: seq<string>)
    ensures |r| <= |xs|
    ensures forall i :: 0 <= i < |r| ==> r[i] != "" && r[i] in xs
    ensures forall x :: x in xs && x != "" ==> x in r
  {
    if |xs| == 0 then []
    else (if xs[0] == "" then [] else [xs[0]]) + NonEmpty(xs[1..])
  }

  /** The filter works element by element: the kept strings stay in order. */
  lemma {:induction false} NonEmptyAppend(a: seq<string>, b: seq<string>)
    ensures NonEmpty(a + b) == NonEmpty(a) + NonEmpty(b)
  {
    if |a| == 0 {
      assert a + b == b;
    } else {
      var head := if a[0] == "" then [] else [a[0]];
      assert (a + b)[1..] == a[1..] + b;
      assert NonEmpty(a + b) == head + NonEmpty(a[1..] + b);
      NonEmptyAppend(a[1..], b);
      assert head + (NonEmpty(a[1..]) + NonEmpty(b)) == (head + NonEmpty(a[1..])) + NonEmpty(b);
    }
  }

  /** One string is dropped exactly when it is empty. */
  lemma NonEmptySingle(x: string)
    ensures NonEmpty([x]) == if x == "" then [] else [x]
  {
    assert [x][1..] == [];
  }

  /** Every non-empty string occurs as often as in the input; the empty one not at all. */
  lemma {:induction false} NonEmptyCount(xs: seq<string>, x: string)
    ensures multiset(NonEmpty(xs))[x] == if x == "" then 0 else multiset(xs)[x]
  {
    if |xs| > 0 {
      NonEmptyCount(xs[1..], x);
      assert xs == [xs[0]] + xs[1..];
      assert multiset(xs) == multiset{xs[0]} + multiset(xs[1..]);
      var head := if xs[0] == "" then [] else [xs[0]];
      assert multiset(head + NonEmpty(xs[1..])) == multiset(head) + multiset(NonEmpty(xs[1..]));
    }
  }

  /** `splitPath`: the names between separators, the empty ones left out. */
  function SplitPath(p: string): (r: seq<string>)
    ensures forall i :: 0 <= i < |r| ==> r[i] != "" && Sep !in r[i]
  {
    NonEmpty(Split(p, Sep))
  }

  /** `p` with every separator deleted. */
  function DeleteSep(p: string): string {
    if |p| == 0 then "" else (if p[0] == Sep then "" else [p[0]]) + DeleteSep(p[1..])
  }

  lemma {:induction false} ConcatNonEmpty(xs: seq<string>)
    ensures Concat(NonEmpty(xs)) == Concat(xs)
  {
    if |xs| > 0 {
      ConcatNonEmpty(xs[1..]);
      ConcatAppend(if xs[0] == "" then [] else [xs[0]], NonEmpty(xs[1..]));
    }
  }

  lemma {:induction false} ConcatSplit(p: string)
    ensures Concat(Split(p, Sep)) == DeleteSep(p)
  {
    if |p| > 0 {
      ConcatSplit(p[1..]);
      var rest := Split(p[1..], Sep);
      if p[0] != Sep {
        assert Concat(rest) == rest[0] + Concat(rest[1..]);
        assert Split(p, Sep)[1..] == rest[1..];
      }
    }
  }

  /** The names, put back together, are the input without its separators. */
  lemma SplitPathConcat(p: string)
    ensures Concat(SplitPath(p)) == DeleteSep(p)
  {
    ConcatNonEmpty(Split(p, Sep));
    ConcatSplit(p);
  }

  lemma {:induction false} NonEmptyKeeps(xs: seq<string>)
    requires forall i :: 0 <= i < |xs| ==> xs[i] != ""
    ensures NonEmpty(xs) == xs
  {
    if |xs| > 0 {
      NonEmptyKeeps(xs[1..]);
    }
  }

  /** Folder names joined with the separator split back into the same names. */
  lemma SplitPathJoin(names: seq<string>)
    requires forall i :: 0 <= i < |names| ==> names[i] != "" && Sep !in names[i]
    ensures SplitPath(Join(names, [Sep])) == names
  {
    if |names| > 0 {
      SplitJoin(names, Sep);
      NonEmptyKeeps(names);
    }
  }

  /** A leading separator adds only an empty piece, which is dropped. */
  lemma SplitPathLeadingSep(p: string)
    ensures SplitPath([Sep] + p) == SplitPath(p)
  {
    assert ([Sep] + p)[1..] == p;
  }

  /** `decodeFilePath`. */
  function DecodeFilePath(path: string, base: string, np: NodePath): (r: FileInfo)
    ensures r.path == path
    ensures r.fileName == np.parse(path).name
    ensures forall i :: 0 <= i < |r.dirs| ==> r.dirs[i] != "" && Sep !in r.dirs[i]
  {
    var parsed := np.parse(path);
    FileInfo(path, SplitPath(ReplaceFirst(parsed.dir, np.resolve(base), "")), parsed.name)
  }

  /** When the directory starts with the resolved base, the folders are the names after it. */
  lemma DecodeAfterBase(path: string, base: string, np: NodePath, rest: string)
    requires np.parse(path).dir == np.resolve(base) + rest
    ensures DecodeFilePath(path, base, np).dirs == SplitPath(rest)
  {
    var dir := np.parse(path).dir;
    var rb := np.resolve(base);
    assert OccursAt(dir, rb, 0) by {
      assert dir[..|rb|] == rb;
    }
    assert IndexOfFrom(dir, rb, 0) == Some(0);
    assert dir[..0] + "" + dir[|rb|..] == rest;
  }

  /** A file directly in the base folder has no folders. */
  lemma DecodeAtBase(path: string, base: string, np: NodePath)
    requires np.parse(path).dir == np.resolve(base)
    ensures DecodeFilePath(path, base, np).dirs == []
  {
    DecodeAfterBase(path, base, np, "");
    assert np.resolve(base) + "" == np.resolve(base);
  }

  /** A file under `base/d1/.../dn` has the folders `d1, ..., dn`. */
  lemma DecodeUnderBase(path: string, base: string, np: NodePath, names: seq<string>)
    requires forall i :: 0 <= i < |names| ==> names[i] != "" && Sep !in names[i]
    requires np.parse(path).dir == np.resolve(base) + ([Sep] + Join(names, [Sep]))
    ensures DecodeFilePath(path, base, np).dirs == names
  {
    DecodeAfterBase(path, base, np, [Sep] + Join(names, [Sep]));
    SplitPathUnder(names);
  }

  lemma SplitPathUnder(names: seq<string>)
    requires forall i :: 0 <= i < |names| ==> names[i] != "" && Sep !in names[i]
    ensures SplitPath([Sep] + Join(names, [Sep])) == names
  {
    SplitPathLeadingSep(Join(names, [Sep]));
    SplitPathJoin(names);
  }

  /**
   * The first occurrence of the resolved base is removed wherever it is: it
   * need not be a prefix of the directory.
   */
  lemma DecodeBaseInside(path: string, base: string, np: NodePath)
    requires np.resolve(base) == "/a" && np.parse(path).dir == "/x/a/b"
    ensures DecodeFilePath(path, base, np).dirs == ["x", "b"]
  {
    var dir := np.parse(path).dir;
    FirstAtTwo(dir, np.resolve(base));
    assert ReplaceFirst(dir, "/a", "") == dir[..2] + "" + dir[4..];
    assert dir[..2] + "" + dir[4..] == "/x/b";
    SplitXB("/x/b");
  }

  lemma FirstAtTwo(dir: string, pat: string)
    requires pat == "/a" && dir == "/x/a/b"
    ensures IndexOfFrom(dir, pat, 0) == Some(2)
  {
    assert !OccursAt(dir, pat, 0) by { assert dir[1] != pat[1]; }
    assert !OccursAt(dir, pat, 1) by { assert dir[1] != pat[0]; }
    assert OccursAt(dir, pat, 2) by { assert dir[2..4] == pat; }
  }

  lemma SplitXB(p: string)
    requires p == "/x/b"
    ensures SplitPath(p) == ["x", "b"]
  {
    var x, b := p[1..2], p[3..];
    assert x == "x" && b == "b";
    SplitPathLeadingSep(x + [Sep] + b);
    assert p == [Sep] + (x + [Sep] + b);
    SplitPathJoin([x, b]);
    assert Join([x, b], [Sep]) == x + [Sep] + b by {
      assert Join([x, b][1..], [Sep]) == b;
    }
  }

  /** `decodeFilePaths`: one record per path, in the same order. */
  function DecodeFilePaths(paths: seq<string>, base: string, np: NodePath): (r: seq<FileInfo>)
    ensures |r| == |paths|
    ensures forall i :: 0 <= i < |paths| ==> r[i] == DecodeFilePath(paths[i], base, np)
  {
    if |paths| == 0 then [] else [DecodeFilePath(paths[0], base, np)] + DecodeFilePaths(paths[1..], base, np)
  }
}
