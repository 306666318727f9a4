/** The project aggregator of gpt4docs (`Project`): the source files found
    under a root, keyed by their path relative to it, where `save` puts each
    of them, and the directory tree it prints. */
module DocProject {

  import opened Wrappers
  import opened Strings
  import opened DefinitionTable
  import opened DocFile

  /** A path segment: a non-empty name without `/`. */
  predicate Segment(s: string) {
    |s| >= 1 && forall i :: 0 <= i < |s| ==> s[i] != '/'
  }

  predicate ValidPath(p: Path) {
    forall k :: 0 <= k < |p| ==> Segment(p[k])
  }

  /** `str(path)`: the segments joined by `/`; the empty path prints as `.`. */
  function Str(p: Path): string {
    if |p| == 0 then "." else if |p| == 1 then p[0] else p[0] + "/" + Str(p[1..])
  }

  /** In `a + "/" + x` the first `/` is the one after the segment. */
  lemma FirstSlash(a: string, x: string)
    requires Segment(a)
    ensures (a + "/" + x)[|a|] == '/'
    ensures forall i :: 0 <= i < |a| ==> (a + "/" + x)[i] != '/'
  {
    assert forall i :: 0 <= i < |a| ==> (a + "/" + x)[i] == a[i];
  }

  /** Two segments followed by `/` in equal texts are equal. */
  lemma SegmentSplit(a: string, x: string, b: string, y: string)
    requires Segment(a) && Segment(b) && a + "/" + x == b + "/" + y
    ensures a == b && x == y
  {
    var s := a + "/" + x;
    FirstSlash(a, x);
    FirstSlash(b, y);
    assert |a| == |b|;
    assert a == s[..|a|] == b;
    assert x == s[|a| + 1..] == y;
  }

  /** A path of more than one segment prints with a `/` in it. */
  lemma StrSlash(p: Path)
    requires ValidPath(p) && |p| >= 2
    ensures exists i :: 0 <= i < |Str(p)| && Str(p)[i] == '/'
  {
    assert Str(p)[|p[0]|] == '/';
  }

  /** Printing is one-to-one on non-empty paths. */
  lemma {:induction false} StrInjective(p: Path, q: Path)
    requires ValidPath(p) && ValidPath(q) && |p| >= 1 && |q| >= 1
    requires Str(p) == Str(q)
    ensures p == q
    decreases |p|
  {
    if |p| == 1 && |q| >= 2 {
      StrSlash(q);
    } else if |q| == 1 && |p| >= 2 {
      StrSlash(p);
    } else if |p| >= 2 {
      SegmentSplit(p[0], Str(p[1..]), q[0], Str(q[1..]));
      StrInjective(p[1..], q[1..]);
      assert p == [p[0]] + p[1..] && q == [q[0]] + q[1..];
    }
  }

  predicate IsPrefix(root: Path, p: Path) {
    |root| <= |p| && p[..|root|] == root
  }

  /** `p.relative_to(root)`: the segments after `root`, or `ValueError` when
      `p` is not under `root`. */
  function RelativeTo(p: Path, root: Path): (r: Result<Path>)
    ensures r.Ok? <==> IsPrefix(root, p)
    ensures r.Ok? ==> root + r.value == p
    ensures r.Err? ==> r.error.ValueError?
  {
    if IsPrefix(root, p) then
      assert root + p[|root|..] == p;
      Ok(p[|root|..])
    else Err(ValueError(Str(p) + " is not in the subpath of " + Str(root)))
  }

  function Parent(p: Path): Path {
    if |p| == 0 then [] else p[..|p| - 1]
  }

  function Name(p: Path): string {
    if |p| == 0 then "" else p[|p| - 1]
  }

  /** The root `save` writes under: the project root itself when
      overwriting, else the sibling `parent / (name + suffix)`. */
  function NewRoot(root: Path, suffix: string, overwrite: bool): (r: Path)
    ensures overwrite ==> r == root
    ensures !overwrite ==> Parent(r) == Parent(root) && Name(r) == Name(root) + suffix
  {
    if overwrite then root
    else
      var r := Parent(root) + [Name(root) + suffix];
      assert r[..|r| - 1] == Parent(root);
      r
  }

  /** Where `save` writes the file at `p`: its own path when overwriting,
      else the new root joined with `p` relative to the project root. */
  function Destination(root: Path, suffix: string, overwrite: bool, p: Path): Path
    requires IsPrefix(root, p)
  {
    if overwrite then p else NewRoot(root, suffix, overwrite) + p[|root|..]
  }

  /** Under the new root every file keeps its path relative to the project
      root, so the layout is the same and no two files share a destination. */
  lemma DestinationLayout(root: Path, suffix: string, overwrite: bool, p: Path, q: Path)
    requires IsPrefix(root, p) && IsPrefix(root, q)
    ensures RelativeTo(Destination(root, suffix, overwrite, p), NewRoot(root, suffix, overwrite)) == RelativeTo(p, root)
    ensures Destination(root, suffix, overwrite, p) == Destination(root, suffix, overwrite, q) ==> p == q
  {
    var n := NewRoot(root, suffix, overwrite);
    var d := Destination(root, suffix, overwrite, p);
    if !overwrite {
      assert d[..|n|] == n && d[|n|..] == p[|root|..];
      var e := Destination(root, suffix, overwrite, q);
      if d == e {
        assert p[|root|..] == d[|n|..] == e[|n|..] == q[|root|..];
        assert p == root + p[|root|..] && q == root + q[|root|..];
      }
    }
  }

  /** The key of a file found at `p`: `str(p.relative_to(root))`. */
  function Key(root: Path, p: Path): string
    requires IsPrefix(root, p)
  {
    Str(p[|root|..])
  }

  /** Files strictly under the root with well-formed paths get distinct keys,
      so the map has one entry per file. */
  lemma KeyInjective(root: Path, p: Path, q: Path)
    requires IsPrefix(root, p) && IsPrefix(root, q) && |p| > |root| && |q| > |root|
    requires ValidPath(p) && ValidPath(q)
    requires Key(root, p) == Key(root, q)
    ensures p == q
  {
    var a := p[|root|..];
    var b := q[|root|..];
    assert ValidPath(a) by {
      forall k | 0 <= k < |a| ensures Segment(a[k]) {
        assert a[k] == p[|root| + k];
      }
    }
    assert ValidPath(b) by {
      forall k | 0 <= k < |b| ensures Segment(b[k]) {
        assert b[k] == q[|root| + k];
      }
    }
    StrInjective(a, b);
    assert p == root + a && q == root + b;
  }

  /** The last of the first `t` discovered files whose key is `k`: the one a
      dict display keeps under `k`. */
  function LastFound(root: Path, discovered: seq<(Path, string)>, t: nat, k: string): Option<(Path, string)>
    requires t <= |discovered|
    requires forall i :: 0 <= i < |discovered| ==> IsPrefix(root, discovered[i].0)
  {
    if t == 0 then None
    else if Key(root, discovered[t - 1].0) == k then Some(discovered[t - 1])
    else LastFound(root, discovered, t - 1, k)
  }

  /** Some file among the first `t` has key `k` exactly when a last one does. */
  lemma {:induction false} LastFoundKeys(root: Path, discovered: seq<(Path, string)>, t: nat, k: string)
    requires t <= |discovered|
    requires forall i :: 0 <= i < |discovered| ==> IsPrefix(root, discovered[i].0)
    ensures LastFound(root, discovered, t, k).Some? <==> k in set i | 0 <= i < t :: Key(root, discovered[i].0)
  {
    if t > 0 {
      LastFoundKeys(root, discovered, t - 1, k);
      if Key(root, discovered[t - 1].0) != k && k in set i | 0 <= i < t :: Key(root, discovered[i].0) {
        var i :| 0 <= i < t && Key(root, discovered[i].0) == k;
        assert i < t - 1;
      }
    }
  }

  /** The `i`-th file is the one kept under its key exactly when no later one
      among the first `t` has the same key. */
  lemma {:induction false} LastFoundLatest(root: Path, discovered: seq<(Path, string)>, t: nat, i: nat)
    requires i < t <= |discovered|
    requires forall i :: 0 <= i < |discovered| ==> IsPrefix(root, discovered[i].0)
    ensures (forall j :: i < j < t ==> Key(root, discovered[j].0) != Key(root, discovered[i].0))
      ==> LastFound(root, discovered, t, Key(root, discovered[i].0)) == Some(discovered[i])
    ensures LastFound(root, discovered, t, Key(root, discovered[i].0)).Some?
  {
    if i < t - 1 {
      LastFoundLatest(root, discovered, t - 1, i);
    }
  }

  /** Whatever is kept under `k` is a discovered file with key `k`, and no
      later file has that key. */
  lemma {:induction false} LastFoundIsLatest(root: Path, discovered: seq<(Path, string)>, t: nat, k: string)
    requires t <= |discovered|
    requires forall i :: 0 <= i < |discovered| ==> IsPrefix(root, discovered[i].0)
    requires LastFound(root, discovered, t, k).Some?
    ensures exists i :: (0 <= i < t && discovered[i] == LastFound(root, discovered, t, k).value
      && Key(root, discovered[i].0) == k && (forall j :: i < j < t ==> Key(root, discovered[j].0) != k))
  {
    if Key(root, discovered[t - 1].0) != k {
      LastFoundIsLatest(root, discovered, t - 1, k);
      var i :| 0 <= i < t - 1 && discovered[i] == LastFound(root, discovered, t - 1, k).value
        && Key(root, discovered[i].0) == k && (forall j :: i < j < t - 1 ==> Key(root, discovered[j].0) != k);
      assert forall j :: i < j < t ==> Key(root, discovered[j].0) != k;
    } else {
      assert discovered[t - 1] == LastFound(root, discovered, t, k).value;
    }
  }

  class Project {
    const root: Path
    var files: map<string, File>

    ghost predicate Valid()
      reads this, files.Values
    {
      forall k :: k in files ==>
        IsPrefix(root, files[k].filePath) && Key(root, files[k].filePath) == k && files[k].Valid()
    }

    /** `__init__`: one `File` per file `glob` finds under the root, each
        given here with its text, stored under its relative path; a later file
        with the same key replaces an earlier one, as in a dict display. */
    constructor(root: Path, discovered: seq<(Path, string)>)
      requires forall i :: 0 <= i < |discovered| ==> IsPrefix(root, discovered[i].0)
      ensures this.root == root && Valid()
      ensures forall k :: k in files <==> LastFound(root, discovered, |discovered|, k).Some?
      ensures forall k :: k in files ==>
        LastFound(root, discovered, |discovered|, k) == Some((files[k].filePath, files[k].content))
    {
      this.root := root;
      var m: map<string, File> := map[];
      for t := 0 to |discovered|
        invariant forall k :: k in m <==> LastFound(root, discovered, t, k).Some?
        invariant forall k :: k in m ==> LastFound(root, discovered, t, k) == Some((m[k].filePath, m[k].content))
        invariant forall k :: k in m ==> IsPrefix(root, m[k].filePath) && Key(root, m[k].filePath) == k && m[k].Valid()
      {
        var f := new File(discovered[t].0, discovered[t].1);
        m := m[Key(root, discovered[t].0) := f];
      }
      files := m;
    }

    /** `get_file_path_by_path`. */
    function FilePathByPath(p: Path): (r: Result<string>)
      ensures r.Ok? <==> IsPrefix(root, p)
      ensures r.Ok? ==> r.value == Key(root, p)
    {
      match RelativeTo(p, root)
      case Ok(rel) => Ok(Str(rel))
      case Err(e) => Err(e)
    }

    /** `get_file`: the file stored under the relative path of `f`; a path
        outside the root fails with `ValueError`, a missing key with
        `KeyError`. */
    function GetFile(f: File): (r: Result<File>)
      reads this
      ensures !IsPrefix(root, f.filePath) ==> r.Err? && r.error.ValueError?
      ensures IsPrefix(root, f.filePath) && Key(root, f.filePath) !in files ==> r == Err(KeyError(Key(root, f.filePath)))
      ensures IsPrefix(root, f.filePath) && Key(root, f.filePath) in files ==> r == Ok(files[Key(root, f.filePath)])
    {
      match FilePathByPath(f.filePath)
      case Err(e) => Err(e)
      case Ok(k) => if k in files then Ok(files[k]) else Err(KeyError(k))
    }

    /** Looking up a file of the project gives the file back. */
    lemma GetFileMember(k: string)
      requires Valid() && k in files
      ensures GetFile(files[k]) == Ok(files[k])
    {
    }

    /** `save` without the writes: every file is rendered and sent to its
        destination; the result is the root written under and, per key, the
        path and the text of that file as it would be written. */
    method Save(suffix: string, overwrite: bool) returns (newRoot: Path, written: map<string, (Path, string)>)
      requires Valid()
      ensures newRoot == NewRoot(root, suffix, overwrite)
      ensures written.Keys == files.Keys
      ensures forall k :: k in files ==>
        written[k] == (Destination(root, suffix, overwrite, files[k].filePath),
                       Render(files[k].content, Values(files[k].definitions)))
    {
      newRoot := NewRoot(root, suffix, overwrite);
      written := map[];
      var todo := files.Keys;
      while todo != {}
        invariant todo <= files.Keys
        invariant written.Keys == files.Keys - todo
        invariant forall k :: k in written ==>
          written[k] == (Destination(root, suffix, overwrite, files[k].filePath),
                         Render(files[k].content, Values(files[k].definitions)))
        decreases todo
      {
        var k :| k in todo;
        var f := files[k];
        var r;
        if overwrite {
          r := f.Save(None, true);
        } else {
          r := f.Save(Some(newRoot + f.filePath[|root|..]), false);
        }
        written := written[k := r.value];
        todo := todo - {k};
      }
    }
  }

  /** A directory entry: a file, or a directory with its entries in the order
      `iterdir` lists them. */
  datatype Node = FileNode(name: string) | DirNode(name: string, entries: seq<Node>)

  /** The subdirectories among `es`, in order. */
  function SubDirs(es: seq<Node>): (r: seq<Node>)
    ensures forall i :: 0 <= i < |r| ==> r[i] in es && r[i].DirNode?
    ensures r == [] <==> forall e :: e in es ==> !e.DirNode?
  {
    if es == [] then []
    else (if es[0].DirNode? then [es[0]] else []) + SubDirs(es[1..])
  }

  /** The names of the files among `es`, in order. */
  function FileNames(es: seq<Node>): (r: seq<string>)
    ensures r == [] <==> forall e :: e in es ==> !e.FileNode?
  {
    if es == [] then []
    else (if es[0].FileNode? then [es[0].name] else []) + FileNames(es[1..])
  }

  const Branch := "├── "
  const Corner := "└── "
  const Rail := "│   "
  const Close := "└──"

  /** `_tree`: a file is one line; an empty directory is one line; any other
      directory is its header line, the trees of its subdirectories one rail
      deeper, its file lines unless `printFiles` is false, and a closing
      corner. The nested calls do not pass `printFiles` on. */
  function Tree(n: Node, padding: string, printFiles: bool): string
    decreases n, 1
  {
    match n
    case FileNode(name) => padding + Corner + name
    case DirNode(name, es) =>
      if SubDirs(es) == [] && FileNames(es) == [] then padding + Corner + name + "/"
      else
        var fileLines := if printFiles then FileLines(FileNames(es), padding) else [];
        Join([padding + Branch + name + "/"] + Blocks(es, padding + Rail) + fileLines + [padding + Close])
  }

  /** The trees of the subdirectories among `es`, in order. */
  function Blocks(es: seq<Node>, padding: string): seq<string>
    decreases es, 0
  {
    if es == [] then []
    else (if es[0].DirNode? then [Tree(es[0], padding, true)] else []) + Blocks(es[1..], padding)
  }

  /** The lines of `Tree`, spelled out: the reference the rendering is
      checked against. */
  function TreeLines(n: Node, padding: string, printFiles: bool): (r: seq<string>)
    ensures |r| >= 1
    decreases n, 1
  {
    match n
    case FileNode(name) => [padding + Corner + name]
    case DirNode(name, es) =>
      if SubDirs(es) == [] && FileNames(es) == [] then [padding + Corner + name + "/"]
      else
        [padding + Branch + name + "/"] + DirLines(es, padding + Rail)
        + (if printFiles then FileLines(FileNames(es), padding) else [])
        + [padding + Close]
  }

  /** The lines of the subdirectories among `es`, each listing its files. */
  function DirLines(es: seq<Node>, padding: string): seq<string>
    decreases es, 0
  {
    if es == [] then []
    else (if es[0].DirNode? then TreeLines(es[0], padding, true) else []) + DirLines(es[1..], padding)
  }

  function FileLines(names: seq<string>, padding: string): (r: seq<string>)
    ensures |r| == |names|
    ensures forall i :: 0 <= i < |r| ==> r[i] == padding + Rail + Branch + names[i]
  {
    seq(|names|, i requires 0 <= i < |names| => padding + Rail + Branch + names[i])
  }

  /** The printed tree is its lines joined. */
  lemma {:induction false} TreeJoin(n: Node, padding: string, printFiles: bool)
    ensures Tree(n, padding, printFiles) == Join(TreeLines(n, padding, printFiles))
    decreases n, 1
  {
    if n.DirNode? && !(SubDirs(n.entries) == [] && FileNames(n.entries) == []) {
      var h := padding + Branch + n.name + "/";
      var B := Blocks(n.entries, padding + Rail);
      var D := DirLines(n.entries, padding + Rail);
      var F := if printFiles then FileLines(FileNames(n.entries), padding) else [];
      var c := padding + Close;
      assert Tree(n, padding, printFiles) == Join([h] + B + F + [c]);
      assert TreeLines(n, padding, printFiles) == [h] + D + F + [c];
      BlocksJoin(n.entries, padding + Rail, F + [c]);
      JoinHead(h, B, D, F, c);
    }
  }

  /** Runs of lines that join alike still join alike after a common first
      line and before common last lines. */
  lemma JoinHead(h: string, B: seq<string>, D: seq<string>, F: seq<string>, c: string)
    requires Join(B + (F + [c])) == Join(D + (F + [c]))
    ensures Join([h] + B + F + [c]) == Join([h] + D + F + [c])
  {
    Assoc4([h], B, F, [c]);
    Assoc4([h], D, F, [c]);
    JoinCons(h, B + (F + [c]));
    JoinCons(h, D + (F + [c]));
  }

  lemma {:induction false} BlocksJoin(es: seq<Node>, padding: string, rest: seq<string>)
    requires |rest| >= 1
    ensures Join(Blocks(es, padding) + rest) == Join(DirLines(es, padding) + rest)
    decreases es, 0
  {
    if es != [] {
      var B := Blocks(es[1..], padding);
      var D := DirLines(es[1..], padding);
      BlocksJoin(es[1..], padding, rest);
      if es[0].DirNode? {
        TreeJoin(es[0], padding, true);
        JoinStep(Tree(es[0], padding, true), TreeLines(es[0], padding, true), B, D, rest);
      } else {
        assert Blocks(es, padding) == B;
        assert DirLines(es, padding) == D;
      }
    }
  }

  lemma JoinStep(t: string, L: seq<string>, B: seq<string>, D: seq<string>, rest: seq<string>)
    requires t == Join(L) && |L| >= 1 && |rest| >= 1
    requires Join(B + rest) == Join(D + rest)
    ensures Join([t] + B + rest) == Join(L + D + rest)
  {
    Assoc([t], B, rest);
    JoinCons(t, B + rest);
    Assoc(L, D, rest);
    JoinAppend(L, D + rest);
  }



  /** Every line of `ls` starts with `p`. */
  predicate AllStart(ls: seq<string>, p: string) {
    forall k :: 0 <= k < |ls| ==> StartsWith(ls[k], p)
  }

  lemma AllStartAppend(a: seq<string>, b: seq<string>, p: string)
    requires AllStart(a, p) && AllStart(b, p)
    ensures AllStart(a + b, p)
  {
    forall k | 0 <= k < |a + b| ensures StartsWith((a + b)[k], p) {
      if k >= |a| {
        assert (a + b)[k] == b[k - |a|];
      }
    }
  }

  lemma AllStartLonger(ls: seq<string>, p: string, x: string)
    requires AllStart(ls, p + x)
    ensures AllStart(ls, p)
  {
    forall k | 0 <= k < |ls| ensures StartsWith(ls[k], p) {
      assert ls[k][..|p|] == ls[k][..|p + x|][..|p|];
    }
  }

  lemma StartsWithAppend(p: string, x: string)
    ensures StartsWith(p + x, p)
  {
    assert (p + x)[..|p|] == p;
  }

  /** Every line of a tree starts with its padding. */
  lemma {:induction false} TreeLinesPadded(n: Node, padding: string, printFiles: bool)
    ensures AllStart(TreeLines(n, padding, printFiles), padding)
    decreases n, 1
  {
    if n.DirNode? && !(SubDirs(n.entries) == [] && FileNames(n.entries) == []) {
      var h := padding + Branch + n.name + "/";
      var D := DirLines(n.entries, padding + Rail);
      var F := if printFiles then FileLines(FileNames(n.entries), padding) else [];
      var c := padding + Close;
      assert TreeLines(n, padding, printFiles) == [h] + D + F + [c];
      Assoc4(padding, Branch, n.name, "/");
      StartsWithAppend(padding, Branch + (n.name + "/"));
      DirLinesPadded(n.entries, padding + Rail);
      AllStartLonger(D, padding, Rail);
      forall k | 0 <= k < |F| ensures StartsWith(F[k], padding) {
        var f := FileNames(n.entries)[k];
        assert F[k] == padding + Rail + Branch + f;
        Assoc4(padding, Rail, Branch, f);
        StartsWithAppend(padding, Rail + (Branch + f));
      }
      StartsWithAppend(padding, Close);
      AllStartAppend([h], D, padding);
      AllStartAppend([h] + D, F, padding);
      AllStartAppend([h] + D + F, [c], padding);
    } else {
      var r := TreeLines(n, padding, printFiles);
      assert |r| == 1;
      if n.FileNode? {
        Assoc(padding, Corner, n.name);
        StartsWithAppend(padding, Corner + n.name);
      } else {
        Assoc4(padding, Corner, n.name, "/");
        StartsWithAppend(padding, Corner + (n.name + "/"));
      }
    }
  }

  lemma {:induction false} DirLinesPadded(es: seq<Node>, padding: string)
    ensures AllStart(DirLines(es, padding), padding)
    decreases es, 0
  {
    if es != [] {
      DirLinesPadded(es[1..], padding);
      if es[0].DirNode? {
        TreeLinesPadded(es[0], padding, true);
        AllStartAppend(TreeLines(es[0], padding, true), DirLines(es[1..], padding), padding);
      } else {
        assert DirLines(es, padding) == [] + DirLines(es[1..], padding);
      }
    }
  }

  /** The lines of each subdirectory appear among the lines of its parent. */
  lemma {:induction false} DirLinesHold(es: seq<Node>, padding: string, j: nat)
    requires j < |es| && es[j].DirNode?
    ensures forall l :: l in TreeLines(es[j], padding, true) ==> l in DirLines(es, padding)
    decreases j
  {
    if j > 0 {
      DirLinesHold(es[1..], padding, j - 1);
      assert es[1..][j - 1] == es[j];
    }
  }

  /** `printFiles` is not passed on: a subdirectory lists its files one rail
      deeper even when the top level does not list its own. */
  lemma NestedFilesListed(name: string, es: seq<Node>, padding: string, printFiles: bool, j: nat, f: string)
    requires j < |es| && es[j].DirNode? && f in FileNames(es[j].entries)
    ensures padding + Rail + Rail + Branch + f in TreeLines(DirNode(name, es), padding, printFiles)
  {
    var d := es[j];
    var q := padding + Rail;
    var names := FileNames(d.entries);
    var i :| 0 <= i < |names| && names[i] == f;
    assert FileLines(names, q)[i] == q + Rail + Branch + f;
    assert q + Rail + Branch + f in TreeLines(d, q, true);
    DirLinesHold(es, q, j);
    assert es[j] in es;
    assert SubDirs(es) != [];
  }

  /** Names on one line each. */
  predicate OneLineNames(n: Node)
    decreases n
  {
    match n
    case FileNode(name) => NoNewline(name)
    case DirNode(name, es) => NoNewline(name) && forall i :: 0 <= i < |es| ==> OneLineNames(es[i])
  }

  lemma Pieces(padding: string, name: string)
    requires NoNewline(padding) && NoNewline(name)
    ensures NoNewline(padding + Corner + name) && NoNewline(padding + Corner + name + "/")
    ensures NoNewline(padding + Branch + name + "/") && NoNewline(padding + Close)
    ensures NoNewline(padding + Rail) && NoNewline(padding + Rail + Branch + name)
  {
    NoNewlineAppend(padding, Corner);
    NoNewlineAppend(padding + Corner, name);
    NoNewlineAppend(padding + Corner + name, "/");
    NoNewlineAppend(padding, Branch);
    NoNewlineAppend(padding + Branch, name);
    NoNewlineAppend(padding + Branch + name, "/");
    NoNewlineAppend(padding, Close);
    NoNewlineAppend(padding, Rail);
    NoNewlineAppend(padding + Rail, Branch);
    NoNewlineAppend(padding + Rail + Branch, name);
  }

  lemma {:induction false} TreeLinesOneLine(n: Node, padding: string, printFiles: bool)
    requires NoNewline(padding) && OneLineNames(n)
    ensures NoNewlines(TreeLines(n, padding, printFiles))
    decreases n, 1
  {
    match n
    case FileNode(name) =>
      Pieces(padding, name);
    case DirNode(name, es) =>
      Pieces(padding, name);
      if !(SubDirs(es) == [] && FileNames(es) == []) {
        DirLinesOneLine(es, padding + Rail);
        var names := FileNames(es);
        FileNamesOneLine(es);
        forall i | 0 <= i < |names| ensures NoNewline(padding + Rail + Branch + names[i]) {
          Pieces(padding, names[i]);
        }
      }
  }

  lemma {:induction false} FileNamesOneLine(es: seq<Node>)
    requires forall i :: 0 <= i < |es| ==> OneLineNames(es[i])
    ensures NoNewlines(FileNames(es))
  {
    if es != [] {
      FileNamesOneLine(es[1..]);
    }
  }

  lemma {:induction false} DirLinesOneLine(es: seq<Node>, padding: string)
    requires NoNewline(padding) && forall i :: 0 <= i < |es| ==> OneLineNames(es[i])
    ensures NoNewlines(DirLines(es, padding))
    decreases es, 0
  {
    if es != [] {
      DirLinesOneLine(es[1..], padding);
      if es[0].DirNode? {
        TreeLinesOneLine(es[0], padding, true);
      }
    }
  }

  /** With names on one line each, the printed tree splits back into exactly
      its lines. */
  lemma TreeSplit(n: Node, padding: string, printFiles: bool)
    requires NoNewline(padding) && OneLineNames(n)
    ensures Split(Tree(n, padding, printFiles)) == TreeLines(n, padding, printFiles)
  {
    TreeJoin(n, padding, printFiles);
    TreeLinesOneLine(n, padding, printFiles);
    SplitJoin(TreeLines(n, padding, printFiles));
  }

  /** A file prints as `└── name`, an empty directory as `└── name/`; any
      other directory opens with the line `├── name/` and ends with the
      line `└──`, every line after the padding. */
  lemma TreeShape(n: Node, padding: string, printFiles: bool)
    ensures n.FileNode? ==> Tree(n, padding, printFiles) == padding + Corner + n.name
    ensures n.DirNode? && SubDirs(n.entries) == [] && FileNames(n.entries) == [] ==>
      Tree(n, padding, printFiles) == padding + Corner + n.name + "/"
    ensures n.DirNode? && !(SubDirs(n.entries) == [] && FileNames(n.entries) == []) ==>
      StartsWith(Tree(n, padding, printFiles), padding + Branch + n.name + "/" + "\n")
      && EndsWith(Tree(n, padding, printFiles), "\n" + padding + Close)
  {
    if n.DirNode? && !(SubDirs(n.entries) == [] && FileNames(n.entries) == []) {
      var fileLines := if printFiles then FileLines(FileNames(n.entries), padding) else [];
      JoinEnds(padding + Branch + n.name + "/", Blocks(n.entries, padding + Rail), fileLines, padding + Close);
    }
  }

  /** Lines joined start with the first line and a newline, and end with a
      newline and the last line. */
  lemma JoinEnds(h: string, B: seq<string>, F: seq<string>, c: string)
    ensures StartsWith(Join([h] + B + F + [c]), h + "\n") && EndsWith(Join([h] + B + F + [c]), "\n" + c)
  {
    var mid := B + F;
    assert [h] + B + F + [c] == [h] + (mid + [c]);
    JoinAppend([h], mid + [c]);
    var x := Join(mid + [c]);
    if mid == [] {
      assert mid + [c] == [c];
    } else {
      JoinAppend(mid, [c]);
    }
    var t := h + "\n" + x;
    assert t[..|h + "\n"|] == h + "\n";
    assert t[|t| - |"\n" + c|..] == "\n" + c;
  }

  /** The layout the expected string of the project test implies: a
      directory `test_package` holding `func1.py` and `package1.py`. It is
      read off that string, not off a fixture directory. */
  const ExpectedLayout := DirNode("test_package", [FileNode("func1.py"), FileNode("package1.py")])

  /** A directory without subdirectories has no nested lines. */
  lemma {:induction false} DirLinesNoSubDirs(es: seq<Node>, padding: string)
    requires SubDirs(es) == []
    ensures DirLines(es, padding) == []
  {
    if es != [] {
      assert es[0] in es;
      assert forall e :: e in es[1..] ==> e in es;
      DirLinesNoSubDirs(es[1..], padding);
    }
  }

  /** The lines of a directory holding only files: its header, its file
      lines and the closing corner. */
  lemma TreeLinesFlat(name: string, es: seq<Node>, padding: string, printFiles: bool)
    requires SubDirs(es) == [] && FileNames(es) != []
    ensures TreeLines(DirNode(name, es), padding, printFiles)
      == [padding + Branch + name + "/"] + (if printFiles then FileLines(FileNames(es), padding) else []) + [padding + Close]
  {
    DirLinesNoSubDirs(es, padding + Rail);
  }

  /** The lines of that tree: `├── test_package/`, `│   ├── func1.py`,
      `│   ├── package1.py` and `└──`. */
  lemma TestTreeLines()
    ensures TreeLines(ExpectedLayout, "", true)
      == [Branch + "test_package" + "/", Rail + Branch + "func1.py", Rail + Branch + "package1.py", Close]
  {
    var es := ExpectedLayout.entries;
    assert FileNames(es) == ["func1.py", "package1.py"] by {
      assert es[1..] == [FileNode("package1.py")] && es[1..][1..] == [];
    }
    TreeLinesFlat("test_package", es, "", true);
    var F := FileLines(["func1.py", "package1.py"], "");
    assert F == ["" + Rail + Branch + "func1.py", "" + Rail + Branch + "package1.py"];
    assert "" + Rail == Rail && "" + Branch == Branch && "" + Close == Close;
  }

  lemma Join4(a: string, b: string, c: string, d: string)
    ensures Join([a, b, c, d]) == a + "\n" + b + "\n" + c + "\n" + d
  {
    assert [a, b, c, d][1..] == [b, c, d];
    assert [b, c, d][1..] == [c, d];
    assert [c, d][1..] == [d];
    assert Join([c, d]) == c + "\n" + d;
    assert Join([b, c, d]) == b + "\n" + (c + "\n" + d);
    assert Join([a, b, c, d]) == a + "\n" + (b + "\n" + (c + "\n" + d));
  }

  /** That layout prints as the string the project test expects. */
  lemma TestTree()
    ensures Tree(ExpectedLayout, "", true)
      == Branch + "test_package" + "/" + "\n" + Rail + Branch + "func1.py" + "\n" + Rail + Branch + "package1.py" + "\n" + Close
  {
    TestTreeLines();
    TreeJoin(ExpectedLayout, "", true);
    Join4(Branch + "test_package" + "/", Rail + Branch + "func1.py", Rail + Branch + "package1.py", Close);
  }
}
