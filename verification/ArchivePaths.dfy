/**
 How the builder turns a directory tree into the flat list of files that SimpleFS stores: a file
 goes by the names of its directories and its own name, joined by slashes, and an index.html goes
 by its directory's path with a slash (the root's by the empty path).
 */
module ArchivePaths {
  import opened Bytes
  import opened CStrings
  import opened SimpleFs

  const SLASH: byte := 47
  const DOT: byte := 46
  const INDEX: seq<byte> := [105, 110, 100, 101, 120, 46, 104, 116, 109, 108]  // "index.html"

  datatype Node = Leaf(name: seq<byte>, data: seq<byte>) | Dir(name: seq<byte>, children: seq<Node>)

  function CombinePaths(left: seq<byte>, right: seq<byte>): seq<byte> {
    (if left != [] then left + [SLASH] else left) + right
  }

  /** strcasecmp with "index.html". */
  predicate IsIndex(n: Node) {
    n.Leaf? && CaseEq(n.name, INDEX)
  }

  /** path::extension: from the last dot on, unless that begins the name. */
  function ExtensionFrom(name: seq<byte>, i: nat): (extension: seq<byte>)
    requires i <= |name|
    ensures extension == [] ==> forall j :: 0 < j < i ==> name[j] != DOT
    ensures extension != [] ==>
              exists d :: 0 < d < i && name[d] == DOT && extension == name[d..] && forall j :: d < j < i ==> name[j] != DOT
  {
    if i <= 1 then [] else if name[i - 1] == DOT then name[i - 1..] else ExtensionFrom(name, i - 1)
  }

  function FileOf(n: Node, base: seq<byte>): File
    requires n.Leaf?
  {
    File(CombinePaths(base, if IsIndex(n) then [] else n.name), ExtensionFrom(n.name, |n.name|), n.data)
  }

  function FlattenNode(n: Node, base: seq<byte>): seq<File>
    decreases n
  {
    match n
    case Leaf(_, _) => [FileOf(n, base)]
    case Dir(name, children) => Flatten(children, CombinePaths(base, name))
  }

  function Flatten(children: seq<Node>, base: seq<byte>): seq<File>
    decreases children
  {
    if children == [] then [] else FlattenNode(children[0], base) + Flatten(children[1..], base)
  }

  class FileList {
    var entries: seq<File>

    constructor ()
      ensures entries == []
    {
      entries := [];
    }
  }

  lemma {:induction false} FlattenOneMore(children: seq<Node>, i: nat, base: seq<byte>)
    requires i < |children|
    ensures Flatten(children[..i + 1], base) == Flatten(children[..i], base) + FlattenNode(children[i], base)
    decreases i
  {
    if i == 0 {
      assert children[..1][1..] == [] && Flatten(children[..1], base) == FlattenNode(children[0], base) + [];
      assert FlattenNode(children[0], base) + [] == [] + FlattenNode(children[0], base);
    } else {
      FlattenOneMore(children[1..], i - 1, base);
      assert children[..i + 1][1..] == children[1..][..i] && children[..i][1..] == children[1..][..i - 1];
      var (a, b, c) := (FlattenNode(children[0], base), Flatten(children[1..][..i - 1], base), FlattenNode(children[i], base));
      assert a + (b + c) == (a + b) + c;
    }
  }

  /** BuildFileListRecursively: appends the files below `dir`, in whatever order it lists them. */
  method BuildFileList(dir: Node, list: FileList, pathBase: seq<byte>)
    requires dir.Dir?
    modifies list
    ensures list.entries == old(list.entries) + Flatten(dir.children, pathBase)
    decreases dir
  {
    for i := 0 to |dir.children|
      invariant list.entries == old(list.entries) + Flatten(dir.children[..i], pathBase)
    {
      var entry := dir.children[i];
      ghost var before := list.entries;
      if entry.Dir? {
        BuildFileList(entry, list, CombinePaths(pathBase, entry.name));
      } else {
        list.entries := list.entries + [FileOf(entry, pathBase)];
      }
      assert list.entries == before + FlattenNode(entry, pathBase);
      FlattenOneMore(dir.children, i, pathBase);
    }
    assert dir.children[..|dir.children|] == dir.children;
  }

  // ------------------------------------------------------------------------- when paths are distinct

  predicate Named(name: seq<byte>) {
    name != [] && SLASH !in name
  }

  /** A file system's own rules: sibling names are distinct, not empty and without slashes. */
  predicate WellNamed(children: seq<Node>)
    decreases children
  {
    children != [] ==>
      && Named(children[0].name)
      && (forall n :: n in children[1..] ==> n.name != children[0].name)
      && (children[0].Dir? ==> WellNamed(children[0].children))
      && WellNamed(children[1..])
  }

  /** In no directory do two names differ from index.html only by case. */
  predicate OneIndexEach(children: seq<Node>)
    decreases children
  {
    children != [] ==>
      && (IsIndex(children[0]) ==> forall n :: n in children[1..] ==> !IsIndex(n))
      && (children[0].Dir? ==> OneIndexEach(children[0].children))
      && OneIndexEach(children[1..])
  }

  ghost predicate DistinctPaths(files: seq<File>) {
    forall i, j :: 0 <= i < j < |files| ==> files[i].path != files[j].path
  }

  ghost predicate Apart(a: seq<File>, b: seq<File>) {
    forall f, g :: f in a && g in b ==> f.path != g.path
  }

  lemma DistinctAppend(a: seq<File>, b: seq<File>)
    ensures DistinctPaths(a + b) <==> DistinctPaths(a) && DistinctPaths(b) && Apart(a, b)
  {
    if DistinctPaths(a + b) {
      forall i, j | 0 <= i < j < |a|
        ensures a[i].path != a[j].path
      {
        assert (a + b)[i] == a[i] && (a + b)[j] == a[j];
      }
      forall i, j | 0 <= i < j < |b|
        ensures b[i].path != b[j].path
      {
        assert (a + b)[|a| + i] == b[i] && (a + b)[|a| + j] == b[j];
      }
      forall f, g | f in a && g in b
        ensures f.path != g.path
      {
        var i :| 0 <= i < |a| && a[i] == f;
        var j :| 0 <= j < |b| && b[j] == g;
        assert (a + b)[i] == f && (a + b)[|a| + j] == g;
      }
    }
  }

  /** What a path below `base` begins with. */
  function Below(base: seq<byte>): seq<byte> {
    CombinePaths(base, [])
  }

  /** The path is below `base`, in or under the entry with this name and kind. */
  ghost predicate PathOf(path: seq<byte>, base: seq<byte>, n: Node) {
    match n
    case Leaf(name, _) => path == Below(base) + (if IsIndex(n) then [] else name)
    case Dir(name, _) => Below(base) + name + [SLASH] <= path
  }

  lemma {:induction false} NodePaths(n: Node, base: seq<byte>, f: File)
    requires f in FlattenNode(n, base) && (n.Dir? ==> Named(n.name))
    ensures PathOf(f.path, base, n)
  {
    if n.Dir? {
      var below := CombinePaths(base, n.name);
      PathsBelow(n.children, below, f);
      assert Below(below) == Below(base) + n.name + [SLASH];
    }
  }

  lemma {:induction false} PathsBelow(children: seq<Node>, base: seq<byte>, f: File)
    requires f in Flatten(children, base)
    ensures Below(base) <= f.path
    decreases children
  {
    var n := children[0];
    if f in FlattenNode(n, base) {
      if n.Dir? {
        var below := CombinePaths(base, n.name);
        PathsBelow(n.children, below, f);
        assert Below(base) <= below <= Below(below);
      }
    } else {
      PathsBelow(children[1..], base, f);
    }
  }

  /** Two siblings' paths differ, unless both are index files. */
  lemma SiblingsApart(path: seq<byte>, base: seq<byte>, n: Node, m: Node)
    requires Named(n.name) && Named(m.name) && n.name != m.name && !(IsIndex(n) && IsIndex(m))
    requires PathOf(path, base, n)
    ensures !PathOf(path, base, m)
  {
    if PathOf(path, base, m) {
      var k := |Below(base)|;
      var rest := path[k..];
      var (a, b) := (if IsIndex(n) then [] else n.name, if IsIndex(m) then [] else m.name);
      assert n.Dir? ==> rest[..|a| + 1] == a + [SLASH];
      assert m.Dir? ==> rest[..|b| + 1] == b + [SLASH];
      assert n.Leaf? ==> rest == a;
      assert m.Leaf? ==> rest == b;
      SameComponent(rest, a, n.Dir?, b, m.Dir?);
    }
  }

  /** The first component of a relative path, and whether a slash follows it, are determined. */
  lemma SameComponent(rest: seq<byte>, a: seq<byte>, aSlash: bool, b: seq<byte>, bSlash: bool)
    requires SLASH !in a && SLASH !in b
    requires if aSlash then |a| < |rest| && rest[..|a| + 1] == a + [SLASH] else rest == a
    requires if bSlash then |b| < |rest| && rest[..|b| + 1] == b + [SLASH] else rest == b
    ensures a == b && aSlash == bSlash
  {
    assert aSlash ==> rest[|a|] == rest[..|a| + 1][|a|] == SLASH;
    assert bSlash ==> rest[|b|] == rest[..|b| + 1][|b|] == SLASH;
    assert rest[..|a|] == a && rest[..|b|] == b;
  }

  lemma {:induction false} FromSomeChild(children: seq<Node>, base: seq<byte>, f: File) returns (n: Node)
    requires f in Flatten(children, base)
    ensures n in children && f in FlattenNode(n, base)
  {
    if f in FlattenNode(children[0], base) {
      n := children[0];
    } else {
      n := FromSomeChild(children[1..], base, f);
    }
  }

  lemma {:induction false} FilesOfChild(children: seq<Node>, base: seq<byte>, n: Node, f: File)
    requires n in children && f in FlattenNode(n, base)
    ensures f in Flatten(children, base)
  {
    if n != children[0] {
      FilesOfChild(children[1..], base, n, f);
    }
  }

  lemma {:induction false} AllNamed(children: seq<Node>, n: Node)
    requires WellNamed(children) && n in children
    ensures Named(n.name)
  {
    if n != children[0] {
      AllNamed(children[1..], n);
    }
  }

  /** The first child's files are apart from its siblings' unless it is one of several index files. */
  lemma FirstChildApart(children: seq<Node>, base: seq<byte>)
    requires WellNamed(children) && children != []
    ensures Apart(FlattenNode(children[0], base), Flatten(children[1..], base))
       <==> (IsIndex(children[0]) ==> forall m :: m in children[1..] ==> !IsIndex(m))
  {
    var n, rest := children[0], children[1..];
    if IsIndex(n) && exists m :: m in rest && IsIndex(m) {
      var m :| m in rest && IsIndex(m);
      FilesOfChild(rest, base, m, FileOf(m, base));
      assert FileOf(n, base) in FlattenNode(n, base) && FileOf(n, base).path == FileOf(m, base).path;
    } else {
      forall f, g | f in FlattenNode(n, base) && g in Flatten(rest, base)
        ensures f.path != g.path
      {
        var m := FromSomeChild(rest, base, g);
        AllNamed(rest, m);
        NodePaths(n, base, f);
        NodePaths(m, base, g);
        SiblingsApart(f.path, base, n, m);
      }
    }
  }

  /**
   Flattening gives every file its own path if and only if no directory holds two files whose names
   are index.html up to case; in particular for every tree without such a clash.
   */
  lemma {:induction false} PathsDistinctIffOneIndexEach(children: seq<Node>, base: seq<byte>)
    requires WellNamed(children)
    ensures DistinctPaths(Flatten(children, base)) <==> OneIndexEach(children)
    decreases children
  {
    if children != [] {
      var n, rest := children[0], children[1..];
      DistinctAppend(FlattenNode(n, base), Flatten(rest, base));
      FirstChildApart(children, base);
      PathsDistinctIffOneIndexEach(rest, base);
      if n.Dir? {
        PathsDistinctIffOneIndexEach(n.children, CombinePaths(base, n.name));
      }
    }
  }

  /**
   From directory tree to web server: every file of a tree without index clashes is retrieved under
   its own archive path, with exactly its contents and its content type.
   */
  lemma EveryFileIsRetrievable(children: seq<Node>, f: File)
    requires WellNamed(children) && OneIndexEach(children)
    requires Storable(Flatten(children, [])) && f in Flatten(children, [])
    ensures Readable(Image(Flatten(children, [])))
    ensures Lookup(Image(Flatten(children, [])), f.path) == Some(Answer(f))
  {
    var files := Flatten(children, []);
    PathsDistinctIffOneIndexEach(children, []);
    RetrievesWhatWasBuilt(files, f.path);
    FoundUnderItsPath(files, f);
  }

  /** If no two files share a path, the first file of a file's path is that file. */
  lemma FoundUnderItsPath(files: seq<File>, f: File)
    requires DistinctPaths(files) && f in files
    ensures Expected(files, f.path) == Some(Answer(f))
  {
    var i :| 0 <= i < |files| && files[i] == f;
    var paths := PathsOf(files);
    var k := FirstIndex(paths, files[i].path, 0);
    assert paths[i] == files[i].path;
    assert k <= i && paths[k] == files[k].path;
  }
}
