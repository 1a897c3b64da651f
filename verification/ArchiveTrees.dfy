/**
 From a directory tree to the web server: under which path, and with what contents and content type,
 each file of the tree is to be had.
 */
module ArchiveTrees {
  import opened Bytes
  import opened CStrings
  import opened SimpleFs
  import opened ArchivePaths

  /** The tree holds a file `name` with contents `data` in the directory that `dirs` lead to. */
  ghost predicate Holds(children: seq<Node>, dirs: seq<seq<byte>>, name: seq<byte>, data: seq<byte>)
    decreases |dirs|
  {
    if dirs == [] then Leaf(name, data) in children
    else exists n :: n in children && n.Dir? && n.name == dirs[0] && Holds(n.children, dirs[1..], name, data)
  }

  /** Parts with a slash between each two. */
  function Joined(parts: seq<seq<byte>>): seq<byte> {
    if parts == [] then []
    else if |parts| == 1 then parts[0]
    else Joined(parts[..|parts| - 1]) + [47] + parts[|parts| - 1]
  }

  const INDEX_NAME: seq<byte> := [105, 110, 100, 101, 120, 46, 104, 116, 109, 108]

  /** A file name as the last part of a path: an index.html goes by no name. */
  function LastPart(name: seq<byte>): seq<byte> {
    if CaseEq(name, INDEX_NAME) then [] else name
  }

  /** The file is stored under the path of its directories and its name. */
  function FileAt(dirs: seq<seq<byte>>, name: seq<byte>, data: seq<byte>): File {
    File(Joined(dirs + [LastPart(name)]), ExtensionFrom(name, |name|), data)
  }

  /** The root, or a directory with a name. */
  predicate EndsNamed(dirs: seq<seq<byte>>) {
    dirs == [] || dirs[|dirs| - 1] != []
  }

  lemma JoinOne(dirs: seq<seq<byte>>, part: seq<byte>)
    requires EndsNamed(dirs)
    ensures CombinePaths(Joined(dirs), part) == Joined(dirs + [part])
  {
    assert (dirs + [part])[..|dirs|] == dirs;
    if dirs != [] {
      assert Joined(dirs) != [];
    }
  }

  lemma {:induction false} BelowNamed(children: seq<Node>, n: Node)
    requires WellNamed(children) && n in children
    ensures n.name != [] && (n.Dir? ==> WellNamed(n.children))
  {
    if n != children[0] {
      BelowNamed(children[1..], n);
    }
  }

  lemma Shift(above: seq<seq<byte>>, dir: seq<byte>, below: seq<seq<byte>>)
    ensures above + [dir] + below == above + ([dir] + below)
  {
  }

  /** What a file and a directory put into the list. */
  lemma LeafIsAt(above: seq<seq<byte>>, n: Node)
    requires EndsNamed(above) && n.Leaf?
    ensures FlattenNode(n, Joined(above)) == [FileAt(above, n.name, n.data)]
  {
    JoinOne(above, LastPart(n.name));
  }

  lemma DirIsAt(above: seq<seq<byte>>, n: Node)
    requires EndsNamed(above) && n.Dir?
    ensures FlattenNode(n, Joined(above)) == Flatten(n.children, Joined(above + [n.name]))
  {
    JoinOne(above, n.name);
  }

  /** Every file that the tree holds is in the list, as said. */
  lemma {:induction false} HeldIsListed(children: seq<Node>, above: seq<seq<byte>>, dirs: seq<seq<byte>>, name: seq<byte>, data: seq<byte>)
    requires WellNamed(children) && EndsNamed(above) && Holds(children, dirs, name, data)
    ensures FileAt(above + dirs, name, data) in Flatten(children, Joined(above))
    decreases |dirs|
  {
    if dirs == [] {
      LeafIsAt(above, Leaf(name, data));
      assert above + [] == above;
      FilesOfChild(children, Joined(above), Leaf(name, data), FileAt(above, name, data));
    } else {
      var n :| n in children && n.Dir? && n.name == dirs[0] && Holds(n.children, dirs[1..], name, data);
      BelowNamed(children, n);
      HeldIsListed(n.children, above + [n.name], dirs[1..], name, data);
      Shift(above, n.name, dirs[1..]);
      assert [n.name] + dirs[1..] == dirs;
      DirIsAt(above, n);
      FilesOfChild(children, Joined(above), n, FileAt(above + dirs, name, data));
    }
  }

  /** And nothing else is in it. */
  lemma {:induction false} ListedIsHeld(children: seq<Node>, above: seq<seq<byte>>, f: File) returns (dirs: seq<seq<byte>>, name: seq<byte>)
    requires WellNamed(children) && EndsNamed(above) && f in Flatten(children, Joined(above))
    ensures Holds(children, dirs, name, f.data) && f == FileAt(above + dirs, name, f.data)
    decreases children
  {
    var n := FromSomeChild(children, Joined(above), f);
    BelowNamed(children, n);
    if n.Leaf? {
      dirs, name := [], n.name;
      LeafIsAt(above, n);
      assert above + [] == above;
    } else {
      var below;
      DirIsAt(above, n);
      below, name := ListedIsHeld(n.children, above + [n.name], f);
      dirs := [n.name] + below;
      OneDown(children, n, below, name, f.data);
      Shift(above, n.name, below);
    }
  }

  lemma OneDown(children: seq<Node>, n: Node, below: seq<seq<byte>>, name: seq<byte>, data: seq<byte>)
    requires n in children && n.Dir? && Holds(n.children, below, name, data)
    ensures Holds(children, [n.name] + below, name, data)
  {
    assert ([n.name] + below)[1..] == below;
  }

  /**
   From tree to server: of a tree in which no directory has two index files, every file is to be had
   under the path of its directories and its name, with its contents and the content type of its
   extension.
   */
  lemma HeldIsServed(children: seq<Node>, dirs: seq<seq<byte>>, name: seq<byte>, data: seq<byte>)
    requires WellNamed(children) && OneIndexEach(children) && Storable(Flatten(children, []))
    requires Holds(children, dirs, name, data)
    ensures Expected(Flatten(children, []), Joined(dirs + [LastPart(name)])) == Some(Answer(FileAt(dirs, name, data)))
  {
    HeldIsListed(children, [], dirs, name, data);
    assert [] + dirs == dirs;
    assert Joined([]) == [];
    var files, f := Flatten(children, []), FileAt(dirs, name, data);
    PathsDistinctIffOneIndexEach(children, []);
    FoundUnderItsPath(files, f);
  }

  /** An index file has the extension .html, up to case. */
  lemma IndexExtension(name: seq<byte>)
    requires CaseEq(name, INDEX_NAME)
    ensures LowerAll(ExtensionFrom(name, |name|)) == [46, 104, 116, 109, 108]
  {
    OnlyDot(name);
    var e := ExtensionFrom(name, |name|);
    assert e == name[5..];
    LowerFrom(name, 5);
  }

  lemma OnlyDot(name: seq<byte>)
    requires CaseEq(name, INDEX_NAME)
    ensures |name| == 10 && name[5] == 46 && forall i :: 5 < i < 10 ==> name[i] != 46
    ensures forall i :: 0 <= i < 5 ==> name[i] != 46
  {
    forall i | 0 <= i < 10
      ensures name[i] == 46 <==> i == 5
    {
      SameUpToCase(name[i], INDEX_NAME[i]);
    }
  }

  lemma LowerFrom(name: seq<byte>, n: nat)
    requires CaseEq(name, INDEX_NAME) && n == 5
    ensures LowerAll(name[n..]) == [46, 104, 116, 109, 108]
  {
    assert forall k :: 0 <= k < 5 ==> LowerAll(name[n..])[k] == Lower(name[n + k]) == Lower(INDEX_NAME[n + k]);
    assert INDEX_NAME[5..] == [46, 104, 116, 109, 108];
  }

  lemma IndexIsHtml(name: seq<byte>, data: seq<byte>)
    requires CaseEq(name, INDEX_NAME)
    ensures Answer(FileAt([], name, data)) == Reply(Ascii("text/html"), data)
  {
    var f := FileAt([], name, data);
    IndexExtension(name);
    ContentTypesByName(f);
    var e := LowerAll(f.extension);
    assert |e| == 5;
    assert |Ascii(".css")| == |Ascii(".png")| == |Ascii(".jpg")| == |Ascii(".svg")| == |Ascii(".txt")| == 4;
  }

  /** The home page: the root's index.html is to be had under the empty path, as HTML. */
  lemma HomePage(children: seq<Node>, name: seq<byte>, data: seq<byte>)
    requires WellNamed(children) && OneIndexEach(children) && Storable(Flatten(children, []))
    requires Leaf(name, data) in children && CaseEq(name, INDEX_NAME)
    ensures Expected(Flatten(children, []), []) == Some(Reply(Ascii("text/html"), data))
  {
    HeldIsServed(children, [], name, data);
    IndexIsHtml(name, data);
    assert [] + [LastPart(name)] == [[]];
  }

  /**
   BuildFileList, the builder and the reader, one after the other: if the tree holds a file `name` with
   contents `data` below `dirs`, that is what is served under its path.
   */
  method ServeTree(root: Node, path: seq<byte>, ghost dirs: seq<seq<byte>>, ghost name: seq<byte>, ghost data: seq<byte>)
    returns (reply: Option<Reply>)
    requires root.Dir? && Storable(Flatten(root.children, []))
    ensures reply == Expected(Flatten(root.children, []), path)
    ensures WellNamed(root.children) && OneIndexEach(root.children) && Holds(root.children, dirs, name, data) ==>
              path == Joined(dirs + [LastPart(name)]) ==> reply == Some(Answer(FileAt(dirs, name, data)))
  {
    var list := new FileList();
    BuildFileList(root, list, []);
    assert list.entries == Flatten(root.children, []);
    reply := BuildThenRetrieve(list.entries, path);
    if WellNamed(root.children) && OneIndexEach(root.children) && Holds(root.children, dirs, name, data) {
      HeldIsServed(root.children, dirs, name, data);
    }
  }
}
