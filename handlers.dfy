/**
 What the `get`, `list` and `write` requests do to the store, as functions of
 the tree before the request. Both server generations implement these three
 handlers with the same code; they differ only in `mkdir`, which each
 generation's module defines.
 */
module Handlers {
  import opened Rpc
  import opened Paths
  import opened KeyOrder
  import opened Trees

  type Bytes = seq<bv8>

  /** The store: one tree of byte files, whose root is a directory. */
  type Store = Tree<Bytes>

  /** The outcome of a mutating request and the tree it leaves behind. */
  datatype Step = Step(outcome: Outcome, root: Store)

  /** The store's invariant: the root is a directory and every name in the
      tree is a valid path segment. */
  predicate ValidStore(root: Store) {
    root.Parent? && WellFormed(root)
  }

  /** A fresh store: an empty root directory. */
  function EmptyStore(): (root: Store)
    ensures ValidStore(root)
    ensures forall path :: Lookup(root, path).Some? <==> path == []
  {
    Parent(map[])
  }

  /** The segments naming the directory that holds the last segment. */
  function DirOf(segs: seq<string>): seq<string>
    requires segs != []
  {
    segs[..|segs| - 1]
  }

  function NameOf(segs: seq<string>): string
    requires segs != []
  {
    segs[|segs| - 1]
  }

  predicate IsDir(n: Option<Store>) {
    n.Some? && n.value.Parent?
  }

  // ------------------------------------------------------------------- get

  /** `get`: the content of the file at `path`. */
  function GetFile(root: Store, path: string): (r: Result<Bytes>)
    ensures r.Ok? ==> Lookup(root, Segments(path)) == Some(Leaf(r.value))
    ensures r.Err? ==> r == Err(NoSuchFile)
    ensures r.Err? <==> !(Lookup(root, Segments(path)).Some? && Lookup(root, Segments(path)).value.Leaf?)
  {
    match Lookup(root, Segments(path))
    case Some(Leaf(content)) => Ok(content)
    case _ => Err(NoSuchFile)
  }

  // ------------------------------------------------------------------ list

  /** `list`: the path itself for a file, the rendered children for a
      directory. The file case echoes the caller's string unnormalised. */
  function ListPath(root: Store, path: string): (r: Result<seq<string>>)
    ensures r.Err? <==> Lookup(root, Segments(path)).None?
    ensures r.Err? ==> r.status == NoSuchFile
    ensures r.Ok? && Lookup(root, Segments(path)).value.Parent? ==>
      |r.value| == |Lookup(root, Segments(path)).value.children|
  {
    match Lookup(root, Segments(path))
    case None => Err(NoSuchFile)
    case Some(Leaf(_)) => Ok([path])
    case Some(Parent(files)) => Ok(Listing(files))
  }

  /** On a file, `list` answers with the path string exactly as given. */
  lemma ListOutcome(root: Store, path: string)
    ensures Lookup(root, Segments(path)).Some? && Lookup(root, Segments(path)).value.Leaf? ==>
      ListPath(root, path) == Ok([path])
  {
  }

  /** Listing a directory of a valid store: one entry per child, in ascending
      name order, directories marked with a trailing '/'. */
  lemma ListDirectory(root: Store, path: string, files: map<string, Store>)
    requires ValidStore(root)
    requires Lookup(root, Segments(path)) == Some(Parent(files))
    ensures ListPath(root, path) == Ok(Listing(files))
    ensures |Listing(files)| == |files|
    ensures forall i, j :: 0 <= i < j < |Listing(files)| ==>
      Less(EntryName(Listing(files)[i]), EntryName(Listing(files)[j]))
    ensures forall k :: k in files ==>
      exists i :: 0 <= i < |Listing(files)| && EntryName(Listing(files)[i]) == k
    ensures forall i :: 0 <= i < |Listing(files)| ==>
      EntryName(Listing(files)[i]) in files &&
      (IsDirEntry(Listing(files)[i]) <==> files[EntryName(Listing(files)[i])].Parent?)
  {
    WellFormedLookup(root, Segments(path));
    ListingDescribesChildren(files);
  }

  /** Every entry of a directory listing, glued to the listed path with '/',
      names that child again: a client can walk the tree from listings. */
  lemma ListEntryResolves(root: Store, path: string, files: map<string, Store>, e: string)
    requires ValidStore(root)
    requires Lookup(root, Segments(path)) == Some(Parent(files))
    requires e in Listing(files)
    ensures EntryName(e) in files
    ensures Lookup(root, Segments(path + [Sep] + EntryName(e))) == Some(files[EntryName(e)])
    ensures IsDirEntry(e) <==> files[EntryName(e)].Parent?
  {
    var segs := Segments(path);
    WellFormedLookup(root, segs);
    ListingDescribesChildren(files);
    var i :| 0 <= i < |Listing(files)| && Listing(files)[i] == e;
    var name := EntryName(e);
    SegmentsChild(path, name);
    LookupLast(root, segs + [name]);
    assert (segs + [name])[..|segs|] == segs;
  }

  // ----------------------------------------------------------------- write

  /** `write`: put a file holding `content` at `path`. */
  function WriteFile(root: Store, path: string, content: Bytes): (r: Step)
    ensures r.outcome.Fail? ==> r.root == root
  {
    var segs := Segments(path);
    if segs == [] then Step(Fail(IllegalFilename), root)
    else
      match Lookup(root, DirOf(segs))
      case Some(Parent(files)) =>
        if NameOf(segs) in files && files[NameOf(segs)].Parent?
        then Step(Fail(CannotWriteToDirectory), root)
        else Step(Pass, Insert(root, DirOf(segs), NameOf(segs), Leaf(content)))
      case _ => Step(Fail(NoSuchDirectory), root)
  }

  /** The four outcomes of `write`, stated on paths: no final segment; no
      directory to hold it; a directory already at the path; or success. */
  lemma WriteOutcome(root: Store, path: string, content: Bytes)
    ensures var segs := Segments(path); var r := WriteFile(root, path, content);
      && (r.outcome == Fail(IllegalFilename) <==> segs == [])
      && (r.outcome == Fail(NoSuchDirectory) <==> segs != [] && !IsDir(Lookup(root, DirOf(segs))))
      && (r.outcome == Fail(CannotWriteToDirectory) <==>
            segs != [] && IsDir(Lookup(root, DirOf(segs))) && IsDir(Lookup(root, segs)))
      && (r.outcome == Pass <==>
            segs != [] && IsDir(Lookup(root, DirOf(segs))) && !IsDir(Lookup(root, segs)))
  {
    var segs := Segments(path);
    if segs != [] {
      LookupLast(root, segs);
    }
  }

  lemma DirAndName(segs: seq<string>)
    requires segs != []
    ensures DirOf(segs) + [NameOf(segs)] == segs
  {
  }

  /** Reading a file back after writing it gives exactly what was written. */
  lemma WriteThenGet(root: Store, path: string, content: Bytes)
    requires WriteFile(root, path, content).outcome == Pass
    ensures GetFile(WriteFile(root, path, content).root, path) == Ok(content)
  {
    var segs := Segments(path);
    DirAndName(segs);
    InsertThenLookup(root, DirOf(segs), NameOf(segs), Leaf(content), Lookup(root, DirOf(segs)).value.children);
  }

  /** A successful write changes nothing that lies beside the written path,
      including every other entry of the same directory. */
  lemma WriteLeavesOthers(root: Store, path: string, content: Bytes, q: seq<string>)
    requires Apart(Segments(path), q)
    ensures Lookup(WriteFile(root, path, content).root, q) == Lookup(root, q)
  {
    var segs := Segments(path);
    DirAndName(segs);
    InsertLeavesOthers(root, DirOf(segs), NameOf(segs), Leaf(content), q);
  }

  /** The last of two writes to one path is what remains. */
  lemma WriteTwice(root: Store, path: string, c1: Bytes, c2: Bytes)
    requires WriteFile(root, path, c1).outcome == Pass
    ensures WriteFile(WriteFile(root, path, c1).root, path, c2) == WriteFile(root, path, c2)
  {
    var segs := Segments(path);
    var dir, name := DirOf(segs), NameOf(segs);
    InsertThenLookup(root, dir, name, Leaf(c1), Lookup(root, dir).value.children);
    InsertTwice(root, dir, name, Leaf(c1), Leaf(c2));
  }

  /** `write` keeps the store's invariant: the root stays a directory and only
      segments, which are valid names, ever become keys. */
  lemma WriteKeepsValid(root: Store, path: string, content: Bytes)
    requires ValidStore(root)
    ensures ValidStore(WriteFile(root, path, content).root)
  {
    var segs := Segments(path);
    if segs != [] {
      SegmentsAreValidNames(path);
      assert NameOf(segs) in segs;
      InsertKeepsWellFormed(root, DirOf(segs), NameOf(segs), Leaf(content));
    }
  }

  // ------------------------------------------------------- worked examples

  /** Listing a root holding file "b" and directory "a" gives ["a/", "b"]. */
  lemma ListRootExample(content: Bytes)
    ensures ListPath(Parent(map["b" := Leaf(content), "a" := Parent(map[])]), "") == Ok(["a/", "b"])
  {
    var files: map<string, Store> := map["b" := Leaf(content), "a" := Parent(map[])];
    assert Segments("") == [] by { SegmentsExamples(); }
    assert Lookup(Parent(files), []) == Some(Parent(files));
    assert Less("a", "b") by {
      assert "a"[0] < "b"[0];
    }
    SortedKeysIsTheAscendingEnumeration(["a", "b"], files.Keys);
    assert SortedKeys(files.Keys) == ["a", "b"];
    assert Entry("a", files["a"]) == "a/";
    assert Entry("b", files["b"]) == "b";
    assert Listing(files) == ["a/", "b"];
  }

  /** Writing "x/y" into an empty store: there is no directory "x". */
  lemma WriteWithoutParentExample(content: Bytes)
    ensures WriteFile(EmptyStore(), "x/y", content) == Step(Fail(NoSuchDirectory), EmptyStore())
  {
    assert Segments("x/y") == ["x", "y"] by {
      assert "x/y" == "x" + [Sep] + "y";
      SegmentsChild("x", "y");
      SplitName("x");
      assert NonEmpty(["x"]) == ["x"] + NonEmpty([]);
    }
  }

  /** After writing file "f", "f/g" cannot be read: a file is no directory. */
  lemma GetBelowFileExample(content: Bytes)
    ensures WriteFile(EmptyStore(), "f", content).outcome == Pass
    ensures GetFile(WriteFile(EmptyStore(), "f", content).root, "f/g") == Err(NoSuchFile)
  {
    SplitName("f");
    assert NonEmpty(["f"]) == ["f"] + NonEmpty([]);
    assert Segments("f") == ["f"];
    assert "f/g" == "f" + [Sep] + "g";
    SegmentsChild("f", "g");
    assert Segments("f/g") == ["f", "g"];
  }
}
