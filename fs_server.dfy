/**
 The older server generation. The store is one object whose `root` field
 holds the tree; `write` and `mkdir` replace it with the tree rebuilt around
 the changed directory. The reader/writer lock around the root is not
 modelled: each request runs to completion on its own.

 Its `mkdir` rejects a name that is already a directory, but replaces a file
 of that name with an empty directory.
 */
module FsServer {
  import opened Rpc
  import opened Paths
  import opened Trees
  import opened Handlers

  /** `Tree::get`: a cursor walks down one segment at a time and gives up at
      a file or a missing name. */
  method Resolve<T>(root: Tree<T>, path: seq<string>) returns (r: Option<Tree<T>>)
    ensures r == Lookup(root, path)
  {
    var node := root;
    for i := 0 to |path|
      invariant Lookup(root, path) == Lookup(node, path[i..])
    {
      assert path[i..][0] == path[i] && path[i..][1..] == path[i + 1..];
      match node
      case Leaf(_) =>
        return None;
      case Parent(children) =>
        if path[i] !in children {
          return None;
        }
        node := children[path[i]];
    }
    return Some(node);
  }

  /** `Tree::get_mut`: the same walk, remembering the way down so that the
      node reached can be changed in place (`Plug` writes it back). */
  method ResolveMut<T>(root: Tree<T>, path: seq<string>) returns (r: Option<Focus<T>>)
    ensures r.Some? <==> Lookup(root, path).Some?
    ensures r.Some? ==> Lookup(root, path) == Some(r.value.node)
    ensures r.Some? ==> forall n :: Plug(r.value.up, n) == Update(root, path, n)
  {
    var node := root;
    var up: seq<Frame<T>> := [];
    for i := 0 to |path|
      invariant Lookup(root, path) == Lookup(node, path[i..])
      invariant Lookup(root, path[..i]) == Some(node)
      invariant forall n :: Plug(up, n) == Update(root, path[..i], n)
    {
      assert path[i..][0] == path[i] && path[i..][1..] == path[i + 1..];
      match node
      case Leaf(_) =>
        return None;
      case Parent(children) =>
        if path[i] !in children {
          return None;
        }
        var up0 := up;
        up := up + [Frame(children, path[i])];
        assert path[..i + 1] == path[..i] + [path[i]];
        forall n ensures Plug(up, n) == Update(root, path[..i + 1], n) {
          assert up[..|up| - 1] == up0;
          UpdateChild(root, path[..i], path[i], children, n);
        }
        LookupAppend(root, path[..i], [path[i]]);
        node := children[path[i]];
    }
    assert path[..|path|] == path;
    return Some(Focus(node, up));
  }

  /** `mkdir` of this generation: an existing directory is an error, an
      existing file is replaced by an empty directory. */
  function MakeDir(root: Store, path: string): (r: Step)
    ensures r.outcome.Fail? ==> r.root == root
  {
    var segs := Segments(path);
    if segs == [] then Step(Fail(IllegalDirname), root)
    else
      match Lookup(root, DirOf(segs))
      case Some(Parent(files)) =>
        if NameOf(segs) in files && files[NameOf(segs)].Parent?
        then Step(Fail(FileExists), root)
        else Step(Pass, Insert(root, DirOf(segs), NameOf(segs), Parent(map[])))
      case _ => Step(Fail(NoSuchDirectory), root)
  }

  /** The four outcomes of `mkdir`, stated on paths. */
  lemma MakeDirOutcome(root: Store, path: string)
    ensures var segs := Segments(path); var r := MakeDir(root, path);
      && (r.outcome == Fail(IllegalDirname) <==> segs == [])
      && (r.outcome == Fail(NoSuchDirectory) <==> segs != [] && !IsDir(Lookup(root, DirOf(segs))))
      && (r.outcome == Fail(FileExists) <==>
            segs != [] && IsDir(Lookup(root, DirOf(segs))) && IsDir(Lookup(root, segs)))
      && (r.outcome == Pass <==>
            segs != [] && IsDir(Lookup(root, DirOf(segs))) && !IsDir(Lookup(root, segs)))
  {
    var segs := Segments(path);
    if segs != [] {
      LookupLast(root, segs);
    }
  }

  /** After a successful `mkdir` the path names an empty directory, even
      where a file stood before: the file's content is gone. */
  lemma MakeDirCreatesEmpty(root: Store, path: string)
    requires MakeDir(root, path).outcome == Pass
    ensures Lookup(MakeDir(root, path).root, Segments(path)) == Some(Parent(map[]))
    ensures ListPath(MakeDir(root, path).root, path) == Ok([])
    ensures GetFile(MakeDir(root, path).root, path) == Err(NoSuchFile)
  {
    var segs := Segments(path);
    DirAndName(segs);
    InsertThenLookup(root, DirOf(segs), NameOf(segs), Parent(map[]), Lookup(root, DirOf(segs)).value.children);
    assert Listing<Bytes>(map[]) == [];
  }

  /** An existing file is replaced: `mkdir` succeeds over it. */
  lemma MakeDirOverFile(root: Store, path: string, content: Bytes)
    requires ValidStore(root)
    requires Lookup(root, Segments(path)) == Some(Leaf(content))
    ensures MakeDir(root, path).outcome == Pass
    ensures GetFile(MakeDir(root, path).root, path) == Err(NoSuchFile)
  {
    MakeDirOutcome(root, path);
    LookupLast(root, Segments(path));
    MakeDirCreatesEmpty(root, path);
  }

  /** A second `mkdir` of the same path fails with "file exists" and leaves
      the tree as the first one made it. */
  lemma MakeDirTwice(root: Store, path: string)
    requires MakeDir(root, path).outcome == Pass
    ensures MakeDir(MakeDir(root, path).root, path) == Step(Fail(FileExists), MakeDir(root, path).root)
  {
    var root' := MakeDir(root, path).root;
    MakeDirCreatesEmpty(root, path);
    MakeDirOutcome(root', path);
    var segs := Segments(path);
    DirAndName(segs);
    InsertThenLookup(root, DirOf(segs), NameOf(segs), Parent(map[]), Lookup(root, DirOf(segs)).value.children);
  }

  /** `mkdir` changes nothing on paths apart from the one it creates. */
  lemma MakeDirLeavesOthers(root: Store, path: string, q: seq<string>)
    requires Apart(Segments(path), q)
    ensures Lookup(MakeDir(root, path).root, q) == Lookup(root, q)
  {
    var segs := Segments(path);
    DirAndName(segs);
    InsertLeavesOthers(root, DirOf(segs), NameOf(segs), Parent(map[]), q);
  }

  /** `mkdir` keeps the store's invariant. */
  lemma MakeDirKeepsValid(root: Store, path: string)
    requires ValidStore(root)
    ensures ValidStore(MakeDir(root, path).root)
  {
    var segs := Segments(path);
    if segs != [] {
      SegmentsAreValidNames(path);
      assert NameOf(segs) in segs;
      InsertKeepsWellFormed(root, DirOf(segs), NameOf(segs), Parent(map[]));
    }
  }

  /** The store object of this generation. */
  class FileSystem {
    var root: Store

    ghost predicate Valid()
      reads this
    {
      ValidStore(root)
    }

    /** `FileSystemImpl::default`: an empty root directory. */
    constructor ()
      ensures Valid()
      ensures root == EmptyStore()
    {
      root := Parent(map[]);
    }

    /** The `get` handler. */
    method Get(path: string) returns (r: Result<Bytes>)
      ensures r == GetFile(root, path)
    {
      var node := Resolve(root, Segments(path));
      match node
      case Some(Leaf(content)) =>
        r := Ok(content);
      case _ =>
        r := Err(NoSuchFile);
    }

    /** The `list` handler. */
    method List(path: string) returns (r: Result<seq<string>>)
      ensures r == ListPath(root, path)
    {
      var node := Resolve(root, Segments(path));
      match node
      case None =>
        r := Err(NoSuchFile);
      case Some(Leaf(_)) =>
        r := Ok([path]);
      case Some(Parent(files)) =>
        r := Ok(Listing(files));
    }

    /** The `write` handler: the last segment is popped off as the file name,
        the rest must lead to a directory. */
    method Write(path: string, content: Bytes) returns (r: Outcome)
      requires Valid()
      modifies this
      ensures Valid()
      ensures Step(r, root) == WriteFile(old(root), path, content)
    {
      WriteKeepsValid(root, path, content);
      var segs := Segments(path);
      if segs == [] {
        return Fail(IllegalFilename);
      }
      var name := segs[|segs| - 1];
      var found := ResolveMut(root, segs[..|segs| - 1]);
      match found
      case Some(Focus(Parent(files), up)) =>
        if name in files && files[name].Parent? {
          return Fail(CannotWriteToDirectory);
        }
        root := Plug(up, Parent(files[name := Leaf(content)]));
        r := Pass;
      case _ =>
        r := Fail(NoSuchDirectory);
    }

    /** The `mkdir` handler of this generation. */
    method Mkdir(path: string) returns (r: Outcome)
      requires Valid()
      modifies this
      ensures Valid()
      ensures Step(r, root) == MakeDir(old(root), path)
    {
      MakeDirKeepsValid(root, path);
      var segs := Segments(path);
      if segs == [] {
        return Fail(IllegalDirname);
      }
      var name := segs[|segs| - 1];
      var found := ResolveMut(root, segs[..|segs| - 1]);
      match found
      case Some(Focus(Parent(files), up)) =>
        if name in files && files[name].Parent? {
          return Fail(FileExists);
        }
        root := Plug(up, Parent(files[name := Parent(map[])]));
        r := Pass;
      case _ =>
        r := Fail(NoSuchDirectory);
    }
  }
}
