/**
 The newer server generation. Same store and handlers as the older one, with
 the walk written through `Tree::children`, and a `mkdir` that leaves any
 existing entry of the name alone (`entry(name).or_insert_with(...)`) and
 succeeds. The reader/writer lock and the `exec` request are not modelled.
 */
module Server {
  import opened Rpc
  import opened Paths
  import opened Trees
  import opened Handlers

  /** `Tree::get`: `node = node.children()?.get(&segment)?` per segment. */
  method Resolve<T>(root: Tree<T>, path: seq<string>) returns (r: Option<Tree<T>>)
    ensures r == Lookup(root, path)
  {
    var node := root;
    for i := 0 to |path|
      invariant Lookup(root, path) == Lookup(node, path[i..])
    {
      assert path[i..][0] == path[i] && path[i..][1..] == path[i + 1..];
      var children := Children(node);
      if children.None? || path[i] !in children.value {
        return None;
      }
      node := children.value[path[i]];
    }
    return Some(node);
  }

  /** `Tree::get_mut`: the same walk through `children_mut`, remembering the
      way down so that the node reached can be changed in place. */
  method ResolveMut<T>(root: Tree<T>, path: seq<string>) returns (r: Option<Focus<T>>)
    ensures r.Some? <==> Lookup(root, path).Some?
    ensures r.Some? ==> Lookup(root, path) == Some(r.value.node)
    ensures r.Some? ==> forall n :: Plug(r.value.up, n) == Update(root, path, n)
  {
    var node := root;
    var up: seq<Frame<T>> := [];
    for i := 0 to |path|
      invariant Lookup(root, path) == Lookup(node, path[i..])
      invariant Lookup(root, path[..i]) == Some(node)
      invariant forall n :: Plug(up, n) == Update(root, path[..i], n)
    {
      assert path[i..][0] == path[i] && path[i..][1..] == path[i + 1..];
      var children := Children(node);
      if children.None? || path[i] !in children.value {
        return None;
      }
      var up0 := up;
      up := up + [Frame(children.value, path[i])];
      assert path[..i + 1] == path[..i] + [path[i]];
      forall n ensures Plug(up, n) == Update(root, path[..i + 1], n) {
        assert up[..|up| - 1] == up0;
        UpdateChild(root, path[..i], path[i], children.value, n);
      }
      LookupAppend(root, path[..i], [path[i]]);
      node := children.value[path[i]];
    }
    assert path[..|path|] == path;
    return Some(Focus(node, up));
  }

  /** `mkdir` of this generation: an empty directory is created only where
      the name is free; an existing file or directory is kept as it is. */
  function MakeDir(root: Store, path: string): (r: Step)
    ensures r.outcome.Fail? ==> r.root == root
  {
    var segs := Segments(path);
    if segs == [] then Step(Fail(IllegalDirname), root)
    else
      match Lookup(root, DirOf(segs))
      case Some(Parent(files)) =>
        if NameOf(segs) in files then Step(Pass, root)
        else Step(Pass, Insert(root, DirOf(segs), NameOf(segs), Parent(map[])))
      case _ => Step(Fail(NoSuchDirectory), root)
  }

  /** The three outcomes of `mkdir`: a collision is never an error. */
  lemma MakeDirOutcome(root: Store, path: string)
    ensures var segs := Segments(path); var r := MakeDir(root, path);
      && (r.outcome == Fail(IllegalDirname) <==> segs == [])
      && (r.outcome == Fail(NoSuchDirectory) <==> segs != [] && !IsDir(Lookup(root, DirOf(segs))))
      && (r.outcome == Pass <==> segs != [] && IsDir(Lookup(root, DirOf(segs))))
  {
  }

  /** Where something already exists, `mkdir` succeeds and changes nothing:
      a file keeps its content and a directory keeps everything below it. */
  lemma MakeDirKeepsExisting(root: Store, path: string)
    requires Segments(path) != []
    requires Lookup(root, Segments(path)).Some?
    ensures MakeDir(root, path) == Step(Pass, root)
  {
    LookupLast(root, Segments(path));
  }

  /** After a successful `mkdir` the path names a directory; if it was free
      before, that directory is empty. */
  lemma MakeDirCreates(root: Store, path: string)
    requires MakeDir(root, path).outcome == Pass
    ensures Lookup(root, Segments(path)).None? ==>
      Lookup(MakeDir(root, path).root, Segments(path)) == Some(Parent(map[]))
    ensures Lookup(root, Segments(path)).Some? ==>
      Lookup(MakeDir(root, path).root, Segments(path)) == Lookup(root, Segments(path))
  {
    var segs := Segments(path);
    DirAndName(segs);
    LookupLast(root, segs);
    InsertThenLookup(root, DirOf(segs), NameOf(segs), Parent(map[]), Lookup(root, DirOf(segs)).value.children);
  }

  /** `mkdir` is idempotent: doing it twice is doing it once. */
  lemma MakeDirIdempotent(root: Store, path: string)
    ensures MakeDir(MakeDir(root, path).root, path) == MakeDir(root, path)
  {
    var r := MakeDir(root, path);
    var segs := Segments(path);
    if r.outcome == Pass {
      MakeDirCreates(root, path);
      MakeDirKeepsExisting(r.root, path);
    }
  }

  // This lemma, `MakeDirKeepsValid` and `FileSystem.Get` repeat their
  // counterparts in `FsServer` on purpose: each generation carries its own copy.

  /** `mkdir` changes nothing on paths apart from the one it creates. */
  lemma MakeDirLeavesOthers(root: Store, path: string, q: seq<string>)
    requires Apart(Segments(path), q)
    ensures Lookup(MakeDir(root, path).root, q) == Lookup(root, q)
  {
    var segs := Segments(path);
    DirAndName(segs);
    InsertLeavesOthers(root, DirOf(segs), NameOf(segs), Parent(map[]), q);
  }

  /** `mkdir` keeps the store's invariant. */
  lemma MakeDirKeepsValid(root: Store, path: string)
    requires ValidStore(root)
    ensures ValidStore(MakeDir(root, path).root)
  {
    var segs := Segments(path);
    if segs != [] {
      SegmentsAreValidNames(path);
      assert NameOf(segs) in segs;
      InsertKeepsWellFormed(root, DirOf(segs), NameOf(segs), Parent(map[]));
    }
  }

  /** The store object of this generation. */
  class FileSystem {
    var root: Store

    ghost predicate Valid()
      reads this
    {
      ValidStore(root)
    }

    /** `FileSystemImpl::default`: an empty root directory. */
    constructor ()
      ensures Valid()
      ensures root == EmptyStore()
    {
      root := Parent(map[]);
    }

    /** The `get` handler, the same code as the older generation's. */
    method Get(path: string) returns (r: Result<Bytes>)
      ensures r == GetFile(root, path)
    {
      var node := Resolve(root, Segments(path));
      match node
      case Some(Leaf(content)) =>
        r := Ok(content);
      case _ =>
        r := Err(NoSuchFile);
    }

    /** The `list` handler. */
    method List(path: string) returns (r: Result<seq<string>>)
      ensures r == ListPath(root, path)
    {
      var node := Resolve(root, Segments(path));
      if node.None? {
        return Err(NoSuchFile);
      }
      match node.value
      case Leaf(_) =>
        r := Ok([path]);
      case Parent(files) =>
        r := Ok(Listing(files));
    }

    /** The `write` handler. */
    method Write(path: string, content: Bytes) returns (r: Outcome)
      requires Valid()
      modifies this
      ensures Valid()
      ensures Step(r, root) == WriteFile(old(root), path, content)
    {
      WriteKeepsValid(root, path, content);
      var segs := Segments(path);
      if segs == [] {
        return Fail(IllegalFilename);
      }
      var name := segs[|segs| - 1];
      var found := ResolveMut(root, segs[..|segs| - 1]);
      match found
      case Some(Focus(Parent(files), up)) =>
        if name in files && files[name].Parent? {
          return Fail(CannotWriteToDirectory);
        }
        root := Plug(up, Parent(files[name := Leaf(content)]));
        r := Pass;
      case _ =>
        r := Fail(NoSuchDirectory);
    }

    /** The `mkdir` handler of this generation. */
    method Mkdir(path: string) returns (r: Outcome)
      requires Valid()
      modifies this
      ensures Valid()
      ensures Step(r, root) == MakeDir(old(root), path)
    {
      MakeDirKeepsValid(root, path);
      var segs := Segments(path);
      if segs == [] {
        return Fail(IllegalDirname);
      }
      var name := segs[|segs| - 1];
      var found := ResolveMut(root, segs[..|segs| - 1]);
      match found
      case Some(Focus(Parent(files), up)) =>
        if name !in files {
          root := Plug(up, Parent(files[name := Parent(map[])]));
        }
        r := Pass;
      case _ =>
        r := Fail(NoSuchDirectory);
    }
  }
}
