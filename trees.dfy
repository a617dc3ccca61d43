/**
 The in-memory hierarchical tree: a node is a file holding content or a
 directory mapping names to child nodes. Paths are segment lists; `Lookup`
 walks them from the front, `Update` rebuilds the tree with one subtree
 replaced, and a zipper (`Frame`, `Plug`) is the value-level picture of a
 mutable reference into the tree.
 */
module Trees {
  import opened Paths
  import opened KeyOrder

  datatype Option<+T> = None | Some(value: T)

  /** `Tree<T>`: `Leaf(T)` or `Parent(BTreeMap<String, Tree<T>>)`. */
  datatype Tree<T> = Leaf(content: T) | Parent(children: map<string, Tree<T>>)

  /** The children of a directory; a file has none. */
  function Children<T>(t: Tree<T>): (r: Option<map<string, Tree<T>>>)
    ensures r.None? <==> t.Leaf?
    ensures r.Some? ==> t == Parent(r.value)
  {
    match t
    case Leaf(_) => None
    case Parent(children) => Some(children)
  }

  /** The node reached by following `path` from `t`, one segment at a time.
      Descending into a file or through a missing name fails. */
  function Lookup<T>(t: Tree<T>, path: seq<string>): (r: Option<Tree<T>>)
    ensures path == [] ==> r == Some(t)
    ensures t.Leaf? && path != [] ==> r.None?
    decreases |path|
  {
    if path == [] then Some(t)
    else match t
      case Leaf(_) => None
      case Parent(children) =>
        if path[0] in children then Lookup(children[path[0]], path[1..]) else None
  }

  /** `t` with the subtree at `path` replaced by `n`; unchanged when `path`
      does not resolve. */
  function Update<T>(t: Tree<T>, path: seq<string>, n: Tree<T>): (r: Tree<T>)
    ensures path != [] ==> r.Parent? == t.Parent?
    decreases |path|
  {
    if path == [] then n
    else match t
      case Leaf(_) => t
      case Parent(children) =>
        if path[0] in children
        then Parent(children[path[0] := Update(children[path[0]], path[1..], n)])
        else t
  }

  /** Neither path is a prefix of the other: they part ways at some segment. */
  predicate Apart(p: seq<string>, q: seq<string>) {
    |p| > 0 && |q| > 0 && (p[0] != q[0] || Apart(p[1..], q[1..]))
  }

  /** Every key of every directory below `t` is a valid name. */
  predicate WellFormed<T>(t: Tree<T>) {
    match t
    case Leaf(_) => true
    case Parent(children) => forall k :: k in children ==> ValidName(k) && WellFormed(children[k])
  }

  // ---------------------------------------------------------------- Lookup

  /** Resolving `p + q` is resolving `p` and then `q` from the node reached. */
  lemma {:induction false} LookupAppend<T>(t: Tree<T>, p: seq<string>, q: seq<string>)
    ensures Lookup(t, p + q) == match Lookup(t, p) case None => None case Some(n) => Lookup(n, q)
    decreases |p|
  {
    if p == [] {
      assert p + q == q;
    } else {
      assert (p + q)[0] == p[0];
      assert (p + q)[1..] == p[1..] + q;
      if t.Parent? && p[0] in t.children {
        LookupAppend(t.children[p[0]], p[1..], q);
      }
    }
  }

  /** Resolving a path with a last segment: resolve its directory, then look
      the last name up among that directory's children. */
  lemma LookupLast<T>(t: Tree<T>, path: seq<string>)
    requires path != []
    ensures Lookup(t, path) ==
      match Lookup(t, path[..|path| - 1])
      case Some(Parent(children)) =>
        if path[|path| - 1] in children then Some(children[path[|path| - 1]]) else None
      case _ => None
  {
    var dir, name := path[..|path| - 1], path[|path| - 1];
    assert dir + [name] == path;
    LookupAppend(t, dir, [name]);
    assert [name][1..] == [];
  }

  /** A path that reaches a file cannot be extended: files are not directories. */
  lemma LookupThroughLeaf<T>(t: Tree<T>, p: seq<string>, x: T, q: seq<string>)
    requires Lookup(t, p) == Some(Leaf(x))
    requires q != []
    ensures Lookup(t, p + q) == None
  {
    LookupAppend(t, p, q);
  }

  /** A path whose prefix does not resolve does not resolve either. */
  lemma LookupThroughMissing<T>(t: Tree<T>, p: seq<string>, q: seq<string>)
    requires Lookup(t, p) == None
    ensures Lookup(t, p + q) == None
  {
    LookupAppend(t, p, q);
  }

  lemma {:induction false} WellFormedLookup<T>(t: Tree<T>, p: seq<string>)
    requires WellFormed(t)
    requires Lookup(t, p).Some?
    ensures WellFormed(Lookup(t, p).value)
    decreases |p|
  {
    if p != [] {
      WellFormedLookup(t.children[p[0]], p[1..]);
    }
  }

  // ---------------------------------------------------------------- Update

  /** After the update, the replaced subtree is found at `path`, and every
      path below it resolves inside the new subtree. */
  lemma {:induction false} UpdateThenLookup<T>(t: Tree<T>, path: seq<string>, n: Tree<T>, q: seq<string>)
    requires Lookup(t, path).Some?
    ensures Lookup(Update(t, path, n), path + q) == Lookup(n, q)
    decreases |path|
  {
    if path == [] {
      assert path + q == q;
    } else {
      assert (path + q)[0] == path[0];
      assert (path + q)[1..] == path[1..] + q;
      UpdateThenLookup(t.children[path[0]], path[1..], n, q);
    }
  }

  /** Paths that part ways with `path` see the tree unchanged. */
  lemma {:induction false} UpdateApart<T>(t: Tree<T>, path: seq<string>, n: Tree<T>, q: seq<string>)
    requires Apart(path, q)
    ensures Lookup(Update(t, path, n), q) == Lookup(t, q)
    decreases |path|
  {
    if t.Parent? && path[0] in t.children && q[0] == path[0] {
      UpdateApart(t.children[path[0]], path[1..], n, q[1..]);
    }
  }

  /** The later of two updates at one path wins. */
  lemma {:induction false} UpdateTwice<T>(t: Tree<T>, path: seq<string>, a: Tree<T>, b: Tree<T>)
    ensures Update(Update(t, path, a), path, b) == Update(t, path, b)
    decreases |path|
  {
    if path != [] && t.Parent? && path[0] in t.children {
      var c := t.children;
      UpdateTwice(c[path[0]], path[1..], a, b);
      assert c[path[0] := Update(c[path[0]], path[1..], a)][path[0] := Update(c[path[0]], path[1..], b)]
          == c[path[0] := Update(c[path[0]], path[1..], b)];
    }
  }

  /** Replacing a grandchild is replacing its directory with an updated copy. */
  lemma {:induction false} UpdateChild<T>(t: Tree<T>, p: seq<string>, s: string,
                                          children: map<string, Tree<T>>, n: Tree<T>)
    requires Lookup(t, p) == Some(Parent(children))
    requires s in children
    ensures Update(t, p + [s], n) == Update(t, p, Parent(children[s := n]))
    decreases |p|
  {
    if p == [] {
      assert [] + [s] == [s];
    } else {
      assert (p + [s])[0] == p[0];
      assert (p + [s])[1..] == p[1..] + [s];
      UpdateChild(t.children[p[0]], p[1..], s, children, n);
    }
  }

  /** Replacing a subtree by a well-formed one keeps the tree well-formed. */
  lemma {:induction false} WellFormedUpdate<T>(t: Tree<T>, path: seq<string>, n: Tree<T>)
    requires WellFormed(t) && WellFormed(n)
    ensures WellFormed(Update(t, path, n))
    decreases |path|
  {
    if path != [] && t.Parent? && path[0] in t.children {
      WellFormedUpdate(t.children[path[0]], path[1..], n);
    }
  }

  // ---------------------------------------------------------------- Insert

  /** `files.insert(name, child)` on the directory at `dir`, reached through a
      mutable lookup; unchanged when `dir` is not a directory. */
  function Insert<T>(t: Tree<T>, dir: seq<string>, name: string, child: Tree<T>): (r: Tree<T>)
    ensures !(Lookup(t, dir).Some? && Lookup(t, dir).value.Parent?) ==> r == t
    ensures r.Parent? == t.Parent?
  {
    match Lookup(t, dir)
    case Some(Parent(children)) => Update(t, dir, Parent(children[name := child]))
    case _ => t
  }

  /** The inserted child is found under its name; its directory keeps all
      other entries. */
  lemma InsertThenLookup<T>(t: Tree<T>, dir: seq<string>, name: string, child: Tree<T>,
                            children: map<string, Tree<T>>)
    requires Lookup(t, dir) == Some(Parent(children))
    ensures Lookup(Insert(t, dir, name, child), dir) == Some(Parent(children[name := child]))
    ensures Lookup(Insert(t, dir, name, child), dir + [name]) == Some(child)
  {
    var n := Parent(children[name := child]);
    UpdateThenLookup(t, dir, n, []);
    UpdateThenLookup(t, dir, n, [name]);
    assert dir + [] == dir;
    assert [name][1..] == [];
  }

  /** An insertion changes nothing on paths apart from the inserted one. */
  lemma InsertLeavesOthers<T>(t: Tree<T>, dir: seq<string>, name: string, child: Tree<T>, q: seq<string>)
    requires Apart(dir + [name], q)
    ensures Lookup(Insert(t, dir, name, child), q) == Lookup(t, q)
  {
    if Lookup(t, dir).Some? && Lookup(t, dir).value.Parent? {
      var children := Lookup(t, dir).value.children;
      var n := Parent(children[name := child]);
      ApartSplit(dir, name, q);
      if Apart(dir, q) {
        UpdateApart(t, dir, n, q);
      } else {
        var m, rest := q[|dir|], q[|dir| + 1..];
        var tail := [m] + rest;
        assert q == dir + tail;
        assert tail[0] == m && tail[1..] == rest;
        UpdateThenLookup(t, dir, n, tail);
        LookupAppend(t, dir, tail);
        assert Lookup(n, tail) == Lookup(Parent(children), tail);
      }
    }
  }

  /** A path apart from `dir + [name]` is apart from `dir`, or continues `dir`
      with a name other than `name`. */
  lemma {:induction false} ApartSplit(dir: seq<string>, name: string, q: seq<string>)
    requires Apart(dir + [name], q)
    ensures Apart(dir, q) || (|q| > |dir| && q[..|dir|] == dir && q[|dir|] != name)
    decreases |dir|
  {
    if dir != [] {
      assert (dir + [name])[0] == dir[0];
      assert (dir + [name])[1..] == dir[1..] + [name];
      if dir[0] == q[0] {
        ApartSplit(dir[1..], name, q[1..]);
        if !Apart(dir[1..], q[1..]) {
          assert q[..|dir|] == [q[0]] + q[1..][..|dir| - 1];
          assert dir == [dir[0]] + dir[1..];
        }
      }
    } else {
      assert [] + [name] == [name];
    }
  }

  /** Inserting twice under one name: the later child wins. */
  lemma InsertTwice<T>(t: Tree<T>, dir: seq<string>, name: string, a: Tree<T>, b: Tree<T>)
    ensures Insert(Insert(t, dir, name, a), dir, name, b) == Insert(t, dir, name, b)
  {
    if Lookup(t, dir).Some? && Lookup(t, dir).value.Parent? {
      var children := Lookup(t, dir).value.children;
      InsertThenLookup(t, dir, name, a, children);
      UpdateTwice(t, dir, Parent(children[name := a]), Parent(children[name := b]));
      assert children[name := a][name := b] == children[name := b];
    }
  }

  /** Inserting a well-formed child under a valid name keeps the tree
      well-formed, and a directory root stays a directory. */
  lemma InsertKeepsWellFormed<T>(t: Tree<T>, dir: seq<string>, name: string, child: Tree<T>)
    requires WellFormed(t) && ValidName(name) && WellFormed(child)
    ensures WellFormed(Insert(t, dir, name, child))
    ensures t.Parent? ==> Insert(t, dir, name, child).Parent?
  {
    if Lookup(t, dir).Some? && Lookup(t, dir).value.Parent? {
      WellFormedLookup(t, dir);
      WellFormedUpdate(t, dir, Parent(Lookup(t, dir).value.children[name := child]));
    }
  }

  // ---------------------------------------------------------------- Zipper

  /** One step of descent: the directory's children, and the name taken. */
  datatype Frame<T> = Frame(siblings: map<string, Tree<T>>, name: string)

  /** A node in focus, with the frames leading from the root down to it. */
  datatype Focus<T> = Focus(node: Tree<T>, up: seq<Frame<T>>)

  /** Writes `n` back into the hole that `up` describes, innermost frame last. */
  function Plug<T>(up: seq<Frame<T>>, n: Tree<T>): (r: Tree<T>)
    ensures up == [] ==> r == n
    ensures up != [] ==> r.Parent?
    decreases |up|
  {
    if up == [] then n
    else
      var f := up[|up| - 1];
      Plug(up[..|up| - 1], Parent(f.siblings[f.name := n]))
  }

  // ---------------------------------------------------------------- Listing

  /** How `list` renders one child: directories get a trailing '/'. */
  function Entry<T>(name: string, node: Tree<T>): (e: string)
    ensures |e| == |name| + (if node.Parent? then 1 else 0)
    ensures forall i :: 0 <= i < |name| ==> e[i] == name[i]
    ensures node.Parent? ==> e[|e| - 1] == Sep
  {
    if node.Parent? then name + [Sep] else name
  }

  /** The children of a directory rendered in ascending key order. */
  function Listing<T>(files: map<string, Tree<T>>): (r: seq<string>)
    ensures |r| == |files|
  {
    var keys := SortedKeys(files.Keys);
    seq(|keys|, i requires 0 <= i < |keys| => Entry(keys[i], files[keys[i]]))
  }

  /** The name part of a listing entry (as a client reads it back). */
  function EntryName(e: string): string {
    if |e| > 0 && e[|e| - 1] == Sep then e[..|e| - 1] else e
  }

  /** Whether a listing entry denotes a directory. */
  predicate IsDirEntry(e: string) {
    |e| > 0 && e[|e| - 1] == Sep
  }

  /** For names without '/', rendering loses nothing: name and kind come back. */
  lemma EntryDecodes<T>(name: string, node: Tree<T>)
    requires Sep !in name
    ensures EntryName(Entry(name, node)) == name
    ensures IsDirEntry(Entry(name, node)) <==> node.Parent?
  {
    if node.Parent? {
      assert (name + [Sep])[..|name|] == name;
    } else if |name| > 0 {
      assert name[|name| - 1] in name;
    }
  }

  /** Entry `i` of a listing decodes to the `i`-th key in ascending order,
      with its kind. */
  lemma ListingAt<T>(files: map<string, Tree<T>>, i: int)
    requires forall k :: k in files ==> ValidName(k)
    requires 0 <= i < |Listing(files)|
    ensures EntryName(Listing(files)[i]) == SortedKeys(files.Keys)[i]
    ensures IsDirEntry(Listing(files)[i]) <==> files[SortedKeys(files.Keys)[i]].Parent?
  {
    var keys := SortedKeys(files.Keys);
    var k := keys[i];
    assert k in files.Keys;
    assert Listing(files)[i] == Entry(k, files[k]);
    EntryDecodes(k, files[k]);
  }

  /** Every entry names a child and shows its kind. */
  lemma ListingNamesChildren<T>(files: map<string, Tree<T>>)
    requires forall k :: k in files ==> ValidName(k)
    ensures forall i :: 0 <= i < |Listing(files)| ==>
      EntryName(Listing(files)[i]) in files &&
      (IsDirEntry(Listing(files)[i]) <==> files[EntryName(Listing(files)[i])].Parent?)
  {
    var keys := SortedKeys(files.Keys);
    forall i | 0 <= i < |Listing(files)|
      ensures EntryName(Listing(files)[i]) == keys[i] && keys[i] in files
      ensures IsDirEntry(Listing(files)[i]) <==> files[keys[i]].Parent?
    {
      ListingAt(files, i);
    }
  }

  /** Entries come in strictly ascending name order. */
  lemma ListingAscending<T>(files: map<string, Tree<T>>)
    requires forall k :: k in files ==> ValidName(k)
    ensures forall i, j :: 0 <= i < j < |Listing(files)| ==>
      Less(EntryName(Listing(files)[i]), EntryName(Listing(files)[j]))
  {
    var keys := SortedKeys(files.Keys);
    forall i, j | 0 <= i < j < |Listing(files)|
      ensures Less(EntryName(Listing(files)[i]), EntryName(Listing(files)[j]))
    {
      ListingAt(files, i);
      ListingAt(files, j);
      assert Less(keys[i], keys[j]);
    }
  }

  /** Every child has an entry. */
  lemma ListingCoversChildren<T>(files: map<string, Tree<T>>)
    requires forall k :: k in files ==> ValidName(k)
    ensures forall k :: k in files ==>
      exists i :: 0 <= i < |Listing(files)| && EntryName(Listing(files)[i]) == k
  {
    var keys := SortedKeys(files.Keys);
    forall k | k in files ensures exists i :: 0 <= i < |Listing(files)| && EntryName(Listing(files)[i]) == k {
      assert k in keys;
      var i :| 0 <= i < |keys| && keys[i] == k;
      ListingAt(files, i);
    }
  }

  /** A listing of a well-formed directory names each child exactly once, in
      ascending key order, and marks exactly the subdirectories. */
  lemma ListingDescribesChildren<T>(files: map<string, Tree<T>>)
    requires forall k :: k in files ==> ValidName(k)
    ensures |Listing(files)| == |files|
    ensures forall i :: 0 <= i < |Listing(files)| ==>
      EntryName(Listing(files)[i]) in files &&
      (IsDirEntry(Listing(files)[i]) <==> files[EntryName(Listing(files)[i])].Parent?)
    ensures forall i, j :: 0 <= i < j < |Listing(files)| ==>
      Less(EntryName(Listing(files)[i]), EntryName(Listing(files)[j]))
    ensures forall k :: k in files ==>
      exists i :: 0 <= i < |Listing(files)| && EntryName(Listing(files)[i]) == k
  {
    ListingNamesChildren(files);
    ListingAscending(files);
    ListingCoversChildren(files);
  }
}
