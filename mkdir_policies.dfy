/**
 The two generations' `mkdir` side by side: they agree wherever the name is
 free, and part ways when something already stands there.
 */
module MkdirPolicies {
  import opened Rpc
  import opened Paths
  import opened Trees
  import opened Handlers
  import FsServer
  import Server

  /** Where the path names nothing yet, both generations do the same. */
  lemma AgreeOnFreeNames(root: Store, path: string)
    requires Lookup(root, Segments(path)).None?
    ensures FsServer.MakeDir(root, path) == Server.MakeDir(root, path)
  {
    var segs := Segments(path);
    if segs != [] {
      LookupLast(root, segs);
    }
  }

  /** Over an existing directory the older one fails with "file exists" and
      the newer one succeeds; neither changes the tree. */
  lemma DifferOverDirectory(root: Store, path: string)
    requires Segments(path) != []
    requires IsDir(Lookup(root, Segments(path)))
    ensures FsServer.MakeDir(root, path) == Step(Fail(FileExists), root)
    ensures Server.MakeDir(root, path) == Step(Pass, root)
  {
    LookupLast(root, Segments(path));
  }

  /** Over an existing file both succeed, but only the newer one keeps it. */
  lemma DifferOverFile(root: Store, path: string, content: Bytes)
    requires ValidStore(root)
    requires Lookup(root, Segments(path)) == Some(Leaf(content))
    ensures FsServer.MakeDir(root, path).outcome == Pass
    ensures GetFile(FsServer.MakeDir(root, path).root, path) == Err(NoSuchFile)
    ensures Server.MakeDir(root, path) == Step(Pass, root)
    ensures GetFile(Server.MakeDir(root, path).root, path) == Ok(content)
  {
    FsServer.MakeDirOverFile(root, path, content);
    Server.MakeDirKeepsExisting(root, path);
  }
}
