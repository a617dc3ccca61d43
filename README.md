# grpc-filesystem: the in-memory file tree, modelled in Dafny

This project models the core of a small file store that is served over gRPC.
The store is one in-memory tree. A node is either a file (`Leaf`, holding
bytes) or a directory (`Parent`, an ordered map from names to child nodes).
Clients send four requests that touch the tree:

- `get` reads a file;
- `list` lists a directory, or echoes a file's path;
- `write` creates or overwrites a file;
- `mkdir` creates a directory.

A path string is split on `/`, and the empty pieces are dropped.

The repository holds two generations of the server:

- `fs-server/src/lib.rs` is the older one, on tower-grpc;
- `server/src/lib.rs` is the newer one, on tonic.

On the tree they agree on everything except `mkdir`'s collision policy:

- the older `mkdir` fails with "file exists" when the name is already a
  directory, and *replaces* a file of that name with an empty directory;
- the newer `mkdir` leaves whatever already has that name untouched, and
  succeeds.

Layout, one module per file:

| file | module | contents |
|---|---|---|
| `rpc.dfy` | `Rpc` | status codes and the exact messages each failure carries |
| `paths.dfy` | `Paths` | `segments`, as `Split` (keeps empty pieces, like `str::split`) followed by `NonEmpty` |
| `key_order.dfy` | `KeyOrder` | the key order of an ordered map of strings, and `SortedKeys` (the order `BTreeMap` iterates in) |
| `trees.dfy` | `Trees` | `Tree<T>`, `Children`, `Lookup`, `Update`, `Insert`, the zipper (`Frame`, `Focus`, `Plug`), the listing renderer |
| `handlers.dfy` | `Handlers` | what `get`, `list` and `write` do, as functions of the tree (identical in both generations), and their lemmas |
| `fs_server.dfy` | `FsServer` | the older generation: `Tree::get`/`get_mut` as cursor loops, its `mkdir`, and the `FileSystem` object |
| `server.dfy` | `Server` | the newer generation: the same loops written through `children()`, its idempotent `mkdir`, and the `FileSystem` object |
| `mkdir_policies.dfy` | `MkdirPolicies` | the two `mkdir` policies compared |

How the imperative parts are modelled:

- The store object is a class, `FileSystem`. Its field `root` holds the tree.
- `Write` and `Mkdir` reassign `root`. Each is proved to leave exactly the
  tree given by the matching specification function: `WriteFile`, or the
  generation's own `MakeDir`.
- `Get` and `List` only read the store. Each is proved to return exactly
  what `GetFile` or `ListPath` gives.
- `Tree::get` is the loop `Resolve`, proved equal to `Lookup`.
- `Tree::get_mut` is the loop `ResolveMut`. It returns a zipper: the node
  reached, plus the frames on the way down. The mutable reference Rust hands
  out is modelled by `Plug`, which writes a changed node back through those
  frames. `ResolveMut` is proved to reach the same node as `Lookup`, and
  plugging any node back is proved equal to `Update` at that path.

## Model

| member | source | states |
|---|---|---|
| Paths.Split | fs-server/src/lib.rs:164 | splitting on '/' always gives at least one piece, even for the empty string |
| Paths.SplitCount | fs-server/src/lib.rs:164 | splitting gives exactly one more piece than the string has '/' characters |
| Paths.NonEmpty | fs-server/src/lib.rs:165 | each kept piece is non-empty and comes from the input, and there are never more kept pieces than input pieces |
| Paths.NonEmptyKeeps | fs-server/src/lib.rs:165 | every non-empty input piece is kept, so together with `NonEmpty` the kept pieces are exactly the non-empty ones |
| Paths.Segments | fs-server/src/lib.rs:163-168 | a string is a segment exactly when it is a non-empty piece of splitting the path on '/' (the same function is server/src/lib.rs:172-177) |
| Paths.SplitPiecesHaveNoSep | fs-server/src/lib.rs:164 | no piece produced by splitting on '/' contains '/' |
| Paths.JoinSplit | fs-server/src/lib.rs:164 | splitting loses nothing: gluing the pieces back with '/' gives the original string |
| Paths.SegmentsAreValidNames | fs-server/src/lib.rs:163-168 | every segment is non-empty and free of '/' (the same function is server/src/lib.rs:172-177) |
| Paths.SplitAtSep | fs-server/src/lib.rs:164 | splitting `a + "/" + b` is splitting `a`, then splitting `b` |
| Paths.NonEmptyAppend | fs-server/src/lib.rs:165 | dropping empty pieces distributes over concatenation |
| Paths.SplitName | fs-server/src/lib.rs:164 | a string without '/' splits into itself alone |
| Paths.SegmentsChild | server/src/lib.rs:172-177 | appending "/name" (name valid) to any path appends exactly one segment |
| Paths.SegmentsExamples | fs-server/src/lib.rs:163-168 | "", "/" and "//" give no segments; "/a//b/" gives ["a", "b"] |
| KeyOrder.BelowReflexive | fs-server/src/lib.rs:99-100 | the key order is reflexive |
| KeyOrder.BelowAntisymmetric | fs-server/src/lib.rs:99-100 | the key order is antisymmetric |
| KeyOrder.BelowTransitive | fs-server/src/lib.rs:99-100 | the key order is transitive |
| KeyOrder.BelowTotal | fs-server/src/lib.rs:99-100 | any two keys are comparable |
| KeyOrder.AllAntisymmetric | fs-server/src/lib.rs:99-100 | antisymmetry for all pairs of keys at once |
| KeyOrder.LeastExists | fs-server/src/lib.rs:99-100 | every non-empty finite key set has a least key |
| KeyOrder.SortedKeys | fs-server/src/lib.rs:99-100 | the keys of a directory in iteration order: strictly ascending, one entry per key, holding exactly the keys |
| KeyOrder.AscendingUnique | fs-server/src/lib.rs:99-105 | two strictly ascending sequences with the same elements are equal, so a listing's order is determined by its keys alone |
| KeyOrder.SortedKeysIsTheAscendingEnumeration | fs-server/src/lib.rs:99-105 | any strictly ascending enumeration of a key set is its iteration order |
| Trees.Lookup | fs-server/src/lib.rs:34-48 | the empty path gives the start node, and any non-empty path from a file fails |
| Trees.Children | server/src/lib.rs:34-46 | gives None exactly for a file, and otherwise the directory's own child map |
| Trees.Update | fs-server/src/lib.rs:124-135 | the rebuilt tree keeps the root's kind for any non-empty path, so a handler never turns the root directory into something else |
| Trees.LookupAppend | fs-server/src/lib.rs:34-48 | resolving `p + q` is resolving `p`, then resolving `q` from the node reached |
| Trees.LookupLast | fs-server/src/lib.rs:118-126 | resolving a path is resolving its directory part, then looking its last name up among that directory's children |
| Trees.LookupThroughLeaf | fs-server/src/lib.rs:37-38 | once a path reaches a file, every longer path fails to resolve |
| Trees.LookupThroughMissing | fs-server/src/lib.rs:39-40 | once a path fails to resolve, every longer path fails too |
| Trees.WellFormedLookup | fs-server/src/lib.rs:34-48 | every node reached inside a well-formed tree is well-formed |
| Trees.UpdateThenLookup | fs-server/src/lib.rs:50-64 | after replacing the node at a resolvable path, that path and everything below it resolve inside the new node |
| Trees.UpdateApart | fs-server/src/lib.rs:50-64 | replacing the node at one path leaves unchanged every path that parts ways with it |
| Trees.UpdateTwice | fs-server/src/lib.rs:50-64 | of two replacements at the same path, the later one wins |
| Trees.UpdateChild | fs-server/src/lib.rs:50-64 | replacing a grandchild is replacing its directory with a copy that has that one child changed (the step the mutable cursor takes) |
| Trees.WellFormedUpdate | fs-server/src/lib.rs:132 | putting in a well-formed node keeps the tree well-formed |
| Trees.Insert | fs-server/src/lib.rs:124-132 | inserting into a path that is not a directory changes nothing, and the root keeps its kind |
| Trees.InsertThenLookup | fs-server/src/lib.rs:132 | after `files.insert(name, child)` the child is at `dir + [name]`, and its directory is the old map with that one entry set |
| Trees.InsertLeavesOthers | fs-server/src/lib.rs:132 | inserting changes nothing on a path apart from the inserted one, siblings included |
| Trees.ApartSplit | fs-server/src/lib.rs:118-124 | a path apart from `dir + [name]` is apart from `dir`, or goes through `dir` to a different name |
| Trees.InsertTwice | fs-server/src/lib.rs:132 | inserting twice under one name leaves the later child |
| Trees.InsertKeepsWellFormed | fs-server/src/lib.rs:132 | inserting a well-formed child under a valid name keeps the tree well-formed, and keeps the root a directory |
| Trees.Listing | fs-server/src/lib.rs:98-106 | a directory listing has one entry per child |
| Trees.Plug | fs-server/src/lib.rs:50-64 | writing a node back through no frames gives the node itself; through at least one frame it gives a directory |
| Trees.Entry | fs-server/src/lib.rs:101-104 | a rendered entry begins with the child's name, character for character; it is one character longer, and that character is '/', exactly when the child is a directory |
| Trees.EntryDecodes | fs-server/src/lib.rs:101-104 | for a name without '/', a rendered entry gives back the name, and ends in '/' exactly when the child is a directory |
| Trees.ListingDescribesChildren | fs-server/src/lib.rs:98-106 | a listing names every child exactly once, in strictly ascending key order, and marks exactly the subdirectories with a trailing '/' |
| Handlers.EmptyStore | fs-server/src/lib.rs:20-26 | a fresh store is valid, and only the empty path (the root) resolves in it |
| Handlers.GetFile | fs-server/src/lib.rs:79-89 | the bytes of the file the path resolves to; NotFound "no such file" exactly when the path is missing or names a directory |
| Handlers.ListPath | fs-server/src/lib.rs:91-110 | `list` fails with NotFound "no such file" exactly when the path does not resolve; on a directory it gives one entry per child |
| Handlers.ListOutcome | fs-server/src/lib.rs:97 | on a file, `list` answers with the caller's path string, unnormalised |
| Handlers.ListDirectory | fs-server/src/lib.rs:98-106 | on a directory `list` succeeds with one entry per child, in ascending name order, with exactly the subdirectories marked by '/' |
| Handlers.ListEntryResolves | fs-server/src/lib.rs:98-106 | each listed entry, with any '/' mark dropped and glued to the listed path with '/', resolves to that very child |
| Handlers.WriteFile | fs-server/src/lib.rs:112-137 | a failed `write` leaves the tree as it was |
| Handlers.WriteOutcome | fs-server/src/lib.rs:118-135 | `write` fails with InvalidArgument "illegal filename" exactly when there is no segment; with NotFound "no such directory" exactly when the directory part is missing or a file; with InvalidArgument "cannot write to directory" exactly when there is a segment, the directory part is a directory and the path itself is a directory; and succeeds otherwise |
| Handlers.DirAndName | fs-server/src/lib.rs:118-122 | the defining property of `DirOf` and `NameOf`, which model `segs.pop()`: the directory part followed by the popped name gives back the segments |
| Handlers.WriteThenGet | fs-server/src/lib.rs:132 | after a successful `write (p, c)`, `get p` returns exactly `c` |
| Handlers.WriteLeavesOthers | fs-server/src/lib.rs:132 | `write` changes nothing on any path apart from the written one, so the other entries of the directory are kept |
| Handlers.WriteTwice | fs-server/src/lib.rs:132 | writing the same path twice leaves what one write of the second content leaves: the last writer wins |
| Handlers.WriteKeepsValid | fs-server/src/lib.rs:118-135 | `write` keeps the store invariant: the root stays a directory, and every key anywhere is non-empty and free of '/' |
| Handlers.ListRootExample | fs-server/src/lib.rs:98-106 | a root holding file "b" and directory "a" lists as ["a/", "b"] |
| Handlers.WriteWithoutParentExample | fs-server/src/lib.rs:134 | writing "x/y" into an empty store fails with NotFound "no such directory", and the store stays empty |
| Handlers.GetBelowFileExample | fs-server/src/lib.rs:82-86 | after writing file "f", `get "f/g"` fails with NotFound |
| FsServer.Resolve | fs-server/src/lib.rs:34-48 | the cursor loop returns exactly the node `Lookup` reaches, or None |
| FsServer.ResolveMut | fs-server/src/lib.rs:50-64 | the mutable walk succeeds exactly when `Lookup` does and reaches the same node; writing any node back through it is `Update` at that path |
| FsServer.MakeDir | fs-server/src/lib.rs:139-160 | a failed `mkdir` leaves the tree as it was |
| FsServer.MakeDirOutcome | fs-server/src/lib.rs:144-158 | `mkdir` fails with "illegal dirname" exactly when there is no segment; with "no such directory" exactly when the directory part is missing or a file; with InvalidArgument "file exists" exactly when there is a segment, the directory part is a directory and the path itself already is a directory; and succeeds otherwise |
| FsServer.MakeDirCreatesEmpty | fs-server/src/lib.rs:155 | after a successful `mkdir` the path names an empty directory: it lists as [] and `get` of it fails |
| FsServer.MakeDirOverFile | fs-server/src/lib.rs:152-155 | over an existing file `mkdir` succeeds, and the file is gone |
| FsServer.MakeDirTwice | fs-server/src/lib.rs:152-153 | a second `mkdir` of the same path fails with "file exists" and changes nothing |
| FsServer.MakeDirLeavesOthers | fs-server/src/lib.rs:155 | `mkdir` changes nothing on any path apart from the created one |
| FsServer.MakeDirKeepsValid | fs-server/src/lib.rs:144-158 | `mkdir` keeps the store invariant |
| FsServer.FileSystem.constructor | fs-server/src/lib.rs:20-26 | a fresh store's root is an empty directory |
| FsServer.FileSystem.Get | fs-server/src/lib.rs:79-89 | the `get` handler returns exactly `GetFile` of the current tree |
| FsServer.FileSystem.List | fs-server/src/lib.rs:91-110 | the `list` handler returns exactly `ListPath` of the current tree |
| FsServer.FileSystem.Write | fs-server/src/lib.rs:112-137 | the `write` handler keeps the store valid, and its outcome and new tree are exactly `WriteFile` of the old tree |
| FsServer.FileSystem.Mkdir | fs-server/src/lib.rs:139-160 | the `mkdir` handler keeps the store valid, and its outcome and new tree are exactly `FsServer.MakeDir` of the old tree |
| Server.Resolve | server/src/lib.rs:48-54 | the loop through `children()` returns exactly the node `Lookup` reaches, or None |
| Server.ResolveMut | server/src/lib.rs:56-62 | the mutable walk through `children_mut()` succeeds exactly when `Lookup` does and reaches the same node; writing any node back through it is `Update` at that path |
| Server.MakeDir | server/src/lib.rs:128-150 | a failed `mkdir` leaves the tree as it was |
| Server.MakeDirOutcome | server/src/lib.rs:136-148 | `mkdir` fails only for a missing final segment ("illegal dirname") or a missing directory part ("no such directory"); a name collision is never an error |
| Server.MakeDirKeepsExisting | server/src/lib.rs:143-145 | where a path with at least one segment already names a file or a directory, `mkdir` succeeds and changes nothing, so the existing entry and everything below it are kept |
| Server.MakeDirCreates | server/src/lib.rs:143-145 | after a successful `mkdir` an absent name has become an empty directory, and an existing one is unchanged |
| Server.MakeDirIdempotent | server/src/lib.rs:143-145 | `mkdir (p)` followed by `mkdir (p)` is the same as `mkdir (p)` alone, in outcome and in tree |
| Server.MakeDirLeavesOthers | server/src/lib.rs:143-145 | `mkdir` changes nothing on any path apart from the created one |
| Server.MakeDirKeepsValid | server/src/lib.rs:136-148 | `mkdir` keeps the store invariant |
| Server.FileSystem.constructor | server/src/lib.rs:20-26 | a fresh store's root is an empty directory |
| Server.FileSystem.Get | server/src/lib.rs:67-77 | the `get` handler returns exactly `GetFile` of the current tree |
| Server.FileSystem.List | server/src/lib.rs:79-97 | the `list` handler returns exactly `ListPath` of the current tree |
| Server.FileSystem.Write | server/src/lib.rs:99-126 | the `write` handler keeps the store valid, and its outcome and new tree are exactly `WriteFile` of the old tree |
| Server.FileSystem.Mkdir | server/src/lib.rs:128-150 | the `mkdir` handler keeps the store valid, and its outcome and new tree are exactly `Server.MakeDir` of the old tree |
| MkdirPolicies.AgreeOnFreeNames | server/src/lib.rs:143-145 | where the path names nothing yet, both generations' `mkdir` give the same outcome and tree (compare fs-server/src/lib.rs:152-155) |
| MkdirPolicies.DifferOverDirectory | fs-server/src/lib.rs:152-153 | for a path with at least one segment that names an existing directory, the older `mkdir` fails with "file exists" and the newer one succeeds; neither changes the tree (the root itself, with no segment, is "illegal dirname" in both) |
| MkdirPolicies.DifferOverFile | fs-server/src/lib.rs:152-155 | over an existing file both succeed, but only the newer `mkdir` (server/src/lib.rs:143-145) keeps the file's content |

## Left out

- `exec` (server/src/lib.rs:152-169) is not modelled. It hands the request's bytes to the external wasmer engine, which is foreign code.
- The `Arc<RwLock<…>>` around the root is not modelled. Each request is treated as one atomic step on a single store. Interleaving, lock poisoning and `unwrap` panics are out of scope.
- The gRPC plumbing is not modelled: `into_service`, the generated `proto` types, `Request`/`Response` wrapping, futures, `async` and `trace!` logging. A status is modelled only as its code and message.
- The binaries (`fs-server/src/bin/run-server.rs`, `server/src/bin/main.rs`), the protobuf build script (`fs-server/build.rs`) and the client code (`manual-client/`) are transport and bootstrap. They are not part of this model.
- Byte content is an opaque `seq<bv8>`, and `get` returns it as a value, so the clone is implicit. Strings are sequences of characters. Key order compares characters by code point, which agrees with Rust's byte-wise `String` order for UTF-8.
- The trees are values. In-place mutation through `&mut` is modelled by the zipper that `ResolveMut` returns, and by rebuilding `root` from it. Aliasing cannot arise, because each child has exactly one parent.
