# klaw-sync: a verified model of the synchronous directory walker

klaw-sync lists everything beneath a directory. Each result item is `{path, stats}`. The walk is depth-first and pre-order: a directory's item comes before the items of its subtree, and siblings come in the order `readdirSync` lists them. Four options decide what is emitted and what is descended into:

- `nodir` leaves out directory items;
- `nofile` leaves out non-directory items;
- `filter` is a predicate on items;
- `noRecurseOnFailedFilter` stops the walk from descending into a directory that went to the filter's else branch.

The model has five modules, one per file:

- `wrappers.dfy`, module `Wrappers`: `Option` and `Result`.
- `file_system.dfy`, module `FileSystem`: the file system the walker reads through `graceful-fs`, as a finite tree of `File` and `Dir` nodes.
  - `Readdir` and `Stat` stand for `readdirSync` and `statSync`.
  - `ChildPath` builds `dir + path.sep + name`.
  - `Lookup` resolves the root path. It fails with `ENOENT` (a missing component) or `ENOTDIR` (a component that is a file).
- `klaw_sync.dfy`, module `KlawSync`: the walker.
  - `WalkDir` is `_klawSync`. It is imperative like the source: a `for` loop over the listing that appends to the accumulator `ls` and reassigns `ls` from each recursive call.
  - `KlawSync` is the entry point `klawSync`.
  - The pure functions `Visit` and `Walk` specify what a directory's walk appends. `WalkDir` is proved to return `ls + Walk(dir, children, opts)`.
  - `Emits` and `Descends` give the option logic as two decisions: is an entry's item pushed, and is a directory recursed into.
- `properties.dfy`, module `KlawSyncProperties`: the properties. The reference definition is `Listing`, an independent pre-order enumeration of every entry beneath the root. Each entry carries the items of its ancestor directories. The main theorem `WalkIsSelect` proves that the walk keeps exactly those listed entries that (1) the options emit and (2) have every ancestor directory descended into. Completeness, the `nodir`/`nofile` duals, filter soundness, recursion past failed directories and pruning follow from it as corollaries.
- `fixtures.dfy`, module `KlawSyncFixtures`: the walk of the test suite's directory tree, computed out.

One quirk of the source is kept on purpose. With a filter set, a directory that passes the filter while `nodir` is set takes the same else branch as a directory that fails it (`klaw-sync.js:20-24`). If `noRecurseOnFailedFilter` is also set, that directory is not descended into. `Descends` states this, and `NodirWithPruningStaysAtTop` proves the result: with all three options set, only the root's own non-directory entries can appear.

Three facts about `klaw-sync.js` shape the model:

- It stats entries with `statSync`, which follows symbolic links (klaw-sync.js:16). It does not use `lstatSync`.
- It reads only the `nodir`, `nofile`, `filter` and `noRecurseOnFailedFilter` options (klaw-sync.js:19-33). It has no depth limit, no ignore patterns and no custom file system option.
- With a filter set, its else branch also covers a directory that passes the filter while `nodir` is set (klaw-sync.js:20-24).

## Model

| member | source | states |
|---|---|---|
| `KlawSync.WalkDir` | klaw-sync.js:12-39 | `_klawSync` only appends. The returned list is the incoming `ls` followed by exactly `Walk(dir, children, opts)`, so the items already in `ls` are untouched and stay a prefix. |
| `KlawSync.KlawSync` | klaw-sync.js:6-10 | A root that does not resolve fails with the lookup's error (`ENOENT`/`ENOTDIR`). A root that is a file fails with `ENOTDIR`. Otherwise the result is the walk of the root directory from an empty accumulator, with `{}` used when no options are given. |
| `KlawSync.WalkAppend` | klaw-sync.js:14-37 | Entries are processed one after another: walking `a + b` yields walking `a`, then walking `b`. |
| `FileSystem.ChildPath` | klaw-sync.js:13 | A child's path is exactly the directory's path, then the separator, then the name: the prefix, the length and the suffix after the separator are all fixed. |
| `FileSystem.LookupSnoc` | test/test.js:25-39 | Resolving one more path segment resolves the parent, then looks the name up in the parent's listing. A missing name is `ENOENT`, a parent that is a file is `ENOTDIR`, and an error earlier on the path is kept. |
| `KlawSyncProperties.WalkIsSelect` | klaw-sync.js:18-36 | The walk equals the pre-order listing of every entry beneath the root, keeping exactly the entries the options emit whose ancestor directories were all descended into. |
| `KlawSyncProperties.WalkWithoutPruning` | klaw-sync.js:19-29 | With no filter, or without `noRecurseOnFailedFilter`, every directory is descended into. The result is every entry beneath the root that the options emit, in pre-order. A directory the filter rejects is left out while its accepted descendants still appear. |
| `KlawSyncProperties.FullWalk` | klaw-sync.js:26-35 | With no options, the walk has one item per entry strictly beneath the root, in pre-order. Its length equals an independently computed count of those entries. |
| `KlawSyncProperties.WalkNodir` | klaw-sync.js:27-28 | `nodir` without a filter gives the full walk with every directory item removed. Recursion is unaffected. |
| `KlawSyncProperties.WalkNofile` | klaw-sync.js:33-35 | `nofile` without a filter gives the full walk with every non-directory item removed. Every directory is still descended into. |
| `KlawSyncProperties.WalkSound` | klaw-sync.js:19-33 | Every emitted item passes the filter (when one is set), is no directory under `nodir`, and is no non-directory under `nofile`. The walk is a subsequence of the full listing. |
| `KlawSyncProperties.WalkAt` | klaw-sync.js:14-37 | The walk of a listing is the walk of the entries before position `k`, then entry `k` with its whole subtree, then the walk of the later entries. |
| `KlawSyncProperties.EmittedDirectoryThenSubtree` | klaw-sync.js:20-22 | An emitted directory's item is immediately followed by its subtree's items, after the earlier siblings' items and before the later siblings'. |
| `KlawSyncProperties.FailedDirectoryStillWalked` | klaw-sync.js:23-24 | With a filter and without `noRecurseOnFailedFilter`, a directory the filter rejects is omitted, but its subtree's walk takes its place. |
| `KlawSyncProperties.PrunedDirectoryOmitted` | klaw-sync.js:20-24 | With a filter and `noRecurseOnFailedFilter`, a directory the filter rejects, or one it accepts while `nodir` is set, contributes nothing: neither its own item nor anything beneath it. |
| `KlawSyncProperties.NonDirectoryIsLeaf` | klaw-sync.js:30-36 | A non-directory contributes at most its own item (exactly when the options emit it) and is never recursed into. |
| `KlawSyncProperties.NodirWithPruningStaysAtTop` | klaw-sync.js:20-24 | With a filter, `nodir` and `noRecurseOnFailedFilter`, no directory is descended into. The result is the root's own entries that the options emit, none of them a directory. |
| `KlawSyncProperties.WalkBeneath` | klaw-sync.js:13 | Every item's path starts with the walked directory's path plus the separator, so the root itself is never emitted. |
| `KlawSyncProperties.AncestorsPrecede` | klaw-sync.js:20-28 | Pre-order: in the full listing, which is the walk with no options, every ancestor directory of an entry comes before the entry. |
| `KlawSyncProperties.ListingShape` | klaw-sync.js:13 | Every listed entry lies beneath the root. Its path extends, by a separator, the path of each of its ancestors, and each ancestor is a directory. |
| `KlawSyncFixtures.FixtureFullWalk` | test/test.js:41-58 | On the test suite's tree, the walk with no options lists `dir1`, `dir1/file1_2`, `dir2`, `dir2/dir2_1`, `dir2/dir2_1/dir2_1_1`, `dir2/dir2_1/file2_1_1`, `file1`, in that order. |

## Left out

- `path.resolve` (klaw-sync.js:7) is a Node library call. The root is given already resolved, as path segments, and `RootPath` rebuilds the absolute path string from them.
- Real file system access (klaw-sync.js:3, 13, 16) is replaced by a finite tree.
  - `WalkDir` receives the node of the directory it walks beside its path. It does not resolve the path string again: in a fixed tree, the node is what `readdirSync(dir)` and `statSync(pi)` would report.
- `statSync` follows symbolic links, so links count as already resolved. The tree is finite and acyclic, so link cycles are out of scope.
- Failures while the walk is running are not modelled; only a bad root produces an error. In the program, each of these aborts the whole walk:
  - `readdirSync(pi)` on a subdirectory that cannot be read throws `EACCES` (klaw-sync.js:13, reached from the recursive calls at klaw-sync.js:22, 24 and 28).
  - `statSync(pi)` on a dangling symbolic link throws `ENOENT` (klaw-sync.js:16).
  - An entry removed while the walk is running makes either call throw.
- `Sep` fixes `path.sep` to the POSIX `/`. On Windows, klaw-sync.js:13 joins paths with `\`; that platform is not modelled.
- `Stats` carries the is-directory flag plus opaque metadata (size, mode, modification time). The other `fs.Stats` fields and methods are left out.
- The filter is a total, pure function from items to booleans. Truthy non-boolean results, a filter that throws, and a filter with side effects are left out. Option values are booleans, not arbitrary truthy values.
- `KlawSync.WalkDir`: the accumulator is a sequence passed by value and returned. The source instead mutates one shared array and reassigns it from each recursive call. Every caller replaces its `ls` with the returned array, so the two agree. Aliasing of that array is therefore not modelled.
- The `depthLimit`, `fs` and `ignore` options are exercised by other tests and the benchmark, but `klaw-sync.js` never reads them, so they are not modelled.
- `bm.js` and `benchmark/bm.js` are benchmark and command-line harnesses (argument parsing, console output, comparisons with other libraries). They are not part of this model.
- Two walks of an unchanged tree return equal results. This holds because `Walk` is a function, so it needs no lemma.
