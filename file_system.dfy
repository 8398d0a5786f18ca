/**
 * An abstract, finite, read-only file system: the part of `graceful-fs` the walker
 * uses. `readdirSync` lists the names of a directory's entries in listing order and
 * `statSync` reports an entry's metadata; both are modelled as functions of a tree.
 * Symbolic links are taken as already resolved (`statSync` follows them), so the
 * tree is finite and acyclic by construction.
 */
module FileSystem {
  import opened Wrappers

  type Name = string
  type Path = string

  /** `path.sep` on POSIX systems. */
  const Sep: char := '/'

  /** The metadata a `fs.Stats` object carries besides the entry type; opaque to the walker. */
  datatype Meta = Meta(size: nat, mode: nat, mtimeMs: int)

  /** A file system entry. A directory holds its entries in the order the listing returns them. */
  datatype Node =
    | File(name: Name, meta: Meta)
    | Dir(name: Name, meta: Meta, children: seq<Node>)

  /** What `statSync` reports: whether the entry is a directory, and the rest of the metadata. */
  datatype Stats = Stats(isDirectory: bool, meta: Meta)

  /** The error codes `readdirSync` throws for a bad directory argument. */
  datatype Errno = ENOENT | ENOTDIR

  /** `statSync` of an entry: its type is read off the tree, so stats and shape never disagree. */
  function Stat(n: Node): Stats
  {
    Stats(n.Dir?, n.meta)
  }

  /** `readdirSync` of a directory: the names of its entries, in listing order. */
  function Readdir(d: Node): seq<Name>
    requires d.Dir?
  {
    seq(|d.children|, k requires 0 <= k < |d.children| => d.children[k].name)
  }

  /** The path of entry `name` of directory `dir`, built as `dir + path.sep + name`. */
  function ChildPath(dir: Path, name: Name): (p: Path)
    ensures dir + [Sep] <= p
    ensures |p| == |dir| + 1 + |name|
    ensures p[|dir| + 1..] == name
  {
    dir + [Sep] + name
  }

  /** The path `path.resolve` produces for the absolute path with segments `segs`. */
  function RootPath(segs: seq<Name>): (p: Path)
    ensures |p| > 0 && p[0] == Sep
  {
    if segs == [] then [Sep] else Absolute(segs)
  }

  /** `"/" + segs[0] + "/" + ... + "/" + segs[|segs| - 1]`. */
  function Absolute(segs: seq<Name>): (p: Path)
    requires segs != []
    ensures |p| > 0 && p[0] == Sep
  {
    if |segs| == 1 then ChildPath([], segs[0])
    else ChildPath(Absolute(segs[..|segs| - 1]), segs[|segs| - 1])
  }

  /** The position of the first entry called `name`, if any. */
  function FindChild(cs: seq<Node>, name: Name): (r: Option<nat>)
    ensures r.Some? ==> r.value < |cs| && cs[r.value].name == name
    ensures r.Some? ==> forall j :: 0 <= j < r.value ==> cs[j].name != name
    ensures r.None? ==> forall j :: 0 <= j < |cs| ==> cs[j].name != name
  {
    if cs == [] then None
    else if cs[0].name == name then Some(0)
    else match FindChild(cs[1..], name)
      case None => None
      case Some(k) => Some(k + 1)
  }

  /**
   * Resolves the segments `segs` below `at`, the way the operating system does for a
   * directory argument: a missing component is ENOENT, a component below a file is ENOTDIR.
   */
  function Lookup(at: Node, segs: seq<Name>): Result<Node, Errno>
    decreases |segs|
  {
    if segs == [] then Success(at)
    else if at.File? then Failure(ENOTDIR)
    else match FindChild(at.children, segs[0])
      case None => Failure(ENOENT)
      case Some(k) => Lookup(at.children[k], segs[1..])
  }

  /** One directory step: the entry `name` of directory `d`, as a lookup resolves it. */
  function Step(d: Node, name: Name): Result<Node, Errno>
  {
    if d.File? then Failure(ENOTDIR)
    else match FindChild(d.children, name)
      case None => Failure(ENOENT)
      case Some(k) => Success(d.children[k])
  }

  /**
   * Resolving one more segment: `segs + [name]` resolves by resolving `segs` and then
   * looking `name` up in what that gave, and an error at `segs` is the error of the whole.
   */
  lemma {:induction false} LookupSnoc(at: Node, segs: seq<Name>, name: Name)
    ensures Lookup(at, segs + [name]) ==
      match Lookup(at, segs)
      case Failure(e) => Failure(e)
      case Success(d) => Step(d, name)
    decreases |segs|
  {
    if segs == [] {
      assert segs + [name] == [name];
    } else {
      assert (segs + [name])[0] == segs[0];
      assert (segs + [name])[1..] == segs[1..] + [name];
      if at.Dir? {
        match FindChild(at.children, segs[0])
        case None =>
        case Some(k) => LookupSnoc(at.children[k], segs[1..], name);
      }
    }
  }
}
