/**
 * The synchronous recursive directory walker of klaw-sync: a depth-first, pre-order
 * walk that appends `{path, stats}` items to one accumulator threaded through the
 * recursion. `nodir`, `nofile`, `filter` and `noRecurseOnFailedFilter` decide which
 * entries are emitted and which directories are descended into.
 */
module KlawSync {
  import opened Wrappers
  import opened FileSystem

  /** One emitted entry: `{path, stats}`. */
  datatype Item = Item(path: Path, stats: Stats)

  /**
   * The options the walker reads. A missing option is `false` (or no filter); the
   * filter's truthy or falsy result is modelled as a boolean.
   */
  datatype Options = Options(
    nodir: bool,
    nofile: bool,
    noRecurseOnFailedFilter: bool,
    filter: Option<Item -> bool>)

  /** The options `{}` that `klawSync` uses when none are given. */
  function DefaultOptions(): Options
  {
    Options(false, false, false, None)
  }

  /** The item for entry `n` of the directory at `dir`. */
  function ItemOf(dir: Path, n: Node): Item
  {
    Item(ChildPath(dir, n.name), Stat(n))
  }

  /** The filter accepts `it`, or there is no filter. */
  predicate Passes(opts: Options, it: Item)
  {
    opts.filter.None? || opts.filter.value(it)
  }

  /** Whether the walker pushes `it` onto the accumulator. */
  predicate Emits(opts: Options, it: Item)
  {
    Passes(opts, it) && if it.stats.isDirectory then !opts.nodir else !opts.nofile
  }

  /**
   * Whether the walker recurses into the directory with item `it`. With a filter, the
   * else branch of the source is taken both by a directory the filter rejects and by one
   * it accepts while `nodir` is set; `noRecurseOnFailedFilter` prunes both.
   */
  predicate Descends(opts: Options, it: Item)
  {
    || opts.filter.None?
    || (opts.filter.value(it) && !opts.nodir)
    || !opts.noRecurseOnFailedFilter
  }

  /** What processing entry `n` of the directory at `dir` appends, its subtree included. */
  function Visit(dir: Path, n: Node, opts: Options): seq<Item>
    decreases n
  {
    var it := ItemOf(dir, n);
    (if Emits(opts, it) then [it] else [])
    + (if n.Dir? && Descends(opts, it) then Walk(it.path, n.children, opts) else [])
  }

  /** What walking the entries `cs` of the directory at `dir` appends, in listing order. */
  function Walk(dir: Path, cs: seq<Node>, opts: Options): seq<Item>
    decreases cs
  {
    if cs == [] then [] else Visit(dir, cs[0], opts) + Walk(dir, cs[1..], opts)
  }

  /** The entries are processed one after another: walking `a + b` is walking `a`, then `b`. */
  lemma {:induction false} WalkAppend(dir: Path, a: seq<Node>, b: seq<Node>, opts: Options)
    ensures Walk(dir, a + b, opts) == Walk(dir, a, opts) + Walk(dir, b, opts)
    decreases a
  {
    if a == [] {
      assert a + b == b;
    } else {
      assert (a + b)[0] == a[0];
      assert (a + b)[1..] == a[1..] + b;
      WalkAppend(dir, a[1..], b, opts);
    }
  }

  /** Regrouping concatenations, stated once so the loop body need not search for it. */
  lemma AppendAssoc<T>(a: seq<T>, b: seq<T>, c: seq<T>)
    ensures (a + b) + c == a + (b + c)
  {
  }

  /** Extending the processed prefix of the listing by one entry appends that entry's items. */
  lemma WalkSnoc(dir: Path, cs: seq<Node>, i: nat, opts: Options)
    requires i < |cs|
    ensures Walk(dir, cs[..i + 1], opts) == Walk(dir, cs[..i], opts) + Visit(dir, cs[i], opts)
  {
    assert cs[..i + 1] == cs[..i] + [cs[i]];
    WalkAppend(dir, cs[..i], [cs[i]], opts);
    assert Walk(dir, [cs[i]], opts) == Visit(dir, cs[i], opts) + Walk(dir, [], opts);
  }

  /**
   * `_klawSync(dir, opts, ls)`: walks the directory `d` found at path `dir` and returns
   * `ls` with the items of its subtree appended.
   */
  method WalkDir(dir: Path, d: Node, opts: Options, ls0: seq<Item>) returns (ls: seq<Item>)
    requires d.Dir?
    ensures ls == ls0 + Walk(dir, d.children, opts)
    decreases d
  {
    var names := Readdir(d);
    var paths := seq(|names|, k requires 0 <= k < |names| => ChildPath(dir, names[k]));
    ls := ls0;
    for i := 0 to |paths|
      invariant ls == ls0 + Walk(dir, d.children[..i], opts)
    {
      var child := d.children[i];
      var pi := paths[i];
      var st := Stat(child);
      var item := Item(pi, st);
      assert item == ItemOf(dir, child);
      ghost var before := ls;
      if st.isDirectory {
        if opts.filter.Some? {
          if opts.filter.value(item) && !opts.nodir {
            ls := ls + [item];
            ls := WalkDir(pi, child, opts, ls);
            assert Visit(dir, child, opts) == [item] + Walk(pi, child.children, opts);
            AppendAssoc(before, [item], Walk(pi, child.children, opts));
          } else {
            if !opts.noRecurseOnFailedFilter {
              ls := WalkDir(pi, child, opts, ls);
              assert Visit(dir, child, opts) == Walk(pi, child.children, opts);
            } else {
              assert Visit(dir, child, opts) == [];
            }
          }
        } else {
          if !opts.nodir {
            ls := ls + [item];
          }
          ls := WalkDir(pi, child, opts, ls);
          assert Visit(dir, child, opts) ==
            (if opts.nodir then [] else [item]) + Walk(pi, child.children, opts);
          AppendAssoc(before, if opts.nodir then [] else [item], Walk(pi, child.children, opts));
        }
      } else {
        if opts.filter.Some? {
          if opts.filter.value(item) && !opts.nofile {
            ls := ls + [item];
          }
        } else {
          if !opts.nofile {
            ls := ls + [item];
          }
        }
      }
      ghost var visited := Visit(dir, child, opts);
      assert ls == before + visited;
      WalkSnoc(dir, d.children, i, opts);
      ghost var done := Walk(dir, d.children[..i], opts);
      AppendAssoc(ls0, done, visited);
    }
    assert d.children[..|paths|] == d.children;
  }

  /**
   * `klawSync(dir, opts)`: walks the directory at the resolved path `root` of the file
   * system `fs`, starting from an empty accumulator. A root that does not resolve fails
   * with the lookup's error, a root that is not a directory with ENOTDIR.
   */
  method KlawSync(fs: Node, root: seq<Name>, opts: Option<Options>)
    returns (r: Result<seq<Item>, Errno>)
    ensures Lookup(fs, root).Failure? ==> r == Failure(Lookup(fs, root).error)
    ensures Lookup(fs, root).Success? && Lookup(fs, root).value.File? ==> r == Failure(ENOTDIR)
    ensures Lookup(fs, root).Success? && Lookup(fs, root).value.Dir? ==>
      r == Success(Walk(RootPath(root), Lookup(fs, root).value.children, opts.GetOr(DefaultOptions())))
  {
    var dir := RootPath(root);
    var o := opts.GetOr(DefaultOptions());
    var found := Lookup(fs, root);
    match found
    case Failure(e) =>
      r := Failure(e);
    case Success(d) =>
      if d.File? {
        r := Failure(ENOTDIR);
      } else {
        var ls := WalkDir(dir, d, o, []);
        assert ls == Walk(dir, d.children, o);
        r := Success(ls);
      }
  }
}
