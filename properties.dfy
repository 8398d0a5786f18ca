/**
 * Properties of the klaw-sync walk. The reference is `Listing`: every entry beneath a
 * directory in pre-order, siblings in listing order, each with the items of the
 * directories between it and the walk's root. The walk selects from it exactly the
 * entries the options emit whose every ancestor directory the walker descended into.
 */
module KlawSyncProperties {
  import opened Wrappers
  import opened FileSystem
  import opened KlawSync

  /** An entry of the tree, with the items of its ancestor directories, outermost first. */
  datatype Placed = Placed(item: Item, ancestors: seq<Item>)

  /** Entry `n` of the directory at `dir` followed by everything beneath it. */
  function ListingOf(dir: Path, n: Node, anc: seq<Item>): seq<Placed>
    decreases n
  {
    var it := ItemOf(dir, n);
    [Placed(it, anc)] + (if n.Dir? then Listing(it.path, n.children, anc + [it]) else [])
  }

  /** Everything beneath the entries `cs` of the directory at `dir`, in pre-order. */
  function Listing(dir: Path, cs: seq<Node>, anc: seq<Item>): seq<Placed>
    decreases cs
  {
    if cs == [] then [] else ListingOf(dir, cs[0], anc) + Listing(dir, cs[1..], anc)
  }

  function Items(ps: seq<Placed>): (r: seq<Item>)
    ensures |r| == |ps|
    ensures forall k :: 0 <= k < |ps| ==> r[k] == ps[k].item
  {
    if ps == [] then [] else [ps[0].item] + Items(ps[1..])
  }

  /** The items of every entry strictly beneath the directory at `dir`, in pre-order. */
  function Everything(dir: Path, cs: seq<Node>): seq<Item>
  {
    Items(Listing(dir, cs, []))
  }

  /** The number of entries strictly beneath a directory with entries `cs`. */
  function Count(cs: seq<Node>): nat
    decreases cs
  {
    if cs == [] then 0 else CountOf(cs[0]) + Count(cs[1..])
  }

  function CountOf(n: Node): nat
    decreases n
  {
    1 + if n.Dir? then Count(n.children) else 0
  }

  /** The walker descends into every directory in `anc`. */
  predicate AllDescend(opts: Options, anc: seq<Item>)
  {
    forall a :: a in anc ==> Descends(opts, a)
  }

  /** The items the options emit, of entries whose ancestors are all descended into. */
  function Select(ps: seq<Placed>, opts: Options): seq<Item>
  {
    if ps == [] then []
    else
      (if Emits(opts, ps[0].item) && AllDescend(opts, ps[0].ancestors) then [ps[0].item] else [])
      + Select(ps[1..], opts)
  }

  /** The items of `s` the options emit, in order. */
  function Keep(s: seq<Item>, opts: Options): seq<Item>
  {
    if s == [] then [] else (if Emits(opts, s[0]) then [s[0]] else []) + Keep(s[1..], opts)
  }

  /** The items of `s` that are not directories, in order. */
  function NonDirectories(s: seq<Item>): seq<Item>
  {
    if s == [] then [] else (if s[0].stats.isDirectory then [] else [s[0]]) + NonDirectories(s[1..])
  }

  /** The items of `s` that are directories, in order. */
  function Directories(s: seq<Item>): seq<Item>
  {
    if s == [] then [] else (if s[0].stats.isDirectory then [s[0]] else []) + Directories(s[1..])
  }

  /** The items of the entries `cs` themselves, without anything beneath them. */
  function Children(dir: Path, cs: seq<Node>): seq<Item>
  {
    if cs == [] then [] else [ItemOf(dir, cs[0])] + Children(dir, cs[1..])
  }

  /** `a` is `b` with some elements removed, the rest kept in order. */
  predicate IsSubsequence(a: seq<Item>, b: seq<Item>)
    decreases |b|
  {
    if b == [] then a == []
    else (a != [] && a[0] == b[0] && IsSubsequence(a[1..], b[1..])) || IsSubsequence(a, b[1..])
  }

  // ---------------------------------------------------------------------------
  // Concatenation

  lemma {:induction false} SelectAppend(a: seq<Placed>, b: seq<Placed>, opts: Options)
    ensures Select(a + b, opts) == Select(a, opts) + Select(b, opts)
    decreases a
  {
    if a == [] {
      assert a + b == b;
    } else {
      assert (a + b)[0] == a[0];
      assert (a + b)[1..] == a[1..] + b;
      SelectAppend(a[1..], b, opts);
    }
  }

  // ---------------------------------------------------------------------------
  // The walk selects from the listing

  lemma AllDescendSnoc(opts: Options, anc: seq<Item>, it: Item)
    ensures AllDescend(opts, anc + [it]) <==> AllDescend(opts, anc) && Descends(opts, it)
  {
  }

  /** Entry `n` contributes to the walk exactly what selecting from its listing keeps. */
  lemma {:induction false} VisitIsSelect(dir: Path, n: Node, anc: seq<Item>, opts: Options)
    ensures Select(ListingOf(dir, n, anc), opts) ==
      if AllDescend(opts, anc) then Visit(dir, n, opts) else []
    decreases n
  {
    var it := ItemOf(dir, n);
    var rest := if n.Dir? then Listing(it.path, n.children, anc + [it]) else [];
    assert ListingOf(dir, n, anc) == [Placed(it, anc)] + rest;
    SelectAppend([Placed(it, anc)], rest, opts);
    assert Select([Placed(it, anc)], opts) ==
      if Emits(opts, it) && AllDescend(opts, anc) then [it] else [];
    if n.Dir? {
      WalkIsSelectFrom(it.path, n.children, anc + [it], opts);
      AllDescendSnoc(opts, anc, it);
    }
  }

  lemma {:induction false} WalkIsSelectFrom(dir: Path, cs: seq<Node>, anc: seq<Item>, opts: Options)
    ensures Select(Listing(dir, cs, anc), opts) ==
      if AllDescend(opts, anc) then Walk(dir, cs, opts) else []
    decreases cs
  {
    if cs != [] {
      SelectAppend(ListingOf(dir, cs[0], anc), Listing(dir, cs[1..], anc), opts);
      VisitIsSelect(dir, cs[0], anc, opts);
      WalkIsSelectFrom(dir, cs[1..], anc, opts);
    }
  }

  /**
   * The walk is the pre-order listing of the tree beneath the root, keeping exactly the
   * entries the options emit none of whose ancestor directories was pruned.
   */
  lemma WalkIsSelect(dir: Path, cs: seq<Node>, opts: Options)
    ensures Walk(dir, cs, opts) == Select(Listing(dir, cs, []), opts)
  {
    WalkIsSelectFrom(dir, cs, [], opts);
  }

  // ---------------------------------------------------------------------------
  // Without pruning: completeness, nodir, nofile, and the default recursion

  lemma {:induction false} SelectIsKeep(ps: seq<Placed>, opts: Options)
    requires forall it :: Descends(opts, it)
    ensures Select(ps, opts) == Keep(Items(ps), opts)
  {
    if ps != [] {
      assert Items(ps)[1..] == Items(ps[1..]);
      SelectIsKeep(ps[1..], opts);
    }
  }

  /**
   * Unless `noRecurseOnFailedFilter` is set together with a filter, every directory is
   * descended into: the walk is every entry beneath the root that the options emit, so a
   * directory the filter rejects is left out while its accepted descendants still appear.
   */
  lemma WalkWithoutPruning(dir: Path, cs: seq<Node>, opts: Options)
    requires opts.filter.None? || !opts.noRecurseOnFailedFilter
    ensures Walk(dir, cs, opts) == Keep(Everything(dir, cs), opts)
  {
    WalkIsSelect(dir, cs, opts);
    SelectIsKeep(Listing(dir, cs, []), opts);
  }

  lemma {:induction false} KeepDefault(s: seq<Item>)
    ensures Keep(s, DefaultOptions()) == s
  {
    if s != [] {
      KeepDefault(s[1..]);
    }
  }

  lemma {:induction false} ListingCount(dir: Path, cs: seq<Node>, anc: seq<Item>)
    ensures |Listing(dir, cs, anc)| == Count(cs)
    decreases cs
  {
    if cs != [] {
      var n := cs[0];
      var it := ItemOf(dir, n);
      if n.Dir? {
        ListingCount(it.path, n.children, anc + [it]);
      }
      ListingCount(dir, cs[1..], anc);
    }
  }

  /**
   * Completeness: with no options the walk emits every entry strictly beneath the root,
   * one item per entry, in pre-order.
   */
  lemma FullWalk(dir: Path, cs: seq<Node>)
    ensures Walk(dir, cs, DefaultOptions()) == Everything(dir, cs)
    ensures |Walk(dir, cs, DefaultOptions())| == Count(cs)
  {
    WalkWithoutPruning(dir, cs, DefaultOptions());
    KeepDefault(Everything(dir, cs));
    ListingCount(dir, cs, []);
  }

  lemma {:induction false} KeepNodir(s: seq<Item>, opts: Options)
    requires opts.nodir && !opts.nofile && opts.filter.None?
    ensures Keep(s, opts) == NonDirectories(s)
  {
    if s != [] {
      KeepNodir(s[1..], opts);
    }
  }

  lemma {:induction false} KeepNofile(s: seq<Item>, opts: Options)
    requires opts.nofile && !opts.nodir && opts.filter.None?
    ensures Keep(s, opts) == Directories(s)
  {
    if s != [] {
      KeepNofile(s[1..], opts);
    }
  }

  /** `nodir` without a filter: the full walk with every directory item removed. */
  lemma WalkNodir(dir: Path, cs: seq<Node>, opts: Options)
    requires opts.nodir && !opts.nofile && opts.filter.None?
    ensures Walk(dir, cs, opts) == NonDirectories(Walk(dir, cs, DefaultOptions()))
  {
    WalkWithoutPruning(dir, cs, opts);
    FullWalk(dir, cs);
    KeepNodir(Everything(dir, cs), opts);
  }

  /** `nofile` without a filter: the full walk with every non-directory item removed. */
  lemma WalkNofile(dir: Path, cs: seq<Node>, opts: Options)
    requires opts.nofile && !opts.nodir && opts.filter.None?
    ensures Walk(dir, cs, opts) == Directories(Walk(dir, cs, DefaultOptions()))
  {
    WalkWithoutPruning(dir, cs, opts);
    FullWalk(dir, cs);
    KeepNofile(Everything(dir, cs), opts);
  }

  // ---------------------------------------------------------------------------
  // Soundness of what is emitted

  lemma {:induction false} SelectSound(ps: seq<Placed>, opts: Options)
    ensures forall it :: it in Select(ps, opts) ==> Emits(opts, it)
    ensures IsSubsequence(Select(ps, opts), Items(ps))
  {
    if ps != [] {
      SelectSound(ps[1..], opts);
      var a, b := Select(ps, opts), Items(ps);
      assert b[1..] == Items(ps[1..]);
      if Emits(opts, ps[0].item) && AllDescend(opts, ps[0].ancestors) {
        assert a[0] == b[0] && a[1..] == Select(ps[1..], opts);
      } else {
        assert a == Select(ps[1..], opts);
      }
    }
  }

  /**
   * Every emitted item passes the filter, is no directory under `nodir` and no
   * non-directory under `nofile`; and the walk is the full listing with items removed.
   */
  lemma WalkSound(dir: Path, cs: seq<Node>, opts: Options)
    ensures forall it :: it in Walk(dir, cs, opts) ==>
      && (opts.filter.Some? ==> opts.filter.value(it))
      && (opts.nodir ==> !it.stats.isDirectory)
      && (opts.nofile ==> it.stats.isDirectory)
    ensures IsSubsequence(Walk(dir, cs, opts), Everything(dir, cs))
  {
    WalkIsSelect(dir, cs, opts);
    SelectSound(Listing(dir, cs, []), opts);
  }

  // ---------------------------------------------------------------------------
  // One entry at a time: order, recursion and pruning

  /** The entries are processed in listing order, each one's subtree before its next sibling. */
  lemma WalkAt(dir: Path, cs: seq<Node>, k: nat, opts: Options)
    requires k < |cs|
    ensures Walk(dir, cs, opts) ==
      Walk(dir, cs[..k], opts) + Visit(dir, cs[k], opts) + Walk(dir, cs[k + 1..], opts)
  {
    assert cs == cs[..k] + cs[k..];
    WalkAppend(dir, cs[..k], cs[k..], opts);
    assert cs[k..][0] == cs[k] && cs[k..][1..] == cs[k + 1..];
  }

  /**
   * Pre-order: an emitted directory is immediately followed by its own subtree's items,
   * and both come after the earlier siblings' items and before the later ones'.
   */
  lemma EmittedDirectoryThenSubtree(dir: Path, cs: seq<Node>, k: nat, opts: Options)
    requires k < |cs| && cs[k].Dir? && Emits(opts, ItemOf(dir, cs[k]))
    ensures var it := ItemOf(dir, cs[k]);
      Walk(dir, cs, opts) ==
        Walk(dir, cs[..k], opts) + [it] + Walk(it.path, cs[k].children, opts)
        + Walk(dir, cs[k + 1..], opts)
  {
    WalkAt(dir, cs, k, opts);
  }

  /** A directory the filter rejects is left out, but its subtree is still walked in its place. */
  lemma FailedDirectoryStillWalked(dir: Path, cs: seq<Node>, k: nat, opts: Options)
    requires k < |cs| && cs[k].Dir?
    requires opts.filter.Some? && !opts.noRecurseOnFailedFilter
    requires !opts.filter.value(ItemOf(dir, cs[k]))
    ensures var it := ItemOf(dir, cs[k]);
      Walk(dir, cs, opts) ==
        Walk(dir, cs[..k], opts) + Walk(it.path, cs[k].children, opts) + Walk(dir, cs[k + 1..], opts)
  {
    WalkAt(dir, cs, k, opts);
  }

  /**
   * With a filter and `noRecurseOnFailedFilter`, a directory the filter rejects, or one it
   * accepts while `nodir` is set, contributes nothing: neither it nor anything beneath it.
   */
  lemma PrunedDirectoryOmitted(dir: Path, cs: seq<Node>, k: nat, opts: Options)
    requires k < |cs| && cs[k].Dir?
    requires opts.filter.Some? && opts.noRecurseOnFailedFilter
    requires !opts.filter.value(ItemOf(dir, cs[k])) || opts.nodir
    ensures Walk(dir, cs, opts) == Walk(dir, cs[..k], opts) + Walk(dir, cs[k + 1..], opts)
  {
    WalkAt(dir, cs, k, opts);
  }

  /** A non-directory contributes at most its own item and is never recursed into. */
  lemma NonDirectoryIsLeaf(dir: Path, cs: seq<Node>, k: nat, opts: Options)
    requires k < |cs| && cs[k].File?
    ensures var it := ItemOf(dir, cs[k]);
      Walk(dir, cs, opts) ==
        Walk(dir, cs[..k], opts) + (if Emits(opts, it) then [it] else []) + Walk(dir, cs[k + 1..], opts)
  {
    WalkAt(dir, cs, k, opts);
  }

  /**
   * The `nodir` quirk: with a filter, `nodir` and `noRecurseOnFailedFilter` no directory
   * is descended into, even one the filter accepts, so only the root's own
   * non-directory entries that the filter accepts are returned.
   */
  lemma {:induction false} NodirWithPruningStaysAtTop(dir: Path, cs: seq<Node>, opts: Options)
    requires opts.filter.Some? && opts.nodir && opts.noRecurseOnFailedFilter
    ensures Walk(dir, cs, opts) == Keep(Children(dir, cs), opts)
    ensures forall it :: it in Walk(dir, cs, opts) ==> !it.stats.isDirectory
  {
    if cs != [] {
      NodirWithPruningStaysAtTop(dir, cs[1..], opts);
    }
  }

  // ---------------------------------------------------------------------------
  // Paths

  lemma PrefixTransitive<T>(a: seq<T>, b: seq<T>, c: seq<T>)
    requires a <= b && b <= c
    ensures a <= c
  {
  }

  /**
   * Every item's path extends the walked directory's path by a separator: the root
   * itself is never emitted, and an entry's path lies beneath its directory's.
   */
  lemma {:induction false} WalkBeneath(dir: Path, cs: seq<Node>, opts: Options)
    ensures forall it :: it in Walk(dir, cs, opts) ==> dir + [Sep] <= it.path && it.path != dir
    decreases cs
  {
    if cs != [] {
      var n := cs[0];
      var it := ItemOf(dir, n);
      if n.Dir? {
        WalkBeneath(it.path, n.children, opts);
        forall x | x in Walk(it.path, n.children, opts) ensures dir + [Sep] <= x.path {
          PrefixTransitive(dir + [Sep], it.path, it.path + [Sep]);
          PrefixTransitive(dir + [Sep], it.path + [Sep], x.path);
        }
      }
      WalkBeneath(dir, cs[1..], opts);
    }
  }
  // ---------------------------------------------------------------------------
  // Pre-order: ancestors come first

  /** Predicate form of the pre-order property, for the listing `L` below ancestors `anc`. */
  predicate AncestorsEarlier(L: seq<Placed>, anc: seq<Item>)
  {
    forall j, a :: 0 <= j < |L| && a in L[j].ancestors ==>
      a in anc || exists i :: 0 <= i < j && L[i].item == a
  }

  lemma {:induction false} AncestorsEarlierOf(dir: Path, n: Node, anc: seq<Item>)
    ensures AncestorsEarlier(ListingOf(dir, n, anc), anc)
    decreases n
  {
    var it := ItemOf(dir, n);
    var L := ListingOf(dir, n, anc);
    var R := if n.Dir? then Listing(it.path, n.children, anc + [it]) else [];
    assert L == [Placed(it, anc)] + R;
    if n.Dir? {
      AncestorsEarlierFrom(it.path, n.children, anc + [it]);
    }
    forall j, a | 0 <= j < |L| && a in L[j].ancestors
      ensures a in anc || exists i :: 0 <= i < j && L[i].item == a
    {
      if j > 0 {
        assert L[j] == R[j - 1];
        if a in anc + [it] {
          if a !in anc {
            assert L[0].item == a;
          }
        } else {
          var i :| 0 <= i < j - 1 && R[i].item == a;
          assert L[i + 1].item == a;
        }
      }
    }
  }

  lemma {:induction false} AncestorsEarlierFrom(dir: Path, cs: seq<Node>, anc: seq<Item>)
    ensures AncestorsEarlier(Listing(dir, cs, anc), anc)
    decreases cs
  {
    if cs != [] {
      var A := ListingOf(dir, cs[0], anc);
      var B := Listing(dir, cs[1..], anc);
      var L := Listing(dir, cs, anc);
      assert L == A + B;
      AncestorsEarlierOf(dir, cs[0], anc);
      AncestorsEarlierFrom(dir, cs[1..], anc);
      forall j, a | 0 <= j < |L| && a in L[j].ancestors
        ensures a in anc || exists i :: 0 <= i < j && L[i].item == a
      {
        if j < |A| {
          assert L[j] == A[j];
          if a !in anc {
            var i :| 0 <= i < j && A[i].item == a;
            assert L[i].item == a;
          }
        } else {
          assert L[j] == B[j - |A|];
          if a !in anc {
            var i :| 0 <= i < j - |A| && B[i].item == a;
            assert L[i + |A|].item == a;
          }
        }
      }
    }
  }

  /**
   * Pre-order: every ancestor directory of an entry is listed before it. With no options
   * the walk is this listing (`FullWalk`), so a directory precedes all its descendants.
   */
  lemma AncestorsPrecede(dir: Path, cs: seq<Node>)
    ensures var L := Listing(dir, cs, []);
      forall j, a :: 0 <= j < |L| && a in L[j].ancestors ==>
        exists i :: 0 <= i < j && L[i].item == a
  {
    var L := Listing(dir, cs, []);
    AncestorsEarlierFrom(dir, cs, []);
    forall j, a | 0 <= j < |L| && a in L[j].ancestors
      ensures exists i :: 0 <= i < j && L[i].item == a
    {
      assert a !in [];
    }
  }

  // ---------------------------------------------------------------------------
  // Shape of the listing

  /** Predicate form of `ListingShape` for one placed entry. */
  predicate WellPlaced(dir: Path, anc: seq<Item>, p: Placed)
  {
    && anc <= p.ancestors
    && dir + [Sep] <= p.item.path
    && forall a :: a in p.ancestors[|anc|..] ==> a.stats.isDirectory && a.path + [Sep] <= p.item.path
  }

  lemma {:induction false} ListingShapeOf(dir: Path, n: Node, anc: seq<Item>)
    ensures forall p :: p in ListingOf(dir, n, anc) ==> WellPlaced(dir, anc, p)
    decreases n
  {
    var it := ItemOf(dir, n);
    assert WellPlaced(dir, anc, Placed(it, anc));
    if n.Dir? {
      var anc' := anc + [it];
      ListingShapeFrom(it.path, n.children, anc');
      forall p | p in Listing(it.path, n.children, anc') ensures WellPlaced(dir, anc, p) {
        assert WellPlaced(it.path, anc', p);
        PrefixTransitive(anc, anc', p.ancestors);
        PrefixTransitive(dir + [Sep], it.path, it.path + [Sep]);
        PrefixTransitive(dir + [Sep], it.path + [Sep], p.item.path);
        assert p.ancestors[|anc|..] == [it] + p.ancestors[|anc'|..];
      }
    }
  }

  lemma {:induction false} ListingShapeFrom(dir: Path, cs: seq<Node>, anc: seq<Item>)
    ensures forall p :: p in Listing(dir, cs, anc) ==> WellPlaced(dir, anc, p)
    decreases cs
  {
    if cs != [] {
      ListingShapeOf(dir, cs[0], anc);
      ListingShapeFrom(dir, cs[1..], anc);
    }
  }

  /**
   * Every listed entry lies beneath the root, and its path extends the path of each of
   * its ancestors, which are all directories: the entry's path is its parent's path, a
   * separator and its name, level after level.
   */
  lemma ListingShape(dir: Path, cs: seq<Node>)
    ensures forall p :: p in Listing(dir, cs, []) ==>
      && dir + [Sep] <= p.item.path
      && forall a :: a in p.ancestors ==> a.stats.isDirectory && a.path + [Sep] <= p.item.path
  {
    ListingShapeFrom(dir, cs, []);
    forall p | p in Listing(dir, cs, []) ensures p.ancestors[0..] == p.ancestors {
    }
  }
}
