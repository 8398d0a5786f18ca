/**
 * The directory tree the test suite builds (dirs `dir1`, `dir2`, `dir2/dir2_1`,
 * `dir2/dir2_1/dir2_1_1`; files `dir1/file1_2`, `dir2/dir2_1/file2_1_1`, `file1`),
 * with its entries in alphabetical listing order, and the walk of it with no options.
 */
module KlawSyncFixtures {
  import opened FileSystem
  import opened KlawSync

  const M := Meta(0, 0, 0)
  const Root := "/tmp/klaw-sync"

  function Paths(s: seq<Item>): (ps: seq<Path>)
    ensures |ps| == |s| && forall k :: 0 <= k < |s| ==> ps[k] == s[k].path
  {
    seq(|s|, k requires 0 <= k < |s| => s[k].path)
  }

  function Dir1(): Node { Dir("dir1", M, [File("file1_2", M)]) }
  function Dir21(): Node { Dir("dir2_1", M, [Dir("dir2_1_1", M, []), File("file2_1_1", M)]) }
  function Dir2(): Node { Dir("dir2", M, [Dir21()]) }
  function TestTree(): seq<Node> { [Dir1(), Dir2(), File("file1", M)] }

  lemma WalkDir1()
    ensures Paths(Visit(Root, Dir1(), DefaultOptions())) ==
      ["/tmp/klaw-sync/dir1", "/tmp/klaw-sync/dir1/file1_2"]
  {
    var o, dir := DefaultOptions(), "/tmp/klaw-sync/dir1";
    var f := File("file1_2", M);
    assert ChildPath(Root, "dir1") == dir;
    assert ChildPath(dir, "file1_2") == "/tmp/klaw-sync/dir1/file1_2";
    assert Visit(dir, f, o) == [ItemOf(dir, f)];
    assert [f][1..] == [];
    assert Walk(dir, [f], o) == Visit(dir, f, o) + Walk(dir, [], o);
    assert Visit(Root, Dir1(), o) == [ItemOf(Root, Dir1())] + Walk(dir, [f], o);
  }

  lemma WalkDir21()
    ensures Paths(Visit("/tmp/klaw-sync/dir2", Dir21(), DefaultOptions())) ==
      [ "/tmp/klaw-sync/dir2/dir2_1", "/tmp/klaw-sync/dir2/dir2_1/dir2_1_1",
        "/tmp/klaw-sync/dir2/dir2_1/file2_1_1" ]
  {
    var o, dir := DefaultOptions(), "/tmp/klaw-sync/dir2/dir2_1";
    var d, f := Dir("dir2_1_1", M, []), File("file2_1_1", M);
    assert ChildPath("/tmp/klaw-sync/dir2", "dir2_1") == dir;
    assert ChildPath(dir, "dir2_1_1") == "/tmp/klaw-sync/dir2/dir2_1/dir2_1_1";
    assert ChildPath(dir, "file2_1_1") == "/tmp/klaw-sync/dir2/dir2_1/file2_1_1";
    assert Walk(dir, [f], o) == [ItemOf(dir, f)];
    assert Visit(dir, d, o) == [ItemOf(dir, d)];
    assert Walk(dir, [d, f], o) == [ItemOf(dir, d), ItemOf(dir, f)];
    assert Visit("/tmp/klaw-sync/dir2", Dir21(), o) ==
      [ItemOf("/tmp/klaw-sync/dir2", Dir21())] + Walk(dir, [d, f], o);
  }

  lemma WalkDir2()
    ensures Paths(Visit(Root, Dir2(), DefaultOptions())) ==
      [ "/tmp/klaw-sync/dir2", "/tmp/klaw-sync/dir2/dir2_1", "/tmp/klaw-sync/dir2/dir2_1/dir2_1_1",
        "/tmp/klaw-sync/dir2/dir2_1/file2_1_1" ]
  {
    var o, dir := DefaultOptions(), "/tmp/klaw-sync/dir2";
    assert ChildPath(Root, "dir2") == dir;
    WalkDir21();
    assert [Dir21()][1..] == [];
    assert Walk(dir, [Dir21()], o) == Visit(dir, Dir21(), o) + Walk(dir, [], o);
    assert Visit(Root, Dir2(), o) == [ItemOf(Root, Dir2())] + Walk(dir, [Dir21()], o);
  }

  /** The walk of the test tree lists every entry in pre-order, siblings in listing order. */
  lemma FixtureFullWalk()
    ensures Paths(Walk(Root, TestTree(), DefaultOptions())) ==
      [ "/tmp/klaw-sync/dir1", "/tmp/klaw-sync/dir1/file1_2", "/tmp/klaw-sync/dir2",
        "/tmp/klaw-sync/dir2/dir2_1", "/tmp/klaw-sync/dir2/dir2_1/dir2_1_1",
        "/tmp/klaw-sync/dir2/dir2_1/file2_1_1", "/tmp/klaw-sync/file1" ]
  {
    var o, f := DefaultOptions(), File("file1", M);
    WalkDir1();
    WalkDir2();
    assert ChildPath(Root, "file1") == "/tmp/klaw-sync/file1";
    assert Walk(Root, [f], o) == [ItemOf(Root, f)];
    assert [Dir2(), f][1..] == [f];
    assert Walk(Root, [Dir2(), f], o) == Visit(Root, Dir2(), o) + [ItemOf(Root, f)];
    assert TestTree()[1..] == [Dir2(), f];
    assert Walk(Root, TestTree(), o) == Visit(Root, Dir1(), o) + Walk(Root, [Dir2(), f], o);
  }
}
