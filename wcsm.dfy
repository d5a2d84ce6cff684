/**
 * wcsm ("web change stop motion"): on a change outside the output directory, and at most
 * once a second, fetch every target page, inline its resources and store it as
 * `<output>/<pathfromuri(uri)>/<seconds>.html` unless it equals the target's most recent
 * snapshot.
 */
module Wcsm {
  import opened Wrappers
  import opened Env
  import PathName
  import Debouncer
  import PosixPath
  import Inliner
  import ChangeFilter
  import opened LexOrder
  import opened SnapshotStore

  /** Why a grab cycle stopped: inlining a target raised, or its directory is gone. */
  datatype GrabError = InlineFailed(uri: string, cause: Inliner.InlineError) | MissingDirectory(dir: string)

  predicate NoDuplicates(s: seq<string>) {
    forall i, j :: 0 <= i < j < |s| ==> s[i] != s[j]
  }

  /** `list(set(uris))`: every target once; the source leaves the order unspecified. */
  function Distinct(uris: seq<string>): (r: seq<string>)
    ensures NoDuplicates(r)
    ensures forall u :: u in r <==> u in uris
  {
    if uris == [] then []
    else
      var rest := Distinct(uris[1..]);
      if uris[0] in rest then rest else [uris[0]] + rest
  }

  /** The name of a target's directory under the output directory. */
  function DirName(lib: Lib, uri: string): string {
    PathName.PathFromUri(lib.parse(uri))
  }

  /** Targets whose directories are pairwise different. */
  predicate DistinctDirs(lib: Lib, uris: seq<string>) {
    forall i, j :: 0 <= i < j < |uris| ==> DirName(lib, uris[i]) != DirName(lib, uris[j])
  }

  function DirNames(lib: Lib, uris: seq<string>): set<string> {
    set u | u in uris :: DirName(lib, u)
  }

  /** A target's page as fetched and inlined. */
  ghost function Page(lib: Lib, net: Net, uri: string): Result<seq<Element>, Inliner.InlineError> {
    Inliner.InlineSpec(lib, net, uri, lib.parseHtml(net(uri).data))
  }

  /**
   * One target's part of a grab cycle: fetch, inline, then store unless unchanged. It fails
   * exactly when inlining raises or the directory is gone, and creates no directory.
   */
  ghost function StoreOne(lib: Lib, net: Net, tree: Tree, uri: string, name: string): (r: Result<Tree, GrabError>)
    ensures r.Failure? <==> Page(lib, net, uri).Failure? || DirName(lib, uri) !in tree
    ensures r.Failure? && r.error.InlineFailed? ==> r.error.uri == uri
    ensures r.Success? ==> r.value.Keys == tree.Keys
  {
    var dir := DirName(lib, uri);
    match Page(lib, net, uri)
    case Failure(cause) => Failure(InlineFailed(uri, cause))
    case Success(doc) =>
      if dir !in tree then Failure(MissingDirectory(dir))
      else Success(tree[dir := Consider(lib.md5, tree[dir], name, lib.render(doc))])
  }

  /**
   * A grab cycle over the targets, in order, all under the one snapshot name: the tree it
   * leaves and the error that stopped it, if any. Writes made before the error stay.
   */
  ghost function GrabAll(lib: Lib, net: Net, tree: Tree, uris: seq<string>, name: string): (r: (Tree, Option<GrabError>))
    ensures r.0.Keys == tree.Keys
    ensures r.1.Some? && r.1.value.InlineFailed? ==> r.1.value.uri in uris
    decreases |uris|
  {
    if uris == [] then (tree, None)
    else
      var prev := GrabAll(lib, net, tree, uris[..|uris| - 1], name);
      if prev.1.Some? then prev
      else
        match StoreOne(lib, net, prev.0, uris[|uris| - 1], name)
        case Failure(err) => (prev.0, Some(err))
        case Success(next) => (next, None)
  }

  /** Once a target's error stops the cycle, the later targets are not processed. */
  lemma {:induction false} GrabStopsAtError(lib: Lib, net: Net, tree: Tree, uris: seq<string>, i: nat, name: string)
    requires i <= |uris| && GrabAll(lib, net, tree, uris[..i], name).1.Some?
    ensures GrabAll(lib, net, tree, uris, name) == GrabAll(lib, net, tree, uris[..i], name)
    decreases |uris|
  {
    if i < |uris| {
      assert uris[..|uris| - 1][..i] == uris[..i];
      GrabStopsAtError(lib, net, tree, uris[..|uris| - 1], i, name);
    } else {
      assert uris[..i] == uris;
    }
  }

  /**
   * From `before` to `after` no directory was created or removed, only the directories in
   * `dirs` changed, no file was added but one named `name`, and every other file is as it was.
   */
  ghost predicate WritesOnly(before: Tree, after: Tree, dirs: set<string>, name: string) {
    && after.Keys == before.Keys
    && (forall d :: d in before && d !in dirs ==> after[d] == before[d])
    && (forall d :: d in before ==> after[d].Keys <= before[d].Keys + {name})
    && (forall d, f :: d in before && f in before[d] && f != name ==> f in after[d] && after[d][f] == before[d][f])
  }

  lemma WritesOnlyTrans(t0: Tree, t1: Tree, t2: Tree, d1: set<string>, d2: set<string>, name: string)
    requires WritesOnly(t0, t1, d1, name) && WritesOnly(t1, t2, d2, name)
    ensures WritesOnly(t0, t2, d1 + d2, name)
  {
  }

  /** A target's step touches only the target's directory, and there only the file `name`. */
  lemma StoreOneWritesOnly(lib: Lib, net: Net, tree: Tree, uri: string, name: string)
    requires StoreOne(lib, net, tree, uri, name).Success?
    ensures WritesOnly(tree, StoreOne(lib, net, tree, uri, name).value, {DirName(lib, uri)}, name)
  {
  }

  lemma DirNamesSnoc(lib: Lib, s: seq<string>, u: string)
    ensures DirNames(lib, s + [u]) == DirNames(lib, s) + {DirName(lib, u)}
  {
    assert forall v :: v in s + [u] <==> v in s || v == u;
  }

  /**
   * A grab cycle creates no directory, changes only the directories of its targets, adds
   * no file but one under the cycle's name, and leaves every other file as it was.
   */
  lemma {:induction false} GrabWritesOnlySnapshot(lib: Lib, net: Net, tree: Tree, uris: seq<string>, name: string)
    ensures WritesOnly(tree, GrabAll(lib, net, tree, uris, name).0, DirNames(lib, uris), name)
    decreases |uris|
  {
    if uris != [] {
      var init, last := uris[..|uris| - 1], uris[|uris| - 1];
      assert uris == init + [last];
      GrabWritesOnlySnapshot(lib, net, tree, init, name);
      DirNamesSnoc(lib, init, last);
      var prev := GrabAll(lib, net, tree, init, name);
      if prev.1.None? && StoreOne(lib, net, prev.0, last, name).Success? {
        StoreOneWritesOnly(lib, net, prev.0, last, name);
        WritesOnlyTrans(tree, prev.0, GrabAll(lib, net, tree, uris, name).0, DirNames(lib, init), {DirName(lib, last)}, name);
      }
    }
  }

  /** In `after`, a target's directory is what considering its page under `name` in `before` gives. */
  ghost predicate Stored(lib: Lib, net: Net, before: Tree, after: Tree, uri: string, name: string) {
    var d := DirName(lib, uri);
    && d in before && d in after && Page(lib, net, uri).Success?
    && after[d] == Consider(lib.md5, before[d], name, lib.render(Page(lib, net, uri).value))
  }

  /** A cycle without error over targets with distinct directories stores each page in its own. */
  lemma {:induction false} GrabAllStores(lib: Lib, net: Net, tree: Tree, uris: seq<string>, name: string, j: nat)
    requires DistinctDirs(lib, uris) && GrabAll(lib, net, tree, uris, name).1.None? && j < |uris|
    ensures Stored(lib, net, tree, GrabAll(lib, net, tree, uris, name).0, uris[j], name)
    decreases |uris|
  {
    var init := uris[..|uris| - 1];
    if j < |init| {
      GrabAllSnoc(lib, net, tree, uris, name);
      DistinctDirsPrefix(lib, uris);
      GrabAllStores(lib, net, tree, init, name, j);
      StoresEarlier(lib, net, tree, uris, name, j);
    } else {
      StoresLast(lib, net, tree, uris, name);
    }
  }

  /** An earlier target stays stored when the last one is stored. */
  lemma StoresEarlier(lib: Lib, net: Net, tree: Tree, uris: seq<string>, name: string, j: nat)
    requires DistinctDirs(lib, uris) && GrabAll(lib, net, tree, uris, name).1.None? && j < |uris| - 1
    requires Stored(lib, net, tree, GrabAll(lib, net, tree, uris[..|uris| - 1], name).0, uris[..|uris| - 1][j], name)
    ensures Stored(lib, net, tree, GrabAll(lib, net, tree, uris, name).0, uris[j], name)
  {
    var init, last := uris[..|uris| - 1], uris[|uris| - 1];
    GrabAllSnoc(lib, net, tree, uris, name);
    assert init[j] == uris[j];
    StoredAfterOther(lib, net, tree, GrabAll(lib, net, tree, init, name).0, uris[j], last, name);
  }

  lemma DistinctDirsPrefix(lib: Lib, uris: seq<string>)
    requires uris != [] && DistinctDirs(lib, uris)
    ensures DistinctDirs(lib, uris[..|uris| - 1])
  {
    assert forall i :: 0 <= i < |uris| - 1 ==> uris[..|uris| - 1][i] == uris[i];
  }

  /** The last target of a cycle without error finds its directory as the cycle found it. */
  lemma StoresLast(lib: Lib, net: Net, tree: Tree, uris: seq<string>, name: string)
    requires uris != [] && DistinctDirs(lib, uris) && GrabAll(lib, net, tree, uris, name).1.None?
    ensures Stored(lib, net, tree, GrabAll(lib, net, tree, uris, name).0, uris[|uris| - 1], name)
  {
    var init := uris[..|uris| - 1];
    GrabAllSnoc(lib, net, tree, uris, name);
    LastDirFresh(lib, uris);
    GrabAllKeeps(lib, net, tree, init, name, DirName(lib, uris[|uris| - 1]));
  }

  /** In targets with distinct directories, the last one's directory is no earlier one's. */
  lemma LastDirFresh(lib: Lib, uris: seq<string>)
    requires uris != [] && DistinctDirs(lib, uris)
    ensures DirName(lib, uris[|uris| - 1]) !in DirNames(lib, uris[..|uris| - 1])
  {
    var init := uris[..|uris| - 1];
    forall u | u in init
      ensures DirName(lib, u) != DirName(lib, uris[|uris| - 1])
    {
      var i :| 0 <= i < |init| && init[i] == u;
      assert uris[i] == u;
    }
  }

  /** A cycle leaves a directory none of its targets use as it was. */
  lemma GrabAllKeeps(lib: Lib, net: Net, tree: Tree, uris: seq<string>, name: string, d: string)
    requires d in tree && d !in DirNames(lib, uris)
    ensures GrabAll(lib, net, tree, uris, name).0[d] == tree[d]
  {
    GrabWritesOnlySnapshot(lib, net, tree, uris, name);
  }

  /** A cycle without error: the targets before the last, then the last one's step. */
  lemma GrabAllSnoc(lib: Lib, net: Net, tree: Tree, uris: seq<string>, name: string)
    requires uris != [] && GrabAll(lib, net, tree, uris, name).1.None?
    ensures var prev := GrabAll(lib, net, tree, uris[..|uris| - 1], name);
      && prev.1.None?
      && StoreOne(lib, net, prev.0, uris[|uris| - 1], name).Success?
      && GrabAll(lib, net, tree, uris, name).0 == StoreOne(lib, net, prev.0, uris[|uris| - 1], name).value
  {
  }

  /** A target's step leaves every other target's directory as it was. */
  lemma StoredAfterOther(lib: Lib, net: Net, tree: Tree, prev: Tree, u: string, last: string, name: string)
    requires Stored(lib, net, tree, prev, u, name)
    requires StoreOne(lib, net, prev, last, name).Success? && DirName(lib, u) != DirName(lib, last)
    ensures Stored(lib, net, tree, StoreOne(lib, net, prev, last, name).value, u, name)
  {
  }

  /** A cycle in which no target changes the tree leaves it as it is. */
  lemma {:induction false} GrabAllIdle(lib: Lib, net: Net, t: Tree, uris: seq<string>, name: string)
    requires forall j :: 0 <= j < |uris| ==> StoreOne(lib, net, t, uris[j], name) == Success(t)
    ensures GrabAll(lib, net, t, uris, name) == (t, None)
    decreases |uris|
  {
    if uris != [] {
      var init := uris[..|uris| - 1];
      assert forall j :: 0 <= j < |init| ==> init[j] == uris[j];
      GrabAllIdle(lib, net, t, init, name);
    }
  }

  /** The target whose error stopped a cycle, and the tree the targets before it left. */
  lemma {:induction false} GrabAllFails(lib: Lib, net: Net, tree: Tree, uris: seq<string>, name: string) returns (k: nat)
    requires GrabAll(lib, net, tree, uris, name).1.Some?
    ensures k < |uris| && GrabAll(lib, net, tree, uris[..k], name).1.None?
    ensures var prev := GrabAll(lib, net, tree, uris[..k], name).0;
      && StoreOne(lib, net, prev, uris[k], name).Failure?
      && GrabAll(lib, net, tree, uris, name) == (prev, Some(StoreOne(lib, net, prev, uris[k], name).error))
    decreases |uris|
  {
    var init := uris[..|uris| - 1];
    if GrabAll(lib, net, tree, init, name).1.Some? {
      k := GrabAllFails(lib, net, tree, init, name);
      assert init[..k] == uris[..k];
    } else {
      k := |uris| - 1;
    }
  }

  /**
   * Regrabbing a cycle whose pages all went through: when the first name sorts after every
   * file in the targets' directories, the second cycle, over the same pages, changes nothing.
   */
  lemma RegrabIdle(lib: Lib, net: Net, tree: Tree, uris: seq<string>, n1: string, n2: string)
    requires DistinctDirs(lib, uris) && GrabAll(lib, net, tree, uris, n1).1.None?
    requires forall j, f :: 0 <= j < |uris| && DirName(lib, uris[j]) in tree && f in tree[DirName(lib, uris[j])] ==> LessEq(f, n1)
    ensures var first := GrabAll(lib, net, tree, uris, n1).0;
      GrabAll(lib, net, first, uris, n2) == (first, None)
  {
    var first := GrabAll(lib, net, tree, uris, n1).0;
    forall j | 0 <= j < |uris|
      ensures StoreOne(lib, net, first, uris[j], n2) == Success(first)
    {
      GrabAllStores(lib, net, tree, uris, n1, j);
      StoredStaysStored(lib, net, tree, first, uris[j], n1, n2);
    }
    GrabAllIdle(lib, net, first, uris, n2);
  }

  /** A page stored under a name sorting after the directory's files is not stored again. */
  lemma StoredStaysStored(lib: Lib, net: Net, tree: Tree, t: Tree, uri: string, n1: string, n2: string)
    requires Stored(lib, net, tree, t, uri, n1)
    requires forall f :: f in tree[DirName(lib, uri)] ==> LessEq(f, n1)
    ensures StoreOne(lib, net, t, uri, n2) == Success(t)
  {
    var d := DirName(lib, uri);
    StoredOnce(lib.md5, tree[d], n1, n2, lib.render(Page(lib, net, uri).value));
    assert t[d := t[d]] == t;
  }

  /** A target that fails, fails the same way under any snapshot name. */
  lemma FailureIgnoresName(lib: Lib, net: Net, t: Tree, uri: string, n1: string, n2: string)
    requires StoreOne(lib, net, t, uri, n1).Failure?
    ensures StoreOne(lib, net, t, uri, n2) == StoreOne(lib, net, t, uri, n1)
  {
  }

  /**
   * Two grab cycles over the same pages: when the targets' directories are distinct and the
   * first cycle's name sorts after every file already in them, the second cycle, under any
   * name, leaves the tree as the first left it and stops, if at all, with the same error.
   */
  lemma RegrabStoresNothing(lib: Lib, net: Net, tree: Tree, uris: seq<string>, n1: string, n2: string)
    requires DistinctDirs(lib, uris)
    requires forall j, f :: 0 <= j < |uris| && DirName(lib, uris[j]) in tree && f in tree[DirName(lib, uris[j])] ==> LessEq(f, n1)
    ensures var first := GrabAll(lib, net, tree, uris, n1);
      GrabAll(lib, net, first.0, uris, n2) == first
  {
    var first := GrabAll(lib, net, tree, uris, n1);
    if first.1.None? {
      RegrabIdle(lib, net, tree, uris, n1, n2);
    } else {
      var k := GrabAllFails(lib, net, tree, uris, n1);
      var done := uris[..k];
      var prev := GrabAll(lib, net, tree, done, n1).0;
      assert forall j :: 0 <= j < k ==> done[j] == uris[j];
      RegrabIdle(lib, net, tree, done, n1, n2);
      FailureIgnoresName(lib, net, prev, uris[k], n1, n2);
      assert uris[..k + 1][..k] == done;
      assert GrabAll(lib, net, prev, uris[..k + 1], n2) == first;
      GrabStopsAtError(lib, net, prev, uris, k + 1, n2);
    }
  }

  /**
   * Two targets that share a directory defeat the comparison with the most recent file:
   * with different pages each overwrites the other's snapshot, so a second cycle over the
   * very same pages adds a file again.
   */
  lemma CollisionStoresAgain(lib: Lib, net: Net, tree: Tree, a: string, b: string, n1: string, n2: string)
    requires DirName(lib, a) == DirName(lib, b) && DirName(lib, a) in tree
    requires Page(lib, net, a).Success? && Page(lib, net, b).Success?
    requires lib.md5(lib.render(Page(lib, net, a).value)) != lib.md5(lib.render(Page(lib, net, b).value))
    requires forall f :: f in tree[DirName(lib, a)] ==> LessEq(f, n1)
    requires Less(n1, n2)
    ensures var first := GrabAll(lib, net, tree, [a, b], n1).0;
      var second := GrabAll(lib, net, first, [a, b], n2).0;
      var d := DirName(lib, a);
      n2 !in first[d] && n2 in second[d]
  {
    var d := DirName(lib, a);
    var first := GrabAll(lib, net, tree, [a, b], n1).0;
    FirstCycleOverwrites(lib, net, tree, a, b, n1);
    assert n2 !in first[d] by {
      Irreflexive(n1);
      Asymmetric(n1, n2);
    }
    SecondCycleAdds(lib, net, first, a, b, n1, n2);
  }

  /** The first cycle leaves the shared directory's newest file holding the second target's page. */
  lemma FirstCycleOverwrites(lib: Lib, net: Net, tree: Tree, a: string, b: string, n1: string)
    requires DirName(lib, a) == DirName(lib, b) && DirName(lib, a) in tree
    requires Page(lib, net, a).Success? && Page(lib, net, b).Success?
    requires lib.md5(lib.render(Page(lib, net, a).value)) != lib.md5(lib.render(Page(lib, net, b).value))
    requires forall f :: f in tree[DirName(lib, a)] ==> LessEq(f, n1)
    ensures var first := GrabAll(lib, net, tree, [a, b], n1).0;
      var d := DirName(lib, a);
      && first[d].Keys == tree[d].Keys + {n1}
      && first[d][n1] == lib.render(Page(lib, net, b).value)
  {
    var d := DirName(lib, a);
    var fa, fb := lib.render(Page(lib, net, a).value), lib.render(Page(lib, net, b).value);
    var t1 := tree[d := Consider(lib.md5, tree[d], n1, fa)];
    var t2 := t1[d := Consider(lib.md5, t1[d], n1, fb)];
    assert StoreOne(lib, net, tree, a, n1) == Success(t1);
    assert StoreOne(lib, net, t1, b, n1) == Success(t2);
    GrabPair(lib, net, tree, a, b, n1);
    OverwriteLast(lib.md5, tree[d], n1, fa, fb);
  }

  /** The second cycle finds a newest file unlike the first target's page, and adds a file. */
  lemma SecondCycleAdds(lib: Lib, net: Net, t: Tree, a: string, b: string, n1: string, n2: string)
    requires DirName(lib, a) == DirName(lib, b) && DirName(lib, a) in t
    requires Page(lib, net, a).Success?
    requires var files := t[DirName(lib, a)];
      && n1 in files && (forall f :: f in files ==> LessEq(f, n1))
      && lib.md5(files[n1]) != lib.md5(lib.render(Page(lib, net, a).value))
    ensures n2 in GrabAll(lib, net, t, [a, b], n2).0[DirName(lib, a)]
  {
    var d := DirName(lib, a);
    var fa := lib.render(Page(lib, net, a).value);
    var t3 := t[d := Consider(lib.md5, t[d], n2, fa)];
    assert StoreOne(lib, net, t, a, n2) == Success(t3);
    NewAfterLast(lib.md5, t[d], n1, n2, fa);
    GrabPair(lib, net, t, a, b, n2);
  }

  /** A cycle over two targets: the first target's step, then the second's. */
  lemma GrabPair(lib: Lib, net: Net, t: Tree, a: string, b: string, name: string)
    ensures var first := StoreOne(lib, net, t, a, name);
      GrabAll(lib, net, t, [a, b], name)
      == if first.Failure? then (t, Some(first.error))
         else
           var second := StoreOne(lib, net, first.value, b, name);
           if second.Failure? then (first.value, Some(second.error)) else (second.value, None)
  {
    var first := StoreOne(lib, net, t, a, name);
    assert [a][..0] == [];
    assert GrabAll(lib, net, t, [a], name) == if first.Failure? then (t, Some(first.error)) else (first.value, None);
    assert [a, b][..1] == [a];
  }

  /**
   * Two pages with different hashes considered one after the other under the same name,
   * which sorts after every file: the second overwrites whatever the first left.
   */
  lemma OverwriteLast(md5: string -> string, files: Files, n1: string, fa: string, fb: string)
    requires forall f :: f in files ==> LessEq(f, n1)
    requires md5(fa) != md5(fb)
    ensures var r := Consider(md5, Consider(md5, files, n1, fa), n1, fb);
      r.Keys == files.Keys + {n1} && r[n1] == fb
  {
    var once := Consider(md5, files, n1, fa);
    if ShouldWrite(md5, files, fa) {
      GreatestOfInsert(files.Keys, n1);
      assert once.Keys == files.Keys + {n1};
    }
    assert ShouldWrite(md5, once, fb);
  }

  /** When the newest file's hash differs from the page's, a later name is added. */
  lemma NewAfterLast(md5: string -> string, files: Files, n1: string, n2: string, flat: string)
    requires n1 in files && (forall f :: f in files ==> LessEq(f, n1))
    requires md5(files[n1]) != md5(flat)
    ensures n2 in Consider(md5, files, n2, flat)
  {
    forall m | IsGreatest(m, files.Keys)
      ensures m == n1
    {
      GreatestUnique(m, n1, files.Keys);
    }
    assert ShouldWrite(md5, files, flat);
  }

  /** The loop of `__init__` that makes a directory for every target that has none. */
  method CreateDirs(lib: Lib, uris: seq<string>, disk: Disk)
    modifies disk
    ensures disk.dirs.Keys == old(disk.dirs).Keys + DirNames(lib, uris)
    ensures forall d :: d in old(disk.dirs) ==> disk.dirs[d] == old(disk.dirs)[d]
    ensures forall d :: d in disk.dirs && d !in old(disk.dirs) ==> disk.dirs[d] == map[]
  {
    for i := 0 to |uris|
      invariant disk.dirs.Keys == old(disk.dirs).Keys + DirNames(lib, uris[..i])
      invariant forall d :: d in old(disk.dirs) ==> disk.dirs[d] == old(disk.dirs)[d]
      invariant forall d :: d in disk.dirs && d !in old(disk.dirs) ==> disk.dirs[d] == map[]
    {
      var name := DirName(lib, uris[i]);
      if name !in disk.dirs {
        disk.MakeDirs(name);
      }
      assert uris[..i + 1] == uris[..i] + [uris[i]];
      DirNamesSnoc(lib, uris[..i], uris[i]);
    }
    assert uris[..|uris|] == uris;
  }

  class WebGetter {
    /** `debounce_interval`, in milliseconds. */
    const debounceInterval: int := Debouncer.INTERVAL
    var thistime: int
    var lasttime: int
    /** The targets, each once. */
    var urilist: seq<string>
    const lib: Lib

    /**
     * The first part of `__init__`: the timer fields, the distinct targets, and a directory
     * for every target that lacks one. The reachability check is `Reachable`.
     */
    constructor (fetch: seq<string>, lib: Lib, disk: Disk)
      modifies disk
      ensures thistime == 0 && lasttime == 0 && this.lib == lib
      ensures NoDuplicates(urilist) && forall u :: u in urilist <==> u in fetch
      ensures disk.dirs.Keys == old(disk.dirs).Keys + DirNames(lib, urilist)
      ensures forall d :: d in old(disk.dirs) ==> disk.dirs[d] == old(disk.dirs)[d]
      ensures forall d :: d in disk.dirs && d !in old(disk.dirs) ==> disk.dirs[d] == map[]
    {
      thistime, lasttime := 0, 0;
      urilist := Distinct(fetch);
      this.lib := lib;
      new;
      CreateDirs(lib, urilist, disk);
    }

    /** The startup check of `__init__`: the first target whose status is not 200, if any. */
    method Reachable(net: Net) returns (bad: Option<string>)
      ensures bad.None? <==> forall k :: 0 <= k < |urilist| ==> net(urilist[k]).status == 200
      ensures bad.Some? ==>
                exists k :: 0 <= k < |urilist| && bad.value == urilist[k] && net(urilist[k]).status != 200
                            && forall j :: 0 <= j < k ==> net(urilist[j]).status == 200
    {
      for i := 0 to |urilist|
        invariant forall j :: 0 <= j < i ==> net(urilist[j]).status == 200
      {
        var req := net(urilist[i]);
        if req.status != 200 {
          return Some(urilist[i]);
        }
      }
      return None;
    }

    /** `debounce()`, with the clock's reading in milliseconds as `now`. */
    method Debounce(now: int) returns (ok: bool)
      modifies this`thistime, this`lasttime
      ensures ok == Debouncer.Accepts(old(lasttime), now)
      ensures thistime == now && lasttime == (if ok then now else old(lasttime))
    {
      thistime := now;
      if thistime - lasttime > debounceInterval {
        lasttime := thistime;
        return true;
      } else {
        return false;
      }
    }

    /** The body of `grab`'s loop for one target: fetch, inline, compare with the most recent file, write. */
    method StoreTarget(net: Net, uri: string, name: string, disk: Disk) returns (err: Option<GrabError>)
      modifies disk
      ensures match StoreOne(lib, net, old(disk.dirs), uri, name)
        case Success(t) => err == None && disk.dirs == t
        case Failure(e) => err == Some(e) && disk.dirs == old(disk.dirs)
    {
      var dir := DirName(lib, uri);
      var req := net(uri);
      var inlined := Inliner.Inline(lib, net, req.data, uri);
      if inlined.Failure? {
        return Some(InlineFailed(uri, inlined.error));
      }
      var flat := lib.render(inlined.value);
      var thishash := lib.md5(flat);
      if dir !in disk.dirs {
        return Some(MissingDirectory(dir));
      }
      var oldfiles := disk.dirs[dir];
      var goahead := false;
      if oldfiles.Keys != {} {
        GreatestExists(oldfiles.Keys);
        var mostrecent :| IsGreatest(mostrecent, oldfiles.Keys);
        GreatestUnique(mostrecent, Greatest(oldfiles.Keys), oldfiles.Keys);
        var pasthash := lib.md5(oldfiles[mostrecent]);
        if pasthash != thishash {
          goahead := true;
        }
      } else {
        goahead := true;
      }
      assert goahead == ShouldWrite(lib.md5, oldfiles, flat);
      if goahead {
        disk.Write(dir, name, flat);
      }
      err := None;
    }

    /**
     * `grab()`, with the clock read as `nowMillis` by the gate and as `nowSeconds` for the
     * snapshot name. A refused trigger changes nothing on disk; an accepted one runs
     * GrabAll over the targets.
     */
    method Grab(net: Net, nowMillis: int, nowSeconds: nat, disk: Disk) returns (err: Option<GrabError>)
      modifies this`thistime, this`lasttime, disk
      ensures thistime == nowMillis
      ensures !Debouncer.Accepts(old(lasttime), nowMillis) ==>
                lasttime == old(lasttime) && disk.dirs == old(disk.dirs) && err == None
      ensures Debouncer.Accepts(old(lasttime), nowMillis) ==>
                lasttime == nowMillis
                && (disk.dirs, err) == GrabAll(lib, net, old(disk.dirs), urilist, SnapshotName(nowSeconds))
    {
      var go := Debounce(nowMillis);
      if !go {
        return None;
      }
      var name := SnapshotName(nowSeconds);
      for i := 0 to |urilist|
        modifies disk
        invariant GrabAll(lib, net, old(disk.dirs), urilist[..i], name) == (disk.dirs, None)
      {
        assert urilist[..i + 1][..i] == urilist[..i];
        var e := StoreTarget(net, urilist[i], name, disk);
        if e.Some? {
          GrabStopsAtError(lib, net, old(disk.dirs), urilist, i + 1, name);
          return e;
        }
      }
      assert urilist[..|urilist|] == urilist;
      err := None;
    }
  }

  /**
   * `WebGetter(options)` in full: build the getter and its directories, then abort with the
   * offending target when some target does not answer 200.
   */
  method Startup(fetch: seq<string>, lib: Lib, net: Net, disk: Disk) returns (r: Result<WebGetter, string>)
    modifies disk
    ensures r.Failure? <==> exists u :: u in fetch && net(u).status != 200
    ensures r.Failure? ==> r.error in fetch && net(r.error).status != 200
    ensures r.Success? ==>
              && fresh(r.value) && r.value.lib == lib && r.value.lasttime == 0
              && NoDuplicates(r.value.urilist) && (forall u :: u in r.value.urilist <==> u in fetch)
    ensures disk.dirs.Keys == old(disk.dirs).Keys + DirNames(lib, fetch)
    ensures forall d :: d in old(disk.dirs) ==> disk.dirs[d] == old(disk.dirs)[d]
    ensures forall d :: d in disk.dirs && d !in old(disk.dirs) ==> disk.dirs[d] == map[]
  {
    var wg := new WebGetter(fetch, lib, disk);
    assert DirNames(lib, wg.urilist) == DirNames(lib, fetch);
    var bad := wg.Reachable(net);
    if bad.Some? {
      return Failure(bad.value);
    }
    forall u | u in fetch
      ensures net(u).status == 200
    {
      var k :| 0 <= k < |wg.urilist| && wg.urilist[k] == u;
    }
    return Success(wg);
  }

  class EventHandler {
    /** The output directory, as `os.path.abspath` gives it. */
    const ignore: string
    const webgetter: WebGetter

    constructor (wg: WebGetter, output: string)
      ensures webgetter == wg && ignore == output
    {
      webgetter := wg;
      ignore := output;
    }

    /** The loop at the head of `on_any_event`: walk the ancestors of the changed path. */
    method Filter(src: string) returns (v: ChangeFilter.Verdict)
      ensures v == ChangeFilter.EventVerdict(ignore, src)
    {
      var emittedpath := PosixPath.Split(src);
      while |emittedpath.0| >= |ignore|
        invariant ChangeFilter.Walk(ignore, emittedpath.0) == ChangeFilter.EventVerdict(ignore, src)
        decreases |emittedpath.0|
      {
        if emittedpath.0 != ignore {
          var next := PosixPath.Split(emittedpath.0);
          if |next.0| >= |emittedpath.0| {
            // an all-slash head splits to itself: the source's loop never ends here
            return ChangeFilter.Spin;
          }
          emittedpath := next;
        } else {
          return ChangeFilter.Ignore;
        }
      }
      return ChangeFilter.Trigger;
    }

    /** `on_any_event`: grab unless the change comes from inside the output directory. */
    method OnAnyEvent(src: string, net: Net, nowMillis: int, nowSeconds: nat, disk: Disk)
      returns (err: Option<GrabError>)
      modifies webgetter`thistime, webgetter`lasttime, disk
      ensures ChangeFilter.EventVerdict(ignore, src) != ChangeFilter.Trigger ==>
                err == None && unchanged(webgetter) && disk.dirs == old(disk.dirs)
      ensures ChangeFilter.EventVerdict(ignore, src) == ChangeFilter.Trigger ==>
                webgetter.thistime == nowMillis
                && (!Debouncer.Accepts(old(webgetter.lasttime), nowMillis) ==>
                      webgetter.lasttime == old(webgetter.lasttime) && disk.dirs == old(disk.dirs) && err == None)
                && (Debouncer.Accepts(old(webgetter.lasttime), nowMillis) ==>
                      webgetter.lasttime == nowMillis
                      && (disk.dirs, err)
                         == GrabAll(webgetter.lib, net, old(disk.dirs), webgetter.urilist, SnapshotName(nowSeconds)))
    {
      var v := Filter(src);
      if v != ChangeFilter.Trigger {
        return None;
      }
      err := webgetter.Grab(net, nowMillis, nowSeconds, disk);
    }
  }
}
