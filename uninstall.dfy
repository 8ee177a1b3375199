/**
 * The dependency graph over installed mods and the commands that remove
 * mods: `get_dependents`, `remove_installed_mod`, `force_remove_mod`,
 * `cascade_uninstall` and `reindex_mods`.
 *
 * Deleting a mod's files (`uninstall_mod` of the installer library) is
 * modelled as removing its path and everything below it.
 */
module Uninstall {
  import opened Common
  import opened Text
  import opened Files
  import opened Store

  /** The two framework mods, recognised by `remove_installed_mod` in any letter case. */
  predicate IsFramework(name: string) {
    ToLower(name) == "steamodded" || ToLower(name) == "talisman"
  }

  /** The dependents of `name` other than `name` itself. */
  function RealDependents(rows: map<string, ModRow>, name: string): set<string> {
    set y | y in rows && DependsOn(rows, y, name) && y != name
  }

  /** `xs` with every occurrence of `name` filtered out, order kept. */
  function Drop(xs: seq<string>, name: string): (r: seq<string>)
    ensures forall y :: y in r <==> y in xs && y != name
    ensures Distinct(xs) ==> Distinct(r)
  {
    if xs == [] then []
    else if xs[0] == name then Drop(xs[1..], name)
    else
      assert Distinct(xs) ==> Distinct(xs[1..]) && xs[0] !in xs[1..];
      [xs[0]] + Drop(xs[1..], name)
  }

  /**
   * `get_dependents` command: the rows depending on `modName`, without
   * `modName` itself even when its own row lists it as a dependency.
   */
  method GetDependentsCommand(db: Database, modName: string) returns (r: seq<string>)
    ensures modName !in r
    ensures forall y :: y in r <==> y in RealDependents(db.rows, modName)
    ensures Distinct(r)
  {
    var all := db.GetDependents(modName);
    r := Drop(all, modName);
  }

  /**
   * `remove_installed_mod`: a framework that still has dependents other than
   * itself is refused and nothing changes; otherwise `path` is deleted and the
   * row removed.
   */
  method RemoveInstalledModCommand(db: Database, fs: FileSystem, name: string, path: Path) returns (r: Result<()>)
    requires fs.Valid()
    modifies db, fs
    ensures fs.Valid()
    ensures IsFramework(name) && RealDependents(old(db.rows), name) != {} ==>
      && r == Err(HasDependents(name, |RealDependents(old(db.rows), name)|))
      && db.rows == old(db.rows) && fs.nodes == old(fs.nodes)
    ensures !(IsFramework(name) && RealDependents(old(db.rows), name) != {}) ==>
      && r == Ok(())
      && db.rows == old(db.rows) - {name}
      && fs.nodes == Prune(old(fs.nodes), path)
  {
    if IsFramework(name) {
      var all := db.GetDependents(name);
      var others := Drop(all, name);
      if |others| > 0 {
        DistinctCard(others, RealDependents(db.rows, name));
        return Err(HasDependents(name, |others|));
      }
      assert forall y :: y !in RealDependents(db.rows, name);
    }
    fs.RemoveAll(path);
    db.RemoveInstalledMod(name);
    r := Ok(());
  }

  /** `force_remove_mod`: `path` is deleted and the row removed, dependents or not. */
  method ForceRemoveMod(db: Database, fs: FileSystem, name: string, path: Path)
    requires fs.Valid()
    modifies db, fs
    ensures fs.Valid()
    ensures db.rows == old(db.rows) - {name}
    ensures fs.nodes == Prune(old(fs.nodes), path)
  {
    fs.RemoveAll(path);
    db.RemoveInstalledMod(name);
  }

  /** `p` is a chain of dependents from `root`: every name depends on the one before it. */
  ghost predicate DependentChain(rows: map<string, ModRow>, root: string, p: seq<string>) {
    |p| > 0 && p[0] == root && forall i :: 0 < i < |p| ==> DependsOn(rows, p[i], p[i - 1])
  }

  /** `y` depends on `root`, directly or through other mods (or is `root`). */
  ghost predicate Reaches(rows: map<string, ModRow>, root: string, y: string) {
    exists p :: DependentChain(rows, root, p) && p[|p| - 1] == y
  }

  /** The rows a cascade from `root` must remove: `root` and everything that transitively depends on it. */
  ghost function Closure(rows: map<string, ModRow>, root: string): set<string> {
    set y | y in rows && Reaches(rows, root, y)
  }

  /** Every dependent of a member of `s` is in `s`. */
  ghost predicate ClosedUnderDependents(rows: map<string, ModRow>, s: set<string>) {
    forall x, y :: x in s && DependsOn(rows, y, x) ==> y in s
  }

  lemma ReachesRoot(rows: map<string, ModRow>, root: string)
    ensures Reaches(rows, root, root)
  {
    assert DependentChain(rows, root, [root]);
  }

  /** A dependent of a reachable mod is reachable. */
  lemma ReachesStep(rows: map<string, ModRow>, root: string, x: string, y: string)
    requires Reaches(rows, root, x) && DependsOn(rows, y, x)
    ensures Reaches(rows, root, y)
  {
    var p :| DependentChain(rows, root, p) && p[|p| - 1] == x;
    var q := p + [y];
    assert DependentChain(rows, root, q);
  }

  /** A set that holds `root` and is closed under dependents holds the end of every chain from `root`. */
  lemma {:induction false} ChainEndsInClosedSet(rows: map<string, ModRow>, root: string, s: set<string>, p: seq<string>)
    requires root in s && ClosedUnderDependents(rows, s)
    requires DependentChain(rows, root, p)
    ensures p[|p| - 1] in s
    decreases |p|
  {
    if |p| > 1 {
      var init := p[..|p| - 1];
      assert DependentChain(rows, root, init);
      ChainEndsInClosedSet(rows, root, s, init);
      assert DependsOn(rows, p[|p| - 1], p[|p| - 2]);
    }
  }

  /** The closure is the least set containing `root` that is closed under dependents. */
  lemma ClosureIsLeast(rows: map<string, ModRow>, root: string, s: set<string>)
    requires root in s && ClosedUnderDependents(rows, s)
    ensures Closure(rows, root) <= s
  {
    forall y | y in Closure(rows, root)
      ensures y in s
    {
      var p :| DependentChain(rows, root, p) && p[|p| - 1] == y;
      ChainEndsInClosedSet(rows, root, s, p);
    }
  }

  /** The closure holds `root` and is itself closed under dependents. */
  lemma ClosureIsClosed(rows: map<string, ModRow>, root: string)
    requires root in rows
    ensures root in Closure(rows, root)
    ensures ClosedUnderDependents(rows, Closure(rows, root))
  {
    ReachesRoot(rows, root);
    forall x, y | x in Closure(rows, root) && DependsOn(rows, y, x)
      ensures y in Closure(rows, root)
    {
      ReachesStep(rows, root, x, y);
    }
  }

  /** The install paths of the rows named in `names`. */
  ghost function PathsOf(rows: map<string, ModRow>, names: set<string>): set<Path>
    requires names <= rows.Keys
  {
    set x | x in names :: rows[x].path
  }

  /**
   * `cascade_uninstall`: a LIFO work list seeded with `root` and a set of the
   * names already handled. Each new name is looked up, its dependents are
   * pushed, its path is deleted and its row removed. On success exactly the
   * rows reachable from `root` by dependency edges are gone, with their
   * paths; every other row is untouched. A `root` with no row fails at once
   * and changes nothing.
   */
  method CascadeUninstall(db: Database, fs: FileSystem, root: string) returns (r: Result<()>)
    requires fs.Valid()
    modifies db, fs
    ensures fs.Valid()
    ensures root !in old(db.rows) ==>
      r == Err(ModNotFound(root)) && db.rows == old(db.rows) && fs.nodes == old(fs.nodes)
    ensures root in old(db.rows) ==>
      && r == Ok(())
      && Closure(old(db.rows), root) <= old(db.rows).Keys
      && db.rows == old(db.rows) - Closure(old(db.rows), root)
      && fs.nodes == PruneAll(old(fs.nodes), PathsOf(old(db.rows), Closure(old(db.rows), root)))
  {
    ghost var rows0 := db.rows;
    ghost var nodes0 := fs.nodes;
    var work := [root];
    var processed: set<string> := {};
    ReachesRoot(rows0, root);
    PruneAllEmpty(nodes0);
    assert rows0 - {} == rows0;
    while work != []
      invariant fs.Valid()
      invariant processed <= rows0.Keys
      invariant db.rows == rows0 - processed
      invariant fs.nodes == PruneAll(nodes0, PathsOf(rows0, processed))
      invariant (work == [root] && processed == {}) || root in processed
      invariant forall x :: x in work ==> x == root || x in rows0
      invariant forall x :: x in work ==> Reaches(rows0, root, x)
      invariant forall x :: x in processed ==> Reaches(rows0, root, x)
      invariant forall x, y :: x in processed && DependsOn(rows0, y, x) ==> y in processed || y in work
      decreases rows0.Keys - processed, |work|
    {
      var current := work[|work| - 1];
      ghost var before := work;
      work := work[..|work| - 1];
      assert forall x :: x in before ==> x in work || x == current;
      if current in processed {
        continue;
      }
      var details := db.GetModDetails(current);
      if details.Err? {
        return Err(details.error);
      }
      ghost var prevProcessed := processed;
      processed := processed + {current};
      var dependents := db.GetDependents(current);
      forall y | y in dependents
        ensures Reaches(rows0, root, y)
      {
        ReachesStep(rows0, root, current, y);
      }
      work := work + dependents;
      fs.RemoveAll(details.value.path);
      PruneAllStep(nodes0, PathsOf(rows0, prevProcessed), rows0[current].path);
      assert PathsOf(rows0, processed) == PathsOf(rows0, prevProcessed) + {rows0[current].path};
      db.RemoveInstalledMod(current);
      assert db.rows == rows0 - processed;
    }
    assert ClosedUnderDependents(rows0, processed);
    ClosureIsLeast(rows0, root, processed);
    assert processed == Closure(rows0, root);
    r := Ok(());
  }

  /** The rows whose recorded path no longer exists. */
  function Stale(rows: map<string, ModRow>, nodes: map<Path, Node>): set<string> {
    set n | n in rows && rows[n].path !in nodes
  }

  /** After the stale rows are removed none is left, and every row whose path exists is kept as it was. */
  lemma ReindexLeavesNoStale(rows: map<string, ModRow>, nodes: map<Path, Node>)
    ensures Stale(rows - Stale(rows, nodes), nodes) == {}
    ensures forall n :: n in rows && rows[n].path in nodes ==> n in rows - Stale(rows, nodes) && (rows - Stale(rows, nodes))[n] == rows[n]
  {
  }

  /** The names at the positions `idx` of `mods`, in that order. */
  function NamesAt(mods: seq<InstalledMod>, idx: seq<nat>): (names: seq<string>)
    requires forall a :: 0 <= a < |idx| ==> idx[a] < |mods|
    ensures |names| == |idx|
    ensures forall a :: 0 <= a < |idx| ==> names[a] == mods[idx[a]].name
  {
    seq(|idx|, a requires 0 <= a < |idx| => mods[idx[a]].name)
  }

  /**
   * When `mods` lists every row once and `idx` is an increasing list of
   * exactly the positions whose path is missing, the names at `idx` are the
   * stale rows, each once.
   */
  lemma StalePositions(rows: map<string, ModRow>, nodes: map<Path, Node>, mods: seq<InstalledMod>, idx: seq<nat>)
    requires forall i :: 0 <= i < |mods| ==>
      mods[i].name in rows && rows[mods[i].name] == ModRow(mods[i].path, mods[i].dependencies, mods[i].currentVersion)
    requires forall n :: n in rows ==> exists i :: 0 <= i < |mods| && mods[i].name == n
    requires forall i, j :: 0 <= i < j < |mods| ==> mods[i].name != mods[j].name
    requires forall a :: 0 <= a < |idx| ==> idx[a] < |mods| && mods[idx[a]].path !in nodes
    requires forall k :: 0 <= k < |mods| && mods[k].path !in nodes ==> k in idx
    requires forall a, b :: 0 <= a < b < |idx| ==> idx[a] < idx[b]
    ensures Distinct(NamesAt(mods, idx))
    ensures forall n :: n in NamesAt(mods, idx) <==> n in Stale(rows, nodes)
  {
    var names := NamesAt(mods, idx);
    forall a, b | 0 <= a < b < |names| ensures names[a] != names[b] {
      assert idx[a] < idx[b];
    }
    forall n ensures n in names <==> n in Stale(rows, nodes) {
      if n in Stale(rows, nodes) {
        var k :| 0 <= k < |mods| && mods[k].name == n;
        var a :| 0 <= a < |idx| && idx[a] == k;
        assert names[a] == n;
      }
    }
  }

  lemma SubtractOneMore(m: map<string, ModRow>, s: set<string>, n: string)
    ensures (m - s) - {n} == m - (s + {n})
  {
  }

  /** The first loop of `reindex_mods`: the positions of `mods` whose path does not exist, increasing. */
  method MissingPositions(mods: seq<InstalledMod>, fs: FileSystem) returns (idx: seq<nat>)
    ensures forall a :: 0 <= a < |idx| ==> idx[a] < |mods| && mods[idx[a]].path !in fs.nodes
    ensures forall k :: 0 <= k < |mods| && mods[k].path !in fs.nodes ==> k in idx
    ensures forall a, b :: 0 <= a < b < |idx| ==> idx[a] < idx[b]
  {
    idx := [];
    for i := 0 to |mods|
      invariant forall a :: 0 <= a < |idx| ==> idx[a] < i && mods[idx[a]].path !in fs.nodes
      invariant forall k :: 0 <= k < i && mods[k].path !in fs.nodes ==> k in idx
      invariant forall a, b :: 0 <= a < b < |idx| ==> idx[a] < idx[b]
    {
      if mods[i].path !in fs.nodes {
        idx := idx + [i];
      }
    }
  }

  /** The second loop of `reindex_mods`: the rows named at `idx` are removed, last position first. */
  method RemoveAtPositions(db: Database, mods: seq<InstalledMod>, idx: seq<nat>)
    requires forall a :: 0 <= a < |idx| ==> idx[a] < |mods|
    modifies db
    ensures db.rows == old(db.rows) - Elements(NamesAt(mods, idx))
  {
    ghost var rows0 := db.rows;
    ghost var names := NamesAt(mods, idx);
    var j := |idx|;
    assert rows0 - Elements(names[j..]) == rows0;
    while j > 0
      invariant 0 <= j <= |idx|
      invariant db.rows == rows0 - Elements(names[j..])
    {
      j := j - 1;
      ghost var removed := Elements(names[j + 1..]);
      db.RemoveInstalledMod(mods[idx[j]].name);
      assert names[j..] == [names[j]] + names[j + 1..];
      assert Elements(names[j..]) == removed + {names[j]};
      SubtractOneMore(rows0, removed, names[j]);
    }
    assert names[0..] == names;
  }

  /**
   * `reindex_mods`: collects the positions of the rows whose path is gone,
   * then removes those rows from the store (never from disk), and reports
   * `(0, number removed)`.
   */
  method ReindexMods(db: Database, fs: FileSystem) returns (r: (nat, nat))
    modifies db
    ensures db.rows == old(db.rows) - Stale(old(db.rows), fs.nodes)
    ensures r == (0, |Stale(old(db.rows), fs.nodes)|)
  {
    ghost var rows0 := db.rows;
    var mods := db.GetInstalledMods();
    var toRemove := MissingPositions(mods, fs);
    var cleaned := |toRemove|;
    ghost var names := NamesAt(mods, toRemove);
    StalePositions(rows0, fs.nodes, mods, toRemove);
    DistinctCard(names, Stale(rows0, fs.nodes));
    RemoveAtPositions(db, mods, toRemove);
    assert Elements(names[0..]) == Stale(rows0, fs.nodes);
    r := (0, cleaned);
  }
}
