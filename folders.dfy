/**
 * Housekeeping of the mods directory: `refresh_mods_folder` deletes the
 * entries no installed mod accounts for, and `delete_manual_mod` deletes a
 * mod the user placed there by hand, refusing paths outside the directory.
 */
module Folders {
  import opened Common
  import opened Text
  import opened Files
  import opened Store

  /** The text of an absolute path, each component after a '/'. */
  function PathText(p: Path): (t: string)
    ensures |p| > 0 ==> |t| > 0 && t[0] == '/'
  {
    if |p| == 0 then "" else "/" + p[0] + PathText(p[1..])
  }

  /** A component of a path occurs in the path's text. */
  lemma {:induction false} ComponentInPathText(p: Path, i: nat)
    requires i < |p|
    ensures Contains(PathText(p), p[i])
    decreases i
  {
    var rest := PathText(p[1..]);
    assert PathText(p) == "/" + p[0] + rest;
    assert PathText(p)[1 + |p[0]|..] == rest;
    if i == 0 {
      assert PathText(p)[1..1 + |p[0]|] == p[0];
      ContainsAt(PathText(p), p[0], 1);
    } else {
      ComponentInPathText(p[1..], i - 1);
      var j := ContainsWitness(rest, p[i]);
      var k := 1 + |p[0]| + j;
      assert PathText(p)[k..k + |p[i]|] == rest[j..j + |p[i]|];
      ContainsAt(PathText(p), p[i], k);
    }
  }

  /** The mod-loader's own entries, whose names contain "lovely", are never touched. */
  predicate LoaderEntry(name: string) {
    Contains(name, ".lovely") || Contains(name, "lovely")
  }

  /** Some recorded mod path contains `name` as a substring. */
  predicate Recorded(rows: map<string, ModRow>, name: string) {
    exists n :: n in rows && Contains(PathText(rows[n].path), name)
  }

  /** The entries of the mods directory that `refresh_mods_folder` deletes. */
  function Stray(nodes: map<Path, Node>, modsDir: Path, rows: map<string, ModRow>): set<Path> {
    set n | n in ChildNames(nodes, modsDir) && !LoaderEntry(n) && !Recorded(rows, n) :: modsDir + [n]
  }

  /** In a tree a file has nothing below it, so removing it is pruning it. */
  lemma PruneFile(nodes: map<Path, Node>, p: Path)
    requires TreeShaped(nodes) && IsFileIn(nodes, p)
    ensures Prune(nodes, p) == nodes - {p}
  {
    forall q | q in nodes && q != p
      ensures !(p <= q)
    {
      if p < q {
        AncestorIsDir(nodes, p, q);
      }
    }
    assert Prune(nodes, p).Keys == (nodes - {p}).Keys;
  }

  /** The listed names seen so far whose entries are deleted. */
  function StrayAmong(modsDir: Path, names: seq<string>, rows: map<string, ModRow>): set<Path> {
    set i | 0 <= i < |names| && !LoaderEntry(names[i]) && !Recorded(rows, names[i]) :: modsDir + [names[i]]
  }

  lemma StrayAmongStep(modsDir: Path, names: seq<string>, rows: map<string, ModRow>, i: nat)
    requires i < |names|
    ensures StrayAmong(modsDir, names[..i + 1], rows) ==
      StrayAmong(modsDir, names[..i], rows) +
      (if !LoaderEntry(names[i]) && !Recorded(rows, names[i]) then {modsDir + [names[i]]} else {})
  {
    var a := StrayAmong(modsDir, names[..i + 1], rows);
    var b := StrayAmong(modsDir, names[..i], rows);
    forall q | q in a
      ensures q in b || (!LoaderEntry(names[i]) && !Recorded(rows, names[i]) && q == modsDir + [names[i]])
    {
      var j :| 0 <= j < i + 1 && !LoaderEntry(names[..i + 1][j]) && !Recorded(rows, names[..i + 1][j]) && q == modsDir + [names[..i + 1][j]];
      if j < i {
        assert names[..i][j] == names[j];
      }
    }
    forall q | q in b ensures q in a {
      var j :| 0 <= j < i && !LoaderEntry(names[..i][j]) && !Recorded(rows, names[..i][j]) && q == modsDir + [names[..i][j]];
      assert names[..i + 1][j] == names[j];
    }
    if !LoaderEntry(names[i]) && !Recorded(rows, names[i]) {
      assert names[..i + 1][i] == names[i];
    }
  }

  /** The whole listing yields the stray entries of the directory. */
  lemma StrayAmongAll(nodes: map<Path, Node>, modsDir: Path, names: seq<string>, rows: map<string, ModRow>)
    requires forall n :: n in names <==> n in ChildNames(nodes, modsDir)
    ensures StrayAmong(modsDir, names, rows) == Stray(nodes, modsDir, rows)
  {
    forall q | q in Stray(nodes, modsDir, rows)
      ensures q in StrayAmong(modsDir, names, rows)
    {
      var n :| n in ChildNames(nodes, modsDir) && !LoaderEntry(n) && !Recorded(rows, n) && q == modsDir + [n];
      var i :| 0 <= i < |names| && names[i] == n;
    }
  }

  /** `m.path.contains(name)` for some listed mod, as `installed_mods.iter().any(..)` computes it. */
  predicate AnyPathContains(mods: seq<InstalledMod>, name: string) {
    exists i | 0 <= i < |mods| :: Contains(PathText(mods[i].path), name)
  }

  /**
   * `refresh_mods_folder`: each entry of the mods directory not named like
   * the loader's own and not found in any recorded mod path is removed, a
   * directory with everything below it.
   */
  method RefreshModsFolder(db: Database, fs: FileSystem, modsDir: Path) returns (r: Result<()>)
    requires fs.Valid()
    modifies fs
    ensures fs.Valid()
    ensures !IsDirIn(old(fs.nodes), modsDir) ==> r == Err(ReadModsDirFailed) && fs.nodes == old(fs.nodes)
    ensures IsDirIn(old(fs.nodes), modsDir) ==>
      r == Ok(()) && fs.nodes == PruneAll(old(fs.nodes), Stray(old(fs.nodes), modsDir, db.rows))
  {
    var mods := db.GetInstalledMods();
    if !IsDirIn(fs.nodes, modsDir) {
      return Err(ReadModsDirFailed);
    }
    var names := fs.ReadDir(modsDir);
    ghost var nodes0 := fs.nodes;
    PruneAllEmpty(nodes0);
    assert StrayAmong(modsDir, names[..0], db.rows) == {};
    for i := 0 to |names|
      invariant fs.Valid()
      invariant fs.nodes == PruneAll(nodes0, StrayAmong(modsDir, names[..i], db.rows))
    {
      var name := names[i];
      var path := modsDir + [name];
      StrayAmongStep(modsDir, names, db.rows, i);
      if LoaderEntry(name) {
        continue;
      }
      var recorded := AnyPathContains(mods, name);
      assert recorded == Recorded(db.rows, name) by {
        if Recorded(db.rows, name) {
          var n :| n in db.rows && Contains(PathText(db.rows[n].path), name);
          var j :| 0 <= j < |mods| && mods[j].name == n;
        }
      }
      if recorded {
        continue;
      }
      ghost var before := fs.nodes;
      assert name in ChildNames(nodes0, modsDir);
      assert path in nodes0 by {
        var q :| q in nodes0 && |q| == |modsDir| + 1 && modsDir <= q && q[|modsDir|] == name;
        assert q == path;
      }
      assert path in before by {
        forall j | 0 <= j < i && !LoaderEntry(names[j]) && !Recorded(db.rows, names[j])
          ensures !(modsDir + [names[j]] <= path)
        {
          assert names[j] != name;
          assert |modsDir + [names[j]]| == |path|;
          assert (modsDir + [names[j]])[|modsDir|] != path[|modsDir|];
        }
      }
      PruneAllStep(nodes0, StrayAmong(modsDir, names[..i], db.rows), path);
      if IsDirIn(fs.nodes, path) {
        fs.RemoveAll(path);
      } else {
        // Every entry here is a directory or a regular file; the code's arm
        // that passes over other entry kinds has no counterpart.
        PruneFile(fs.nodes, path);
        var removed := fs.RemoveFile(path);
      }
    }
    assert names[..|names|] == names;
    StrayAmongAll(nodes0, modsDir, names, db.rows);
    r := Ok(());
  }

  /**
   * What is left of the mods directory after a refresh: the loader's entries
   * and the entries some recorded path mentions; nothing outside the mods
   * directory changes.
   */
  lemma RefreshKeeps(nodes: map<Path, Node>, modsDir: Path, rows: map<string, ModRow>)
    ensures forall n :: n in ChildNames(PruneAll(nodes, Stray(nodes, modsDir, rows)), modsDir) <==>
      n in ChildNames(nodes, modsDir) && (LoaderEntry(n) || Recorded(rows, n))
    ensures forall q :: q in nodes && !(modsDir < q) ==> q in PruneAll(nodes, Stray(nodes, modsDir, rows))
  {
    var after := PruneAll(nodes, Stray(nodes, modsDir, rows));
    forall n | n in ChildNames(nodes, modsDir) && (LoaderEntry(n) || Recorded(rows, n))
      ensures n in ChildNames(after, modsDir)
    {
      var q :| q in nodes && |q| == |modsDir| + 1 && modsDir <= q && q[|modsDir|] == n;
      assert q == modsDir + [n];
      forall s | s in Stray(nodes, modsDir, rows) ensures !(s <= q) {
        var m :| m in ChildNames(nodes, modsDir) && !LoaderEntry(m) && !Recorded(rows, m) && s == modsDir + [m];
        assert m != n;
      }
      assert q in after;
    }
    forall n | n in ChildNames(after, modsDir)
      ensures !LoaderEntry(n) ==> Recorded(rows, n)
    {
      var q :| q in after && |q| == |modsDir| + 1 && modsDir <= q && q[|modsDir|] == n;
      assert q == modsDir + [n];
      assert n in ChildNames(nodes, modsDir);
      assert q !in Stray(nodes, modsDir, rows);
    }
  }

  /** An entry named after a component of a recorded mod path is never deleted. */
  lemma RecordedComponentKept(rows: map<string, ModRow>, m: string, i: nat)
    requires m in rows && i < |rows[m].path|
    ensures Recorded(rows, rows[m].path[i])
  {
    ComponentInPathText(rows[m].path, i);
  }

  /**
   * `delete_manual_mod`: the path must exist and, once both are resolved,
   * lie at or below the mods directory; a directory is removed with
   * everything below it, a file on its own.
   */
  method DeleteManualMod(fs: FileSystem, modsDir: Path, path: Path) returns (r: Result<()>)
    requires fs.Valid()
    modifies fs
    ensures fs.Valid()
    ensures path !in old(fs.nodes) ==> r == Err(PathMissing)
    ensures path in old(fs.nodes) && modsDir !in old(fs.nodes) ==> r == Err(ModsDirMissing)
    ensures path in old(fs.nodes) && modsDir in old(fs.nodes) && !(modsDir <= path) ==> r == Err(OutsideModsDir)
    ensures r.Ok? <==> path in old(fs.nodes) && modsDir in old(fs.nodes) && modsDir <= path
    ensures r.Ok? ==> fs.nodes == Prune(old(fs.nodes), path)
    ensures r.Err? ==> fs.nodes == old(fs.nodes)
  {
    if !fs.Exists(path) {
      return Err(PathMissing);
    }
    if !fs.Exists(modsDir) {
      return Err(ModsDirMissing);
    }
    if !(modsDir <= path) {
      return Err(OutsideModsDir);
    }
    if IsDirIn(fs.nodes, path) {
      fs.RemoveAll(path);
    } else {
      PruneFile(fs.nodes, path);
      var removed := fs.RemoveFile(path);
    }
    r := Ok(());
  }
}
