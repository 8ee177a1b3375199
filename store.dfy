/**
 * The record store of installed mods: one row per tracked mod, keyed by its
 * name. The store itself lives in a library crate whose code is not part of
 * this model; its operations are given here by their contracts.
 */
module Store {
  import opened Common
  import opened Files

  /** One row of the installed-mods table (the name is the key). */
  datatype ModRow = ModRow(path: Path, dependencies: seq<string>, currentVersion: Option<string>)

  /** A row together with its name, as `get_installed_mods` lists it. */
  datatype InstalledMod = InstalledMod(name: string, path: Path, dependencies: seq<string>, currentVersion: Option<string>)

  /** The row named `y` declares `x` among its dependencies. */
  predicate DependsOn(rows: map<string, ModRow>, y: string, x: string) {
    y in rows && x in rows[y].dependencies
  }

  class Database {
    var rows: map<string, ModRow>

    constructor (initial: map<string, ModRow>)
      ensures rows == initial
    {
      rows := initial;
    }

    /** `get_dependents(name)`: every row that declares `name` as a dependency, each once. */
    method GetDependents(name: string) returns (ds: seq<string>)
      ensures forall y :: y in ds <==> DependsOn(rows, y, name)
      ensures Distinct(ds)
    {
      var left := rows.Keys;
      ds := [];
      while left != {}
        invariant left <= rows.Keys
        invariant forall y :: y in ds <==> DependsOn(rows, y, name) && y !in left
        invariant Distinct(ds)
        decreases left
      {
        var y :| y in left;
        if name in rows[y].dependencies {
          ds := ds + [y];
        }
        left := left - {y};
      }
    }

    /** `get_mod_details(name)`: the row, or a not-found failure. */
    method GetModDetails(name: string) returns (r: Result<ModRow>)
      ensures name in rows ==> r == Ok(rows[name])
      ensures name !in rows ==> r == Err(ModNotFound(name))
    {
      if name in rows {
        r := Ok(rows[name]);
      } else {
        r := Err(ModNotFound(name));
      }
    }

    /** `get_installed_mods()`: every row once, with its name. */
    method GetInstalledMods() returns (mods: seq<InstalledMod>)
      ensures forall i :: 0 <= i < |mods| ==>
        mods[i].name in rows && rows[mods[i].name] == ModRow(mods[i].path, mods[i].dependencies, mods[i].currentVersion)
      ensures forall n :: n in rows ==> exists i :: 0 <= i < |mods| && mods[i].name == n
      ensures forall i, j :: 0 <= i < j < |mods| ==> mods[i].name != mods[j].name
    {
      var left := rows.Keys;
      mods := [];
      while left != {}
        invariant left <= rows.Keys
        invariant forall i :: 0 <= i < |mods| ==>
          mods[i].name in rows && mods[i].name !in left &&
          rows[mods[i].name] == ModRow(mods[i].path, mods[i].dependencies, mods[i].currentVersion)
        invariant forall n :: n in rows && n !in left ==> exists i :: 0 <= i < |mods| && mods[i].name == n
        invariant forall i, j :: 0 <= i < j < |mods| ==> mods[i].name != mods[j].name
        decreases left
      {
        var n :| n in left;
        var row := rows[n];
        ghost var prev := mods;
        mods := mods + [InstalledMod(n, row.path, row.dependencies, row.currentVersion)];
        assert mods[|prev|].name == n;
        forall m | m in rows && m !in left - {n}
          ensures exists i :: 0 <= i < |mods| && mods[i].name == m
        {
          if m != n {
            var i :| 0 <= i < |prev| && prev[i].name == m;
            assert mods[i].name == m;
          }
        }
        left := left - {n};
      }
    }

    /** `remove_installed_mod(name)`: the row goes; removing an absent name is not an error. */
    method RemoveInstalledMod(name: string)
      modifies this
      ensures rows == old(rows) - {name}
    {
      rows := rows - {name};
    }

    /** `add_installed_mod(..)`: the row for `name` is written, replacing any earlier one. */
    method AddInstalledMod(name: string, path: Path, dependencies: seq<string>, currentVersion: Option<string>)
      modifies this
      ensures rows == old(rows)[name := ModRow(path, dependencies, currentVersion)]
    {
      rows := rows[name := ModRow(path, dependencies, currentVersion)];
    }
  }
}
