/** Option and Result types, and the failures the mod manager reports to its caller. */
module Common {

  datatype Option<+T> = None | Some(value: T)

  /** Each constructor stands for one error message of the command layer. */
  datatype Error =
    | ModNotFound(name: string)                 // the record store has no row for `name`
    | HasDependents(name: string, count: nat)   // "Use cascade_uninstall to remove .. with .. dependents"
    | InvalidFilePath                           // the dropped path has no file name
    | InvalidModName(name: string)              // the mod name does not name a folder inside the mods directory
    | CreateModsDirFailed
    | UnsupportedFormat                         // "Only ZIP, TAR, and TAR.GZ are supported."
    | CreateTargetDirFailed
    | OpenArchiveFailed
    | CreateDirFailed
    | CreateParentDirFailed
    | CreateFileFailed
    | UnpackFailed                              // a TAR entry could not be unpacked
    | RemoveExistingFailed                      // the earlier copy of the mod could not be removed
    | MoveFailed                                // a rename of the collapse step failed
    | RemoveNestedDirFailed
    | NoLuaFiles                                // "No Lua files found in the archive."
    | ModDirNotFound(name: string)
    | ModPathMissing
    | RemoveMarkerFailed
    | CreateMarkerFailed
    | ReadBackupDirFailed
    | ReadBackupEntryFailed
    | ReadMetadataFailed
    | ParseMetadataFailed
    | NoBackupFound                             // "No backup found for this path"
    | InvalidModType
    | PathMissing
    | ModsDirMissing
    | OutsideModsDir
    | ReadModsDirFailed

  datatype Result<+T> = Ok(value: T) | Err(error: Error)

  /** No element occurs twice in `xs`. */
  predicate Distinct<T(==)>(xs: seq<T>) {
    forall i, j :: 0 <= i < j < |xs| ==> xs[i] != xs[j]
  }

  /** The set of the elements of `xs`. */
  function Elements<T(!new)>(xs: seq<T>): (s: set<T>)
    ensures forall x :: x in s <==> x in xs
  {
    set x | x in xs
  }

  /** A sequence without repetitions lists as many elements as the set it enumerates. */
  lemma {:induction false} DistinctCard<T>(xs: seq<T>, s: set<T>)
    requires Distinct(xs)
    requires forall x :: x in xs <==> x in s
    ensures |xs| == |s|
  {
    if xs != [] {
      var last := xs[|xs| - 1];
      var init := xs[..|xs| - 1];
      forall x | x in init ensures x != last {
        var i :| 0 <= i < |init| && init[i] == x;
        assert xs[i] == x;
      }
      forall x ensures x in init <==> x in s - {last} {
        if x in s - {last} {
          var i :| 0 <= i < |xs| && xs[i] == x;
          assert i != |xs| - 1;
          assert init[i] == x;
        }
      }
      DistinctCard(init, s - {last});
    }
  }
}
