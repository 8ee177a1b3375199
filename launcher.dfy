/**
 * `find_executable_in_directory`: which file of a game directory is taken
 * as the game's executable. Linux keeps the files with an execute bit and
 * prefers a name containing "balatro", then the name "love", then the first
 * one listed; Windows keeps the ".exe" files and prefers a name containing
 * "balatro", then the first one listed.
 */
module Launcher {
  import opened Common
  import opened Text
  import opened Files

  /** A directory entry as the search sees it: its name, whether it is a file, and its Unix mode when readable. */
  datatype DirEntry = DirEntry(name: string, isFile: bool, mode: Option<bv32>)

  /** Linux: a regular file whose mode has any of the execute bits `0o111`. */
  predicate ExecutableOnLinux(e: DirEntry) {
    e.isFile && e.mode.Some? && e.mode.value & 0x49 != 0
  }

  /** Windows: a regular file whose extension is exactly "exe". */
  predicate ExecutableOnWindows(e: DirEntry) {
    e.isFile && Extension(e.name) == Some("exe")
  }

  /** The preference on Linux: 0 for a name containing "balatro", 1 for the name "love", 2 otherwise (case-insensitively). */
  function LinuxRank(name: string): nat {
    if Contains(ToLower(name), "balatro") then 0
    else if ToLower(name) == "love" then 1
    else 2
  }

  /** The preference on Windows: 0 for a name containing "balatro", 1 otherwise. */
  function WindowsRank(name: string): nat {
    if Contains(ToLower(name), "balatro") then 0 else 1
  }

  predicate Executable(e: DirEntry, linux: bool) {
    if linux then ExecutableOnLinux(e) else ExecutableOnWindows(e)
  }

  /** The entries that pass the executable test, in listing order. */
  function Executables(entries: seq<DirEntry>, linux: bool): seq<DirEntry> {
    if |entries| == 0 then []
    else (if Executable(entries[0], linux) then [entries[0]] else []) + Executables(entries[1..], linux)
  }

  /** The filter keeps exactly the executables. */
  lemma {:induction false} ExecutablesMembers(entries: seq<DirEntry>, linux: bool, e: DirEntry)
    ensures e in Executables(entries, linux) <==> e in entries && Executable(e, linux)
    decreases |entries|
  {
    if |entries| > 0 {
      ExecutablesMembers(entries[1..], linux, e);
      assert e in entries <==> e == entries[0] || e in entries[1..];
    }
  }

  /** `exes[k]` is the first entry of the best rank. */
  predicate FirstBest(exes: seq<DirEntry>, k: nat, linux: bool) {
    && k < |exes|
    && (forall j :: 0 <= j < |exes| ==> Rank(exes[k], linux) <= Rank(exes[j], linux))
    && (forall j :: 0 <= j < k ==> Rank(exes[k], linux) < Rank(exes[j], linux))
  }

  function Rank(e: DirEntry, linux: bool): nat {
    if linux then LinuxRank(e.name) else WindowsRank(e.name)
  }

  /** There is exactly one first entry of the best rank. */
  lemma FirstBestUnique(exes: seq<DirEntry>, k: nat, k': nat, linux: bool)
    requires FirstBest(exes, k, linux) && FirstBest(exes, k', linux)
    ensures k == k'
  {
    assert Rank(exes[k], linux) <= Rank(exes[k'], linux) && Rank(exes[k'], linux) <= Rank(exes[k], linux);
  }

  /** The first entry of rank `rank`, or `|exes|` when there is none. */
  method FindRank(exes: seq<DirEntry>, rank: nat, linux: bool) returns (k: nat)
    ensures k <= |exes|
    ensures forall j :: 0 <= j < k ==> Rank(exes[j], linux) != rank
    ensures k < |exes| ==> Rank(exes[k], linux) == rank
  {
    for i := 0 to |exes|
      invariant forall j :: 0 <= j < i ==> Rank(exes[j], linux) != rank
    {
      if Rank(exes[i], linux) == rank {
        return i;
      }
    }
    return |exes|;
  }

  /** The collection loop: the executables in listing order. */
  method CollectExecutables(entries: seq<DirEntry>, linux: bool) returns (exes: seq<DirEntry>)
    ensures exes == Executables(entries, linux)
  {
    exes := [];
    for i := 0 to |entries|
      invariant exes + Executables(entries[i..], linux) == Executables(entries, linux)
    {
      var e := entries[i];
      assert entries[i..][1..] == entries[i + 1..];
      assert Executables(entries[i..], linux) == (if Executable(e, linux) then [e] else []) + Executables(entries[i + 1..], linux);
      if Executable(e, linux) {
        assert exes + ([e] + Executables(entries[i + 1..], linux)) == (exes + [e]) + Executables(entries[i + 1..], linux);
        exes := exes + [e];
      }
    }
    assert entries[|entries|..] == [];
  }

  /**
   * The search on Linux: nothing when the directory cannot be listed or holds
   * no executable, otherwise the first executable of the best rank.
   */
  method FindExecutableLinux(listing: Option<seq<DirEntry>>) returns (r: Option<string>)
    ensures listing.None? ==> r.None?
    ensures listing.Some? ==>
      var exes := Executables(listing.value, true);
      && (r.None? <==> |exes| == 0)
      && (r.Some? ==> exists k: nat :: FirstBest(exes, k, true) && r.value == exes[k].name)
  {
    if listing.None? {
      return None;
    }
    var exes := CollectExecutables(listing.value, true);
    if |exes| == 0 {
      return None;
    }
    var k := FindRank(exes, 0, true);
    if k < |exes| {
      assert FirstBest(exes, k, true);
      return Some(exes[k].name);
    }
    k := FindRank(exes, 1, true);
    if k < |exes| {
      assert FirstBest(exes, k, true);
      return Some(exes[k].name);
    }
    assert FirstBest(exes, 0, true);
    r := Some(exes[0].name);
  }

  /** The search on Windows: as on Linux, with ".exe" files and without the "love" preference. */
  method FindExecutableWindows(listing: Option<seq<DirEntry>>) returns (r: Option<string>)
    ensures listing.None? ==> r.None?
    ensures listing.Some? ==>
      var exes := Executables(listing.value, false);
      && (r.None? <==> |exes| == 0)
      && (r.Some? ==> exists k: nat :: FirstBest(exes, k, false) && r.value == exes[k].name)
  {
    if listing.None? {
      return None;
    }
    var exes := CollectExecutables(listing.value, false);
    if |exes| == 0 {
      return None;
    }
    var k := FindRank(exes, 0, false);
    if k < |exes| {
      assert FirstBest(exes, k, false);
      return Some(exes[k].name);
    }
    assert FirstBest(exes, 0, false);
    r := Some(exes[0].name);
  }

  /** A name containing "balatro" in any case wins over every other executable. */
  lemma BalatroWins(exes: seq<DirEntry>, k: nat, linux: bool)
    requires k < |exes| && Contains(ToLower(exes[k].name), "balatro")
    requires forall j :: 0 <= j < k ==> !Contains(ToLower(exes[j].name), "balatro")
    ensures FirstBest(exes, k, linux)
  {
  }
}
