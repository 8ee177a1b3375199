/**
 * The backup directory: one folder per backup, each with a `metadata.json`
 * naming the path it was taken from and the second it was taken at.
 * Restoring picks the latest backup of a path; removing deletes every
 * backup of a path.
 */
module Backups {
  import opened Common
  import opened Files

  /** What reading and parsing a backup folder's `metadata.json` yields. */
  datatype Metadata =
    | NoMetadata                                                   // the folder has no metadata file
    | Unreadable                                                   // the file exists but cannot be read
    | Malformed                                                    // the file is not JSON
    | Json(originalPath: Option<string>, backupTime: Option<nat>)  // the string and the u64 fields, when present

  /** One entry of the backup directory's listing: its name, or a listing failure. */
  datatype Entry = Entry(id: string, meta: Metadata) | BadEntry

  /** The entry stops the scan with an error. */
  predicate Fails(e: Entry) {
    e.BadEntry? || e.meta.Unreadable? || e.meta.Malformed?
  }

  function ErrorOf(e: Entry): Error
    requires Fails(e)
  {
    if e.BadEntry? then ReadBackupEntryFailed
    else if e.meta.Unreadable? then ReadMetadataFailed
    else ParseMetadataFailed
  }

  /** The entry's metadata names `path` as the original. */
  predicate Matches(e: Entry, path: string) {
    e.Entry? && e.meta.Json? && e.meta.originalPath == Some(path)
  }

  /** The position of the first entry that stops the scan, or the length when none does. */
  function FirstFailure(entries: seq<Entry>): (f: nat)
    ensures f <= |entries|
    ensures forall j :: 0 <= j < f ==> !Fails(entries[j])
    ensures f < |entries| ==> Fails(entries[f])
  {
    if |entries| == 0 then 0
    else if Fails(entries[0]) then 0
    else 1 + FirstFailure(entries[1..])
  }

  /** The time of a backup of `path`, 0 for anything else (0 is never selected). */
  function TimeFor(e: Entry, path: string): nat {
    if Matches(e, path) && e.meta.backupTime.Some? then e.meta.backupTime.value else 0
  }

  /**
   * Entry `i` is the one `restore_from_backup` selects for `path`: a backup
   * of `path` with a positive time, no later than it anywhere, and strictly
   * earlier everywhere before it.
   */
  predicate Latest(entries: seq<Entry>, path: string, i: nat) {
    && i < |entries|
    && TimeFor(entries[i], path) > 0
    && (forall j :: 0 <= j < |entries| ==> TimeFor(entries[j], path) <= TimeFor(entries[i], path))
    && (forall j :: 0 <= j < i ==> TimeFor(entries[j], path) < TimeFor(entries[i], path))
  }

  /** Ties keep the first: at most one entry is the latest. */
  lemma LatestUnique(entries: seq<Entry>, path: string, i: nat, j: nat)
    requires Latest(entries, path, i) && Latest(entries, path, j)
    ensures i == j
  {
  }

  /**
   * The selection loop of `restore_from_backup`: `None` when the backup
   * directory cannot be listed. The backup found is the one the copy-back
   * then reads from.
   */
  method SelectBackup(listing: Option<seq<Entry>>, path: string) returns (r: Result<string>)
    ensures listing.None? ==> r == Err(ReadBackupDirFailed)
    ensures listing.Some? && FirstFailure(listing.value) < |listing.value| ==>
      r == Err(ErrorOf(listing.value[FirstFailure(listing.value)]))
    ensures listing.Some? && FirstFailure(listing.value) == |listing.value| ==>
      && (r.Ok? <==> exists i :: 0 <= i < |listing.value| && TimeFor(listing.value[i], path) > 0)
      && (r.Err? ==> r.error == NoBackupFound)
      && (r.Ok? ==> exists i: nat :: Latest(listing.value, path, i) && r.value == listing.value[i].id)
  {
    if listing.None? {
      return Err(ReadBackupDirFailed);
    }
    var entries := listing.value;
    var latestTime: nat := 0;
    var latestBackup: Option<string> := None;
    ghost var best: nat := 0;
    for i := 0 to |entries|
      invariant forall j :: 0 <= j < i ==> !Fails(entries[j])
      invariant latestBackup.None? ==> latestTime == 0 && forall j :: 0 <= j < i ==> TimeFor(entries[j], path) == 0
      invariant latestBackup.Some? ==>
        && best < i && latestBackup.value == entries[best].id && latestTime == TimeFor(entries[best], path) > 0
        && (forall j :: 0 <= j < i ==> TimeFor(entries[j], path) <= latestTime)
        && (forall j :: 0 <= j < best ==> TimeFor(entries[j], path) < latestTime)
    {
      var e := entries[i];
      if e.BadEntry? {
        return Err(ReadBackupEntryFailed);
      }
      match e.meta {
        case NoMetadata =>
        case Unreadable =>
          return Err(ReadMetadataFailed);
        case Malformed =>
          return Err(ParseMetadataFailed);
        case Json(originalPath, backupTime) =>
          if originalPath == Some(path) && backupTime.Some? && backupTime.value > latestTime {
            latestTime := backupTime.value;
            latestBackup := Some(e.id);
            best := i;
          }
      }
    }
    if latestBackup.None? {
      return Err(NoBackupFound);
    }
    r := Ok(latestBackup.value);
    assert Latest(entries, path, best);
  }

  /** The folders of the backups of `path` among `entries`. */
  function MatchingFolders(backupDir: Path, entries: seq<Entry>, path: string): (s: set<Path>)
    ensures forall i :: 0 <= i < |entries| && Matches(entries[i], path) ==> backupDir + [entries[i].id] in s
    ensures forall q :: q in s ==> exists i :: 0 <= i < |entries| && Matches(entries[i], path) && q == backupDir + [entries[i].id]
  {
    set i | 0 <= i < |entries| && Matches(entries[i], path) :: backupDir + [entries[i].id]
  }

  lemma MatchingFoldersStep(backupDir: Path, entries: seq<Entry>, path: string, i: nat)
    requires i < |entries|
    ensures MatchingFolders(backupDir, entries[..i + 1], path) ==
      MatchingFolders(backupDir, entries[..i], path) + (if Matches(entries[i], path) then {backupDir + [entries[i].id]} else {})
  {
    var a := MatchingFolders(backupDir, entries[..i + 1], path);
    var b := MatchingFolders(backupDir, entries[..i], path);
    forall q | q in a ensures q in b || (Matches(entries[i], path) && q == backupDir + [entries[i].id]) {
      var j :| 0 <= j < i + 1 && Matches(entries[..i + 1][j], path) && q == backupDir + [entries[..i + 1][j].id];
      if j < i {
        assert entries[..i][j] == entries[j];
      }
    }
    forall q | q in b ensures q in a {
      var j :| 0 <= j < i && Matches(entries[..i][j], path) && q == backupDir + [entries[..i][j].id];
      assert entries[..i + 1][j] == entries[j];
    }
    if Matches(entries[i], path) {
      assert entries[..i + 1][i] == entries[i];
    }
  }

  /**
   * `remove_backup`: every backup folder of `path` is removed in listing
   * order; the scan stops at the first entry whose metadata cannot be read,
   * after the backups before it are gone.
   */
  method RemoveBackup(fs: FileSystem, backupDir: Path, listing: Option<seq<Entry>>, path: string) returns (r: Result<()>)
    requires fs.Valid()
    modifies fs
    ensures fs.Valid()
    ensures listing.None? ==> r == Err(ReadBackupDirFailed) && fs.nodes == old(fs.nodes)
    ensures listing.Some? ==>
      var f := FirstFailure(listing.value);
      && fs.nodes == PruneAll(old(fs.nodes), MatchingFolders(backupDir, listing.value[..f], path))
      && (f < |listing.value| ==> r == Err(ErrorOf(listing.value[f])))
      && (f == |listing.value| ==> r == Ok(()))
  {
    if listing.None? {
      return Err(ReadBackupDirFailed);
    }
    var entries := listing.value;
    PruneAllEmpty(fs.nodes);
    assert MatchingFolders(backupDir, entries[..0], path) == {};
    for i := 0 to |entries|
      invariant fs.Valid()
      invariant forall j :: 0 <= j < i ==> !Fails(entries[j])
      invariant fs.nodes == PruneAll(old(fs.nodes), MatchingFolders(backupDir, entries[..i], path))
    {
      var e := entries[i];
      MatchingFoldersStep(backupDir, entries, path, i);
      if Fails(e) {
        return Err(ErrorOf(e));
      }
      if Matches(e, path) {
        PruneAllStep(old(fs.nodes), MatchingFolders(backupDir, entries[..i], path), backupDir + [e.id]);
        fs.RemoveAll(backupDir + [e.id]);
      }
    }
    assert entries[..|entries|] == entries;
    r := Ok(());
  }

  /** After a complete scan no backup folder of `path` is left. */
  lemma RemovedBackupsGone(nodes: map<Path, Node>, backupDir: Path, entries: seq<Entry>, path: string)
    ensures forall i :: 0 <= i < |entries| && Matches(entries[i], path) ==>
      backupDir + [entries[i].id] !in PruneAll(nodes, MatchingFolders(backupDir, entries, path))
  {
  }

  /** Folders that are not below a removed backup keep their contents. */
  lemma OtherFoldersKept(nodes: map<Path, Node>, backupDir: Path, entries: seq<Entry>, path: string, q: Path)
    requires q in nodes
    requires forall i :: 0 <= i < |entries| && Matches(entries[i], path) ==> !(backupDir + [entries[i].id] <= q)
    ensures q in PruneAll(nodes, MatchingFolders(backupDir, entries, path))
  {
  }
}
