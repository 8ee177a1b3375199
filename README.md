# Balatro Mod Manager: the mod-management commands, modelled in Dafny

The Balatro Mod Manager is a desktop application. Its Rust back end
(`src-tauri/src/lib.rs`) exposes commands to the front end. Those commands
install mods from archives, track installed mods in a record store, uninstall
mods together with everything that depends on them, enable and disable mods,
and keep backups. This project models the state those commands change and
proves what each command does to it.

There are two pieces of state:

- **The record store** (`Store.Database`). It has one row per installed mod,
  keyed by the mod's name. A row holds the mod's install path, its declared
  dependencies and its installed version. The store lives in a library crate
  that is not part of this model. Its operations are given here only by their
  contracts.
- **The file system** (`Files.FileSystem`). It is a finite map from paths
  (sequences of components) to nodes (a file with its bytes, or a
  directory), kept tree-shaped. Its methods stand for the `std::fs` calls the
  commands make (`exists`, `read_dir`, `create_dir_all`, `File::create`,
  `fs::write`, `remove_file`, `remove_dir_all`, `rename`, and the `WalkDir`
  walk). Each has the failure conditions the operating system gives it.

The modules follow the commands:

- `Uninstall`: dependency queries, the framework guard, cascade uninstall and
  reindexing.
- `Archive`, `Collapse` and `Install`: installing a mod from an archive. This
  covers the mod name, the choice of decoder, entry placement, collapsing a
  single nested folder, and the Lua check.
- `Marker`: the `.lovelyignore` enable/disable marker.
- `Backups`: choosing the backup to restore and removing backups.
- `Updates`, `Launcher`, `Folders` and `Commands`: the smaller decision
  rules.

`Common` holds Option, Result and the error values. `Text` holds the string
operations of Rust's `str`.

Decoding archives is not modelled. An archive is the list of entries its
decoder yields (`Install.Decoded`), or nothing when the decoder cannot open
it. Each entry has its path, its kind and its bytes.

Where the code and the documented intent of the project differ, the model
follows the code, with one exception: the mod directory an archive installs
into is derived by the corrected rule of the Findings row (a name that does
not give a folder directly inside the mods directory is refused). The code
as written is modelled beside it and shown to escape the mods directory.
Otherwise:

- Uninstalling a name that has no row fails at once. This is because
  `get_mod_details` finds no row. The model's `ModNotFound` error stands for
  that failure. A second cascade uninstall of the same root therefore reports
  an error rather than doing nothing.
- An archive whose name ends in none of the supported suffixes is reported
  as unsupported. This happens only after an existing mod directory of the
  same name has been removed.
- TAR entries are unpacked at their path joined onto the target without any
  check. An entry such as `../x` therefore lands outside the mod directory.
  ZIP entries go through `enclosed_name` and stay inside it.

## Model

| member | source | states |
|---|---|---|
| Uninstall.GetDependentsCommand | src-tauri/src/lib.rs:1332-1339 | the result never contains the queried name, even if its own row lists itself; it lists exactly the other rows that declare the name as a dependency, each once |
| Uninstall.Drop | src-tauri/src/lib.rs:1335-1338 | the filter keeps exactly the elements that differ from the name, and a list without repetitions stays without repetitions |
| Uninstall.RemoveInstalledModCommand | src-tauri/src/lib.rs:1377-1409 | a name equal to "steamodded" or "talisman" in any letter case, with at least one dependent other than itself, is refused with the number of those dependents, and neither the store nor the disk changes; any other call deletes the given path with everything below it and removes the row |
| Uninstall.ForceRemoveMod | src-tauri/src/lib.rs:1221-1238 | the path is deleted with everything below it and the row removed, whatever depends on the mod |
| Uninstall.CascadeUninstall | src-tauri/src/lib.rs:1343-1374 | a root without a row fails and changes nothing; otherwise the work list terminates even on cycles and diamonds, the removed rows are exactly the root and every mod that depends on it directly or transitively, their install paths are deleted, and every other row is untouched |
| Uninstall.ClosureIsLeast | src-tauri/src/lib.rs:1350-1357 | the set of names a cascade removes is contained in every set that holds the root and is closed under "depends on" |
| Uninstall.ClosureIsClosed | src-tauri/src/lib.rs:1350-1357 | that set holds the root and every dependent of each of its members |
| Uninstall.ChainEndsInClosedSet | src-tauri/src/lib.rs:1350-1357 | a chain of dependents that starts in a set closed under dependents stays in that set |
| Uninstall.ReindexMods | src-tauri/src/lib.rs:1241-1259 | exactly the rows whose path no longer exists are removed from the store (nothing on disk), and the result is `(0, number removed)` |
| Uninstall.MissingPositions | src-tauri/src/lib.rs:1247-1252 | the collected positions are, in increasing order, exactly the rows of the listing whose path does not exist |
| Uninstall.RemoveAtPositions | src-tauri/src/lib.rs:1254-1257 | walking the positions backwards removes exactly the rows named at them |
| Uninstall.StalePositions | src-tauri/src/lib.rs:1247-1257 | the names at the collected positions are distinct and are exactly the rows with a missing path |
| Uninstall.ReindexLeavesNoStale | src-tauri/src/lib.rs:1241-1259 | after reindexing no row with a missing path is left, and every row whose path exists is kept as it was |
| Archive.ModName | src-tauri/src/lib.rs:491-495 | trimming only removes characters: the mod name is a prefix of the file name |
| Archive.ModNameOfArchive | src-tauri/src/lib.rs:491-495 | a name ending in none of the suffixes, with one of ".zip", ".tar", ".tar.gz", ".tgz" appended, gives that name back as the mod name |
| Archive.FormatOf | src-tauri/src/lib.rs:504-514 | the format is unsupported exactly when the name ends in none of the four suffixes, and ZIP exactly when it ends in ".zip" |
| Archive.FormatOfArchive | src-tauri/src/lib.rs:504-509 | each suffix selects its own decoder: ".zip" ZIP, ".tar" TAR, ".tar.gz" and ".tgz" gzip-compressed TAR |
| Archive.ModDirAsWrittenEscapes | src-tauri/src/lib.rs:491-502 | as written, the file name ".zip" makes the mod directory the mods directory itself and "...zip" makes it the mods directory's parent; removing the "existing mod directory" then removes the whole mods directory |
| Archive.ModDir | src-tauri/src/lib.rs:497 | the corrected mod directory is refused exactly when the mod name is "", "." or "..", or contains a '/' or '\\' separator, with an error naming it |
| Archive.UploadedNameEscapes | src-tauri/src/lib.rs:583-594 | as written, an uploaded file named "../../" + x + ".zip" (for instance "../../victim.zip") makes the mod directory the folder x two levels above the mods directory, outside it, and that folder is removed as the "existing mod directory" |
| Archive.ModDirInsideModsDir | src-tauri/src/lib.rs:497 | an accepted mod directory is a direct child of the mods directory and equals what the code's join computes, since an accepted name is a single path component |
| Archive.PlaceAllKeeps | src-tauri/src/lib.rs:667-689 | a successful extraction keeps every existing entry that no archive entry overwrites with a file |
| Archive.PlaceAllLastFileWins | src-tauri/src/lib.rs:684-687 | after a successful extraction a file holds the bytes of the last archive entry written at its path |
| Archive.PlaceAllInside | src-tauri/src/lib.rs:667-689 | placements whose outputs all lie below the target change nothing outside the target |
| Archive.ZipStaysInside | src-tauri/src/lib.rs:671-675 | ZIP extraction, skipping entries without an enclosed name, changes nothing outside the target directory |
| Archive.TarEntryCanLeaveTarget | src-tauri/src/lib.rs:736-746 | a TAR entry "../x" is unpacked beside the target directory, not inside it |
| Archive.ZipPlacements | src-tauri/src/lib.rs:667-675 | there is one placement per ZIP entry, in archive order |
| Archive.TarPlacements | src-tauri/src/lib.rs:731-739 | there is one placement per TAR entry, in archive order |
| Install.PlaceEach | src-tauri/src/lib.rs:667-689 | the extraction loop leaves the tree that placing the entries one after another gives and stops at the first failure, reporting that failure |
| Install.ExtractZip | src-tauri/src/lib.rs:661-691 | the target directory is created first, and failing that nothing changes; an archive that cannot be opened is reported after the target exists; otherwise the entries are placed in order |
| Install.ExtractTar | src-tauri/src/lib.rs:726-749 | as for ZIP, with every TAR entry (none skipped) unpacked after its parent directories are created; `extract_tar_from_memory` and both `.tar.gz` variants (lines 752-827) behave the same |
| Install.CheckForLuaFiles | src-tauri/src/lib.rs:647-658 | true exactly when some regular file at or below the directory has the extension "lua" |
| Files.ExtensionIsLua | src-tauri/src/lib.rs:650-651 | a name has the extension "lua" exactly when it ends in ".lua" and is longer than ".lua" itself |
| Install.PlaceAllNotNoLua | src-tauri/src/lib.rs:667-689 | no extraction failure is ever reported as the missing-Lua error |
| Install.Unpack | src-tauri/src/lib.rs:491-547 | the outcome is `Install.Installed`: on success the mod directory is returned and the tree is the old tree with the mod directory removed, recreated, filled by the decoder the suffix selects and its single nested folder collapsed; otherwise the first error of that pipeline is reported. A mod name the corrected rule refuses changes nothing; an existing mod directory that is a file cannot be removed and nothing changes; an unsupported name is reported after the existing mod directory is removed; after a ZIP install nothing outside the mod directory has changed; the missing-Lua error never comes from here |
| Install.InstallReplacesEarlierCopy | src-tauri/src/lib.rs:499-502 | whatever an earlier copy left in the mod directory does not affect the installed tree, because it is removed wholesale first |
| Install.CollapseStaysInside | src-tauri/src/lib.rs:516-547 | a successful collapse changes nothing outside the mod directory |
| Install.ProcessDroppedFile | src-tauri/src/lib.rs:466-561 | the mods directory is created first; a path without a file name is refused; over the tree with the mods directory created, an install error is reported as is, an installed tree holding a Lua file under the mod directory is kept and the mod directory returned, and an installed tree without one is reported as missing Lua with the mod directory removed again |
| Install.ProcessModArchive | src-tauri/src/lib.rs:564-644 | the same pipeline for uploaded bytes, without the Lua check: over the tree with the mods directory created, the result and the new tree are those of `Install.Installed`; after a ZIP install nothing outside the mod directory differs from the tree with the mods directory created |
| Collapse.CollapseSingleFolder | src-tauri/src/lib.rs:516-547 | when the mod directory does not hold exactly one entry that is a directory, nothing changes; otherwise the nested directory's contents move up one level and the nested directory disappears; a rename fails only when the nested directory holds an entry of its own name, and the error leaves a partial collapse; the outcome is `Collapse.CollapseOutcome` of the old tree |
| Collapse.LiftNested | src-tauri/src/lib.rs:525-545 | the renames in listing order followed by the removal of the nested directory produce exactly the collapsed tree |
| Collapse.CollapsedContents | src-tauri/src/lib.rs:516-547 | in the collapsed tree, nothing outside the mod directory changes; the mod directory holds at each relative path what the nested directory held there; its children are the nested directory's children; the nested directory is gone |
| Collapse.PartialStep | src-tauri/src/lib.rs:529-541 | renaming one more child of the nested directory into the mod directory extends the partial collapse by that child |
| Collapse.PartialDone | src-tauri/src/lib.rs:544-545 | once every child is renamed, removing the nested directory yields the collapsed tree |
| Collapse.PartialKeepsNested | src-tauri/src/lib.rs:529-537 | during the collapse the nested directory itself stays in place, so a rename onto its name fails |
| Collapse.ListingOfSingle | src-tauri/src/lib.rs:516-522 | a listing of a directory whose only entry is `n` is exactly `[n]` |
| Marker.ApplyMarker | src-tauri/src/lib.rs:416-424 | enabling removes the marker when it exists and fails only when a directory is in its place; disabling writes an empty marker file and fails when the mod folder is not a directory or a directory is in the marker's place; a failure changes nothing |
| Marker.IsModEnabled | src-tauri/src/lib.rs:384-387 | a mod is reported enabled exactly when nothing exists at `<mods dir>/<name>/.lovelyignore` |
| Marker.ToggleModEnabled | src-tauri/src/lib.rs:408-426 | a missing mod folder is an error naming the mod, with nothing changed; after a successful toggle the query reports the requested state |
| Marker.IsModEnabledByPath | src-tauri/src/lib.rs:430-440 | a missing folder is an error, otherwise the mod is enabled exactly when its folder has no marker |
| Marker.ToggleModEnabledByPath | src-tauri/src/lib.rs:443-463 | as `toggle_mod_enabled`, for a folder given by its path |
| Marker.SetMarkerThenQuery | src-tauri/src/lib.rs:416-424 | writing then reading the flag round-trips: after a successful toggle, enabled means no marker |
| Marker.SetMarkerFrame | src-tauri/src/lib.rs:416-424 | a toggle changes the marker path and nothing else |
| Marker.SetMarkerFails | src-tauri/src/lib.rs:416-424 | the exact conditions under which enabling or disabling fails |
| Marker.SetMarkerIdempotent | src-tauri/src/lib.rs:416-424 | toggling again to the same state changes nothing |
| Marker.DisableThenEnable | src-tauri/src/lib.rs:416-424 | disabling an enabled mod and enabling it again restores the tree exactly |
| Backups.SelectBackup | src-tauri/src/lib.rs:1620-1646 | an unlistable backup directory, an unreadable entry, or unreadable or unparsable metadata stops the scan with that error at the first such entry; otherwise a backup is found exactly when some backup of the path has a positive time, and the one returned is the first with the greatest time; with none the error is "no backup found" |
| Backups.FirstFailure | src-tauri/src/lib.rs:1622-1632 | the position of the first entry that aborts the scan: no entry before it fails, and the entry there does |
| Backups.LatestUnique | src-tauri/src/lib.rs:1637-1640 | the selection is unique: ties keep the first backup seen |
| Backups.RemoveBackup | src-tauri/src/lib.rs:1672-1695 | every backup folder whose metadata names the path is removed, in listing order, up to the first entry that aborts the scan, which is reported; all other folders are untouched |
| Backups.MatchingFoldersStep | src-tauri/src/lib.rs:1686-1690 | one more listed entry adds its folder to the removed set exactly when its metadata names the path |
| Backups.RemovedBackupsGone | src-tauri/src/lib.rs:1686-1690 | after a complete scan no backup folder of the path is left |
| Backups.OtherFoldersKept | src-tauri/src/lib.rs:1686-1690 | any entry not below a removed backup folder survives |
| Updates.FirstMatch | src-tauri/src/lib.rs:117-118 | the first cached entry whose title or folder name equals the mod's name: none before it matches, and none at all when the result is empty |
| Updates.ModUpdateAvailable | src-tauri/src/lib.rs:96-130 | store and cache failures are passed on; an update is reported exactly when a version is recorded, the cache exists, and the first matching entry carries a version different from it |
| Updates.FirstMatchDecides | src-tauri/src/lib.rs:117-126 | only the first matching entry counts: if it has no version, no later entry can report an update |
| Updates.ReleaseUrl | src-tauri/src/lib.rs:1515-1518 | the address starts with the Steamodded tag-archive prefix and ends in ".zip" |
| Updates.TagOfReleaseUrl | src-tauri/src/lib.rs:1515-1518 | the tag can be read back from the release address |
| Updates.ReleaseUrlOfTag | src-tauri/src/lib.rs:1515-1518 | every address of that shape is the address of the tag read from it |
| Updates.LatestReleaseFromCache | src-tauri/src/lib.rs:1512-1520 | an address comes from the cache exactly when the cached version list loads and is non-empty, and it names the first cached version |
| Launcher.CollectExecutables | src-tauri/src/lib.rs:1063-1075 | the collection loop yields the entries passing the platform's executable test, in listing order |
| Launcher.ExecutablesMembers | src-tauri/src/lib.rs:1066-1072 | an entry is collected exactly when it is listed and passes the test (a file with an execute bit on Linux, a file with extension "exe" on Windows) |
| Launcher.FindRank | src-tauri/src/lib.rs:1079-1093 | each priority pass returns the first executable of that priority |
| Launcher.FindExecutableLinux | src-tauri/src/lib.rs:1061-1096 | nothing when the directory cannot be listed or holds no executable; otherwise the first executable whose lowercased name contains "balatro", else the first named "love", else the first executable |
| Launcher.FindExecutableWindows | src-tauri/src/lib.rs:1099-1121 | nothing when there is no ".exe" file; otherwise the first whose lowercased name contains "balatro", else the first one |
| Launcher.FirstBestUnique | src-tauri/src/lib.rs:1079-1093 | the chosen executable is unique |
| Launcher.BalatroWins | src-tauri/src/lib.rs:1079-1085 | the first executable with "balatro" in its name is chosen on both platforms |
| Folders.RefreshModsFolder | src-tauri/src/lib.rs:830-888 | an unreadable mods directory is an error; otherwise exactly the entries whose names neither contain "lovely" nor occur in any recorded mod path are removed, directories with everything below them |
| Folders.RefreshKeeps | src-tauri/src/lib.rs:858-885 | afterwards the mods directory holds exactly its earlier entries that are the loader's or that some recorded path mentions; nothing outside it changes |
| Folders.RecordedComponentKept | src-tauri/src/lib.rs:867-868 | an entry named like any component of a recorded mod path is kept |
| Folders.ComponentInPathText | src-tauri/src/lib.rs:867-868 | every component of a path occurs in the path's text |
| Folders.PruneFile | src-tauri/src/lib.rs:875-880 | removing a file removes that entry only |
| Folders.DeleteManualMod | src-tauri/src/lib.rs:1262-1317 | a missing path, a missing mods directory, and a path outside the mods directory are each refused with nothing changed; otherwise the path and everything below it is removed |
| Commands.NonEmpty | src-tauri/src/lib.rs:1168-1174 | an empty string becomes none, and any other string is kept |
| Commands.OrEmptyNonEmpty | src-tauri/src/lib.rs:1210-1216 | a string survives normalisation and conversion back |
| Commands.NonEmptyOrEmpty | src-tauri/src/lib.rs:1210-1216 | an optional value survives the opposite trip exactly when it is not the empty string |
| Commands.AddInstalledModCommand | src-tauri/src/lib.rs:1202-1218 | the row is written with an empty version recorded as none |
| Commands.CheckModInstallation | src-tauri/src/lib.rs:1124-1138 | only the exact names "Steamodded" and "Talisman" are accepted; such a framework is installed exactly when a row or a detected mod carries that exact name |
| Store.Database.GetDependents | src-tauri/src/lib.rs:1356 | the store's dependents query: exactly the rows declaring the name as a dependency, each once |
| Store.Database.GetModDetails | src-tauri/src/lib.rs:1355 | the row of a recorded name; an error for a name with no row |
| Store.Database.GetInstalledMods | src-tauri/src/lib.rs:1246 | every row exactly once, with its name |
| Store.Database.RemoveInstalledMod | src-tauri/src/lib.rs:1371 | the named row is gone and every other row is unchanged |
| Store.Database.AddInstalledMod | src-tauri/src/lib.rs:1217 | the named row is written, replacing any earlier one |
| Files.FileSystem.ReadDir | src-tauri/src/lib.rs:516-522 | `read_dir` lists each child name of the directory once |
| Files.FileSystem.Walk | src-tauri/src/lib.rs:648 | the walk visits exactly the entries at or below its root |
| Files.FileSystem.RemoveAll | src-tauri/src/lib.rs:500-501 | `remove_dir_all` removes the path and everything below it |
| Files.FileSystem.RemoveFile | src-tauri/src/lib.rs:418-419 | `remove_file` succeeds exactly on a regular file and removes only it |
| Files.FileSystem.CreateDirAll | src-tauri/src/lib.rs:662-663 | `create_dir_all` fails exactly when a prefix of the path is a regular file; otherwise the path and all its ancestors exist as directories |
| Files.FileSystem.WriteFile | src-tauri/src/lib.rs:422-423 | writing a file succeeds exactly when its parent is a directory and no directory occupies the path |
| Files.FileSystem.Rename | src-tauri/src/lib.rs:536-541 | a rename onto an absent path inside an existing directory moves the entry and everything below it; otherwise nothing changes |
| Files.MovedTreeShaped | src-tauri/src/lib.rs:536-541 | a rename keeps the tree well formed |
| Files.PruneAllStep | src-tauri/src/lib.rs:1359-1370 | removing one more subtree is the same as removing all the subtrees together |
| Files.AncestorIsDir | src-tauri/src/lib.rs:499-501 | in a well-formed tree every ancestor of an entry is a directory |
| Text.TrimEnd | src-tauri/src/lib.rs:491-495 | `trim_end_matches` leaves a prefix of its input that no longer ends with the suffix |
| Text.ContainsAt | src-tauri/src/lib.rs:867 | an occurrence at any offset is found by `contains` |
| Text.ContainsWitness | src-tauri/src/lib.rs:867 | `contains` finds only real occurrences |
| Text.ToLower | src-tauri/src/lib.rs:1383 | lowercasing keeps the length and lowercases each ASCII letter |

## Findings

| source | as written | input that shows it | evidently intended | confidence | as-written member | corrected member |
|---|---|---|---|---|---|---|
| src-tauri/src/lib.rs:491-502 | the mod name is whatever the suffix trimming leaves, joined onto the mods directory and removed with `remove_dir_all` if it exists | a dropped or uploaded file named ".zip" (name "", so the mods directory itself) or "...zip" (name "..", so the mods directory's parent) | the mod directory is a new folder directly inside the mods directory, and a name that does not give one is refused | not executed | Archive.ModDirAsWrittenEscapes | Archive.ModDir |
| src-tauri/src/lib.rs:583-594 | `process_mod_archive` joins the trimmed uploaded file name onto the mods directory as a path, with no check, and removes what it names with `remove_dir_all` | an uploaded file named "../../victim.zip" (mod directory two levels above the mods directory, named "victim") | the uploaded name gives a folder directly inside the mods directory, and a name with separators is refused | not executed | Archive.UploadedNameEscapes | Archive.ModDir |

## Left out

- Archive decoding (ZIP, TAR and gzip as in RFC 1952) is not modelled. An archive is the entry list its decoder yields, or nothing. Per-entry decoder errors (`by_index`, a TAR entry that cannot be read or has an unreadable path) are not modelled.
- The ZIP entry's `enclosed_name` is taken as given. Its normalisation is the ZIP library's and is not modelled.
- Absolute TAR entry paths are not modelled. An entry path is a sequence of components resolved against the target, with ".." taken lexically. For an entry "a/../b" the code's `create_dir_all("t/a/..")` creates `t/a` first (and fails when `t/a` is a file); the model creates neither and unpacks at `t/b`.
- Non-UTF-8 file names (the "Invalid file name" and "Invalid filename" errors) are not modelled. Symlinks and path canonicalisation are not modelled either; `delete_manual_mod` compares the given paths as already canonical.
- `Files.FileSystem.Rename`: a rename onto an existing target always fails here. The operating system would sometimes replace the target. In the collapse step a target exists only for an entry named like the nested directory, where the real rename fails too.
- `Files.FileSystem.RemoveAll` and `uninstall_mod` of the installer library never fail here, except that `remove_dir_all` on a regular file is reported as a failure to remove the existing mod directory. Permission and I/O errors are not modelled.
- Install.Unpack, Install.ProcessDroppedFile and Install.ProcessModArchive: use the corrected mod directory (`Archive.ModDir`) of the Findings rows. The code (lib.rs:497-501 and 583-594) joins a trimmed name of "", "." or ".." onto the mods directory, so it removes the mods directory itself or its parent, and joins an uploaded name with separators as a path; this is modelled only by `Archive.ModDirAsWritten` and the two lemmas of the Findings.
- Install.ProcessModArchive: the uploaded file name is not checked by the code. An absolute uploaded name, which replaces the base in `Path::join`, and '\\' separators on Windows are not modelled as written.
- Install.Unpack, Install.ProcessDroppedFile and Install.ProcessModArchive: after a failed extraction or collapse the files written so far stay on disk. On those paths the contracts state the error reported, not the partial tree.
- Install.ProcessModArchive and Install.Unpack: the frame "nothing outside the mod directory changes" is proved for ZIP archives only, because TAR archives can write outside it.
- Collapse.CollapseSingleFolder: read errors of the nested directory and its entries are not modelled, because the model's `read_dir` does not fail on an existing directory.
- The copy-back half of `restore_from_backup` (`copy_dir_all` into the original location, lines 1647-1668) is not part of this model. Only the choice of backup is modelled.
- `backup_local_mod` is not part of this model. It depends on the clock and on `copy_dir_all`.
- Backups.SelectBackup and Backups.RemoveBackup: the metadata JSON is given already parsed (`Backups.Metadata`). `backup_time` is an unbounded natural, and a value that does not fit in 64 bits is represented as absent.
- Store.Database: the record store's SQL, its locking and its failures are not modelled. Its operations are specified by their contracts. `get_last_installed_version`, `get_installation_path` and the cache loader are parameters.
- `check_mod_installation` takes the names of the installed and detected mods as parameters. The local-mod detection itself is not part of this model.
- `to_lowercase` is modelled on ASCII letters only (`Text.ToLower`). Unicode case mapping is not modelled.
- Launcher: permission bits are given as a 32-bit mode. An entry whose metadata cannot be read is never an executable. Launching the game, the Steam and xdg-mime probing, and environment setup are process I/O and are left out.
- `get_latest_steamodded_release` beyond the cache, `get_steamodded_versions` and the `install_*_version` commands call the installer library over the network and are left out. So are `clone_repo`/`pull_repo`, thumbnails, the JSON and text readers, Discord presence, and the Tauri start-up.
- `Mutex` locking, `async` and the clock are not modelled. The commands run one at a time.
