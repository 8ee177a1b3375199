/**
 * The commands that install a mod from an archive: `process_dropped_file`
 * (a file dropped on the window, checked for Lua sources) and
 * `process_mod_archive` (bytes uploaded with their file name, unchecked).
 */
module Install {
  import opened Common
  import opened Files
  import opened Archive
  import opened Collapse

  /** What each decoder makes of the file: its entries, or nothing when it cannot open or list it. */
  datatype Decoded = Decoded(zip: Option<seq<ZipEntry>>, tar: Option<seq<TarEntry>>, tarGz: Option<seq<TarEntry>>)

  /** One placement on the file system: parent directories first when asked, then the directory or the file. */
  method PlaceOne(fs: FileSystem, pl: Placement) returns (r: Result<()>)
    requires fs.Valid()
    modifies fs
    ensures fs.Valid()
    ensures Place(old(fs.nodes), pl).Ok? ==> r == Ok(()) && fs.nodes == Place(old(fs.nodes), pl).value
    ensures Place(old(fs.nodes), pl).Err? ==> r == Err(Place(old(fs.nodes), pl).error)
  {
    if pl.parentFirst && |pl.out| > 0 {
      var ok := fs.CreateDirAll(Parent(pl.out));
      if !ok {
        return Err(CreateParentDirFailed);
      }
    }
    var ok;
    if pl.isDir {
      ok := fs.CreateDirAll(pl.out);
    } else {
      ok := fs.WriteFile(pl.out, pl.data);
    }
    r := if ok then Ok(()) else Err(pl.err);
  }

  /** The extraction loop: each entry in archive order, skipped entries passed over, stopping at the first failure. */
  method PlaceEach(fs: FileSystem, ps: seq<Option<Placement>>) returns (r: Result<()>)
    requires fs.Valid()
    modifies fs
    ensures fs.Valid()
    ensures PlaceAll(old(fs.nodes), ps).Ok? ==> r == Ok(()) && fs.nodes == PlaceAll(old(fs.nodes), ps).value
    ensures PlaceAll(old(fs.nodes), ps).Err? ==> r == Err(PlaceAll(old(fs.nodes), ps).error)
  {
    for i := 0 to |ps|
      invariant fs.Valid()
      invariant PlaceAll(fs.nodes, ps[i..]) == PlaceAll(old(fs.nodes), ps)
    {
      assert ps[i..][1..] == ps[i + 1..];
      if ps[i].Some? {
        var placed := PlaceOne(fs, ps[i].value);
        if placed.Err? {
          return placed;
        }
      }
    }
    assert ps[|ps|..] == [];
    r := Ok(());
  }

  /**
   * `extract_zip`: the target directory is created, the archive opened, and
   * its entries placed under the target; entries without an enclosed name
   * are skipped.
   */
  method ExtractZip(fs: FileSystem, target: Path, archive: Option<seq<ZipEntry>>) returns (r: Result<()>)
    requires fs.Valid()
    modifies fs
    ensures fs.Valid()
    ensures FileOnPrefix(old(fs.nodes), target) ==> r == Err(CreateTargetDirFailed) && fs.nodes == old(fs.nodes)
    ensures !FileOnPrefix(old(fs.nodes), target) && archive.None? ==>
      r == Err(OpenArchiveFailed) && fs.nodes == WithDirs(old(fs.nodes), target)
    ensures !FileOnPrefix(old(fs.nodes), target) && archive.Some? ==>
      var placed := PlaceAll(WithDirs(old(fs.nodes), target), ZipPlacements(target, archive.value));
      && (placed.Ok? ==> r == Ok(()) && fs.nodes == placed.value)
      && (placed.Err? ==> r == Err(placed.error))
  {
    var ok := fs.CreateDirAll(target);
    if !ok {
      return Err(CreateTargetDirFailed);
    }
    if archive.None? {
      return Err(OpenArchiveFailed);
    }
    r := PlaceEach(fs, ZipPlacements(target, archive.value));
  }

  /**
   * `extract_tar` and `extract_tar_gz`: the target directory is created, the
   * entries listed, and each unpacked at its path joined onto the target,
   * after its parent directories.
   */
  method ExtractTar(fs: FileSystem, target: Path, archive: Option<seq<TarEntry>>) returns (r: Result<()>)
    requires fs.Valid()
    modifies fs
    ensures fs.Valid()
    ensures FileOnPrefix(old(fs.nodes), target) ==> r == Err(CreateTargetDirFailed) && fs.nodes == old(fs.nodes)
    ensures !FileOnPrefix(old(fs.nodes), target) && archive.None? ==>
      r == Err(OpenArchiveFailed) && fs.nodes == WithDirs(old(fs.nodes), target)
    ensures !FileOnPrefix(old(fs.nodes), target) && archive.Some? ==>
      var placed := PlaceAll(WithDirs(old(fs.nodes), target), TarPlacements(target, archive.value));
      && (placed.Ok? ==> r == Ok(()) && fs.nodes == placed.value)
      && (placed.Err? ==> r == Err(placed.error))
  {
    var ok := fs.CreateDirAll(target);
    if !ok {
      return Err(CreateTargetDirFailed);
    }
    if archive.None? {
      return Err(OpenArchiveFailed);
    }
    r := PlaceEach(fs, TarPlacements(target, archive.value));
  }

  /** `k` is a regular file whose extension is exactly "lua". */
  predicate IsLuaFile(nodes: map<Path, Node>, k: Path) {
    k in nodes && nodes[k].File? && |k| > 0 && Extension(k[|k| - 1]) == Some("lua")
  }

  /** Some regular file at or below `dir` has extension "lua". */
  predicate HasLua(nodes: map<Path, Node>, dir: Path) {
    exists k :: k in nodes && dir <= k && IsLuaFile(nodes, k)
  }

  /** `check_for_lua_files`: walks the tree under `dir` and stops at the first Lua file. */
  method CheckForLuaFiles(fs: FileSystem, dir: Path) returns (found: bool)
    ensures found == HasLua(fs.nodes, dir)
  {
    var entries := fs.Walk(dir);
    for i := 0 to |entries|
      invariant forall j :: 0 <= j < i ==> !IsLuaFile(fs.nodes, entries[j])
    {
      if IsLuaFile(fs.nodes, entries[i]) {
        return true;
      }
    }
    found := false;
    forall k | k in fs.nodes && dir <= k
      ensures !IsLuaFile(fs.nodes, k)
    {
      var j :| 0 <= j < |entries| && entries[j] == k;
    }
  }

  lemma WithDirsDownTo(nodes: map<Path, Node>, p: Path)
    requires !FileOnPrefix(nodes, p)
    ensures DirsDownTo(WithDirs(nodes, p), p)
  {
    forall i | 0 <= i <= |p|
      ensures IsDirIn(WithDirs(nodes, p), p[..i])
    {
      assert p[..i] in Prefixes(p);
      assert !IsFileIn(nodes, p[..i]);
    }
  }

  /** Creating a directory whose parent chain exists adds nothing outside it. */
  lemma WithDirsOneLevel(nodes: map<Path, Node>, p: Path)
    requires |p| > 0 && DirsDownTo(nodes, Parent(p)) && !IsFileIn(nodes, p)
    ensures !FileOnPrefix(nodes, p)
    ensures SameOutside(nodes, WithDirs(nodes, p), p)
    ensures DirsDownTo(WithDirs(nodes, p), p)
  {
    forall i | 0 <= i < |p|
      ensures IsDirIn(nodes, p[..i])
    {
      assert p[..i] == Parent(p)[..i];
    }
    assert p[..|p|] == p;
    WithDirsDownTo(nodes, p);
    forall k | !(p <= k) && k in WithDirs(nodes, p)
      ensures k in nodes
    {
      if k in Prefixes(p) {
        var i :| 0 <= i <= |p| && k == p[..i];
      }
    }
  }

  lemma SameOutsideTrans(a: map<Path, Node>, b: map<Path, Node>, c: map<Path, Node>, root: Path)
    requires SameOutside(a, b, root) && SameOutside(b, c, root)
    ensures SameOutside(a, c, root)
  {
  }

  /** A successful collapse of `dir` changes nothing outside `dir`. */
  lemma CollapseStaysInside(before: map<Path, Node>, after: map<Path, Node>, dir: Path)
    requires TreeShaped(before)
    requires (forall n :: !SingleNestedDir(before, dir, n)) ==> after == before
    requires forall n :: SingleNestedDir(before, dir, n) && n !in ChildNames(before, dir + [n]) ==>
      after == Collapsed(before, dir, n)
    requires forall n :: SingleNestedDir(before, dir, n) ==> n !in ChildNames(before, dir + [n])
    ensures SameOutside(before, after, dir)
  {
    if n :| SingleNestedDir(before, dir, n) {
      CollapsedContents(before, dir, n);
    }
  }

  /** No placement reports the missing-Lua error. */
  lemma {:induction false} PlaceAllNotNoLua(nodes: map<Path, Node>, ps: seq<Option<Placement>>)
    requires forall j :: 0 <= j < |ps| && ps[j].Some? ==> ps[j].value.err != NoLuaFiles
    requires PlaceAll(nodes, ps).Err?
    ensures PlaceAll(nodes, ps).error != NoLuaFiles
    decreases |ps|
  {
    assert forall j :: 0 <= j < |ps[1..]| ==> ps[1..][j] == ps[j + 1];
    if ps[0].None? {
      PlaceAllNotNoLua(nodes, ps[1..]);
    } else if Place(nodes, ps[0].value).Ok? {
      PlaceAllNotNoLua(Place(nodes, ps[0].value).value, ps[1..]);
    }
  }

  lemma ExtractionNeverNoLua(nodes: map<Path, Node>, dir: Path, decoded: Decoded)
    ensures decoded.zip.Some? && PlaceAll(nodes, ZipPlacements(dir, decoded.zip.value)).Err? ==>
      PlaceAll(nodes, ZipPlacements(dir, decoded.zip.value)).error != NoLuaFiles
    ensures decoded.tar.Some? && PlaceAll(nodes, TarPlacements(dir, decoded.tar.value)).Err? ==>
      PlaceAll(nodes, TarPlacements(dir, decoded.tar.value)).error != NoLuaFiles
    ensures decoded.tarGz.Some? && PlaceAll(nodes, TarPlacements(dir, decoded.tarGz.value)).Err? ==>
      PlaceAll(nodes, TarPlacements(dir, decoded.tarGz.value)).error != NoLuaFiles
  {
    if decoded.zip.Some? && PlaceAll(nodes, ZipPlacements(dir, decoded.zip.value)).Err? {
      PlaceAllNotNoLua(nodes, ZipPlacements(dir, decoded.zip.value));
    }
    if decoded.tar.Some? && PlaceAll(nodes, TarPlacements(dir, decoded.tar.value)).Err? {
      PlaceAllNotNoLua(nodes, TarPlacements(dir, decoded.tar.value));
    }
    if decoded.tarGz.Some? && PlaceAll(nodes, TarPlacements(dir, decoded.tarGz.value)).Err? {
      PlaceAllNotNoLua(nodes, TarPlacements(dir, decoded.tarGz.value));
    }
  }

  /**
   * The tree the decoder selected by the file name leaves when it extracts
   * into `dir`, created over `nodes`: the placements of every entry, or the
   * first error. An unrecognised suffix is refused.
   */
  ghost function Extracted(nodes: map<Path, Node>, dir: Path, fileName: string, decoded: Decoded): Result<map<Path, Node>> {
    var base := WithDirs(nodes, dir);
    match FormatOf(fileName)
    case Zip => if decoded.zip.None? then Err(OpenArchiveFailed) else PlaceAll(base, ZipPlacements(dir, decoded.zip.value))
    case Tar => if decoded.tar.None? then Err(OpenArchiveFailed) else PlaceAll(base, TarPlacements(dir, decoded.tar.value))
    case TarGz => if decoded.tarGz.None? then Err(OpenArchiveFailed) else PlaceAll(base, TarPlacements(dir, decoded.tarGz.value))
    case Unsupported => Err(UnsupportedFormat)
  }

  /**
   * The outcome of installing `fileName` into the mods directory: the mod
   * directory is derived from the name, a file in its place is refused, an
   * earlier copy is removed, the archive extracted, and a single nested
   * folder collapsed.
   */
  ghost function Installed(nodes: map<Path, Node>, modsDir: Path, fileName: string, decoded: Decoded): Result<map<Path, Node>> {
    match ModDir(modsDir, fileName)
    case Err(e) => Err(e)
    case Ok(dir) =>
      if IsFileIn(nodes, dir) then Err(RemoveExistingFailed)
      else
        var extracted := Extracted(Prune(nodes, dir), dir, fileName, decoded);
        if extracted.Err? then Err(extracted.error) else CollapseOutcome(extracted.value, dir)
  }

  /**
   * Whatever an earlier copy left at the mod directory, a directory there is
   * removed wholesale first: two trees that differ only at and below it
   * install to the same outcome.
   */
  lemma InstallReplacesEarlierCopy(a: map<Path, Node>, b: map<Path, Node>, modsDir: Path, fileName: string, decoded: Decoded)
    requires ModDir(modsDir, fileName).Ok?
    requires !IsFileIn(a, ModDir(modsDir, fileName).value) && !IsFileIn(b, ModDir(modsDir, fileName).value)
    requires Prune(a, ModDir(modsDir, fileName).value) == Prune(b, ModDir(modsDir, fileName).value)
    ensures Installed(a, modsDir, fileName, decoded) == Installed(b, modsDir, fileName, decoded)
  {
  }

  /**
   * The part both commands share once the mods directory exists: the mod
   * directory is derived from the file name, any earlier copy removed, the
   * archive extracted by the decoder the file name selects, and a single
   * nested folder collapsed.
   */
  method Unpack(fs: FileSystem, modsDir: Path, fileName: string, decoded: Decoded) returns (r: Result<Path>)
    requires fs.Valid() && DirsDownTo(fs.nodes, modsDir)
    modifies fs
    ensures fs.Valid()
    ensures ModDir(modsDir, fileName).Err? ==> r == Err(ModDir(modsDir, fileName).error) && fs.nodes == old(fs.nodes)
    ensures ModDir(modsDir, fileName).Ok? && IsFileIn(old(fs.nodes), ModDir(modsDir, fileName).value) ==>
      r == Err(RemoveExistingFailed) && fs.nodes == old(fs.nodes)
    ensures ModDir(modsDir, fileName).Ok? && !IsFileIn(old(fs.nodes), ModDir(modsDir, fileName).value) && FormatOf(fileName) == Unsupported ==>
      r == Err(UnsupportedFormat) && fs.nodes == Prune(old(fs.nodes), ModDir(modsDir, fileName).value)
    ensures r.Ok? ==> ModDir(modsDir, fileName) == Ok(r.value)
    ensures r.Ok? && FormatOf(fileName) == Zip ==> SameOutside(old(fs.nodes), fs.nodes, r.value)
    ensures r != Err(NoLuaFiles)
    ensures Installed(old(fs.nodes), modsDir, fileName, decoded).Ok? ==>
      r == Ok(ModDir(modsDir, fileName).value) && fs.nodes == Installed(old(fs.nodes), modsDir, fileName, decoded).value
    ensures Installed(old(fs.nodes), modsDir, fileName, decoded).Err? ==>
      r == Err(Installed(old(fs.nodes), modsDir, fileName, decoded).error)
  {
    var dirOrError := ModDir(modsDir, fileName);
    if dirOrError.Err? {
      return Err(dirOrError.error);
    }
    var dir := dirOrError.value;
    if fs.Exists(dir) {
      if IsFileIn(fs.nodes, dir) {
        return Err(RemoveExistingFailed);
      }
    }
    ghost var nodes0 := fs.nodes;
    fs.RemoveAll(dir);
    assert Parent(dir) == modsDir;
    ghost var pruned := fs.nodes;
    assert DirsDownTo(pruned, modsDir) by {
      forall i | 0 <= i <= |modsDir| ensures IsDirIn(pruned, modsDir[..i]) {
        assert IsDirIn(nodes0, modsDir[..i]);
        assert !(dir <= modsDir[..i]);
      }
    }
    WithDirsOneLevel(pruned, dir);
    var extracted: Result<()>;
    match FormatOf(fileName) {
    case Zip =>
      extracted := ExtractZip(fs, dir, decoded.zip);
      if extracted.Ok? {
        ZipStaysInside(WithDirs(pruned, dir), dir, decoded.zip.value);
        SameOutsideTrans(pruned, WithDirs(pruned, dir), fs.nodes, dir);
        SameOutsideTrans(nodes0, pruned, fs.nodes, dir);
      }
    case Tar =>
      extracted := ExtractTar(fs, dir, decoded.tar);
    case TarGz =>
      extracted := ExtractTar(fs, dir, decoded.tarGz);
    case Unsupported =>
      return Err(UnsupportedFormat);
    }
    if extracted.Err? {
      ExtractionNeverNoLua(WithDirs(pruned, dir), dir, decoded);
      return Err(extracted.error);
    }
    ghost var unpacked := fs.nodes;
    var collapsed := CollapseSingleFolder(fs, dir);
    if collapsed.Err? {
      return Err(collapsed.error);
    }
    if FormatOf(fileName) == Zip {
      forall n | SingleNestedDir(unpacked, dir, n)
        ensures n !in ChildNames(unpacked, dir + [n])
      {
      }
      CollapseStaysInside(unpacked, fs.nodes, dir);
      SameOutsideTrans(nodes0, unpacked, fs.nodes, dir);
    }
    r := Ok(dir);
  }

  /**
   * `process_dropped_file`: creates the mods directory, takes the file name
   * of the dropped path, unpacks the archive into the mod directory, and
   * keeps the result only if it holds a Lua file; otherwise the mod
   * directory is removed again.
   */
  method ProcessDroppedFile(fs: FileSystem, modsDir: Path, path: Path, decoded: Decoded) returns (r: Result<Path>)
    requires fs.Valid()
    modifies fs
    ensures fs.Valid()
    ensures FileOnPrefix(old(fs.nodes), modsDir) ==> r == Err(CreateModsDirFailed) && fs.nodes == old(fs.nodes)
    ensures !FileOnPrefix(old(fs.nodes), modsDir) && FileName(path).None? ==>
      r == Err(InvalidFilePath) && fs.nodes == WithDirs(old(fs.nodes), modsDir)
    ensures !FileOnPrefix(old(fs.nodes), modsDir) && FileName(path).Some? && ModDir(modsDir, FileName(path).value).Err? ==>
      r == Err(ModDir(modsDir, FileName(path).value).error) && fs.nodes == WithDirs(old(fs.nodes), modsDir)
    ensures r.Ok? ==> FileName(path).Some? && ModDir(modsDir, FileName(path).value) == Ok(r.value) && HasLua(fs.nodes, r.value)
    ensures r == Err(NoLuaFiles) ==>
      && FileName(path).Some? && ModDir(modsDir, FileName(path).value).Ok?
      && ModDir(modsDir, FileName(path).value).value !in fs.nodes
    ensures !FileOnPrefix(old(fs.nodes), modsDir) && FileName(path).Some? && ModDir(modsDir, FileName(path).value).Ok? ==>
      var installed := Installed(WithDirs(old(fs.nodes), modsDir), modsDir, FileName(path).value, decoded);
      var dir := ModDir(modsDir, FileName(path).value).value;
      && (installed.Err? ==> r == Err(installed.error))
      && (installed.Ok? && HasLua(installed.value, dir) ==> r == Ok(dir) && fs.nodes == installed.value)
      && (installed.Ok? && !HasLua(installed.value, dir) ==> r == Err(NoLuaFiles) && fs.nodes == Prune(installed.value, dir))
  {
    var ok := fs.CreateDirAll(modsDir);
    if !ok {
      return Err(CreateModsDirFailed);
    }
    WithDirsDownTo(old(fs.nodes), modsDir);
    var fileName := FileName(path);
    if fileName.None? {
      return Err(InvalidFilePath);
    }
    ghost var installed := Installed(fs.nodes, modsDir, fileName.value, decoded);
    r := Unpack(fs, modsDir, fileName.value, decoded);
    if r.Err? {
      return r;
    }
    var dir := r.value;
    assert installed.Ok? && fs.nodes == installed.value;
    var hasLua := CheckForLuaFiles(fs, dir);
    if !hasLua {
      fs.RemoveAll(dir);
      return Err(NoLuaFiles);
    }
  }

  /**
   * `process_mod_archive`: like `process_dropped_file` for an uploaded file
   * name and its bytes, but the result is kept without looking for Lua files.
   */
  method ProcessModArchive(fs: FileSystem, modsDir: Path, fileName: string, decoded: Decoded) returns (r: Result<Path>)
    requires fs.Valid()
    modifies fs
    ensures fs.Valid()
    ensures FileOnPrefix(old(fs.nodes), modsDir) ==> r == Err(CreateModsDirFailed) && fs.nodes == old(fs.nodes)
    ensures !FileOnPrefix(old(fs.nodes), modsDir) && ModDir(modsDir, fileName).Err? ==>
      r == Err(ModDir(modsDir, fileName).error) && fs.nodes == WithDirs(old(fs.nodes), modsDir)
    ensures (&& !FileOnPrefix(old(fs.nodes), modsDir) && ModDir(modsDir, fileName).Ok? && FormatOf(fileName) == Unsupported
             && !IsFileIn(WithDirs(old(fs.nodes), modsDir), ModDir(modsDir, fileName).value)) ==>
      r == Err(UnsupportedFormat) && fs.nodes == Prune(WithDirs(old(fs.nodes), modsDir), ModDir(modsDir, fileName).value)
    ensures r.Ok? ==> ModDir(modsDir, fileName) == Ok(r.value)
    ensures r.Ok? && FormatOf(fileName) == Zip ==> SameOutside(WithDirs(old(fs.nodes), modsDir), fs.nodes, r.value)
    ensures !FileOnPrefix(old(fs.nodes), modsDir) ==>
      var installed := Installed(WithDirs(old(fs.nodes), modsDir), modsDir, fileName, decoded);
      && (installed.Err? ==> r == Err(installed.error))
      && (installed.Ok? ==> r == Ok(ModDir(modsDir, fileName).value) && fs.nodes == installed.value)
  {
    var ok := fs.CreateDirAll(modsDir);
    if !ok {
      return Err(CreateModsDirFailed);
    }
    WithDirsDownTo(old(fs.nodes), modsDir);
    r := Unpack(fs, modsDir, fileName, decoded);
  }
}
