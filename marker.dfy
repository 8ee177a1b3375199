/**
 * Enabling and disabling a mod: a mod is disabled exactly when its folder
 * holds a file named ".lovelyignore". The commands come in two forms, one
 * naming the mod inside the mods directory and one taking the folder's path.
 */
module Marker {
  import opened Common
  import opened Files

  const MarkerName: string := ".lovelyignore"

  /** Where the marker of the mod folder `modDir` lives. */
  function MarkerOf(modDir: Path): Path {
    modDir + [MarkerName]
  }

  /** What the query commands report: enabled unless something exists at the marker path. */
  predicate Enabled(nodes: map<Path, Node>, modDir: Path) {
    MarkerOf(modDir) !in nodes
  }

  /**
   * The marker step shared by both toggle commands: enabling removes the
   * marker when it exists, disabling writes an empty marker file.
   */
  function SetMarker(nodes: map<Path, Node>, modDir: Path, enabled: bool): Result<map<Path, Node>> {
    var m := MarkerOf(modDir);
    if enabled then
      if m !in nodes then Ok(nodes)
      else if IsFileIn(nodes, m) then Ok(nodes - {m})
      else Err(RemoveMarkerFailed)
    else
      if IsDirIn(nodes, modDir) && !IsDirIn(nodes, m) then Ok(nodes[m := File([])])
      else Err(CreateMarkerFailed)
  }

  /** After a successful toggle the query reports the requested state. */
  lemma SetMarkerThenQuery(nodes: map<Path, Node>, modDir: Path, enabled: bool)
    requires SetMarker(nodes, modDir, enabled).Ok?
    ensures Enabled(SetMarker(nodes, modDir, enabled).value, modDir) == enabled
  {
  }

  /** A toggle touches the marker path and nothing else. */
  lemma SetMarkerFrame(nodes: map<Path, Node>, modDir: Path, enabled: bool, k: Path)
    requires SetMarker(nodes, modDir, enabled).Ok? && k != MarkerOf(modDir)
    ensures k in SetMarker(nodes, modDir, enabled).value <==> k in nodes
    ensures k in nodes ==> SetMarker(nodes, modDir, enabled).value[k] == nodes[k]
  {
  }

  /** When the toggle fails: enabling fails only on a marker that is a directory, disabling when the folder is not a directory or the marker is one. */
  lemma SetMarkerFails(nodes: map<Path, Node>, modDir: Path, enabled: bool)
    ensures SetMarker(nodes, modDir, enabled).Err? <==>
      if enabled then IsDirIn(nodes, MarkerOf(modDir))
      else !IsDirIn(nodes, modDir) || IsDirIn(nodes, MarkerOf(modDir))
  {
  }

  /** Toggling again to the same state changes nothing. */
  lemma SetMarkerIdempotent(nodes: map<Path, Node>, modDir: Path, enabled: bool)
    requires SetMarker(nodes, modDir, enabled).Ok?
    ensures SetMarker(SetMarker(nodes, modDir, enabled).value, modDir, enabled) == SetMarker(nodes, modDir, enabled)
  {
    var m := MarkerOf(modDir);
    var once := SetMarker(nodes, modDir, enabled).value;
    if !enabled {
      assert modDir != m;
      assert once[m := File([])] == once;
    }
  }

  /** Disabling an enabled mod and enabling it again restores the tree. */
  lemma DisableThenEnable(nodes: map<Path, Node>, modDir: Path)
    requires Enabled(nodes, modDir) && SetMarker(nodes, modDir, false).Ok?
    ensures SetMarker(SetMarker(nodes, modDir, false).value, modDir, true) == Ok(nodes)
  {
    var m := MarkerOf(modDir);
    assert nodes[m := File([])] - {m} == nodes;
  }

  /** `remove_file` or `fs::write` on the marker of `modDir`, as the flag asks. */
  method ApplyMarker(fs: FileSystem, modDir: Path, enabled: bool) returns (r: Result<()>)
    requires fs.Valid()
    modifies fs
    ensures fs.Valid()
    ensures SetMarker(old(fs.nodes), modDir, enabled).Ok? ==>
      r == Ok(()) && fs.nodes == SetMarker(old(fs.nodes), modDir, enabled).value
    ensures SetMarker(old(fs.nodes), modDir, enabled).Err? ==>
      r == Err(SetMarker(old(fs.nodes), modDir, enabled).error) && fs.nodes == old(fs.nodes)
  {
    var m := MarkerOf(modDir);
    assert Parent(m) == modDir;
    if enabled {
      if fs.Exists(m) {
        var ok := fs.RemoveFile(m);
        if !ok {
          return Err(RemoveMarkerFailed);
        }
      }
    } else {
      var ok := fs.WriteFile(m, []);
      if !ok {
        return Err(CreateMarkerFailed);
      }
    }
    r := Ok(());
  }

  /** `is_mod_enabled`: the mod `modName` inside the mods directory is enabled when it has no marker. */
  method IsModEnabled(fs: FileSystem, modsDir: Path, modName: string) returns (enabled: bool)
    ensures enabled <==> Join(modsDir, modName) + [".lovelyignore"] !in fs.nodes
  {
    enabled := !fs.Exists(MarkerOf(Join(modsDir, modName)));
  }

  /** `toggle_mod_enabled`: the mod folder must exist; then the marker is removed or written. */
  method ToggleModEnabled(fs: FileSystem, modsDir: Path, modName: string, enabled: bool) returns (r: Result<()>)
    requires fs.Valid()
    modifies fs
    ensures fs.Valid()
    ensures Join(modsDir, modName) !in old(fs.nodes) ==> r == Err(ModDirNotFound(modName)) && fs.nodes == old(fs.nodes)
    ensures Join(modsDir, modName) in old(fs.nodes) ==>
      var step := SetMarker(old(fs.nodes), Join(modsDir, modName), enabled);
      && (step.Ok? ==> r == Ok(()) && fs.nodes == step.value)
      && (step.Err? ==> r == Err(step.error) && fs.nodes == old(fs.nodes))
    ensures r.Ok? ==> Enabled(fs.nodes, Join(modsDir, modName)) == enabled
  {
    var modDir := Join(modsDir, modName);
    if !fs.Exists(modDir) {
      return Err(ModDirNotFound(modName));
    }
    r := ApplyMarker(fs, modDir, enabled);
    if r.Ok? {
      SetMarkerThenQuery(old(fs.nodes), modDir, enabled);
    }
  }

  /** `is_mod_enabled_by_path`: as `is_mod_enabled`, but a missing folder is an error. */
  method IsModEnabledByPath(fs: FileSystem, modPath: Path) returns (r: Result<bool>)
    ensures modPath !in fs.nodes <==> r == Err(ModPathMissing)
    ensures r.Ok? ==> r.value == Enabled(fs.nodes, modPath)
  {
    if !fs.Exists(modPath) {
      return Err(ModPathMissing);
    }
    r := Ok(!fs.Exists(MarkerOf(modPath)));
  }

  /** `toggle_mod_enabled_by_path`: as `toggle_mod_enabled`, for a folder given by its path. */
  method ToggleModEnabledByPath(fs: FileSystem, modPath: Path, enabled: bool) returns (r: Result<()>)
    requires fs.Valid()
    modifies fs
    ensures fs.Valid()
    ensures modPath !in old(fs.nodes) ==> r == Err(ModPathMissing) && fs.nodes == old(fs.nodes)
    ensures modPath in old(fs.nodes) ==>
      var step := SetMarker(old(fs.nodes), modPath, enabled);
      && (step.Ok? ==> r == Ok(()) && fs.nodes == step.value)
      && (step.Err? ==> r == Err(step.error) && fs.nodes == old(fs.nodes))
    ensures r.Ok? ==> Enabled(fs.nodes, modPath) == enabled
  {
    if !fs.Exists(modPath) {
      return Err(ModPathMissing);
    }
    r := ApplyMarker(fs, modPath, enabled);
    if r.Ok? {
      SetMarkerThenQuery(old(fs.nodes), modPath, enabled);
    }
  }
}
