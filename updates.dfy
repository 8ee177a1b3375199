/**
 * Version lookups against the local cache of the mod index: whether an
 * installed mod has a newer remote version, and where the latest Steamodded
 * release is downloaded from.
 */
module Updates {
  import opened Common
  import opened Text

  /** The fields of a cached index entry that the lookup reads. */
  datatype CachedMod = CachedMod(title: string, folderName: Option<string>, version: Option<string>)

  /** The cached entry describes the installed mod `name`, by title or by folder name. */
  predicate Describes(m: CachedMod, name: string) {
    m.title == name || m.folderName == Some(name)
  }

  /** The position of the first cached entry describing `name`, if any. */
  function FirstMatch(mods: seq<CachedMod>, name: string): (r: Option<nat>)
    ensures r.None? <==> forall i :: 0 <= i < |mods| ==> !Describes(mods[i], name)
    ensures r.Some? ==> r.value < |mods| && Describes(mods[r.value], name)
    ensures r.Some? ==> forall i :: 0 <= i < r.value ==> !Describes(mods[i], name)
  {
    if |mods| == 0 then None
    else if Describes(mods[0], name) then Some(0)
    else match FirstMatch(mods[1..], name)
      case None => None
      case Some(i) => Some(i + 1)
  }

  /**
   * `mod_update_available`: the last installed version comes from the
   * record store and the cache from disk, each possibly failing. There is an
   * update only when a version is recorded, the cache exists, and the first
   * entry describing the mod carries a different version.
   */
  function ModUpdateAvailable(name: string, lastInstalled: Result<string>, cache: Result<Option<seq<CachedMod>>>): (r: Result<bool>)
    ensures lastInstalled.Err? ==> r == Err(lastInstalled.error)
    ensures lastInstalled.Ok? && lastInstalled.value != "" && cache.Err? ==> r == Err(cache.error)
    ensures r == Ok(true) <==>
      && lastInstalled.Ok? && lastInstalled.value != ""
      && cache.Ok? && cache.value.Some?
      && exists i :: 0 <= i < |cache.value.value|
           && Describes(cache.value.value[i], name)
           && (forall j :: 0 <= j < i ==> !Describes(cache.value.value[j], name))
           && cache.value.value[i].version.Some?
           && cache.value.value[i].version.value != lastInstalled.value
  {
    if lastInstalled.Err? then Err(lastInstalled.error)
    else if lastInstalled.value == "" then Ok(false)
    else if cache.Err? then Err(cache.error)
    else if cache.value.None? then Ok(false)
    else
      match FirstMatch(cache.value.value, name)
      case None => Ok(false)
      case Some(i) =>
        var m := cache.value.value[i];
        Ok(m.version.Some? && m.version.value != lastInstalled.value)
  }

  /** Only the first describing entry counts: a later entry with another version cannot report an update. */
  lemma FirstMatchDecides(name: string, last: string, mods: seq<CachedMod>, i: nat)
    requires last != "" && i < |mods| && Describes(mods[i], name)
    requires forall j :: 0 <= j < i ==> !Describes(mods[j], name)
    requires mods[i].version.None?
    ensures forall extra :: ModUpdateAvailable(name, Ok(last), Ok(Some(mods + extra))) == Ok(false)
  {
    forall extra
      ensures ModUpdateAvailable(name, Ok(last), Ok(Some(mods + extra))) == Ok(false)
    {
      var all := mods + extra;
      assert forall j :: 0 <= j < i ==> all[j] == mods[j];
      assert all[i] == mods[i];
    }
  }

  const ReleasePrefix: string := "https://github.com/Steamodded/smods/archive/refs/tags/"
  const ReleaseSuffix: string := ".zip"

  /** The download address of the Steamodded release tagged `version`. */
  function ReleaseUrl(version: string): (url: string)
    ensures StartsWith(url, ReleasePrefix) && EndsWith(url, ReleaseSuffix)
    ensures |url| == |ReleasePrefix| + |version| + |ReleaseSuffix|
  {
    ReleasePrefix + version + ReleaseSuffix
  }

  /** The tag a release address names, when it has the release address's shape. */
  function TagOf(url: string): (tag: Option<string>)
    ensures tag.Some? ==> |url| == |ReleasePrefix| + |tag.value| + |ReleaseSuffix|
  {
    if |url| >= |ReleasePrefix| + |ReleaseSuffix| && StartsWith(url, ReleasePrefix) && EndsWith(url, ReleaseSuffix)
    then Some(url[|ReleasePrefix|..|url| - |ReleaseSuffix|])
    else None
  }

  /** The address is read back as the tag it was built from. */
  lemma TagOfReleaseUrl(version: string)
    ensures TagOf(ReleaseUrl(version)) == Some(version)
  {
    var url := ReleaseUrl(version);
    assert url[|ReleasePrefix|..|url| - |ReleaseSuffix|] == version;
  }

  /** Every address of the release shape is the address of its tag. */
  lemma ReleaseUrlOfTag(url: string)
    requires TagOf(url).Some?
    ensures ReleaseUrl(TagOf(url).value) == url
  {
    var tag := TagOf(url).value;
    assert url == url[..|ReleasePrefix|] + tag + url[|url| - |ReleaseSuffix|..];
  }

  /**
   * The cache branch of `get_latest_steamodded_release`: with a cached,
   * non-empty version list the first version's address is returned; otherwise
   * the command falls through to the remote lookup, which is not part of this
   * model (`None`).
   */
  function LatestReleaseFromCache(cached: Result<Option<seq<string>>>): (r: Option<string>)
    ensures r.Some? <==> cached.Ok? && cached.value.Some? && |cached.value.value| > 0
    ensures r.Some? ==> TagOf(r.value) == Some(cached.value.value[0])
  {
    if cached.Ok? && cached.value.Some? && |cached.value.value| > 0 then
      TagOfReleaseUrl(cached.value.value[0]);
      Some(ReleaseUrl(cached.value.value[0]))
    else None
  }
}
