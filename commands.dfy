/**
 * Small commands over the record store: whether a framework is installed,
 * and the normalisation of optional text fields the front end sends as
 * empty strings.
 */
module Commands {
  import opened Common
  import opened Files
  import opened Store

  /** The front end's "no value": an empty string stands for `None`. */
  function NonEmpty(s: string): (r: Option<string>)
    ensures r.None? <==> s == ""
    ensures r.Some? ==> r.value == s
  {
    if s == "" then None else Some(s)
  }

  /** The way back: `None` is sent as the empty string. */
  function OrEmpty(o: Option<string>): string {
    if o.Some? then o.value else ""
  }

  lemma OrEmptyNonEmpty(s: string)
    ensures OrEmpty(NonEmpty(s)) == s
  {
  }

  /** Only `Some("")` does not survive the trip, since it is read back as `None`. */
  lemma NonEmptyOrEmpty(o: Option<string>)
    ensures NonEmpty(OrEmpty(o)) == o <==> o != Some("")
  {
  }

  /** `add_installed_mod`: the row is written with an empty version recorded as none. */
  method AddInstalledModCommand(db: Database, name: string, path: Path, dependencies: seq<string>, currentVersion: string)
    modifies db
    ensures db.rows == old(db.rows)[name := ModRow(path, dependencies, NonEmpty(currentVersion))]
  {
    db.AddInstalledMod(name, path, dependencies, NonEmpty(currentVersion));
  }

  /**
   * `check_mod_installation`: only the exact names "Steamodded" and
   * "Talisman" are accepted; such a framework is installed when a row or a
   * locally detected mod carries exactly that name.
   */
  function CheckModInstallation(modType: string, installed: seq<string>, detected: seq<string>): (r: Result<bool>)
    ensures r == Err(InvalidModType) <==> modType != "Steamodded" && modType != "Talisman"
    ensures r == Ok(true) <==> (modType == "Steamodded" || modType == "Talisman") && (modType in installed || modType in detected)
  {
    if modType == "Steamodded" || modType == "Talisman" then
      Ok((exists i | 0 <= i < |installed| :: installed[i] == modType) || (exists i | 0 <= i < |detected| :: detected[i] == modType))
    else Err(InvalidModType)
  }
}
