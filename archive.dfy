/**
 * Installing a mod from an archive: the mod name taken from the file name,
 * the choice of decoder, and the placement of the decoded entries under the
 * mod's directory. The decoders themselves are not modelled: an archive is
 * the list of entries its decoder yields, or nothing when it cannot be opened.
 */
module Archive {
  import opened Common
  import opened Text
  import opened Files

  /** The mod name: the file name with ".zip", ".tar", ".tar.gz" and ".tgz" trimmed off in that order. */
  function ModName(fileName: string): (r: string)
    ensures r <= fileName
  {
    TrimEnd(TrimEnd(TrimEnd(TrimEnd(fileName, ".zip"), ".tar"), ".tar.gz"), ".tgz")
  }

  /** The file name ends in none of the four archive suffixes. */
  predicate Bare(s: string) {
    !EndsWith(s, ".zip") && !EndsWith(s, ".tar") && !EndsWith(s, ".tar.gz") && !EndsWith(s, ".tgz")
  }

  lemma TrimEndNoop(s: string, suffix: string)
    requires !EndsWith(s, suffix)
    ensures TrimEnd(s, suffix) == s
  {
  }

  lemma NotEndsWithAppended(s: string, ext: string, suffix: string)
    requires |suffix| <= |ext| && !EndsWith(ext, suffix)
    ensures !EndsWith(s + ext, suffix)
  {
    assert (s + ext)[|s + ext| - |suffix|..] == ext[|ext| - |suffix|..];
  }

  lemma NotEndsWithLonger(s: string, ext: string, suffix: string)
    requires |ext| <= |suffix| && suffix[|suffix| - |ext|..] != ext
    ensures !EndsWith(s + ext, suffix)
  {
  }

  /** A bare name with one archive suffix appended yields the bare name back as mod name. */
  lemma ModNameOfArchive(s: string, ext: string)
    requires Bare(s)
    requires ext in [".zip", ".tar", ".tar.gz", ".tgz"]
    ensures ModName(s + ext) == s
  {
    var t := s + ext;
    assert t[..|t| - |ext|] == s;
    assert t[|t| - |ext|..] == ext;
    if ext == ".zip" {
      TrimEndAbsorbs(s, ".zip");
    } else if ext == ".tar" {
      NotEndsWithAppended(s, ".tar", ".zip");
      TrimEndAbsorbs(s, ".tar");
    } else if ext == ".tar.gz" {
      NotEndsWithAppended(s, ".tar.gz", ".zip");
      NotEndsWithAppended(s, ".tar.gz", ".tar");
      TrimEndAbsorbs(s, ".tar.gz");
    } else {
      NotEndsWithAppended(s, ".tgz", ".zip");
      NotEndsWithAppended(s, ".tgz", ".tar");
      NotEndsWithLonger(s, ".tgz", ".tar.gz");
      TrimEndAbsorbs(s, ".tgz");
    }
  }

  datatype Format = Zip | Tar | TarGz | Unsupported

  /** The decoder chosen for a file name: ".zip" first, then ".tar", then ".tar.gz" or ".tgz". */
  function FormatOf(fileName: string): (f: Format)
    ensures f == Unsupported <==> Bare(fileName)
    ensures f == Zip <==> EndsWith(fileName, ".zip")
  {
    if EndsWith(fileName, ".zip") then Zip
    else if EndsWith(fileName, ".tar") then Tar
    else if EndsWith(fileName, ".tar.gz") || EndsWith(fileName, ".tgz") then TarGz
    else Unsupported
  }

  /** Every archive suffix selects its own decoder. */
  lemma FormatOfArchive(s: string)
    ensures FormatOf(s + ".zip") == Zip
    ensures FormatOf(s + ".tar") == Tar
    ensures FormatOf(s + ".tar.gz") == TarGz
    ensures FormatOf(s + ".tgz") == TarGz
  {
    assert (s + ".zip")[|s + ".zip"| - 4..] == ".zip";
    assert (s + ".tar")[|s + ".tar"| - 4..] == ".tar";
    assert (s + ".tar.gz")[|s + ".tar.gz"| - 7..] == ".tar.gz";
    assert (s + ".tgz")[|s + ".tgz"| - 4..] == ".tgz";
    NotEndsWithAppended(s, ".tar", ".zip");
    NotEndsWithAppended(s, ".tar.gz", ".zip");
    NotEndsWithAppended(s, ".tar.gz", ".tar");
    NotEndsWithAppended(s, ".tgz", ".zip");
    NotEndsWithAppended(s, ".tgz", ".tar");
  }

  /** The position of the first '/' in `s`, or `|s|` when there is none. */
  function SlashAt(s: string): (i: nat)
    ensures i <= |s| && (i < |s| ==> s[i] == '/')
    ensures forall j :: 0 <= j < i ==> s[j] != '/'
    ensures '/' !in s ==> i == |s|
  {
    if |s| == 0 || s[0] == '/' then 0 else 1 + SlashAt(s[1..])
  }

  /** The components of a relative path written with '/' separators, as `Path::join` reads it on Unix. */
  function Components(s: string): seq<string>
    decreases |s|
  {
    var i := SlashAt(s);
    if i == |s| then [s] else [s[..i]] + Components(s[i + 1..])
  }

  /** A name without a separator is a single component. */
  lemma ComponentsOfName(s: string)
    requires '/' !in s
    ensures Components(s) == [s]
  {
  }

  /** A first component without a separator is split off at the first '/'. */
  lemma ComponentsCons(a: string, b: string)
    requires '/' !in a
    ensures Components(a + "/" + b) == [a] + Components(b)
  {
    var s := a + "/" + b;
    assert s[|a|] == '/';
    assert forall j :: 0 <= j < |a| ==> s[j] == a[j];
    assert SlashAt(s) == |a|;
    assert s[..|a|] == a && s[|a| + 1..] == b;
  }

  /** Joining a single component is `Join`. */
  lemma ResolveOne(dir: Path, name: string)
    ensures Resolve(dir, [name]) == Join(dir, name)
  {
    assert [name][1..] == [];
  }

  /**
   * The mod directory as the code computes it: the mod name joined onto the
   * mods directory, its '/'-separated components each resolved in turn.
   */
  function ModDirAsWritten(modsDir: Path, fileName: string): Path {
    Resolve(modsDir, Components(ModName(fileName)))
  }

  /**
   * A file named ".zip" trims to the empty name, which joins to the mods
   * directory itself; "...zip" trims to "..", which joins to its parent.
   * Both are removed wholesale as the "existing mod directory".
   */
  lemma ModDirAsWrittenEscapes(modsDir: Path, nodes: map<Path, Node>)
    requires |modsDir| > 0 && modsDir in nodes
    ensures ModDirAsWritten(modsDir, ".zip") == modsDir
    ensures ModDirAsWritten(modsDir, "...zip") == Parent(modsDir)
    ensures modsDir !in Prune(nodes, ModDirAsWritten(modsDir, ".zip"))
    ensures modsDir !in Prune(nodes, ModDirAsWritten(modsDir, "...zip"))
  {
    assert ".zip"[..0] == "";
    assert "...zip"[..2] == "..";
    assert !EndsWith("..", ".zip") && !EndsWith("..", ".tar") && !EndsWith("..", ".tar.gz") && !EndsWith("..", ".tgz");
    assert ModName(".zip") == "";
    assert ModName("...zip") == "..";
    ComponentsOfName("");
    ComponentsOfName("..");
    ResolveOne(modsDir, "");
    ResolveOne(modsDir, "..");
    assert Parent(modsDir) <= modsDir;
  }

  /**
   * An uploaded file name is joined as given, so "../../victim.zip" names a
   * folder "victim" two levels above the mods directory, outside it, and that
   * folder is removed wholesale as the "existing mod directory".
   */
  lemma UploadedNameEscapes(modsDir: Path, nodes: map<Path, Node>, x: string)
    requires |modsDir| >= 2 && ValidModName(x) && Bare("../../" + x)
    ensures ModDirAsWritten(modsDir, "../../" + x + ".zip") == modsDir[..|modsDir| - 2] + [x]
    ensures !(modsDir <= ModDirAsWritten(modsDir, "../../" + x + ".zip"))
    ensures ModDirAsWritten(modsDir, "../../" + x + ".zip") !in Prune(nodes, ModDirAsWritten(modsDir, "../../" + x + ".zip"))
  {
    ModNameOfArchive("../../" + x, ".zip");
    UpTwoComponents(x);
    UpTwoResolves(modsDir, x);
    var d := ModDirAsWritten(modsDir, "../../" + x + ".zip");
    assert |d| < |modsDir|;
  }

  /** Two ".." components climb two levels before the last component is joined. */
  lemma UpTwoResolves(modsDir: Path, x: string)
    requires |modsDir| >= 2 && x != "" && x != "." && x != ".."
    ensures Resolve(modsDir, ["..", "..", x]) == modsDir[..|modsDir| - 2] + [x]
  {
    var once := Parent(modsDir);
    var up := modsDir[..|modsDir| - 2];
    assert Parent(once) == up;
    assert ["..", "..", x][1..] == ["..", x];
    assert Resolve(modsDir, ["..", "..", x]) == Resolve(once, ["..", x]);
    assert ["..", x][1..] == [x];
    assert Resolve(once, ["..", x]) == Resolve(up, [x]);
    ResolveOne(up, x);
  }

  lemma UpTwoComponents(x: string)
    requires '/' !in x
    ensures Components("../../" + x) == ["..", "..", x]
  {
    assert "../../" + x == ".." + "/" + (".." + "/" + x);
    ComponentsCons("..", ".." + "/" + x);
    ComponentsCons("..", x);
    ComponentsOfName(x);
  }

  /**
   * The mod name names a folder directly inside the mods directory: not
   * empty, ".", or "..", and without a path separator.
   */
  predicate ValidModName(name: string) {
    name != "" && name != "." && name != ".." && '/' !in name && '\\' !in name
  }

  /** The mod directory, refusing a mod name that would not name a folder directly inside the mods directory. */
  function ModDir(modsDir: Path, fileName: string): (r: Result<Path>)
    ensures r.Ok? <==> ValidModName(ModName(fileName))
    ensures r.Err? ==> r.error == InvalidModName(ModName(fileName))
  {
    var name := ModName(fileName);
    if ValidModName(name) then Ok(modsDir + [name]) else Err(InvalidModName(name))
  }

  /** An accepted mod directory is a direct child of the mods directory, where the code's join puts it too. */
  lemma ModDirInsideModsDir(modsDir: Path, fileName: string)
    requires ModDir(modsDir, fileName).Ok?
    ensures var d := ModDir(modsDir, fileName).value;
      |d| == |modsDir| + 1 && Parent(d) == modsDir && d == ModDirAsWritten(modsDir, fileName)
  {
    ComponentsOfName(ModName(fileName));
    ResolveOne(modsDir, ModName(fileName));
  }

  /** A ZIP entry: its enclosed name, if the archive gives it a safe relative one, its kind and its contents. */
  datatype ZipEntry = ZipEntry(enclosed: Option<Path>, isDir: bool, data: seq<byte>)

  /** A TAR entry: its path as written in the archive, its kind and its contents. */
  datatype TarEntry = TarEntry(path: seq<string>, isDir: bool, data: seq<byte>)

  /**
   * One write that extraction makes: the output path, whether it is a
   * directory, the contents of a file, whether the parent directories are
   * created first, and the error reported when the write itself fails.
   */
  datatype Placement = Placement(out: Path, isDir: bool, data: seq<byte>, parentFirst: bool, err: Error)

  /** A ZIP entry without an enclosed name is skipped; a directory is created with its ancestors; a file gets its parent first. */
  function ZipPlacement(target: Path, e: ZipEntry): Option<Placement> {
    match e.enclosed
    case None => None
    case Some(rel) =>
      Some(Placement(target + rel, e.isDir, e.data, !e.isDir, if e.isDir then CreateDirFailed else CreateFileFailed))
  }

  /** A TAR entry always gets its parent first and is unpacked at its path resolved against the target. */
  function TarPlacement(target: Path, e: TarEntry): Option<Placement> {
    Some(Placement(Resolve(target, e.path), e.isDir, e.data, true, UnpackFailed))
  }

  /** `create_dir_all(p)`: fails when a prefix of `p` is a regular file. */
  function MakeDirs(nodes: map<Path, Node>, p: Path, e: Error): Result<map<Path, Node>> {
    if FileOnPrefix(nodes, p) then Err(e) else Ok(WithDirs(nodes, p))
  }

  /** `File::create(p)` and the copy: fails unless the parent is a directory and `p` is not one. */
  function PutFile(nodes: map<Path, Node>, p: Path, data: seq<byte>, e: Error): Result<map<Path, Node>> {
    if |p| > 0 && IsDirIn(nodes, Parent(p)) && !IsDirIn(nodes, p) then Ok(nodes[p := File(data)]) else Err(e)
  }

  /** The effect of one placement. */
  function Place(nodes: map<Path, Node>, pl: Placement): Result<map<Path, Node>> {
    var first := if pl.parentFirst && |pl.out| > 0 then MakeDirs(nodes, Parent(pl.out), CreateParentDirFailed) else Ok(nodes);
    if first.Err? then first
    else if pl.isDir then MakeDirs(first.value, pl.out, pl.err)
    else PutFile(first.value, pl.out, pl.data, pl.err)
  }

  /** The placements made one after another, stopping at the first failure; `None` is a skipped entry. */
  function PlaceAll(nodes: map<Path, Node>, ps: seq<Option<Placement>>): Result<map<Path, Node>>
    decreases |ps|
  {
    if ps == [] then Ok(nodes)
    else if ps[0].None? then PlaceAll(nodes, ps[1..])
    else
      var r := Place(nodes, ps[0].value);
      if r.Err? then r else PlaceAll(r.value, ps[1..])
  }

  /** The placement writes a regular file at `k`. */
  predicate WritesFileAt(p: Option<Placement>, k: Path) {
    p.Some? && !p.value.isDir && p.value.out == k
  }

  /** An entry that no placement overwrites with a file keeps its node. */
  lemma {:induction false} PlaceAllKeeps(nodes: map<Path, Node>, ps: seq<Option<Placement>>, k: Path)
    requires k in nodes && PlaceAll(nodes, ps).Ok?
    requires forall j :: 0 <= j < |ps| ==> !WritesFileAt(ps[j], k)
    ensures k in PlaceAll(nodes, ps).value && PlaceAll(nodes, ps).value[k] == nodes[k]
    decreases |ps|
  {
    if ps != [] {
      assert !WritesFileAt(ps[0], k);
      assert forall j :: 0 <= j < |ps[1..]| ==> ps[1..][j] == ps[j + 1];
      if ps[0].None? {
        PlaceAllKeeps(nodes, ps[1..], k);
      } else {
        var r := Place(nodes, ps[0].value);
        PlaceAllKeeps(r.value, ps[1..], k);
      }
    }
  }

  /** Last write wins: a file placed with no later file placed at the same path ends up with its contents. */
  lemma {:induction false} PlaceAllLastFileWins(nodes: map<Path, Node>, ps: seq<Option<Placement>>, i: nat)
    requires PlaceAll(nodes, ps).Ok?
    requires i < |ps| && ps[i].Some? && !ps[i].value.isDir
    requires forall j :: i < j < |ps| ==> !WritesFileAt(ps[j], ps[i].value.out)
    ensures ps[i].value.out in PlaceAll(nodes, ps).value
    ensures PlaceAll(nodes, ps).value[ps[i].value.out] == File(ps[i].value.data)
    decreases |ps|
  {
    assert forall j :: 0 <= j < |ps[1..]| ==> ps[1..][j] == ps[j + 1];
    if i == 0 {
      var r := Place(nodes, ps[0].value);
      PlaceAllKeeps(r.value, ps[1..], ps[0].value.out);
    } else if ps[0].None? {
      PlaceAllLastFileWins(nodes, ps[1..], i - 1);
    } else {
      PlaceAllLastFileWins(Place(nodes, ps[0].value).value, ps[1..], i - 1);
    }
  }

  /** `root` and every directory above it exist as directories. */
  predicate DirsDownTo(nodes: map<Path, Node>, root: Path) {
    forall i :: 0 <= i <= |root| ==> IsDirIn(nodes, root[..i])
  }

  /** Nothing outside `root` differs between `a` and `b`. */
  ghost predicate SameOutside(a: map<Path, Node>, b: map<Path, Node>, root: Path) {
    forall k :: !(root <= k) ==> (k in a <==> k in b) && (k in a ==> a[k] == b[k])
  }

  lemma PrefixOutsideRoot(nodes: map<Path, Node>, root: Path, p: Path, i: nat)
    requires DirsDownTo(nodes, root) && (p <= root || root <= p)
    requires i <= |p| && !(root <= p[..i])
    ensures p[..i] in nodes
  {
    assert i < |root| || p <= root;
    assert p[..i] == root[..i];
    assert IsDirIn(nodes, root[..i]);
  }

  /** Creating the directories along a path comparable with `root` adds nothing outside `root`. */
  lemma MakeDirsInside(nodes: map<Path, Node>, p: Path, root: Path, e: Error)
    requires DirsDownTo(nodes, root) && (p <= root || root <= p)
    requires MakeDirs(nodes, p, e).Ok?
    ensures DirsDownTo(MakeDirs(nodes, p, e).value, root)
    ensures SameOutside(nodes, MakeDirs(nodes, p, e).value, root)
  {
    var m := WithDirs(nodes, p);
    forall k | !(root <= k) && k in m
      ensures k in nodes
    {
      if k !in nodes {
        var i :| 0 <= i <= |p| && k == p[..i];
        PrefixOutsideRoot(nodes, root, p, i);
      }
    }
    forall i | 0 <= i <= |root| ensures IsDirIn(m, root[..i]) {
      assert IsDirIn(nodes, root[..i]);
    }
  }

  /** A placement whose output lies at or below `root` changes nothing outside `root`. */
  lemma PlaceInside(nodes: map<Path, Node>, pl: Placement, root: Path)
    requires DirsDownTo(nodes, root) && root <= pl.out
    requires Place(nodes, pl).Ok?
    ensures DirsDownTo(Place(nodes, pl).value, root)
    ensures SameOutside(nodes, Place(nodes, pl).value, root)
  {
    var first := if pl.parentFirst && |pl.out| > 0 then MakeDirs(nodes, Parent(pl.out), CreateParentDirFailed) else Ok(nodes);
    if pl.parentFirst && |pl.out| > 0 {
      var q := Parent(pl.out);
      assert q <= root || root <= q;
      MakeDirsInside(nodes, q, root, CreateParentDirFailed);
    }
    if pl.isDir {
      MakeDirsInside(first.value, pl.out, root, pl.err);
    } else {
      assert root[..|root|] == root;
      assert IsDirIn(first.value, root);
    }
  }

  /** Placements whose outputs all lie at or below `root` change nothing outside `root`. */
  lemma {:induction false} PlaceAllInside(nodes: map<Path, Node>, ps: seq<Option<Placement>>, root: Path)
    requires DirsDownTo(nodes, root)
    requires forall j :: 0 <= j < |ps| && ps[j].Some? ==> root <= ps[j].value.out
    requires PlaceAll(nodes, ps).Ok?
    ensures SameOutside(nodes, PlaceAll(nodes, ps).value, root)
    decreases |ps|
  {
    if ps != [] {
      assert forall j :: 0 <= j < |ps[1..]| ==> ps[1..][j] == ps[j + 1];
      if ps[0].None? {
        PlaceAllInside(nodes, ps[1..], root);
      } else {
        var r := Place(nodes, ps[0].value);
        PlaceInside(nodes, ps[0].value, root);
        PlaceAllInside(r.value, ps[1..], root);
      }
    }
  }

  function ZipPlacements(target: Path, es: seq<ZipEntry>): (ps: seq<Option<Placement>>)
    ensures |ps| == |es| && forall i :: 0 <= i < |es| ==> ps[i] == ZipPlacement(target, es[i])
  {
    seq(|es|, i requires 0 <= i < |es| => ZipPlacement(target, es[i]))
  }

  function TarPlacements(target: Path, es: seq<TarEntry>): (ps: seq<Option<Placement>>)
    ensures |ps| == |es| && forall i :: 0 <= i < |es| ==> ps[i] == TarPlacement(target, es[i])
  {
    seq(|es|, i requires 0 <= i < |es| => TarPlacement(target, es[i]))
  }

  /** ZIP extraction writes nothing outside the target directory. */
  lemma ZipStaysInside(nodes: map<Path, Node>, target: Path, es: seq<ZipEntry>)
    requires DirsDownTo(nodes, target)
    requires PlaceAll(nodes, ZipPlacements(target, es)).Ok?
    ensures SameOutside(nodes, PlaceAll(nodes, ZipPlacements(target, es)).value, target)
  {
    PlaceAllInside(nodes, ZipPlacements(target, es), target);
  }

  /**
   * TAR entries are unpacked at their path joined onto the target without a
   * check, so an entry "../x" lands next to the target rather than inside it.
   */
  lemma TarEntryCanLeaveTarget(target: Path, x: string)
    requires |target| > 0 && ValidModName(x)
    ensures TarPlacement(target, TarEntry(["..", x], false, [])).value.out == Parent(target) + [x]
    ensures x != target[|target| - 1] ==> !(target <= Parent(target) + [x])
  {
    assert ["..", x][1..] == [x];
    assert Resolve(Parent(target), [x]) == Parent(target) + [x];
  }
}
