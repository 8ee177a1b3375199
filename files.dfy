/**
 * An abstract file system: a finite map from paths (sequences of path
 * components) to nodes, shaped as a tree. It stands for the `std::fs` calls
 * the mod manager makes: `exists`, `read_dir`, `create_dir_all`,
 * `File::create`, `remove_file`, `remove_dir_all` and `rename`.
 */
module Files {
  import opened Common

  newtype byte = b: int | 0 <= b < 256

  type Path = seq<string>

  datatype Node = File(data: seq<byte>) | Dir

  function Parent(p: Path): Path
    requires |p| > 0
  {
    p[..|p| - 1]
  }

  /** The last component of `p`, Rust's `Path::file_name` (none for the root or a trailing ".."). */
  function FileName(p: Path): Option<string> {
    if |p| == 0 || p[|p| - 1] == ".." then None else Some(p[|p| - 1])
  }

  /**
   * The path `dir.join(name)` denotes once the operating system has resolved it,
   * for a single-component `name`: "" and "." name `dir` itself, ".." its parent.
   */
  function Join(dir: Path, name: string): Path {
    if name == "" || name == "." then dir
    else if name == ".." then (if |dir| == 0 then dir else Parent(dir))
    else dir + [name]
  }

  /** `dir.join(rel)` for a relative path given as its components, each resolved as `Join` does. */
  function Resolve(dir: Path, rel: seq<string>): Path
    decreases |rel|
  {
    if rel == [] then dir else Resolve(Join(dir, rel[0]), rel[1..])
  }

  /** The position of the last '.' in `s`, if any. */
  function LastDot(s: string): (r: Option<nat>)
    ensures r.None? ==> forall i :: 0 <= i < |s| ==> s[i] != '.'
    ensures r.Some? ==> r.value < |s| && s[r.value] == '.' && forall i :: r.value < i < |s| ==> s[i] != '.'
    decreases |s|
  {
    if s == [] then None
    else if s[|s| - 1] == '.' then Some(|s| - 1)
    else LastDot(s[..|s| - 1])
  }

  /**
   * Rust's `Path::extension` of a file name: the text after the last '.',
   * none when there is no '.', when the only '.' leads the name, or for "..".
   */
  function Extension(name: string): Option<string> {
    if name == ".." then None
    else match LastDot(name)
      case None => None
      case Some(i) => if i == 0 then None else Some(name[i + 1..])
  }

  /** A name has extension "lua" exactly when it ends in ".lua" after at least one other character. */
  lemma ExtensionIsLua(name: string)
    ensures Extension(name) == Some("lua") <==> |name| > 4 && EndsWithLua(name)
  {
    if |name| > 4 && EndsWithLua(name) {
      var d := LastDot(name);
      assert name[|name| - 4] == '.';
      assert d.Some? && d.value >= |name| - 4;
      assert d.value == |name| - 4;
      assert name != "..";
      assert name[|name| - 3..] == name[|name| - 4..][1..] == "lua";
    }
    if Extension(name) == Some("lua") {
      var i := LastDot(name).value;
      assert i != 0 && name[i + 1..] == "lua";
      assert |name| == i + 4;
      assert name[|name| - 4..] == [name[i]] + name[i + 1..];
      assert name[|name| - 4..] == ".lua";
    }
  }

  predicate EndsWithLua(name: string) {
    |name| >= 4 && name[|name| - 4..] == ".lua"
  }

  predicate IsDirIn(nodes: map<Path, Node>, p: Path) {
    p in nodes && nodes[p].Dir?
  }

  predicate IsFileIn(nodes: map<Path, Node>, p: Path) {
    p in nodes && nodes[p].File?
  }

  /** `q` is the root or lies in a directory. */
  predicate InDir(nodes: map<Path, Node>, q: Path) {
    |q| > 0 ==> IsDirIn(nodes, Parent(q))
  }

  /** Every entry other than the root lies in a directory. */
  predicate TreeShaped(nodes: map<Path, Node>) {
    forall q {:trigger InDir(nodes, q)} :: q in nodes ==> InDir(nodes, q)
  }

  /** In a tree every proper ancestor of an entry is a directory. */
  lemma {:induction false} AncestorIsDir(nodes: map<Path, Node>, p: Path, q: Path)
    requires TreeShaped(nodes) && q in nodes && p < q
    ensures IsDirIn(nodes, p)
    decreases |q|
  {
    assert InDir(nodes, q);
    var pq := Parent(q);
    if pq != p {
      assert p < pq;
      AncestorIsDir(nodes, p, pq);
    }
  }

  /** In a tree nothing lies below a path that is absent. */
  lemma NothingBelowAbsent(nodes: map<Path, Node>, p: Path)
    requires TreeShaped(nodes) && p !in nodes
    ensures forall q :: q in nodes ==> !(p <= q)
  {
    forall q | q in nodes && p <= q
      ensures false
    {
      assert p != q;
      AncestorIsDir(nodes, p, q);
    }
  }

  /** The names of the entries directly inside `d`: what `read_dir(d)` lists. */
  function ChildNames(nodes: map<Path, Node>, d: Path): set<string> {
    set q | q in nodes && |q| == |d| + 1 && d <= q :: q[|d|]
  }

  /** `nodes` without `p` and everything below it. */
  function Prune(nodes: map<Path, Node>, p: Path): map<Path, Node> {
    map q | q in nodes && !(p <= q) :: nodes[q]
  }

  /** `nodes` without any of `roots` and everything below them. */
  function PruneAll(nodes: map<Path, Node>, roots: set<Path>): map<Path, Node> {
    map q | q in nodes && (forall r :: r in roots ==> !(r <= q)) :: nodes[q]
  }

  lemma PruneAllEmpty(nodes: map<Path, Node>)
    ensures PruneAll(nodes, {}) == nodes
  {
  }

  /** Removing one more subtree extends the set of removed roots. */
  lemma PruneAllStep(nodes: map<Path, Node>, roots: set<Path>, p: Path)
    ensures Prune(PruneAll(nodes, roots), p) == PruneAll(nodes, roots + {p})
  {
    var a := Prune(PruneAll(nodes, roots), p);
    var b := PruneAll(nodes, roots + {p});
    assert forall q :: q in a <==> q in b;
  }

  /** The prefixes of `p`, from the root to `p` itself. */
  function Prefixes(p: Path): set<Path> {
    set i | 0 <= i <= |p| :: p[..i]
  }

  /** Some prefix of `p` (possibly `p` itself) is a regular file. */
  predicate FileOnPrefix(nodes: map<Path, Node>, p: Path) {
    exists i :: 0 <= i <= |p| && IsFileIn(nodes, p[..i])
  }

  /** `nodes` with a directory at every prefix of `p` that was absent. */
  function WithDirs(nodes: map<Path, Node>, p: Path): map<Path, Node> {
    map q | q in nodes.Keys + Prefixes(p) :: if q in nodes then nodes[q] else Dir
  }

  /** The image of the entries at and below `src` once moved to `dst`. */
  function MovedKeys(nodes: map<Path, Node>, src: Path, dst: Path): set<Path> {
    set q | q in nodes && src <= q :: dst + q[|src|..]
  }

  /** A moved key is `dst` followed by the rest of a key below `src`. */
  lemma MovedKeysAt(nodes: map<Path, Node>, src: Path, dst: Path)
    ensures forall k :: k in MovedKeys(nodes, src, dst) <==> dst <= k && src + k[|dst|..] in nodes
  {
    forall k | k in MovedKeys(nodes, src, dst)
      ensures dst <= k && src + k[|dst|..] in nodes
    {
      var q :| q in nodes && src <= q && k == dst + q[|src|..];
      assert k[|dst|..] == q[|src|..];
      assert src + q[|src|..] == q;
    }
    forall k | dst <= k && src + k[|dst|..] in nodes
      ensures k in MovedKeys(nodes, src, dst)
    {
      var q := src + k[|dst|..];
      assert q[|src|..] == k[|dst|..];
      assert k == dst + q[|src|..];
    }
  }

  /** `nodes` after the subtree at `src` has been renamed to `dst`. */
  function Moved(nodes: map<Path, Node>, src: Path, dst: Path): (m: map<Path, Node>)
    requires TreeShaped(nodes) && dst !in nodes
    ensures forall k :: k in m <==> (k in nodes && !(src <= k)) || (dst <= k && src + k[|dst|..] in nodes)
    ensures forall k :: k in m && dst <= k ==> src + k[|dst|..] in nodes && m[k] == nodes[src + k[|dst|..]]
    ensures forall k :: k in m && !(dst <= k) ==> m[k] == nodes[k]
  {
    NothingBelowAbsent(nodes, dst);
    MovedKeysAt(nodes, src, dst);
    map k | k in Prune(nodes, src).Keys + MovedKeys(nodes, src, dst) ::
      if dst <= k then nodes[src + k[|dst|..]] else nodes[k]
  }

  lemma MovedParent(nodes: map<Path, Node>, src: Path, dst: Path, k: Path)
    requires TreeShaped(nodes) && src in nodes && dst !in nodes && |dst| > 0
    requires IsDirIn(nodes, Parent(dst)) && !(src <= dst)
    requires k in Moved(nodes, src, dst) && |k| > 0
    ensures InDir(Moved(nodes, src, dst), k)
  {
    NothingBelowAbsent(nodes, dst);
    if k == dst {
      var pk := Parent(dst);
      assert !(dst <= pk);
      assert pk in nodes && !(src <= pk);
    } else if dst <= k {
      var r := k[|dst|..];
      var pk := Parent(k);
      assert |r| > 0;
      var q := src + r;
      assert q in nodes;
      var pq := src + Parent(r);
      assert Parent(q) == pq;
      assert InDir(nodes, q);
      assert pk == dst + Parent(r);
      assert dst <= pk && pk[|dst|..] == Parent(r);
    } else {
      var pk := Parent(k);
      assert k in nodes && !(src <= k);
      assert InDir(nodes, k);
      assert !(src <= pk);
      assert !(dst <= pk);
      assert pk in nodes;
    }
  }

  lemma MovedTreeShaped(nodes: map<Path, Node>, src: Path, dst: Path)
    requires TreeShaped(nodes) && src in nodes && dst !in nodes && |dst| > 0
    requires IsDirIn(nodes, Parent(dst)) && !(src <= dst)
    ensures TreeShaped(Moved(nodes, src, dst))
  {
    forall k | k in Moved(nodes, src, dst)
      ensures InDir(Moved(nodes, src, dst), k)
    {
      if |k| > 0 {
        MovedParent(nodes, src, dst, k);
      }
    }
  }

  /** The file system the mod manager works on. */
  class FileSystem {
    var nodes: map<Path, Node>

    ghost predicate Valid()
      reads this
    {
      TreeShaped(nodes)
    }

    constructor (initial: map<Path, Node>)
      requires TreeShaped(initial)
      ensures Valid() && nodes == initial
    {
      nodes := initial;
    }

    predicate Exists(p: Path)
      reads this
    {
      p in nodes
    }

    /** `read_dir(d)`: the names directly inside `d`, each once, in no particular order. */
    method ReadDir(d: Path) returns (names: seq<string>)
      ensures forall n :: n in names <==> n in ChildNames(nodes, d)
      ensures forall i, j :: 0 <= i < j < |names| ==> names[i] != names[j]
    {
      var left := ChildNames(nodes, d);
      names := [];
      while left != {}
        invariant forall n :: n in names <==> n in ChildNames(nodes, d) && n !in left
        invariant left <= ChildNames(nodes, d)
        invariant forall i, j :: 0 <= i < j < |names| ==> names[i] != names[j]
        decreases left
      {
        var n :| n in left;
        names := names + [n];
        left := left - {n};
      }
    }

    /** A walk of the tree rooted at `root`: every entry at or below it, each once. */
    method Walk(root: Path) returns (entries: seq<Path>)
      ensures forall p :: p in entries <==> p in nodes && root <= p
    {
      var left := set p | p in nodes && root <= p;
      entries := [];
      while left != {}
        invariant forall p :: p in entries <==> p in nodes && root <= p && p !in left
        invariant forall p :: p in left ==> p in nodes && root <= p
        decreases left
      {
        var p :| p in left;
        entries := entries + [p];
        left := left - {p};
      }
    }

    /** `remove_dir_all(p)` or `remove_file(p)`: `p` and everything below it disappear. */
    method RemoveAll(p: Path)
      requires Valid()
      modifies this
      ensures Valid()
      ensures nodes == Prune(old(nodes), p)
    {
      ghost var before := nodes;
      nodes := Prune(nodes, p);
      forall q | q in nodes
        ensures InDir(nodes, q)
      {
        assert InDir(before, q);
        if |q| > 0 {
          assert !(p <= Parent(q));
        }
      }
    }

    /** `remove_file(p)`: fails unless `p` is a regular file. */
    method RemoveFile(p: Path) returns (ok: bool)
      requires Valid()
      modifies this
      ensures Valid()
      ensures ok == IsFileIn(old(nodes), p)
      ensures nodes == if ok then old(nodes) - {p} else old(nodes)
    {
      ok := IsFileIn(nodes, p);
      if ok {
        ghost var before := nodes;
        nodes := nodes - {p};
        forall q | q in nodes
          ensures InDir(nodes, q)
        {
          assert InDir(before, q);
        }
      }
    }

    /**
     * `create_dir_all(p)`: fails when some prefix of `p` is a regular file;
     * otherwise every missing prefix becomes a directory.
     */
    method CreateDirAll(p: Path) returns (ok: bool)
      requires Valid()
      modifies this
      ensures Valid()
      ensures ok == !FileOnPrefix(old(nodes), p)
      ensures nodes == if ok then WithDirs(old(nodes), p) else old(nodes)
    {
      ok := !FileOnPrefix(nodes, p);
      if ok {
        ghost var before := nodes;
        nodes := WithDirs(nodes, p);
        forall q | q in nodes
          ensures InDir(nodes, q)
        {
          if q in before {
            assert InDir(before, q);
          } else if |q| > 0 {
            var i :| 0 <= i <= |p| && q == p[..i];
            assert Parent(q) == p[..i - 1];
            assert Parent(q) in Prefixes(p);
          }
        }
      }
    }

    /**
     * `File::create(p)` followed by writing `data`: fails when the parent of
     * `p` is not a directory or `p` is a directory; an existing file is replaced.
     */
    method WriteFile(p: Path, data: seq<byte>) returns (ok: bool)
      requires Valid()
      modifies this
      ensures Valid()
      ensures ok == (|p| > 0 && IsDirIn(old(nodes), Parent(p)) && !IsDirIn(old(nodes), p))
      ensures nodes == if ok then old(nodes)[p := File(data)] else old(nodes)
    {
      ok := |p| > 0 && IsDirIn(nodes, Parent(p)) && !IsDirIn(nodes, p);
      if ok {
        ghost var before := nodes;
        nodes := nodes[p := File(data)];
        forall q | q in nodes
          ensures InDir(nodes, q)
        {
          if q != p {
            assert InDir(before, q);
          }
        }
      }
    }

    /**
     * `rename(src, dst)` onto a destination that does not exist: the subtree
     * at `src` moves to `dst`. An existing destination is refused.
     */
    method Rename(src: Path, dst: Path) returns (ok: bool)
      requires Valid()
      modifies this
      ensures Valid()
      ensures ok == (src in old(nodes) && dst !in old(nodes) && |dst| > 0 &&
                     IsDirIn(old(nodes), Parent(dst)) && !(src <= dst))
      ensures ok ==> nodes == Moved(old(nodes), src, dst)
      ensures !ok ==> nodes == old(nodes)
    {
      ok := src in nodes && dst !in nodes && |dst| > 0 && IsDirIn(nodes, Parent(dst)) && !(src <= dst);
      if ok {
        MovedTreeShaped(nodes, src, dst);
        nodes := Moved(nodes, src, dst);
      }
    }
  }
}
