/**
 * The step that follows extraction: when the mod directory holds a single
 * entry and that entry is a directory, the entries of that nested directory
 * are renamed one by one into the mod directory, and the then-empty nested
 * directory is removed.
 */
module Collapse {
  import opened Common
  import opened Files

  /** `mod` holds exactly one entry, and it is the directory `n`. */
  predicate SingleNestedDir(nodes: map<Path, Node>, mod: Path, n: string) {
    IsDirIn(nodes, mod) && ChildNames(nodes, mod) == {n} && IsDirIn(nodes, mod + [n])
  }

  /** `k` lies below the nested directory, inside one of its children in `moved`. */
  predicate Moving(mod: Path, n: string, moved: set<string>, k: Path) {
    |k| > |mod| + 1 && mod + [n] <= k && k[|mod| + 1] in moved
  }

  /** `k` is where an entry inside a child in `moved` of the nested directory arrives. */
  predicate Lifted(nodes: map<Path, Node>, mod: Path, n: string, moved: set<string>, k: Path) {
    |k| > |mod| && mod <= k && k[|mod|] in moved && mod + [n] + k[|mod|..] in nodes
  }

  /** `cur` is `nodes` after the children `moved` of the nested directory `mod + [n]` were renamed into `mod`. */
  ghost predicate IsPartial(cur: map<Path, Node>, nodes: map<Path, Node>, mod: Path, n: string, moved: set<string>) {
    && (forall k :: k in cur <==> (k in nodes && !Moving(mod, n, moved, k)) || Lifted(nodes, mod, n, moved, k))
    && (forall k :: k in cur && Lifted(nodes, mod, n, moved, k) ==> cur[k] == nodes[mod + [n] + k[|mod|..]])
    && (forall k :: k in cur && !Lifted(nodes, mod, n, moved, k) ==> k in nodes && cur[k] == nodes[k])
  }

  /** The entries that arrive in `mod`: the image of everything strictly below the nested directory. */
  function LiftedKeys(nodes: map<Path, Node>, mod: Path, n: string): set<Path> {
    set q | q in nodes && mod + [n] < q :: mod + q[|mod| + 1..]
  }

  lemma LiftedKeysAt(nodes: map<Path, Node>, mod: Path, n: string)
    ensures forall k :: k in LiftedKeys(nodes, mod, n) <==> |k| > |mod| && mod <= k && mod + [n] + k[|mod|..] in nodes
  {
    forall k | k in LiftedKeys(nodes, mod, n)
      ensures |k| > |mod| && mod <= k && mod + [n] + k[|mod|..] in nodes
    {
      var q :| q in nodes && mod + [n] < q && k == mod + q[|mod| + 1..];
      assert mod + [n] + k[|mod|..] == q;
    }
    forall k | |k| > |mod| && mod <= k && mod + [n] + k[|mod|..] in nodes
      ensures k in LiftedKeys(nodes, mod, n)
    {
      var q := mod + [n] + k[|mod|..];
      assert mod + q[|mod| + 1..] == k;
    }
  }

  /**
   * The tree after a successful collapse: everything outside the nested
   * directory stays, and each entry strictly below it reappears one level up.
   */
  function Collapsed(nodes: map<Path, Node>, mod: Path, n: string): map<Path, Node> {
    LiftedKeysAt(nodes, mod, n);
    map k | k in (set q | q in nodes && !(mod + [n] <= q)) + LiftedKeys(nodes, mod, n) ::
      if |k| > |mod| && mod <= k && mod + [n] + k[|mod|..] in nodes then nodes[mod + [n] + k[|mod|..]] else nodes[k]
  }

  /** A directory's child name stands for an entry. */
  lemma ChildEntry(nodes: map<Path, Node>, d: Path, c: string)
    requires c in ChildNames(nodes, d)
    ensures d + [c] in nodes
  {
    var q :| q in nodes && |q| == |d| + 1 && d <= q && q[|d|] == c;
    assert q == d + [c];
  }

  /** Inside a directory whose only entry is `n`, everything lies below `n`. */
  lemma OnlyChild(nodes: map<Path, Node>, mod: Path, n: string, k: Path)
    requires TreeShaped(nodes) && ChildNames(nodes, mod) == {n}
    requires k in nodes && |k| > |mod| && mod <= k
    ensures k[|mod|] == n
  {
    var a := k[..|mod| + 1];
    if a != k {
      AncestorIsDir(nodes, a, k);
    }
    assert a[|mod|] in ChildNames(nodes, mod);
  }

  /** Every entry strictly below a directory lies inside one of its children. */
  lemma BelowChild(nodes: map<Path, Node>, d: Path, k: Path)
    requires TreeShaped(nodes) && k in nodes && |k| > |d| && d <= k
    ensures k[|d|] in ChildNames(nodes, d)
  {
    var a := k[..|d| + 1];
    if a != k {
      AncestorIsDir(nodes, a, k);
    }
    assert a[|d|] == k[|d|];
  }

  lemma PartialStart(nodes: map<Path, Node>, mod: Path, n: string)
    ensures IsPartial(nodes, nodes, mod, n, {})
  {
  }

  /** The nested directory is never moved, so renaming a child named `n` onto it is refused. */
  lemma PartialKeepsNested(cur: map<Path, Node>, nodes: map<Path, Node>, mod: Path, n: string, moved: set<string>)
    requires SingleNestedDir(nodes, mod, n) && IsPartial(cur, nodes, mod, n, moved)
    ensures mod + [n] in cur
  {
    assert !Moving(mod, n, moved, mod + [n]);
  }

  /** Case of `PartialStep` for a key at or below the destination of the rename. */
  lemma StepAtDestination(cur: map<Path, Node>, nodes: map<Path, Node>, mod: Path, n: string, moved: set<string>, c: string, k: Path)
    requires TreeShaped(nodes) && SingleNestedDir(nodes, mod, n)
    requires IsPartial(cur, nodes, mod, n, moved) && TreeShaped(cur)
    requires n !in moved && c !in moved && c != n
    requires mod + [c] !in cur && mod + [c] <= k
    ensures var m := Moved(cur, mod + [n, c], mod + [c]);
      && (k in m <==> (k in nodes && !Moving(mod, n, moved + {c}, k)) || Lifted(nodes, mod, n, moved + {c}, k))
      && (k in m && Lifted(nodes, mod, n, moved + {c}, k) ==> m[k] == nodes[mod + [n] + k[|mod|..]])
      && (k in m && !Lifted(nodes, mod, n, moved + {c}, k) ==> k in nodes && m[k] == nodes[k])
  {
    var src := mod + [n, c];
    var dst := mod + [c];
    var q := src + k[|dst|..];
    assert k[|mod|] == c;
    assert q == mod + [n] + k[|mod|..];
    assert !Moving(mod, n, moved, q) && !Lifted(nodes, mod, n, moved, q);
    assert q in cur <==> q in nodes;
    if k in nodes {
      OnlyChild(nodes, mod, n, k);
    }
    assert !Lifted(nodes, mod, n, moved, k);
    assert k !in cur;
    assert !Moving(mod, n, moved + {c}, k);
  }

  /** Case of `PartialStep` for a key not at or below the destination of the rename. */
  lemma StepElsewhere(cur: map<Path, Node>, nodes: map<Path, Node>, mod: Path, n: string, moved: set<string>, c: string, k: Path)
    requires TreeShaped(nodes) && SingleNestedDir(nodes, mod, n)
    requires IsPartial(cur, nodes, mod, n, moved) && TreeShaped(cur)
    requires n !in moved && c !in moved && c != n
    requires mod + [c] !in cur && !(mod + [c] <= k)
    ensures var m := Moved(cur, mod + [n, c], mod + [c]);
      && (k in m <==> (k in nodes && !Moving(mod, n, moved + {c}, k)) || Lifted(nodes, mod, n, moved + {c}, k))
      && (k in m && Lifted(nodes, mod, n, moved + {c}, k) ==> m[k] == nodes[mod + [n] + k[|mod|..]])
      && (k in m && !Lifted(nodes, mod, n, moved + {c}, k) ==> k in nodes && m[k] == nodes[k])
  {
    var src := mod + [n, c];
    assert Lifted(nodes, mod, n, moved + {c}, k) == Lifted(nodes, mod, n, moved, k);
    if |k| > |mod| + 1 && mod + [n] <= k && k[|mod| + 1] == c {
      assert src <= k;
    }
    if src <= k {
      assert k[|mod| + 1] == c && mod + [n] <= k;
    }
    assert Moving(mod, n, moved + {c}, k) == (Moving(mod, n, moved, k) || src <= k);
    if Lifted(nodes, mod, n, moved, k) {
      assert k[|mod|] != n;
      assert !(src <= k);
    }
  }

  /** Renaming one more child `c` of the nested directory into `mod` extends the partial collapse. */
  lemma PartialStep(cur: map<Path, Node>, nodes: map<Path, Node>, mod: Path, n: string, moved: set<string>, c: string)
    requires TreeShaped(nodes) && SingleNestedDir(nodes, mod, n)
    requires IsPartial(cur, nodes, mod, n, moved) && TreeShaped(cur)
    requires n !in moved
    requires c in ChildNames(nodes, mod + [n]) && c !in moved && c != n
    ensures mod + [n, c] in cur && mod + [c] !in cur && IsDirIn(cur, mod)
    ensures IsPartial(Moved(cur, mod + [n, c], mod + [c]), nodes, mod, n, moved + {c})
  {
    var src := mod + [n, c];
    var dst := mod + [c];
    ChildEntry(nodes, mod + [n], c);
    assert mod + [n] + [c] == src;
    assert !Moving(mod, n, moved, src) && !Lifted(nodes, mod, n, moved, src);
    if dst in nodes {
      OnlyChild(nodes, mod, n, dst);
    }
    assert !Lifted(nodes, mod, n, moved, dst);
    assert !Moving(mod, n, moved, mod) && !Lifted(nodes, mod, n, moved, mod);
    forall k
      ensures var m := Moved(cur, src, dst);
        && (k in m <==> (k in nodes && !Moving(mod, n, moved + {c}, k)) || Lifted(nodes, mod, n, moved + {c}, k))
        && (k in m && Lifted(nodes, mod, n, moved + {c}, k) ==> m[k] == nodes[mod + [n] + k[|mod|..]])
        && (k in m && !Lifted(nodes, mod, n, moved + {c}, k) ==> k in nodes && m[k] == nodes[k])
    {
      if dst <= k {
        StepAtDestination(cur, nodes, mod, n, moved, c, k);
      } else {
        StepElsewhere(cur, nodes, mod, n, moved, c, k);
      }
    }
  }

  /** `PartialDone` at one key. */
  lemma PartialDoneAt(cur: map<Path, Node>, nodes: map<Path, Node>, mod: Path, n: string, k: Path)
    requires TreeShaped(nodes) && SingleNestedDir(nodes, mod, n)
    requires n !in ChildNames(nodes, mod + [n])
    requires IsPartial(cur, nodes, mod, n, ChildNames(nodes, mod + [n]))
    ensures var a := Prune(cur, mod + [n]);
      var b := Collapsed(nodes, mod, n);
      (k in a <==> k in b) && (k in a ==> a[k] == b[k])
  {
    var moved := ChildNames(nodes, mod + [n]);
    LiftedKeysAt(nodes, mod, n);
    if |k| > |mod| && mod <= k && mod + [n] + k[|mod|..] in nodes {
      var q := mod + [n] + k[|mod|..];
      BelowChild(nodes, mod + [n], q);
      assert q[|mod| + 1] == k[|mod|];
      assert Lifted(nodes, mod, n, moved, k);
      assert k[|mod|] != n;
      assert !(mod + [n] <= k);
    } else {
      assert !Lifted(nodes, mod, n, moved, k);
    }
  }

  /** Once every child has been renamed, removing the nested directory completes the collapse. */
  lemma PartialDone(cur: map<Path, Node>, nodes: map<Path, Node>, mod: Path, n: string)
    requires TreeShaped(nodes) && SingleNestedDir(nodes, mod, n)
    requires n !in ChildNames(nodes, mod + [n])
    requires IsPartial(cur, nodes, mod, n, ChildNames(nodes, mod + [n]))
    ensures Prune(cur, mod + [n]) == Collapsed(nodes, mod, n)
  {
    var a := Prune(cur, mod + [n]);
    var b := Collapsed(nodes, mod, n);
    forall k
      ensures (k in a <==> k in b) && (k in a ==> a[k] == b[k])
    {
      PartialDoneAt(cur, nodes, mod, n, k);
    }
  }

  /**
   * What a successful collapse achieves: nothing outside the mod directory
   * changes, the mod directory holds at `r` what the nested directory held at
   * `r`, so its children are the nested directory's children, and the nested
   * directory itself is gone.
   */
  lemma CollapsedContents(nodes: map<Path, Node>, mod: Path, n: string)
    requires TreeShaped(nodes) && SingleNestedDir(nodes, mod, n)
    requires n !in ChildNames(nodes, mod + [n])
    ensures forall k :: !(mod < k) ==> (k in Collapsed(nodes, mod, n) <==> k in nodes)
    ensures forall k :: !(mod < k) && k in nodes ==> Collapsed(nodes, mod, n)[k] == nodes[k]
    ensures forall r :: r != [] ==> (mod + r in Collapsed(nodes, mod, n) <==> mod + [n] + r in nodes)
    ensures forall r :: r != [] && mod + [n] + r in nodes ==> Collapsed(nodes, mod, n)[mod + r] == nodes[mod + [n] + r]
    ensures ChildNames(Collapsed(nodes, mod, n), mod) == ChildNames(nodes, mod + [n])
    ensures mod + [n] !in Collapsed(nodes, mod, n)
  {
    var c := Collapsed(nodes, mod, n);
    LiftedKeysAt(nodes, mod, n);
    forall r | r != []
      ensures mod + r in c <==> mod + [n] + r in nodes
      ensures mod + [n] + r in nodes ==> c[mod + r] == nodes[mod + [n] + r]
    {
      var k := mod + r;
      assert k[|mod|..] == r;
      if k in nodes {
        OnlyChild(nodes, mod, n, k);
        assert mod + [n] <= k;
      }
    }
    forall x
      ensures x in ChildNames(c, mod) <==> x in ChildNames(nodes, mod + [n])
    {
      if x in ChildNames(c, mod) {
        ChildEntry(c, mod, x);
        assert mod + [x] in c;
        assert mod + [n] + [x] in nodes;
        assert (mod + [n] + [x])[|mod + [n]|] == x;
      }
      if x in ChildNames(nodes, mod + [n]) {
        ChildEntry(nodes, mod + [n], x);
        assert mod + [n] + [x] in nodes;
        assert mod + [x] in c;
        assert (mod + [x])[|mod|] == x;
      }
    }
  }

  /** A listing of a directory whose only entry is `n` is just `[n]`. */
  lemma ListingOfSingle(nodes: map<Path, Node>, mod: Path, names: seq<string>, n: string)
    requires forall x :: x in names <==> x in ChildNames(nodes, mod)
    requires Distinct(names)
    requires SingleNestedDir(nodes, mod, n)
    ensures names == [n]
  {
    DistinctCard(names, ChildNames(nodes, mod));
    assert names[0] in ChildNames(nodes, mod);
  }

  /**
   * What the collapse step makes of `nodes`: no change unless `mod` holds
   * exactly one entry and it is a directory; then the collapsed tree, or a
   * failed rename when that directory holds an entry of its own name.
   */
  ghost function CollapseOutcome(nodes: map<Path, Node>, mod: Path): Result<map<Path, Node>> {
    if exists n :: SingleNestedDir(nodes, mod, n) then
      var n :| SingleNestedDir(nodes, mod, n);
      if n in ChildNames(nodes, mod + [n]) then Err(MoveFailed) else Ok(Collapsed(nodes, mod, n))
    else Ok(nodes)
  }

  /** The nested directory is determined by the tree: there is at most one. */
  lemma SingleNestedDirUnique(nodes: map<Path, Node>, mod: Path, n: string, n': string)
    requires SingleNestedDir(nodes, mod, n) && SingleNestedDir(nodes, mod, n')
    ensures n == n'
  {
    assert n in {n'};
  }

  /**
   * The collapse step: `read_dir(mod)` must list exactly one entry and it
   * must be a directory; then that directory's entries are lifted into `mod`.
   */
  method CollapseSingleFolder(fs: FileSystem, mod: Path) returns (r: Result<()>)
    requires fs.Valid()
    modifies fs
    ensures fs.Valid()
    ensures (forall n :: !SingleNestedDir(old(fs.nodes), mod, n)) ==> r == Ok(()) && fs.nodes == old(fs.nodes)
    ensures forall n :: SingleNestedDir(old(fs.nodes), mod, n) && n !in ChildNames(old(fs.nodes), mod + [n]) ==>
      r == Ok(()) && fs.nodes == Collapsed(old(fs.nodes), mod, n)
    ensures forall n :: SingleNestedDir(old(fs.nodes), mod, n) && n in ChildNames(old(fs.nodes), mod + [n]) ==>
      r == Err(MoveFailed) && exists moved :: IsPartial(fs.nodes, old(fs.nodes), mod, n, moved)
    ensures CollapseOutcome(old(fs.nodes), mod).Ok? ==> r == Ok(()) && fs.nodes == CollapseOutcome(old(fs.nodes), mod).value
    ensures CollapseOutcome(old(fs.nodes), mod).Err? ==> r == Err(CollapseOutcome(old(fs.nodes), mod).error)
  {
    var names := fs.ReadDir(mod);
    if !(|names| == 1 && IsDirIn(fs.nodes, mod + [names[0]])) {
      forall n | SingleNestedDir(fs.nodes, mod, n)
        ensures names == [n]
      {
        ListingOfSingle(fs.nodes, mod, names, n);
      }
      return Ok(());
    }
    var n := names[0];
    assert InDir(fs.nodes, mod + [n]);
    assert (mod + [n])[..|mod + [n]| - 1] == mod;
    assert ChildNames(fs.nodes, mod) == {n} by {
      forall x | x in ChildNames(fs.nodes, mod) ensures x == n {
        assert x in names;
      }
    }
    assert SingleNestedDir(fs.nodes, mod, n);
    forall n' | SingleNestedDir(fs.nodes, mod, n') ensures n' == n {
      SingleNestedDirUnique(fs.nodes, mod, n, n');
    }
    r := LiftNested(fs, mod, n);
  }

  /**
   * One rename of the collapse: the child `c` of the nested directory moves
   * into `mod`. It fails, changing nothing, exactly when `c` is named like
   * the nested directory, which still occupies that place.
   */
  method LiftChild(fs: FileSystem, mod: Path, n: string, c: string, ghost nodes: map<Path, Node>, ghost moved: set<string>)
    returns (ok: bool)
    requires fs.Valid() && TreeShaped(nodes) && SingleNestedDir(nodes, mod, n)
    requires IsPartial(fs.nodes, nodes, mod, n, moved) && n !in moved
    requires c in ChildNames(nodes, mod + [n]) && c !in moved
    modifies fs
    ensures fs.Valid()
    ensures ok == (c != n)
    ensures ok ==> IsPartial(fs.nodes, nodes, mod, n, moved + {c})
    ensures !ok ==> fs.nodes == old(fs.nodes)
  {
    if c == n {
      PartialKeepsNested(fs.nodes, nodes, mod, n, moved);
    } else {
      PartialStep(fs.nodes, nodes, mod, n, moved, c);
    }
    assert mod + [n] + [c] == mod + [n, c];
    ok := fs.Rename(mod + [n] + [c], mod + [c]);
  }

  /**
   * The entries of the nested directory `mod + [n]` are renamed into `mod`
   * in the order `read_dir` lists them, then the nested directory is
   * removed. A rename fails, and the step stops, only for an entry named
   * `n`, because `mod + [n]` still exists.
   */
  method LiftNested(fs: FileSystem, mod: Path, n: string) returns (r: Result<()>)
    requires fs.Valid() && SingleNestedDir(fs.nodes, mod, n)
    modifies fs
    ensures fs.Valid()
    ensures n !in ChildNames(old(fs.nodes), mod + [n]) ==> r == Ok(()) && fs.nodes == Collapsed(old(fs.nodes), mod, n)
    ensures n in ChildNames(old(fs.nodes), mod + [n]) ==>
      r == Err(MoveFailed) && exists moved :: IsPartial(fs.nodes, old(fs.nodes), mod, n, moved)
  {
    var nested := mod + [n];
    ghost var nodes0 := fs.nodes;
    var children := fs.ReadDir(nested);
    PartialStart(nodes0, mod, n);
    assert Elements(children[..0]) == {};
    for i := 0 to |children|
      invariant fs.Valid()
      invariant n !in children[..i]
      invariant IsPartial(fs.nodes, nodes0, mod, n, Elements(children[..i]))
    {
      var c := children[i];
      ghost var moved := Elements(children[..i]);
      assert c !in children[..i];
      var ok := LiftChild(fs, mod, n, c, nodes0, moved);
      if !ok {
        return Err(MoveFailed);
      }
      assert children[..i + 1] == children[..i] + [c];
      assert Elements(children[..i + 1]) == moved + {c};
    }
    assert children[..|children|] == children;
    assert Elements(children) == ChildNames(nodes0, nested);
    ghost var lifted := fs.nodes;
    fs.RemoveAll(nested);
    PartialDone(lifted, nodes0, mod, n);
    r := Ok(());
  }
}
