/** File trees as values: what a directory holds, and what renaming or adding to it means. */
module FileTree {
  newtype Byte = x: int | 0 <= x < 256
  type Bytes = seq<Byte>

  /** A place in a file tree: the list of component names below the root. */
  type Path = seq<string>

  datatype Node = Dir | File(data: Bytes)

  type Tree = map<Path, Node>

  function Parent(p: Path): Path
    requires p != []
  {
    p[..|p| - 1]
  }

  predicate IsDir(t: Tree, p: Path) {
    p in t && t[p].Dir?
  }

  predicate IsFile(t: Tree, p: Path) {
    p in t && t[p].File?
  }

  /** Everything but the root lies in a directory. */
  ghost predicate WellFormed(t: Tree) {
    IsDir(t, []) && forall p | p in t && p != [] :: IsDir(t, Parent(p))
  }

  /** The tree hanging at `root`, with paths relative to it; empty when there is nothing there. */
  ghost function SubTree(t: Tree, root: Path): Tree {
    map q | q in (set p | p in t && root <= p :: p[|root|..]) && root + q in t :: t[root + q]
  }

  lemma SubTreeAt(t: Tree, root: Path, q: Path)
    ensures q in SubTree(t, root) <==> root + q in t
    ensures q in SubTree(t, root) ==> SubTree(t, root)[q] == t[root + q]
  {
    if root + q in t {
      assert root <= root + q && (root + q)[|root|..] == q;
    }
    if q in SubTree(t, root) {
      var p :| p in t && root <= p && p[|root|..] == q;
      assert root + q == p;
    }
  }

  /** `t` and `u` differ at most below `root`. */
  ghost predicate AgreeOutside(t: Tree, u: Tree, root: Path) {
    forall p | !(root <= p) :: (p in t <==> p in u) && (p in t ==> t[p] == u[p])
  }

  /** Neither place lies in the other. */
  predicate Apart(a: Path, b: Path) {
    !(a <= b) && !(b <= a)
  }

  lemma PrefixesCompare(a: Path, b: Path, p: Path)
    requires a <= p && b <= p
    ensures a <= b || b <= a
  {
    if |a| <= |b| {
      assert a == p[..|a|] == b[..|a|];
    } else {
      assert b == p[..|b|] == a[..|b|];
    }
  }

  lemma SubTreeAgrees(t: Tree, u: Tree, changed: Path, root: Path)
    requires AgreeOutside(t, u, changed) && Apart(changed, root)
    ensures SubTree(t, root) == SubTree(u, root)
  {
    forall q
      ensures q in SubTree(t, root) <==> q in SubTree(u, root)
      ensures q in SubTree(t, root) ==> SubTree(t, root)[q] == SubTree(u, root)[q]
    {
      SubTreeAt(t, root, q);
      SubTreeAt(u, root, q);
      if changed <= root + q {
        PrefixesCompare(changed, root, root + q);
      }
    }
  }

  /** The directories a file at one of these paths needs, the root among them. */
  ghost function Ancestors(paths: set<Path>): set<Path> {
    {[]} + set p, k | p in paths && 0 <= k < |p| :: p[..k]
  }

  /** Exactly these files, and the directories they need. */
  ghost function TreeOf(files: map<Path, Bytes>): Tree {
    map q | q in files.Keys + Ancestors(files.Keys) :: if q in files then File(files[q]) else Dir
  }

  /** No path is empty and none lies below another: the sets of paths that can all be files at once. */
  ghost predicate PrefixFree(paths: set<Path>) {
    && [] !in paths
    && forall p, q | p in paths && q in paths && p <= q :: p == q
  }

  lemma {:induction false} WellFormedUp(t: Tree, p: Path, k: nat)
    requires WellFormed(t) && p in t && k < |p|
    ensures IsDir(t, p[..k])
    decreases |p| - k
  {
    if k + 1 == |p| {
      assert p[..k] == Parent(p);
    } else {
      WellFormedUp(t, p, k + 1);
      assert Parent(p[..k + 1]) == p[..k];
    }
  }
}
