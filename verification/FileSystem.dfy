/**
 * A file system that changes one operation at a time. Any operation may fail with an I/O fault; `history` records every
 * tree the system has gone through, so that a statement about it is a statement about every instant.
 */
module FileSystem {
  import opened FileTree

  /** `Refused`: the operation does not apply to the tree. `Fault`: it does, but failed. */
  datatype Io = Done | Refused | Fault

  predicate HasChildren(t: Tree, p: Path) {
    exists q | q in t :: p <= q && q != p
  }

  /** When POSIX `rename` applies. */
  predicate CanRename(t: Tree, src: Path, dst: Path) {
    && src in t && src != [] && dst != [] && !(src <= dst) && IsDir(t, Parent(dst))
    && (dst in t ==> t[src].Dir? == t[dst].Dir? && !HasChildren(t, dst))
  }

  function Renamed(t: Tree, src: Path, dst: Path): Tree
    requires CanRename(t, src, dst)
  {
    map p | p in (set p | p in t && !(src <= p)) + (set p | p in t && src <= p :: dst + p[|src|..])
            && (dst <= p ==> src + p[|dst|..] in t) ::
      if dst <= p then t[src + p[|dst|..]] else t[p]
  }

  lemma RenamedAt(t: Tree, src: Path, dst: Path, p: Path)
    requires WellFormed(t) && CanRename(t, src, dst)
    ensures dst <= p ==> (p in Renamed(t, src, dst) <==> src + p[|dst|..] in t)
    ensures !(dst <= p) ==> (p in Renamed(t, src, dst) <==> p in t && !(src <= p))
    ensures p in Renamed(t, src, dst) ==>
              Renamed(t, src, dst)[p] == if dst <= p then t[src + p[|dst|..]] else t[p]
  {
    if dst <= p {
      var q := src + p[|dst|..];
      assert dst + q[|src|..] == p;
    }
  }

  lemma RenamedSubTrees(t: Tree, src: Path, dst: Path)
    requires WellFormed(t) && CanRename(t, src, dst)
    ensures SubTree(Renamed(t, src, dst), dst) == SubTree(t, src)
    ensures !(dst <= src) ==> src !in Renamed(t, src, dst)
    ensures forall p | !(src <= p) && !(dst <= p) ::
              (p in t <==> p in Renamed(t, src, dst)) && (p in t ==> t[p] == Renamed(t, src, dst)[p])
  {
    var u := Renamed(t, src, dst);
    forall q
      ensures q in SubTree(u, dst) <==> q in SubTree(t, src)
      ensures q in SubTree(u, dst) ==> SubTree(u, dst)[q] == SubTree(t, src)[q]
    {
      SubTreeAt(u, dst, q);
      SubTreeAt(t, src, q);
      RenamedAt(t, src, dst, dst + q);
    }
    forall p | !(dst <= p)
      ensures p in u <==> p in t && !(src <= p)
      ensures p in u ==> t[p] == u[p]
    {
      RenamedAt(t, src, dst, p);
    }
  }

  lemma RenamedWellFormed(t: Tree, src: Path, dst: Path)
    requires WellFormed(t) && CanRename(t, src, dst)
    ensures WellFormed(Renamed(t, src, dst))
  {
    hide Renamed;
    var u := Renamed(t, src, dst);
    forall p | p in u && p != []
      ensures IsDir(u, Parent(p))
    {
      RenamedParent(t, src, dst, p);
    }
    RenamedAt(t, src, dst, []);
  }

  lemma RenamedParent(t: Tree, src: Path, dst: Path, p: Path)
    requires WellFormed(t) && CanRename(t, src, dst) && p in Renamed(t, src, dst) && p != []
    ensures IsDir(Renamed(t, src, dst), Parent(p))
  {
    hide Renamed;
    RenamedAt(t, src, dst, p);
    RenamedAt(t, src, dst, Parent(p));
    if dst <= p && dst != p {
      assert dst <= Parent(p);
      var q := src + p[|dst|..];
      assert q != [] && q in t;
      assert Parent(q) == src + Parent(p)[|dst|..];
    } else {
      assert !(dst <= Parent(p));
      assert src <= Parent(p) ==> src <= p;
    }
  }

  lemma LeafBelow(t: Tree, p: Path) returns (leaf: Path)
    requires p in t
    ensures leaf in t && p <= leaf && !HasChildren(t, leaf)
    decreases set q | q in t && p <= q
  {
    if !HasChildren(t, p) {
      return p;
    }
    var child :| child in t && p <= child && child != p;
    var below, belowChild := set q | q in t && p <= q, set q | q in t && child <= q;
    forall q | q in belowChild
      ensures q in below
    {
      assert p == child[..|p|] == q[..|p|];
    }
    assert p in below && p !in belowChild;
    leaf := LeafBelow(t, child);
  }

  /** `t` is `u` with some directories added, all on the way to `p`. */
  ghost predicate DirsAdded(t: Tree, u: Tree, p: Path) {
    && (forall q | q in u :: q in t && t[q] == u[q])
    && (forall q | q in t && q !in u :: q <= p && t[q] == Dir)
  }

  lemma DirsAddedNone(t: Tree, p: Path)
    ensures DirsAdded(t, t, p)
  {
  }

  lemma DirsAddedKeepsFiles(t: Tree, u: Tree, p: Path, q: Path)
    requires DirsAdded(t, u, p) && q in t && !IsDir(t, q)
    ensures IsFile(u, q)
  {
  }

  lemma RootIsDir(t: Tree)
    requires WellFormed(t)
    ensures IsDir(t, [])
  {
  }

  lemma DirsAddedStep(t: Tree, u: Tree, p: Path, q: Path)
    requires DirsAdded(t, u, p) && q <= p && q !in t
    ensures DirsAdded(t[q := Dir], u, p)
  {
  }

  lemma FilePutWellFormed(t: Tree, p: Path, data: Bytes)
    requires WellFormed(t) && p != [] && !IsDir(t, p) && IsDir(t, Parent(p))
    ensures WellFormed(t[p := File(data)])
  {
  }

  lemma AgreesWithItself(t: Tree, root: Path)
    ensures AgreeOutside(t, t, root)
  {
  }

  lemma LeafRemoved(t: Tree, u: Tree, root: Path, q: Path)
    requires WellFormed(t) && AgreeOutside(t, u, root) && root != [] && root <= q && q in t && !HasChildren(t, q)
    ensures WellFormed(t - {q}) && AgreeOutside(t - {q}, u, root)
  {
    forall p | p in t - {q} && p != []
      ensures IsDir(t - {q}, Parent(p))
    {
      assert Parent(p) <= p;
    }
  }

  class FileSystem {
    var nodes: Tree
    ghost var history: seq<Tree>
    ghost var faults: nat

    ghost predicate Valid()
      reads this
    {
      WellFormed(nodes) && history != [] && history[|history| - 1] == nodes
    }

    constructor (t: Tree)
      requires WellFormed(t)
      ensures Valid() && nodes == t && history == [t] && faults == 0
    {
      nodes := t;
      history := [t];
      faults := 0;
    }

    /** Every change goes through here, so none escapes the history. */
    method Become(t: Tree)
      requires Valid() && WellFormed(t)
      modifies this
      ensures Valid() && nodes == t && history == old(history) + [t] && faults == old(faults)
    {
      nodes := t;
      history := history + [t];
    }

    /** An operation that applies fails all the same. */
    method Fail() returns (r: Io)
      modifies this`faults
      ensures r == Fault && faults == old(faults) + 1
    {
      faults := faults + 1;
      return Fault;
    }

    /** `os.mkdir` */
    method Mkdir(p: Path) returns (r: Io)
      requires Valid()
      modifies this
      ensures faults == old(faults) + if r == Fault then 1 else 0
      ensures Valid()
      ensures r == Done ==> p !in old(nodes) && nodes == old(nodes)[p := Dir] && history == old(history) + [nodes]
      ensures r != Done ==> nodes == old(nodes) && history == old(history)
      ensures r == Refused <==> p in old(nodes) || p == [] || !IsDir(old(nodes), Parent(p))
    {
      if p in nodes || p == [] || !IsDir(nodes, Parent(p)) {
        return Refused;
      }
      if * {
        r := Fail();
        return;
      }
      Become(nodes[p := Dir]);
      return Done;
    }

    /** `Path.write_bytes`: a fault may leave the file unopened, or any prefix of the data in it. */
    method Write(p: Path, data: Bytes) returns (r: Io)
      requires Valid()
      modifies this
      ensures faults == old(faults) + if r == Fault then 1 else 0
      ensures Valid()
      ensures r == Done ==> nodes == old(nodes)[p := File(data)] && history == old(history) + [nodes]
      ensures r == Fault ==> (nodes == old(nodes) && history == old(history)) ||
                             (exists k | 0 <= k <= |data| ::
                                nodes == old(nodes)[p := File(data[..k])] && history == old(history) + [nodes])
      ensures r == Refused ==> nodes == old(nodes) && history == old(history)
      ensures r == Refused <==> p == [] || IsDir(old(nodes), p) || !IsDir(old(nodes), Parent(p))
    {
      hide WellFormed;
      if p == [] || IsDir(nodes, p) || !IsDir(nodes, Parent(p)) {
        return Refused;
      }
      forall content
        ensures WellFormed(nodes[p := File(content)])
      {
        FilePutWellFormed(nodes, p, content);
      }
      if * {
        r := Fail();
        return;
      }
      if * {
        var k :| 0 <= k <= |data|;
        Become(nodes[p := File(data[..k])]);
        r := Fail();
        return;
      }
      Become(nodes[p := File(data)]);
      return Done;
    }

    /** `os.rename` */
    method Rename(src: Path, dst: Path) returns (r: Io)
      requires Valid()
      modifies this
      ensures faults == old(faults) + if r == Fault then 1 else 0
      ensures Valid()
      ensures r == Done ==> CanRename(old(nodes), src, dst) && nodes == Renamed(old(nodes), src, dst) &&
                            history == old(history) + [nodes]
      ensures r != Done ==> nodes == old(nodes) && history == old(history)
      ensures r == Refused <==> !CanRename(old(nodes), src, dst)
    {
      if !CanRename(nodes, src, dst) {
        return Refused;
      }
      if * {
        r := Fail();
        return;
      }
      RenamedWellFormed(nodes, src, dst);
      Become(Renamed(nodes, src, dst));
      return Done;
    }

    /** `os.rmdir` */
    method Rmdir(p: Path) returns (r: Io)
      requires Valid()
      modifies this
      ensures faults == old(faults) + if r == Fault then 1 else 0
      ensures Valid()
      ensures r == Done ==> IsDir(old(nodes), p) && nodes == old(nodes) - {p} && history == old(history) + [nodes]
      ensures r != Done ==> nodes == old(nodes) && history == old(history)
      ensures r == Refused <==> p == [] || !IsDir(old(nodes), p) || HasChildren(old(nodes), p)
    {
      hide WellFormed, HasChildren;
      if p == [] || !IsDir(nodes, p) || HasChildren(nodes, p) {
        return Refused;
      }
      if * {
        r := Fail();
        return;
      }
      LeafRemoved(nodes, nodes, p, p);
      Become(nodes - {p});
      return Done;
    }

    /** `Path.mkdir(parents=True, exist_ok=True)`, from the top down. */
    method MkdirParents(p: Path) returns (r: Io)
      requires Valid()
      modifies this
      ensures faults == old(faults) + if r == Fault then 1 else 0
      ensures Valid() && old(history) <= history
      ensures DirsAdded(nodes, old(nodes), p)
      ensures forall i | |old(history)| <= i < |history| :: DirsAdded(history[i], old(nodes), p)
      ensures r == Done ==> forall k | 0 <= k <= |p| :: IsDir(nodes, p[..k])
      ensures r == Refused ==> exists k | 0 <= k <= |p| :: IsFile(old(nodes), p[..k])
    {
      hide WellFormed, DirsAdded, IsFile;
      DirsAddedNone(nodes, p);
      var k := 0;
      while k <= |p|
        invariant 0 <= k <= |p| + 1
        invariant Valid() && old(history) <= history && faults == old(faults)
        invariant DirsAdded(nodes, old(nodes), p)
        invariant forall i | |old(history)| <= i < |history| :: DirsAdded(history[i], old(nodes), p)
        invariant forall j | 0 <= j < k :: IsDir(nodes, p[..j])
      {
        var q := p[..k];
        if !IsDir(nodes, q) {
          RootIsDir(nodes);
          assert k > 0 && Parent(q) == p[..k - 1];
          ghost var before := nodes;
          var made := Mkdir(q);
          if made == Refused {
            DirsAddedKeepsFiles(nodes, old(nodes), p, q);
          }
          if made != Done {
            return made;
          }
          DirsAddedStep(before, old(nodes), p, q);
        }
        k := k + 1;
      }
      return Done;
    }

    /** `shutil.rmtree`, one entry at a time; a fault leaves what has not been removed yet. */
    method RemoveTree(p: Path) returns (r: Io)
      requires Valid() && p != []
      modifies this
      ensures faults == old(faults) + if r == Fault then 1 else 0
      ensures Valid() && old(history) <= history
      ensures AgreeOutside(nodes, old(nodes), p)
      ensures forall i | |old(history)| <= i < |history| :: AgreeOutside(history[i], old(nodes), p)
      ensures r != Refused && (r == Done ==> p !in nodes)
    {
      hide WellFormed, HasChildren, AgreeOutside;
      AgreesWithItself(nodes, p);
      while p in nodes
        invariant Valid() && old(history) <= history && faults == old(faults)
        invariant AgreeOutside(nodes, old(nodes), p)
        invariant forall i | |old(history)| <= i < |history| :: AgreeOutside(history[i], old(nodes), p)
        decreases nodes.Keys
      {
        if * {
          r := Fail();
          return;
        }
        ghost var leaf := LeafBelow(nodes, p);
        var q :| q in nodes && p <= q && !HasChildren(nodes, q);
        LeafRemoved(nodes, old(nodes), p, q);
        Become(nodes - {q});
      }
      return Done;
    }
  }
}
