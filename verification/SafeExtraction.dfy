/** `_promote_staging` and `safe_extract` of scripts/verify_release_bundle_manifest.py: all-or-nothing extraction. */
module SafeExtraction {
  import opened Bundle
  import opened Extract
  import opened FileSystem
  import opened FileTree
  import opened Manifest
  import opened ManifestPath
  import opened Outcomes

  const ABSENT: Tree := map[]
  const EMPTY: Tree := map[[] := Dir]

  function StagingName(name: string, token: string): string {
    "." + name + ".extracting-" + token
  }

  function BackupName(name: string, token: string): string {
    "." + name + ".empty-" + token
  }

  function Sibling(p: Path, name: string): Path
    requires p != []
  {
    Parent(p) + [name]
  }

  function StagingFor(target: Path, token: string): Path
    requires target != []
  {
    Sibling(target, StagingName(target[|target| - 1], token))
  }

  function BackupFor(target: Path, token: string): Path
    requires target != []
  {
    Sibling(target, BackupName(target[|target| - 1], token))
  }

  /** Target, staging and backup are three different children of one directory. */
  lemma ThreeSiblings(target: Path, token1: string, token2: string)
    requires target != []
    ensures var staging, backup := StagingFor(target, token1), BackupFor(target, token2);
            staging != [] && backup != [] && Parent(staging) == Parent(target) && Parent(backup) == Parent(target) &&
            Apart(staging, target) && Apart(backup, target) && Apart(staging, backup)
  {
    var name := target[|target| - 1];
    var s, b := StagingName(name, token1), BackupName(name, token2);
    assert |s| > |name| && |b| > |name|;
    assert s[|name| + 3] == 'x' && b[|name| + 3] == 'm';
    var staging, backup := StagingFor(target, token1), BackupFor(target, token2);
    assert staging[|staging| - 1] == s && backup[|backup| - 1] == b;
    assert |staging| == |backup| == |target|;
  }

  /** Staging and backup are hidden names beside the target. */
  lemma SiblingNames(dir: Path, name: string, token: string)
    ensures StagingFor(dir + [name], token) == dir + ["." + name + ".extracting-" + token]
    ensures BackupFor(dir + [name], token) == dir + ["." + name + ".empty-" + token]
  {
    assert Parent(dir + [name]) == dir;
  }

  /** `p` lies below none of these places. */
  predicate Clear(p: Path, places: set<Path>) {
    forall place | place in places :: !(place <= p)
  }

  /** `t` and `u` agree except below these places. */
  ghost predicate AgreeBut(t: Tree, u: Tree, places: set<Path>) {
    forall p | Clear(p, places) :: (p in t <==> p in u) && (p in t ==> t[p] == u[p])
  }

  lemma SubTreeAgreeBut(t: Tree, u: Tree, places: set<Path>, root: Path)
    requires AgreeBut(t, u, places) && forall place | place in places :: Apart(place, root)
    ensures SubTree(t, root) == SubTree(u, root)
  {
    forall q
      ensures q in SubTree(t, root) <==> q in SubTree(u, root)
      ensures q in SubTree(t, root) ==> SubTree(t, root)[q] == SubTree(u, root)[q]
    {
      SubTreeAt(t, root, q);
      SubTreeAt(u, root, q);
      forall place | place in places
        ensures !(place <= root + q)
      {
        if place <= root + q {
          PrefixesCompare(place, root, root + q);
        }
      }
    }
  }

  lemma Below(t: Tree, p: Path, q: Path)
    requires WellFormed(t) && p + q in t
    ensures p in t
  {
    assert (p + q)[..|p|] == p;
    assert q == [] ==> p + q == p;
    if q != [] {
      WellFormedUp(t, p + q, |p|);
    }
  }

  lemma AbsentSubTree(t: Tree, p: Path)
    requires WellFormed(t) && p !in t
    ensures SubTree(t, p) == ABSENT
  {
    forall q
      ensures q !in SubTree(t, p)
    {
      SubTreeAt(t, p, q);
      if p + q in t {
        Below(t, p, q);
      }
    }
  }

  lemma EmptyDirSubTree(t: Tree, p: Path)
    ensures SubTree(t, p) == EMPTY <==> IsDir(t, p) && !HasChildren(t, p)
  {
    SubTreeAt(t, p, []);
    assert p + [] == p;
    if IsDir(t, p) && !HasChildren(t, p) {
      forall q
        ensures q in SubTree(t, p) <==> q == []
      {
        SubTreeAt(t, p, q);
        assert q != [] ==> p <= p + q && p + q != p;
      }
    }
    if SubTree(t, p) == EMPTY {
      assert [] in SubTree(t, p);
      forall r | r in t && p <= r
        ensures r == p
      {
        SubTreeAt(t, p, r[|p|..]);
        assert p + r[|p|..] == r;
      }
    }
  }

  lemma MovedAway(t: Tree, src: Path, dst: Path)
    requires WellFormed(t) && CanRename(t, src, dst) && Apart(src, dst)
    ensures var u := Renamed(t, src, dst);
            AgreeBut(u, t, {src, dst}) && SubTree(u, dst) == SubTree(t, src) && SubTree(u, src) == ABSENT && src !in u
  {
    RenamedSubTrees(t, src, dst);
    RenamedWellFormed(t, src, dst);
    AbsentSubTree(Renamed(t, src, dst), src);
    var u := Renamed(t, src, dst);
    forall p | Clear(p, {src, dst})
      ensures (p in u <==> p in t) && (p in u ==> u[p] == t[p])
    {
      assert src in {src, dst} && dst in {src, dst};
    }
  }

  lemma MovedElsewhere(t: Tree, src: Path, dst: Path, root: Path)
    requires WellFormed(t) && CanRename(t, src, dst) && Apart(src, dst) && Apart(src, root) && Apart(dst, root)
    ensures SubTree(Renamed(t, src, dst), root) == SubTree(t, root)
  {
    MovedAway(t, src, dst);
    SubTreeAgreeBut(Renamed(t, src, dst), t, {src, dst}, root);
  }

  /** How promotion ends: by returning, or by raising with the target as it was, complete, or moved aside. */
  datatype Promotion = Promoted | NameTaken | Unmoved | RaisedComplete | MovedAside

  /** The I/O faults it takes to end promotion this way: only a target moved aside needs two. */
  function PromotionFaults(r: Promotion): nat {
    match r
    case Promoted | NameTaken => 0
    case Unmoved | RaisedComplete => 1
    case MovedAside => 2
  }

  lemma AgreeButSelf(t: Tree, places: set<Path>)
    ensures AgreeBut(t, t, places)
  {
  }

  lemma AgreeButWider(t: Tree, u: Tree, v: Tree, small: set<Path>, large: set<Path>)
    requires AgreeBut(t, u, small) && AgreeBut(u, v, large) && small <= large
    ensures AgreeBut(t, v, large)
  {
  }

  /** The target as promotion may show it, seen from the state `t0` in which promotion began. */
  ghost predicate Shown(t: Tree, t0: Tree, target: Path, staging: Path) {
    SubTree(t, target) in {SubTree(t0, target), ABSENT, SubTree(t0, staging)}
  }

  /** A rename between siblings applies: the directory of both is there, and nothing is in the way. */
  lemma SiblingRename(t: Tree, src: Path, dst: Path)
    requires WellFormed(t) && src in t && src != [] && dst != [] && dst !in t && Apart(src, dst) && Parent(src) == Parent(dst)
    ensures CanRename(t, src, dst)
  {
    assert IsDir(t, Parent(src));
  }

  lemma AbsentHere(t: Tree, p: Path)
    requires SubTree(t, p) == ABSENT
    ensures p !in t
  {
    SubTreeAt(t, p, []);
    assert p + [] == p;
  }

  /** `_promote_staging` */
  method PromoteStaging(fs: FileSystem, staging: Path, target: Path, backup: Path, existed: bool) returns (r: Promotion)
    requires fs.Valid() && target != [] && staging != [] && backup != [] && staging in fs.nodes
    requires Parent(staging) == Parent(target) == Parent(backup)
    requires Apart(staging, target) && Apart(backup, target) && Apart(staging, backup)
    requires SubTree(fs.nodes, target) == if existed then EMPTY else ABSENT
    modifies fs
    ensures fs.Valid() && old(fs.history) <= fs.history
    ensures forall i | |old(fs.history)| <= i < |fs.history| :: Shown(fs.history[i], old(fs.nodes), target, staging)
    ensures AgreeBut(fs.nodes, old(fs.nodes), {target, staging, backup})
    ensures fs.faults == old(fs.faults) + PromotionFaults(r)
    ensures r == NameTaken <==> existed && backup in old(fs.nodes)
    ensures r.Promoted? || r.RaisedComplete? ==>
              SubTree(fs.nodes, target) == SubTree(old(fs.nodes), staging) && staging !in fs.nodes
    ensures r.NameTaken? || r.Unmoved? ==> SubTree(fs.nodes, target) == SubTree(old(fs.nodes), target)
    ensures r.MovedAside? ==> existed && target !in fs.nodes
    ensures r.RaisedComplete? ==> existed
    ensures SubTree(fs.nodes, backup) == if r.MovedAside? || r.RaisedComplete? then EMPTY else SubTree(old(fs.nodes), backup)
  {
    hide SubTree, WellFormed, Renamed, AgreeBut, CanRename, HasChildren;
    ghost var all := {target, staging, backup};
    AgreeButSelf(fs.nodes, all);
    ghost var t0 := fs.nodes;
    if existed {
      EmptyDirSubTree(t0, target);
      if backup in fs.nodes {
        return NameTaken;
      }
      SiblingRename(t0, target, backup);
      AbsentSubTree(t0, backup);
      MovedAway(t0, target, backup);
      MovedElsewhere(t0, target, backup, staging);
      var aside := fs.Rename(target, backup);
      if aside != Done {
        return Unmoved;
      }
      ghost var t1 := fs.nodes;
      AgreeButWider(t1, t0, t0, {target, backup}, all);
      StillThere(t1, t0, {target, backup}, staging);
      r := PromoteOverBackup(fs, staging, target, backup);
      AgreeButWider(fs.nodes, t1, t0, all, all);
    } else {
      AbsentHere(t0, target);
      if target in fs.nodes {
        return Unmoved;
      }
      SiblingRename(t0, staging, target);
      MovedAway(t0, staging, target);
      MovedElsewhere(t0, staging, target, backup);
      var moved := fs.Rename(staging, target);
      if moved == Done {
        AgreeButWider(fs.nodes, t0, t0, {staging, target}, all);
      }
      return if moved != Done then Unmoved else Promoted;
    }
  }

  /** The inner `try` of `_promote_staging`: the empty target has been moved to `backup`. */
  method PromoteOverBackup(fs: FileSystem, staging: Path, target: Path, backup: Path) returns (r: Promotion)
    requires fs.Valid() && target != [] && staging != [] && backup != [] && staging in fs.nodes && target !in fs.nodes
    requires Parent(staging) == Parent(target) == Parent(backup)
    requires Apart(staging, target) && Apart(backup, target) && Apart(staging, backup)
    requires SubTree(fs.nodes, backup) == EMPTY
    modifies fs
    ensures fs.Valid() && old(fs.history) <= fs.history
    ensures forall i | |old(fs.history)| <= i < |fs.history| ::
              SubTree(fs.history[i], target) in {EMPTY, ABSENT, SubTree(old(fs.nodes), staging)}
    ensures AgreeBut(fs.nodes, old(fs.nodes), {target, staging, backup})
    ensures fs.faults == old(fs.faults) + PromotionFaults(r) && !r.NameTaken?
    ensures r.Promoted? || r.RaisedComplete? ==>
              SubTree(fs.nodes, target) == SubTree(old(fs.nodes), staging) && staging !in fs.nodes
    ensures r.Unmoved? ==> SubTree(fs.nodes, target) == EMPTY
    ensures r.MovedAside? ==> target !in fs.nodes
    ensures SubTree(fs.nodes, backup) == if r.MovedAside? || r.RaisedComplete? then EMPTY else ABSENT
  {
    hide SubTree, WellFormed, Renamed, AgreeBut, CanRename, HasChildren;
    ghost var t1, all := fs.nodes, {target, staging, backup};
    AgreeButSelf(t1, all);
    EmptyDirSubTree(t1, backup);
    SiblingRename(t1, staging, target);
    MovedAway(t1, staging, target);
    MovedElsewhere(t1, staging, target, backup);
    var moved := fs.Rename(staging, target);
    if moved != Done {
      if target !in fs.nodes && backup in fs.nodes {
        SiblingRename(t1, backup, target);
        MovedAway(t1, backup, target);
        var back := fs.Rename(backup, target);
        if back != Done {
          return MovedAside;
        }
        AgreeButWider(fs.nodes, t1, t1, {backup, target}, all);
        return Unmoved;
      }
      return MovedAside;
    }
    ghost var t2 := fs.nodes;
    AgreeButWider(t2, t1, t1, {staging, target}, all);
    EmptyDirSubTree(t2, backup);
    OnlyDirRemoved(t2, backup);
    RemovedElsewhere(t2, backup, target);
    RemovedElsewhere(t2, backup, staging);
    var removed := fs.Rmdir(backup);
    if removed == Done {
      AgreeButWider(fs.nodes, t2, t1, {backup}, all);
    }
    return if removed != Done then RaisedComplete else Promoted;
  }

  lemma StillThere(t: Tree, t0: Tree, places: set<Path>, p: Path)
    requires AgreeBut(t, t0, places) && (forall place | place in places :: Apart(place, p)) && p in t0
    ensures p in t
  {
  }

  lemma OnlyDirRemoved(t: Tree, p: Path)
    requires SubTree(t, p) == EMPTY
    ensures SubTree(t - {p}, p) == ABSENT
  {
    forall q
      ensures q !in SubTree(t - {p}, p)
    {
      SubTreeAt(t - {p}, p, q);
      SubTreeAt(t, p, q);
      assert q == [] ==> p + q == p;
    }
  }

  lemma RemovedElsewhere(t: Tree, gone: Path, root: Path)
    requires Apart(gone, root)
    ensures SubTree(t - {gone}, root) == SubTree(t, root)
    ensures AgreeBut(t - {gone}, t, {gone})
    ensures root !in t ==> root !in t - {gone}
  {
    assert AgreeBut(t - {gone}, t, {gone}) by {
      assert gone in {gone};
    }
    SubTreeAgreeBut(t - {gone}, t, {gone}, root);
  }

  /***** The whole call *****/

  /** How `safe_extract` ends: by returning, or by raising for one of these reasons. */
  datatype Ending = Returned | NotAccepted | BadTarget | NoPlace | Clash | IoError | Completed | Displaced

  /** The I/O faults it takes to end this way; a failing cleanup takes one more. */
  function EndingFaults(end: Ending, cleaned: bool): nat {
    (match end
     case Returned | NotAccepted | BadTarget | NoPlace | Clash => 0
     case IoError | Completed => 1
     case Displaced => 2)
    + if cleaned then 0 else 1
  }

  /** The target may be used: absent or an empty directory, with no file on the way to it. */
  ghost predicate Usable(t: Tree, target: Path) {
    && (target in t ==> IsDir(t, target) && !HasChildren(t, target))
    && forall k | 0 <= k < |target| :: !IsFile(t, target[..k])
  }

  /** The temporary names are not taken; the backup is needed only for a target that is there. */
  predicate NamesFree(t: Tree, target: Path, token1: string, token2: string)
    requires target != []
  {
    StagingFor(target, token1) !in t && (target in t ==> BackupFor(target, token2) !in t)
  }

  lemma UsableSubTree(t: Tree, target: Path)
    requires WellFormed(t) && Usable(t, target)
    ensures SubTree(t, target) == if target in t then EMPTY else ABSENT
  {
    EmptyDirSubTree(t, target);
    if target !in t {
      AbsentSubTree(t, target);
    }
  }

  /** A file system that holds an accepted bundle is not empty, so its root is no target. */
  lemma RootUnusable(pf: Platform, t: Tree, bundle: Path, pm: ParsedManifest, content: Content)
    requires WellFormed(t) && Accepted(pf, t, bundle, pm, content)
    ensures !Usable(t, [])
  {
    hide ManifestOk, IsDirPath, DirSafe, IsZipPayload;
    if t[bundle].File? {
      assert [] <= bundle && bundle != [];
    } else {
      var inside := bundle + [MANIFEST];
      assert [] <= inside && inside != [] && inside in t;
    }
  }

  /** The complete extracted tree. */
  ghost function Complete(pm: ParsedManifest, content: Content): Tree {
    TreeOf(Wanted(content, pm.files))
  }

  /** What any observer may see at the target: what was there, nothing, or the complete tree. */
  ghost predicate AllOrNothing(t: Tree, t0: Tree, target: Path, pm: ParsedManifest, content: Content) {
    SubTree(t, target) in {SubTree(t0, target), ABSENT, Complete(pm, content)}
  }

  /** Outside the three places nothing is lost or changed, and only directories above the target are new. */
  ghost predicate Bystanders(t: Tree, t0: Tree, target: Path, places: set<Path>)
    requires target != []
  {
    && (forall p | Clear(p, places) && p in t0 :: p in t && t[p] == t0[p])
    && (forall p | Clear(p, places) && p in t && p !in t0 :: t[p] == Dir && p <= Parent(target))
  }

  lemma DirsAddedBystanders(t: Tree, t0: Tree, target: Path, places: set<Path>)
    requires target != [] && DirsAdded(t, t0, Parent(target))
    ensures Bystanders(t, t0, target, places)
  {
  }

  lemma BystandersAgree(t: Tree, t1: Tree, t0: Tree, target: Path, places: set<Path>)
    requires target != [] && AgreeBut(t, t1, places) && Bystanders(t1, t0, target, places)
    ensures Bystanders(t, t0, target, places)
  {
  }

  /** Directories above the target do not touch what is at the target or beside it. */
  lemma DirsAddedSubTree(t: Tree, t0: Tree, target: Path, place: Path)
    requires target != [] && place != [] && DirsAdded(t, t0, Parent(target)) && Parent(place) == Parent(target)
    ensures SubTree(t, place) == SubTree(t0, place)
  {
    forall q
      ensures q in SubTree(t, place) <==> q in SubTree(t0, place)
      ensures q in SubTree(t, place) ==> SubTree(t, place)[q] == SubTree(t0, place)[q]
    {
      SubTreeAt(t, place, q);
      SubTreeAt(t0, place, q);
      assert |place + q| > |Parent(target)|;
    }
  }

  lemma SameSubTreeSamePresence(t: Tree, u: Tree, p: Path)
    requires SubTree(t, p) == SubTree(u, p)
    ensures p in t <==> p in u
  {
    SubTreeAt(t, p, []);
    SubTreeAt(u, p, []);
    assert p + [] == p;
  }

  lemma FreshDir(t: Tree, p: Path)
    requires WellFormed(t) && p !in t
    ensures SubTree(t[p := Dir], p) == TreeOf(map[])
    ensures AgreeOutside(t[p := Dir], t, p)
  {
    var u := t[p := Dir];
    forall q | q in u && p <= q
      ensures q == p
    {
      if q in t {
        NotBelowAbsent(t, p, q);
      }
    }
    EmptyDirSubTree(u, p);
    NothingNeedsOnlyRoot();
  }

  lemma NothingNeedsOnlyRoot()
    ensures TreeOf(map[]) == EMPTY
  {
    var none: map<Path, Bytes> := map[];
    assert Ancestors(none.Keys) == {[]};
  }

  /** What filling reads is there, outside `staging`. */
  ghost predicate SourceReady(pf: Platform, t: Tree, bundle: Path, staging: Path, pm: ParsedManifest, content: Content) {
    && bundle in t
    && match t[bundle]
       case File(data) => pf.openZip(data).Some? && ZipAccepted(pf, pf.openZip(data).value, pm, content)
       case Dir => Readable(t, bundle, staging, content)
  }

  /** No file of the bundle is inside a staging directory that did not exist before. */
  lemma AcceptedSourceReady(pf: Platform, t0: Tree, t1: Tree, t2: Tree, bundle: Path, staging: Path, pm: ParsedManifest, content: Content)
    requires WellFormed(t1) && Accepted(pf, t0, bundle, pm, content)
    requires (forall p | p in t0 :: p in t1 && t1[p] == t0[p]) && staging !in t1 && AgreeOutside(t2, t1, staging)
    ensures SourceReady(pf, t2, bundle, staging, pm, content)
  {
    hide ManifestOk, IsDirPath, DirSafe, Parts, Matches, ZipAccepted;
    forall p | p in t1
      ensures !(staging <= p)
    {
      NotBelowAbsent(t1, staging, p);
    }
  }

  lemma NotBelowAbsent(t: Tree, absent: Path, p: Path)
    requires WellFormed(t) && p in t && absent !in t
    ensures !(absent <= p)
  {
    if absent <= p {
      assert p == absent + p[|absent|..];
      Below(t, absent, p[|absent|..]);
    }
  }

  /** `_resolve_extract_request`: refuses exactly the unusable targets, and leaves the target as it is. */
  method ResolveExtractRequest(fs: FileSystem, target: Path) returns (r: Io, existed: bool)
    requires fs.Valid() && target != []
    modifies fs
    ensures fs.Valid() && old(fs.history) <= fs.history && fs.faults == old(fs.faults) + if r == Fault then 1 else 0
    ensures forall i | |old(fs.history)| <= i < |fs.history| :: DirsAdded(fs.history[i], old(fs.nodes), Parent(target))
    ensures DirsAdded(fs.nodes, old(fs.nodes), Parent(target))
    ensures existed == (target in old(fs.nodes))
    ensures r == Done ==> Usable(old(fs.nodes), target) && IsDir(fs.nodes, Parent(target))
    ensures r == Refused ==> !Usable(old(fs.nodes), target)
  {
    hide WellFormed, DirsAdded;
    existed := target in fs.nodes;
    ghost var t0 := fs.nodes;
    if existed {
      DirsAddedNone(t0, Parent(target));
      PrefixesAreDirs(t0, target);
      r := if !IsDir(fs.nodes, target) || HasChildren(fs.nodes, target) then Refused else Done;
    } else {
      r := fs.MkdirParents(Parent(target));
      forall k | 0 <= k < |target|
        ensures Parent(target)[..k] == target[..k]
      {
      }
      if r == Done {
        assert Parent(target)[..|Parent(target)|] == Parent(target);
        forall k | 0 <= k < |target|
          ensures !IsFile(t0, target[..k])
        {
          assert IsDir(fs.nodes, Parent(target)[..k]);
          DirsAddedKeepsFile(fs.nodes, t0, Parent(target), target[..k]);
        }
      }
    }
  }

  lemma DirsAddedKeepsFile(t: Tree, u: Tree, p: Path, q: Path)
    requires DirsAdded(t, u, p) && IsDir(t, q)
    ensures !IsFile(u, q)
  {
  }

  lemma PrefixesAreDirs(t: Tree, p: Path)
    requires WellFormed(t) && p in t
    ensures forall k | 0 <= k < |p| :: IsDir(t, p[..k])
    ensures p != [] ==> IsDir(t, Parent(p))
  {
    forall k | 0 <= k < |p|
      ensures IsDir(t, p[..k])
    {
      WellFormedUp(t, p, k);
    }
  }

  /** The `try` block up to promotion: fill the fresh staging directory from the bundle. */
  method FillStaging(pf: Platform, fs: FileSystem, bundle: Path, staging: Path, pm: ParsedManifest, ghost content: Content)
    returns (r: Io)
    requires fs.Valid() && staging != [] && SubTree(fs.nodes, staging) == TreeOf(map[])
    requires SourceReady(pf, fs.nodes, bundle, staging, pm, content) && Extractable(content, pm.files)
    modifies fs
    ensures fs.faults == old(fs.faults) + if r == Fault then 1 else 0
    ensures fs.Valid() && old(fs.history) <= fs.history && AgreeOutside(fs.nodes, old(fs.nodes), staging)
    ensures forall i | |old(fs.history)| <= i < |fs.history| :: AgreeOutside(fs.history[i], old(fs.nodes), staging)
    ensures r == Done ==> PrefixFree(Places(pm.files)) && SubTree(fs.nodes, staging) == Complete(pm, content)
    ensures r == Refused ==> !PrefixFree(Places(pm.files))
  {
    hide SubTree, TreeOf, PrefixFree, AgreeOutside, WellFormed, ZipAccepted, Readable, Extractable, Wanted, Places;
    match fs.nodes[bundle] {
      case File(data) =>
        r := FillFromZip(pf, fs, pf.openZip(data).value, staging, pm, content);
      case Dir =>
        r := CopyValidatedDir(fs, bundle, staging, pm.files, content);
    }
  }

  /** The same, seen from the places beside staging. */
  method FillBeside(pf: Platform, fs: FileSystem, bundle: Path, staging: Path, ghost target: Path, ghost backup: Path,
                    pm: ParsedManifest, ghost content: Content)
    returns (r: Io)
    requires fs.Valid() && staging != [] && SubTree(fs.nodes, staging) == TreeOf(map[])
    requires Apart(staging, target) && Apart(staging, backup)
    requires SourceReady(pf, fs.nodes, bundle, staging, pm, content) && Extractable(content, pm.files)
    modifies fs
    ensures fs.faults == old(fs.faults) + if r == Fault then 1 else 0
    ensures fs.Valid() && old(fs.history) <= fs.history
    ensures forall i | |old(fs.history)| <= i < |fs.history| :: AllOrNothing(fs.history[i], old(fs.nodes), target, pm, content)
    ensures AgreeBut(fs.nodes, old(fs.nodes), {target, staging, backup})
    ensures SubTree(fs.nodes, target) == SubTree(old(fs.nodes), target)
    ensures SubTree(fs.nodes, backup) == SubTree(old(fs.nodes), backup) && (backup in fs.nodes <==> backup in old(fs.nodes))
    ensures r == Done ==> PrefixFree(Places(pm.files)) && SubTree(fs.nodes, staging) == Complete(pm, content) && staging in fs.nodes
    ensures r == Refused ==> !PrefixFree(Places(pm.files))
  {
    hide SubTree, TreeOf, PrefixFree, AgreeOutside, AgreeBut, WellFormed, SourceReady, Extractable, Places, Complete, AllOrNothing;
    ghost var t2, places := fs.nodes, {target, staging, backup};
    r := FillStaging(pf, fs, bundle, staging, pm, content);
    StagingOnly(fs.nodes, t2, staging, target, places);
    StagingOnly(fs.nodes, t2, staging, backup, places);
    SameSubTreeSamePresence(fs.nodes, t2, backup);
    forall i | |old(fs.history)| <= i < |fs.history|
      ensures AllOrNothing(fs.history[i], t2, target, pm, content)
    {
      StagingOnly(fs.history[i], t2, staging, target, places);
      UnchangedAllOrNothing(fs.history[i], t2, target, pm, content);
    }
    if r == Done {
      CompletePresent(fs.nodes, staging, pm, content);
    }
  }

  /** The `try`/`finally` of `safe_extract`: fill, promote, and remove staging unless promotion succeeded. */
  method FillAndPromote(pf: Platform, fs: FileSystem, bundle: Path, staging: Path, target: Path, backup: Path, existed: bool,
                        pm: ParsedManifest, ghost content: Content)
    returns (end: Ending, ghost cleaned: bool)
    requires fs.Valid() && target != [] && staging != [] && backup != [] && staging in fs.nodes
    requires Parent(staging) == Parent(target) == Parent(backup)
    requires Apart(staging, target) && Apart(backup, target) && Apart(staging, backup)
    requires SubTree(fs.nodes, target) == if existed then EMPTY else ABSENT
    requires SubTree(fs.nodes, staging) == TreeOf(map[])
    requires SourceReady(pf, fs.nodes, bundle, staging, pm, content) && Extractable(content, pm.files)
    modifies fs
    ensures fs.Valid() && old(fs.history) <= fs.history
    ensures forall i | |old(fs.history)| <= i < |fs.history| :: AllOrNothing(fs.history[i], old(fs.nodes), target, pm, content)
    ensures AgreeBut(fs.nodes, old(fs.nodes), {target, staging, backup})
    ensures fs.faults == old(fs.faults) + EndingFaults(end, cleaned)
    ensures end.Returned? || end.Completed? ==> cleaned
    ensures !end.NotAccepted? && !end.BadTarget?
    ensures end.NoPlace? ==> existed && backup in old(fs.nodes)
    ensures end.Returned? && existed ==> backup !in old(fs.nodes)
    ensures end.Clash? ==> !PrefixFree(Places(pm.files))
    ensures end.Returned? || end.Completed? || end.Displaced? ==> PrefixFree(Places(pm.files))
    ensures end.Returned? || end.Completed? ==> SubTree(fs.nodes, target) == Complete(pm, content)
    ensures end.Displaced? ==> target !in fs.nodes
    ensures !end.Returned? && !end.Completed? && !end.Displaced? ==>
              SubTree(fs.nodes, target) == SubTree(old(fs.nodes), target)
    ensures SubTree(fs.nodes, backup) == if end.Completed? || end.Displaced? then EMPTY else SubTree(old(fs.nodes), backup)
    ensures cleaned ==> staging !in fs.nodes
  {
    hide SubTree, TreeOf, PrefixFree, AgreeOutside, AgreeBut, WellFormed, SourceReady, Extractable, Places, Complete;
    hide AllOrNothing, Shown;
    ghost var t2, places := fs.nodes, {target, staging, backup};
    var filled := FillBeside(pf, fs, bundle, staging, target, backup, pm, content);
    ghost var t3 := fs.nodes;
    var promoted := Unmoved;
    ghost var mark := |fs.history|;
    if filled == Done {
      promoted := PromoteStaging(fs, staging, target, backup, existed);
      AgreeButWider(fs.nodes, t3, t2, places, places);
      forall i | mark <= i < |fs.history|
        ensures AllOrNothing(fs.history[i], t2, target, pm, content)
      {
        ShownAllOrNothing(fs.history[i], t3, t2, target, staging, pm, content);
      }
    }
    end := if filled == Refused then Clash
           else if filled == Fault then IoError
           else
             match promoted
             case Promoted => Returned
             case NameTaken => NoPlace
             case Unmoved => IoError
             case RaisedComplete => Completed
             case MovedAside => Displaced;
    cleaned := true;
    ghost var t4, mark4 := fs.nodes, |fs.history|;
    assert t4 == fs.history[mark4 - 1];
    UnchangedAllOrNothing(t2, t2, target, pm, content);
    assert AllOrNothing(t4, t2, target, pm, content);
    if promoted != Promoted && staging in fs.nodes {
      cleaned := RemoveStaging(fs, staging, target, backup);
      AgreeButWider(fs.nodes, t4, t2, places, places);
      SameSubTreeSamePresence(fs.nodes, t4, target);
      forall i | mark4 <= i < |fs.history|
        ensures AllOrNothing(fs.history[i], t2, target, pm, content)
      {
        SameAllOrNothing(fs.history[i], t4, t2, target, pm, content);
      }
    }
  }

  /** The `finally` block: it fails only by a fault, and touches neither the target nor the backup. */
  method RemoveStaging(fs: FileSystem, staging: Path, ghost target: Path, ghost backup: Path) returns (cleaned: bool)
    requires fs.Valid() && staging != [] && Apart(staging, target) && Apart(staging, backup)
    modifies fs
    ensures fs.Valid() && old(fs.history) <= fs.history
    ensures fs.faults == old(fs.faults) + if cleaned then 0 else 1
    ensures cleaned ==> staging !in fs.nodes
    ensures forall i | |old(fs.history)| <= i < |fs.history| :: SubTree(fs.history[i], target) == SubTree(old(fs.nodes), target)
    ensures SubTree(fs.nodes, target) == SubTree(old(fs.nodes), target)
    ensures SubTree(fs.nodes, backup) == SubTree(old(fs.nodes), backup)
    ensures AgreeBut(fs.nodes, old(fs.nodes), {target, staging, backup})
  {
    hide SubTree, AgreeOutside, AgreeBut, WellFormed;
    ghost var before, places := fs.nodes, {target, staging, backup};
    var removed := fs.RemoveTree(staging);
    forall t: Tree | AgreeOutside(t, before, staging)
      ensures SubTree(t, target) == SubTree(before, target) && SubTree(t, backup) == SubTree(before, backup)
      ensures AgreeBut(t, before, places)
    {
      StagingOnly(t, before, staging, target, places);
      StagingOnly(t, before, staging, backup, places);
    }
    return removed == Done;
  }

  lemma StagingOnly(t: Tree, u: Tree, staging: Path, place: Path, places: set<Path>)
    requires AgreeOutside(t, u, staging) && Apart(staging, place) && staging in places
    ensures SubTree(t, place) == SubTree(u, place) && AgreeBut(t, u, places)
  {
    SubTreeAgrees(t, u, staging, place);
  }

  lemma UnchangedAllOrNothing(t: Tree, t0: Tree, target: Path, pm: ParsedManifest, content: Content)
    requires SubTree(t, target) == SubTree(t0, target)
    ensures AllOrNothing(t, t0, target, pm, content)
  {
    hide SubTree, Complete;
  }

  lemma SameAllOrNothing(t: Tree, u: Tree, t0: Tree, target: Path, pm: ParsedManifest, content: Content)
    requires SubTree(t, target) == SubTree(u, target) && AllOrNothing(u, t0, target, pm, content)
    ensures AllOrNothing(t, t0, target, pm, content)
  {
    hide SubTree, Complete;
  }

  /** What promotion shows, seen from the state before the staging directory was filled. */
  lemma ShownAllOrNothing(t: Tree, t3: Tree, t0: Tree, target: Path, staging: Path, pm: ParsedManifest, content: Content)
    requires Shown(t, t3, target, staging) && SubTree(t3, target) == SubTree(t0, target)
    requires SubTree(t3, staging) == Complete(pm, content)
    ensures AllOrNothing(t, t0, target, pm, content)
  {
    hide SubTree, Complete;
  }

  lemma CompletePresent(t: Tree, p: Path, pm: ParsedManifest, content: Content)
    requires SubTree(t, p) == Complete(pm, content)
    ensures p in t
  {
    hide Parts;
    SubTreeAt(t, p, []);
    assert p + [] == p;
    assert [MANIFEST] in Wanted(content, pm.files);
  }

  /**
   * `safe_extract`, with the two random tokens as arguments. `end` says how it ended; the clauses say when each
   * ending is possible, what the target is then, and what it was at every instant in between.
   */
  method SafeExtract(pf: Platform, fs: FileSystem, bundle: Path, target: Path, token1: string, token2: string)
    returns (end: Ending, ghost pm: ParsedManifest, ghost content: Content, ghost cleaned: bool)
    requires fs.Valid()
    modifies fs
    ensures fs.Valid() && old(fs.history) <= fs.history
    // When each ending occurs.
    ensures end.NotAccepted? ==> forall pm, content :: !Accepted(pf, old(fs.nodes), bundle, pm, content)
    ensures !end.NotAccepted? ==> Accepted(pf, old(fs.nodes), bundle, pm, content)
    ensures end.BadTarget? ==> !Usable(old(fs.nodes), target)
    ensures !end.NotAccepted? && !end.BadTarget? ==> target != []
    ensures !end.NotAccepted? && !end.BadTarget? && !end.IoError? ==> Usable(old(fs.nodes), target)
    ensures end.NoPlace? ==> !NamesFree(old(fs.nodes), target, token1, token2)
    ensures end.Returned? ==> NamesFree(old(fs.nodes), target, token1, token2)
    ensures end.Clash? ==> !PrefixFree(Places(pm.files))
    ensures end.Returned? || end.Completed? || end.Displaced? ==> PrefixFree(Places(pm.files))
    // Which faults it takes: one for an I/O error, a second one for a displaced target, one more for a failing cleanup.
    ensures fs.faults == old(fs.faults) + EndingFaults(end, cleaned)
    ensures end.Returned? || end.Completed? ==> cleaned
    // Without I/O faults it succeeds exactly when nothing speaks against it.
    ensures fs.faults == old(fs.faults) ==>
              (end.Returned? <==>
                 !end.NotAccepted? && Usable(old(fs.nodes), target) && target != [] &&
                 NamesFree(old(fs.nodes), target, token1, token2) && PrefixFree(Places(pm.files)))
    // What is at the target afterwards, and at every instant.
    ensures end.Returned? || end.Completed? ==> SubTree(fs.nodes, target) == Complete(pm, content)
    ensures end.Displaced? ==> target !in fs.nodes
    ensures !end.Returned? && !end.Completed? && !end.Displaced? ==>
              SubTree(fs.nodes, target) == SubTree(old(fs.nodes), target)
    ensures forall i | |old(fs.history)| <= i < |fs.history| :: AllOrNothing(fs.history[i], old(fs.nodes), target, pm, content)
    // What is left beside it.
    ensures target != [] && cleaned ==>
              SubTree(fs.nodes, StagingFor(target, token1)) == SubTree(old(fs.nodes), StagingFor(target, token1))
    ensures target != [] && !cleaned ==> StagingFor(target, token1) !in old(fs.nodes)
    ensures target != [] ==> SubTree(fs.nodes, BackupFor(target, token2)) ==
                             if end.Completed? || end.Displaced? then EMPTY
                             else SubTree(old(fs.nodes), BackupFor(target, token2))
    ensures if target == [] then fs.nodes == old(fs.nodes)
            else Bystanders(fs.nodes, old(fs.nodes), target, {target, StagingFor(target, token1), BackupFor(target, token2)})
  {
    hide SubTree, WellFormed, Accepted, TreeOf, PrefixFree, StagingFor, BackupFor, Usable, Bystanders, Places, AgreeBut;
    hide AgreeOutside, DirsAdded, Extractable, Complete, SourceReady;
    ghost var t0 := fs.nodes;
    cleaned := true;
    var verified;
    verified, content := VerifyBundleManifest(pf, fs.nodes, bundle);
    pm := if verified.Ok? then verified.value else ParsedManifest(JNull, "", "", []);
    if target != [] {
      NothingHappened(t0, target, {target, StagingFor(target, token1), BackupFor(target, token2)});
    }
    if verified.Err? {
      return NotAccepted, pm, content, cleaned;
    }
    if target == [] {
      RootUnusable(pf, t0, bundle, pm, content);
      return BadTarget, pm, content, cleaned;
    }
    var staging, backup := StagingFor(target, token1), BackupFor(target, token2);
    ghost var places := {target, staging, backup};
    ThreeSiblings(target, token1, token2);
    var refused, existed;
    ghost var t1;
    refused, existed, t1 := Prepare(fs, target, staging, backup);
    if refused.Some? {
      return refused.value, pm, content, cleaned;
    }
    ghost var t2 := fs.nodes;
    AcceptedSourceReady(pf, t0, t1, t2, bundle, staging, pm, content);
    AcceptedExtractable(pf, t0, bundle, pm, content);
    UsableSubTree(t0, target);
    end, cleaned := FillAndPromote(pf, fs, bundle, staging, target, backup, existed, verified.value, content);
    BystandersAgree(fs.nodes, t2, t0, target, places);
    if cleaned {
      AbsentSubTree(t0, staging);
      AbsentSubTree(fs.nodes, staging);
    }
  }

  /**
   * `_resolve_extract_request` and `_make_staging_root`: a usable target and a fresh staging directory, or the reason why
   * not. `t1` is the tree just before the staging directory was made.
   */
  method Prepare(fs: FileSystem, target: Path, staging: Path, ghost backup: Path)
    returns (refused: Option<Ending>, existed: bool, ghost t1: Tree)
    requires fs.Valid() && target != [] && staging != [] && backup != []
    requires Parent(staging) == Parent(target) == Parent(backup)
    requires Apart(staging, target) && Apart(backup, target) && Apart(staging, backup)
    modifies fs
    ensures fs.Valid() && old(fs.history) <= fs.history
    ensures refused in {None, Some(BadTarget), Some(NoPlace), Some(IoError)}
    ensures fs.faults == old(fs.faults) + if refused == Some(IoError) then 1 else 0
    ensures existed == (target in old(fs.nodes))
    ensures refused == Some(BadTarget) ==> !Usable(old(fs.nodes), target)
    ensures refused == Some(NoPlace) ==> staging in old(fs.nodes)
    ensures refused in {None, Some(NoPlace)} ==> Usable(old(fs.nodes), target)
    ensures forall i | |old(fs.history)| <= i < |fs.history| :: SubTree(fs.history[i], target) == SubTree(old(fs.nodes), target)
    ensures SubTree(fs.nodes, target) == SubTree(old(fs.nodes), target)
    ensures SubTree(fs.nodes, backup) == SubTree(old(fs.nodes), backup) && (backup in fs.nodes <==> backup in old(fs.nodes))
    ensures refused.Some? ==> SubTree(fs.nodes, staging) == SubTree(old(fs.nodes), staging)
    ensures refused.None? ==> staging !in old(fs.nodes) && staging in fs.nodes && SubTree(fs.nodes, staging) == TreeOf(map[])
    ensures refused.None? ==> WellFormed(t1) && staging !in t1 && AgreeOutside(fs.nodes, t1, staging) &&
                              forall p | p in old(fs.nodes) :: p in t1 && t1[p] == old(fs.nodes)[p]
    ensures Bystanders(fs.nodes, old(fs.nodes), target, {target, staging, backup})
  {
    hide SubTree, WellFormed, TreeOf, Usable, Bystanders, AgreeBut, AgreeOutside, DirsAdded;
    ghost var t0, places := fs.nodes, {target, staging, backup};
    var resolved;
    resolved, existed := ResolveExtractRequest(fs, target);
    t1 := fs.nodes;
    forall t: Tree | DirsAdded(t, t0, Parent(target))
      ensures SubTree(t, target) == SubTree(t0, target) && SubTree(t, staging) == SubTree(t0, staging)
      ensures SubTree(t, backup) == SubTree(t0, backup) && (staging in t <==> staging in t0) && (backup in t <==> backup in t0)
      ensures Bystanders(t, t0, target, places)
    {
      DirsAddedSubTree(t, t0, target, target);
      DirsAddedSubTree(t, t0, target, staging);
      DirsAddedSubTree(t, t0, target, backup);
      DirsAddedPresence(t, t0, target, staging);
      DirsAddedPresence(t, t0, target, backup);
      DirsAddedBystanders(t, t0, target, places);
    }
    if resolved != Done {
      return Some(if resolved == Refused then BadTarget else IoError), existed, t1;
    }
    if staging in fs.nodes {
      return Some(NoPlace), existed, t1;
    }
    var made := fs.Mkdir(staging);
    if made != Done {
      return Some(IoError), existed, t1;
    }
    ghost var t2 := fs.nodes;
    FreshDir(t1, staging);
    StagingOnly(t2, t1, staging, target, places);
    StagingOnly(t2, t1, staging, backup, places);
    SameSubTreeSamePresence(t2, t1, backup);
    DirsAddedKeeps(t1, t0, Parent(target));
    BystandersAgree(t2, t1, t0, target, places);
    return None, existed, t1;
  }

  lemma NothingHappened(t: Tree, target: Path, places: set<Path>)
    requires target != []
    ensures Bystanders(t, t, target, places)
  {
  }

  lemma DirsAddedKeeps(t: Tree, u: Tree, p: Path)
    requires DirsAdded(t, u, p)
    ensures forall q | q in u :: q in t && t[q] == u[q]
  {
  }

  lemma DirsAddedPresence(t: Tree, t0: Tree, target: Path, place: Path)
    requires target != [] && DirsAdded(t, t0, Parent(target)) && |place| == |target|
    ensures place in t <==> place in t0
  {
  }
}
