/**
 * Staged extraction of a verified bundle: `safe_extract` of scripts/verify_release_bundle_manifest.py with everything it
 * calls, on a file system where any operation may fail.
 */
module Extract {
  import opened Bundle
  import opened FileSystem
  import opened FileTree
  import opened Manifest
  import opened ManifestPath
  import opened Outcomes

  /** Where extraction puts the manifest and the listed files, relative to the target. */
  function Places(files: seq<BundleFile>): set<Path> {
    {[MANIFEST]} + set file | file in files :: Parts(file.path)
  }

  /** What extraction is to write: a function of the set of listed files, not of their order. */
  ghost function Wanted(content: Content, files: seq<BundleFile>): map<Path, Bytes> {
    map q | q in Places(files) ::
      if q != [MANIFEST] && AsPosix(q) in content.payload then content.payload[AsPosix(q)] else content.manifest
  }

  /** The listed paths are canonical, distinct, carried by the content and different from the manifest's. */
  ghost predicate Extractable(content: Content, files: seq<BundleFile>) {
    && (forall i | 0 <= i < |files| ::
          AsPosix(Parts(files[i].path)) == files[i].path && files[i].path in content.payload &&
          Parts(files[i].path) != [MANIFEST])
    && (forall i, j | 0 <= i < j < |files| :: files[i].path != files[j].path)
  }

  lemma AcceptedExtractable(pf: Platform, t: Tree, bundle: Path, pm: ParsedManifest, content: Content)
    requires Accepted(pf, t, bundle, pm, content)
    ensures Extractable(content, pm.files)
  {
    AcceptedManifest(pf, t, bundle, pm, content);
    hide Accepted;
    MatchedExtractable(pf, pm, content);
  }

  lemma MatchedExtractable(pf: Platform, pm: ParsedManifest, content: Content)
    requires ManifestOk(pf, pm) && Matches(pf, pm.files, content.payload)
    ensures Extractable(content, pm.files)
  {
    hide HeaderSays, EntrySays, Parts, AsPosix;
    forall i | 0 <= i < |pm.files|
      ensures AsPosix(Parts(pm.files[i].path)) == pm.files[i].path && Parts(pm.files[i].path) != [MANIFEST]
      ensures pm.files[i].path in content.payload
    {
      DescribedCanonical(pf, pm.raw.fields["files"].items, pm.files, pm.files[i].path);
      ManifestOwnText();
      assert pm.files[i].path in PathsOf(pm.files);
    }
  }

  lemma WantedStep(content: Content, files: seq<BundleFile>, k: nat)
    requires Extractable(content, files) && k < |files|
    ensures Parts(files[k].path) !in Places(files[..k])
    ensures Places(files[..k + 1]) == Places(files[..k]) + {Parts(files[k].path)}
    ensures Wanted(content, files[..k]).Keys == Places(files[..k])
    ensures Wanted(content, files[..k + 1]) ==
            Wanted(content, files[..k])[Parts(files[k].path) := content.payload[files[k].path]]
  {
    hide Parts, AsPosix;
    var file := files[k];
    forall i | 0 <= i < k
      ensures Parts(files[i].path) != Parts(file.path)
    {
    }
    assert files[..k + 1] == files[..k] + [file];
    assert Places(files[..k + 1]) == Places(files[..k]) + {Parts(file.path)};
  }

  lemma PrefixFreeSubset(small: set<Path>, large: set<Path>)
    requires small <= large && PrefixFree(large)
    ensures PrefixFree(small)
  {
  }

  /***** One file *****/

  lemma BelowParent(root: Path, rel: Path, q: Path)
    requires rel != []
    ensures root + q <= Parent(root + rel) <==> q <= rel && q != rel
    ensures q <= rel && q != rel ==> Parent(root + rel)[..|root| + |q|] == root + q
    ensures root + q == root + rel <==> q == rel
  {
    assert (root + q)[|root|..] == q && (root + rel)[|root|..] == rel;
    if root + q <= Parent(root + rel) {
      assert (root + rel)[..|root + q|] == root + q;
      assert rel[..|q|] == (root + rel)[..|root + q|][|root|..] == q;
    }
    if q <= rel && q != rel {
      assert |q| < |rel|;
      assert Parent(root + rel)[..|root| + |q|] == root + q;
    }
  }

  lemma NoFileAbove(t0: Tree, t1: Tree, root: Path, w: map<Path, Bytes>, rel: Path, p: Path)
    requires SubTree(t0, root) == TreeOf(w) && rel != [] && p in w && p <= rel
    requires DirsAdded(t1, t0, Parent(root + rel))
    requires forall k | 0 <= k <= |Parent(root + rel)| :: IsDir(t1, Parent(root + rel)[..k])
    ensures p == rel
  {
    SubTreeAt(t0, root, p);
    BelowParent(root, rel, p);
  }

  lemma BelowIsAncestor(paths: set<Path>, rel: Path, p: Path)
    requires p in paths && rel <= p
    ensures p != rel ==> rel in Ancestors(paths)
  {
    assert p[..|rel|] == rel;
  }

  lemma NewPlaceIsFree(t0: Tree, t1: Tree, root: Path, w: map<Path, Bytes>, rel: Path)
    requires SubTree(t0, root) == TreeOf(w) && PrefixFree(w.Keys) && rel != []
    requires DirsAdded(t1, t0, Parent(root + rel)) && root + rel !in t1
    requires forall k | 0 <= k <= |Parent(root + rel)| :: IsDir(t1, Parent(root + rel)[..k])
    ensures PrefixFree(w.Keys + {rel}) && rel !in TreeOf(w)
  {
    hide SubTree, IsDir;
    SubTreeAt(t0, root, rel);
    forall p | p in w && p <= rel
      ensures p == rel
    {
      NoFileAbove(t0, t1, root, w, rel, p);
    }
    forall p | p in w && rel <= p
      ensures p == rel
    {
      BelowIsAncestor(w.Keys, rel, p);
    }
  }

  lemma FileAdded(t0: Tree, t1: Tree, root: Path, w: map<Path, Bytes>, rel: Path, data: Bytes)
    requires SubTree(t0, root) == TreeOf(w) && rel != [] && PrefixFree(w.Keys + {rel})
    requires DirsAdded(t1, t0, Parent(root + rel)) && root + rel !in t1
    requires forall k | 0 <= k <= |Parent(root + rel)| :: IsDir(t1, Parent(root + rel)[..k])
    ensures SubTree(t1[root + rel := File(data)], root) == TreeOf(w[rel := data])
  {
    hide PrefixFree;
    var t2, w2 := t1[root + rel := File(data)], w[rel := data];
    forall q
      ensures q in SubTree(t2, root) <==> q in TreeOf(w2)
      ensures q in SubTree(t2, root) ==> SubTree(t2, root)[q] == TreeOf(w2)[q]
    {
      SubTreeAt(t2, root, q);
      SubTreeAt(t0, root, q);
      AncestorsGrow(w.Keys, rel, q);
      BelowParent(root, rel, q);
      if q <= rel && q != rel {
        NotAbove(w, rel, q);
      }
    }
  }

  lemma AncestorsGrow(paths: set<Path>, rel: Path, q: Path)
    requires rel != []
    ensures q in Ancestors(paths + {rel}) <==> q in Ancestors(paths) || (q <= rel && q != rel)
  {
    if q <= rel && q != rel {
      assert q == rel[..|q|];
    }
  }

  lemma NotAbove(w: map<Path, Bytes>, rel: Path, q: Path)
    requires PrefixFree(w.Keys + {rel}) && q <= rel && q != rel
    ensures q !in w
  {
  }

  lemma MkdirRefusal(t: Tree, root: Path, w: map<Path, Bytes>, rel: Path, k: nat)
    requires WellFormed(t) && SubTree(t, root) == TreeOf(w) && PrefixFree(w.Keys) && rel != []
    requires k <= |Parent(root + rel)| && IsFile(t, Parent(root + rel)[..k])
    ensures !PrefixFree(w.Keys + {rel})
  {
    hide SubTree, TreeOf, PrefixFree;
    var p := Parent(root + rel)[..k];
    EmptyPlaceNotWritten(w);
    SubTreeAt(t, root, []);
    assert root + [] == root;
    if |root| <= k {
      var q := p[|root|..];
      assert root == (root + rel)[..k][..|root|] == p[..|root|];
      assert root + q == p;
      BelowParent(root, rel, q);
      SubTreeAt(t, root, q);
      FileAbove(w, rel, q);
    } else {
      assert p == root[..k];
      WellFormedUp(t, root, k);
    }
  }

  lemma EmptyPlaceNotWritten(w: map<Path, Bytes>)
    requires PrefixFree(w.Keys)
    ensures [] in TreeOf(w) && TreeOf(w)[[]].Dir?
  {
  }

  lemma FileAbove(w: map<Path, Bytes>, rel: Path, q: Path)
    requires q in TreeOf(w) && TreeOf(w)[q].File? && q <= rel && q != rel
    ensures !PrefixFree(w.Keys + {rel})
  {
  }

  lemma PlaceTaken(t: Tree, root: Path, w: map<Path, Bytes>, rel: Path)
    requires SubTree(t, root) == TreeOf(w) && rel !in w && root + rel in t
    ensures !PrefixFree(w.Keys + {rel})
  {
    SubTreeAt(t, root, rel);
    if rel != [] {
      var p, k :| p in w.Keys && 0 <= k < |p| && rel == p[..k];
      assert rel <= p && rel != p;
    }
  }

  /**
   * `_write_extracted_file` with `_safe_extract_target`: below `root` lies exactly what has been written so far, and
   * the new file joins it exactly when its place is compatible with the others.
   */
  method WriteExtractedFile(fs: FileSystem, root: Path, rel: Path, data: Bytes, ghost w: map<Path, Bytes>) returns (r: Io)
    requires fs.Valid() && root != [] && SubTree(fs.nodes, root) == TreeOf(w) && PrefixFree(w.Keys) && rel !in w
    modifies fs
    ensures fs.faults == old(fs.faults) + if r == Fault then 1 else 0
    ensures fs.Valid() && old(fs.history) <= fs.history
    ensures AgreeOutside(fs.nodes, old(fs.nodes), root)
    ensures forall i | |old(fs.history)| <= i < |fs.history| :: AgreeOutside(fs.history[i], old(fs.nodes), root)
    ensures r == Done ==> PrefixFree(w.Keys + {rel}) && SubTree(fs.nodes, root) == TreeOf(w[rel := data])
    ensures r == Refused ==> !PrefixFree(w.Keys + {rel})
  {
    hide SubTree, TreeOf, PrefixFree, WellFormed;
    if rel == [] {
      // The parent of the target is then the parent of `root`, and the containment test refuses.
      EmptyPlace(w.Keys);
      return Refused;
    }
    var target := root + rel;
    ghost var t0 := fs.nodes;
    r := fs.MkdirParents(Parent(target));
    RootPresent(t0, root, w);
    forall t: Tree | DirsAdded(t, t0, Parent(target))
      ensures AgreeOutside(t, t0, root)
    {
      AddedBelow(t, t0, root, rel);
    }
    if r == Refused {
      ghost var k :| 0 <= k <= |Parent(target)| && IsFile(t0, Parent(target)[..k]);
      MkdirRefusal(t0, root, w, rel, k);
    }
    if r != Done {
      return r;
    }
    if target in fs.nodes {
      AddedIsNotTarget(fs.nodes, t0, root, rel);
      PlaceTaken(t0, root, w, rel);
      return Refused;
    }
    ghost var t1 := fs.nodes;
    NewPlaceIsFree(t0, t1, root, w, rel);
    FileAdded(t0, t1, root, w, rel, data);
    ParentIsDir(t1, target);
    r := fs.Write(target, data);
  }

  lemma EmptyPlace(paths: set<Path>)
    ensures !PrefixFree(paths + {[]})
  {
  }

  lemma ParentIsDir(t: Tree, target: Path)
    requires target != [] && forall k | 0 <= k <= |Parent(target)| :: IsDir(t, Parent(target)[..k])
    ensures IsDir(t, Parent(target))
  {
    assert Parent(target)[..|Parent(target)|] == Parent(target);
  }

  lemma AddedIsNotTarget(t: Tree, t0: Tree, root: Path, rel: Path)
    requires rel != [] && DirsAdded(t, t0, Parent(root + rel)) && root + rel in t
    ensures root + rel in t0
  {
  }

  lemma RootPresent(t: Tree, root: Path, w: map<Path, Bytes>)
    requires WellFormed(t) && SubTree(t, root) == TreeOf(w)
    ensures forall k | 0 <= k <= |root| :: root[..k] in t
  {
    SubTreeAt(t, root, []);
    assert root + [] == root;
    forall k | 0 <= k <= |root|
      ensures root[..k] in t
    {
      if k < |root| {
        WellFormedUp(t, root, k);
      } else {
        assert root[..k] == root;
      }
    }
  }

  lemma AddedBelow(t: Tree, t0: Tree, root: Path, rel: Path)
    requires rel != [] && DirsAdded(t, t0, Parent(root + rel))
    requires forall k | 0 <= k <= |root| :: root[..k] in t0
    ensures AgreeOutside(t, t0, root)
  {
    forall p | !(root <= p)
      ensures p in t <==> p in t0
    {
      if p <= Parent(root + rel) {
        assert p <= root + rel;
        PrefixesCompare(p, root, root + rel);
        assert p == root[..|p|];
      }
    }
  }

  /***** All files *****/

  lemma AgreeTrans(t: Tree, u: Tree, v: Tree, root: Path)
    requires AgreeOutside(t, u, root) && AgreeOutside(u, v, root)
    ensures AgreeOutside(t, v, root)
  {
  }

  lemma WantedNothing(content: Content, files: seq<BundleFile>)
    ensures Places(files[..0]) == {[MANIFEST]} && PrefixFree({[MANIFEST]})
    ensures Wanted(content, files[..0]) == map[[MANIFEST] := content.manifest]
    ensures Places(files[..|files|]) == Places(files) && Wanted(content, files[..|files|]) == Wanted(content, files)
  {
    assert files[..|files|] == files;
  }

  lemma PlacesGrow(files: seq<BundleFile>, k: nat)
    requires k <= |files|
    ensures Places(files[..k]) <= Places(files)
  {
  }

  /** The state of staging after `k` files, seen from the state `t0` in which filling began. */
  ghost predicate Filled(t: Tree, t0: Tree, staging: Path, content: Content, files: seq<BundleFile>, k: nat)
    requires k <= |files|
  {
    && AgreeOutside(t, t0, staging)
    && SubTree(t, staging) == TreeOf(Wanted(content, files[..k]))
    && PrefixFree(Places(files[..k]))
  }

  lemma FilledStep(t: Tree, u: Tree, t0: Tree, staging: Path, content: Content, files: seq<BundleFile>, k: nat)
    requires Extractable(content, files) && k < |files| && Filled(t, t0, staging, content, files, k)
    requires var rel := Parts(files[k].path);
             AgreeOutside(u, t, staging) && PrefixFree(Wanted(content, files[..k]).Keys + {rel}) &&
             SubTree(u, staging) == TreeOf(Wanted(content, files[..k])[rel := content.payload[files[k].path]])
    ensures Filled(u, t0, staging, content, files, k + 1)
  {
    hide Parts, AsPosix, SubTree, TreeOf, PrefixFree;
    WantedStep(content, files, k);
    AgreeTrans(u, t, t0, staging);
  }

  lemma FilledClash(content: Content, files: seq<BundleFile>, k: nat)
    requires Extractable(content, files) && k < |files|
    requires !PrefixFree(Wanted(content, files[..k]).Keys + {Parts(files[k].path)})
    ensures !PrefixFree(Places(files))
  {
    hide Parts, AsPosix, PrefixFree;
    WantedStep(content, files, k);
    PlacesGrow(files, k + 1);
    if PrefixFree(Places(files)) {
      PrefixFreeSubset(Places(files[..k + 1]), Places(files));
    }
  }

  lemma ManifestFitsAlone(nothing: map<Path, Bytes>)
    requires nothing == map[]
    ensures PrefixFree(nothing.Keys) && PrefixFree(nothing.Keys + {[MANIFEST]})
  {
  }

  /** The body of both loops: one more file. */
  method WriteNext(fs: FileSystem, staging: Path, data: Bytes, ghost t0: Tree, ghost content: Content, files: seq<BundleFile>, k: nat)
    returns (r: Io)
    requires fs.Valid() && staging != [] && k < |files| && Extractable(content, files)
    requires Filled(fs.nodes, t0, staging, content, files, k) && data == content.payload[files[k].path]
    modifies fs
    ensures fs.faults == old(fs.faults) + if r == Fault then 1 else 0
    ensures fs.Valid() && old(fs.history) <= fs.history && AgreeOutside(fs.nodes, t0, staging)
    ensures forall i | |old(fs.history)| <= i < |fs.history| :: AgreeOutside(fs.history[i], t0, staging)
    ensures r == Done ==> Filled(fs.nodes, t0, staging, content, files, k + 1)
    ensures r == Refused ==> !PrefixFree(Places(files))
  {
    hide Parts, AsPosix, SubTree, TreeOf, PrefixFree, AgreeOutside, WellFormed;
    ghost var before := fs.nodes;
    WantedStep(content, files, k);
    r := WriteExtractedFile(fs, staging, Parts(files[k].path), data, Wanted(content, files[..k]));
    AgreeTrans(fs.nodes, before, t0, staging);
    forall i | |old(fs.history)| <= i < |fs.history|
      ensures AgreeOutside(fs.history[i], t0, staging)
    {
      AgreeTrans(fs.history[i], before, t0, staging);
    }
    if r == Done {
      FilledStep(before, fs.nodes, t0, staging, content, files, k);
    } else if r == Refused {
      FilledClash(content, files, k);
    }
  }

  /** The first file, `manifest.json`, into the fresh staging directory. */
  method WriteManifest(fs: FileSystem, staging: Path, data: Bytes, ghost content: Content, files: seq<BundleFile>) returns (r: Io)
    requires fs.Valid() && staging != [] && SubTree(fs.nodes, staging) == TreeOf(map[]) && data == content.manifest
    modifies fs
    ensures fs.faults == old(fs.faults) + if r == Fault then 1 else 0
    ensures fs.Valid() && old(fs.history) <= fs.history && AgreeOutside(fs.nodes, old(fs.nodes), staging)
    ensures forall i | |old(fs.history)| <= i < |fs.history| :: AgreeOutside(fs.history[i], old(fs.nodes), staging)
    ensures r == Done ==> Filled(fs.nodes, old(fs.nodes), staging, content, files, 0)
    ensures r != Refused
  {
    hide SubTree, TreeOf, WellFormed;
    WantedNothing(content, files);
    ghost var nothing: map<Path, Bytes> := map[];
    ManifestFitsAlone(nothing);
    r := WriteExtractedFile(fs, staging, [MANIFEST], data, nothing);
    assert map[[MANIFEST] := data] == nothing[[MANIFEST] := data];
  }

  lemma FilledAll(t: Tree, t0: Tree, staging: Path, content: Content, files: seq<BundleFile>)
    requires Filled(t, t0, staging, content, files, |files|)
    ensures AgreeOutside(t, t0, staging) && SubTree(t, staging) == TreeOf(Wanted(content, files)) && PrefixFree(Places(files))
  {
    assert files[..|files|] == files;
  }

  lemma ZipReadable(pf: Platform, members: seq<Member>, pm: ParsedManifest, content: Content)
    requires ZipAccepted(pf, members, pm, content)
    ensures NamesSafe(members) && PayloadInjective(members) && ReadMember(members, MANIFEST) == Some(content.manifest)
  {
    hide ManifestOk, IsZipPayload, Matches, NamesSafe, PayloadInjective, ReadMember;
  }

  /** Reading a listed file through the member map gives its payload. */
  lemma ZipMemberData(pf: Platform, members: seq<Member>, pm: ParsedManifest, content: Content, actual: map<string, string>)
    requires ZipAccepted(pf, members, pm, content) && IsMemberMap(members, |members|, actual)
    ensures forall file | file in pm.files ::
              file.path in actual && ReadMember(members, actual[file.path]) == Some(content.payload[file.path])
  {
    hide ManifestOk, IsZipPayload, NamesSafe, PayloadInjective, ReadMember, IsMemberMap, PayloadVia;
    PayloadViaCorrect(members, actual);
    ZipPayloadUnique(members, PayloadVia(members, actual), content.payload);
  }

  /** Filling staging from a zip. */
  method FillFromZip(pf: Platform, fs: FileSystem, members: seq<Member>, staging: Path, pm: ParsedManifest, ghost content: Content)
    returns (r: Io)
    requires fs.Valid() && staging != [] && SubTree(fs.nodes, staging) == TreeOf(map[])
    requires ZipAccepted(pf, members, pm, content) && Extractable(content, pm.files)
    modifies fs
    ensures fs.faults == old(fs.faults) + if r == Fault then 1 else 0
    ensures fs.Valid() && old(fs.history) <= fs.history && AgreeOutside(fs.nodes, old(fs.nodes), staging)
    ensures forall i | |old(fs.history)| <= i < |fs.history| :: AgreeOutside(fs.history[i], old(fs.nodes), staging)
    ensures r == Done ==> PrefixFree(Places(pm.files)) && SubTree(fs.nodes, staging) == TreeOf(Wanted(content, pm.files))
    ensures r == Refused ==> !PrefixFree(Places(pm.files))
  {
    hide Parts, AsPosix, SafePath, SubTree, TreeOf, PrefixFree, AgreeOutside, WellFormed, ZipAccepted;
    hide IsMemberMap, NamesSafe, PayloadInjective, ReadMember, Wanted, Places, Filled;
    var files := pm.files;
    ZipReadable(pf, members, pm, content);
    var memberMap := ZipPayloadMemberMap(members);
    ZipMemberData(pf, members, pm, content, memberMap.value);
    ghost var t0 := fs.nodes;
    r := WriteManifest(fs, staging, ReadMember(members, MANIFEST).value, content, files);
    if r != Done {
      return;
    }
    for k := 0 to |files|
      invariant fs.Valid() && old(fs.history) <= fs.history && fs.faults == old(fs.faults)
      invariant forall i | |old(fs.history)| <= i < |fs.history| :: AgreeOutside(fs.history[i], t0, staging)
      invariant Filled(fs.nodes, t0, staging, content, files, k)
    {
      assert files[k] in files;
      var data := ReadMember(members, memberMap.value[files[k].path]).value;
      r := WriteNext(fs, staging, data, t0, content, files, k);
      if r != Done {
        return;
      }
    }
    FilledAll(fs.nodes, t0, staging, content, files);
    return Done;
  }

  /** The files of a directory bundle are still there, outside `staging`. */
  ghost predicate Readable(t: Tree, bundle: Path, staging: Path, content: Content) {
    && !(staging <= bundle + [MANIFEST]) && IsFile(t, bundle + [MANIFEST]) && t[bundle + [MANIFEST]].data == content.manifest
    && forall path | path in content.payload ::
         !(staging <= bundle + Parts(path)) && IsFile(t, bundle + Parts(path)) && t[bundle + Parts(path)].data == content.payload[path]
  }

  lemma ReadableAgree(t: Tree, t0: Tree, bundle: Path, staging: Path, content: Content)
    requires Readable(t0, bundle, staging, content) && AgreeOutside(t, t0, staging)
    ensures Readable(t, bundle, staging, content)
  {
    hide Parts;
  }

  /** `_copy_validated_dir` */
  method CopyValidatedDir(fs: FileSystem, bundle: Path, staging: Path, files: seq<BundleFile>, ghost content: Content)
    returns (r: Io)
    requires fs.Valid() && staging != [] && SubTree(fs.nodes, staging) == TreeOf(map[])
    requires Readable(fs.nodes, bundle, staging, content) && Extractable(content, files)
    modifies fs
    ensures fs.faults == old(fs.faults) + if r == Fault then 1 else 0
    ensures fs.Valid() && old(fs.history) <= fs.history && AgreeOutside(fs.nodes, old(fs.nodes), staging)
    ensures forall i | |old(fs.history)| <= i < |fs.history| :: AgreeOutside(fs.history[i], old(fs.nodes), staging)
    ensures r == Done ==> PrefixFree(Places(files)) && SubTree(fs.nodes, staging) == TreeOf(Wanted(content, files))
    ensures r == Refused ==> !PrefixFree(Places(files))
  {
    hide Parts, AsPosix, SubTree, TreeOf, PrefixFree, AgreeOutside, WellFormed;
    ghost var t0 := fs.nodes;
    r := WriteManifest(fs, staging, fs.nodes[bundle + [MANIFEST]].data, content, files);
    if r != Done {
      return;
    }
    for k := 0 to |files|
      invariant fs.Valid() && old(fs.history) <= fs.history && fs.faults == old(fs.faults)
      invariant forall i | |old(fs.history)| <= i < |fs.history| :: AgreeOutside(fs.history[i], t0, staging)
      invariant Filled(fs.nodes, t0, staging, content, files, k)
    {
      ReadableAgree(fs.nodes, t0, bundle, staging, content);
      var source := bundle + Parts(files[k].path);
      r := WriteNext(fs, staging, fs.nodes[source].data, t0, content, files, k);
      if r != Done {
        return;
      }
    }
    FilledAll(fs.nodes, t0, staging, content, files);
    return Done;
  }
}
