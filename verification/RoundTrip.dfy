/** Verifying what was extracted from a verified bundle. */
module RoundTrip {
  import opened Bundle
  import opened Extract
  import opened FileSystem
  import opened FileTree
  import opened Manifest
  import opened ManifestPath
  import opened Outcomes
  import opened SafeExtraction
  import opened Text

  /** No listed path is one of the two kinds that `_safe_manifest_path` refuses to read back. */
  predicate ReadBack(files: seq<BundleFile>) {
    forall file | file in files :: !Blank(file.path) && !DriveLike(file.path)
  }

  lemma ExtractedAt(t: Tree, dst: Path, pm: ParsedManifest, content: Content, q: Path)
    requires SubTree(t, dst) == Complete(pm, content) && PrefixFree(Places(pm.files))
    ensures q in FilesBelow(t, dst) <==> q in Places(pm.files)
    ensures q in Places(pm.files) ==> IsFile(t, dst + q) && t[dst + q].data == Wanted(content, pm.files)[q]
  {
    hide Parts, AsPosix;
    SubTreeAt(t, dst, q);
    assert (dst + q)[|dst|..] == q;
    assert dst <= dst + q;
    if q in FilesBelow(t, dst) {
      var p :| p in t && dst <= p && t[p].File? && p[|dst|..] == q;
      assert p == dst + q;
    }
    if q in Places(pm.files) {
      assert q != [];
      assert dst + q != dst;
    }
  }

  /** The text of an extracted place is read back as itself, except for the two kinds. */
  lemma PlaceText(pf: Platform, pm: ParsedManifest, q: Path)
    requires ManifestOk(pf, pm) && q in Places(pm.files)
    ensures q == [MANIFEST] ==> SafePath(AsPosix(q)) == Ok(MANIFEST)
    ensures q != [MANIFEST] ==> AsPosix(q) in PathsOf(pm.files) && AsPosix(q) != MANIFEST
    ensures q != [MANIFEST] && !Blank(AsPosix(q)) && !DriveLike(AsPosix(q)) ==> SafePath(AsPosix(q)) == Ok(AsPosix(q))
    ensures q != [MANIFEST] && (Blank(AsPosix(q)) || DriveLike(AsPosix(q))) ==> SafePath(AsPosix(q)).Err?
  {
    hide RequiredPaths, EntryPath, EntryFile, SafePath, Parts, AsPosix, Blank, DriveLike, MANIFEST;
    if q == [MANIFEST] {
      ManifestOwnText();
    } else {
      var file :| file in pm.files && Parts(file.path) == q;
      hide ManifestOk;
      ListedPath(pf, pm, file);
      SafePathOfClean(q);
    }
  }

  lemma ListedPath(pf: Platform, pm: ParsedManifest, file: BundleFile)
    requires ManifestOk(pf, pm) && file in pm.files
    ensures CleanPath(Parts(file.path)) && AsPosix(Parts(file.path)) == file.path && file.path != MANIFEST
  {
    hide RequiredPaths, EntryPath, EntryFile, SafePath, Parts, AsPosix;
    DescribedCanonical(pf, Items(pm.raw), pm.files, file.path);
  }

  lemma ExtractedIsDir(t: Tree, dst: Path, pm: ParsedManifest, content: Content)
    requires SubTree(t, dst) == Complete(pm, content) && PrefixFree(Places(pm.files))
    ensures IsDir(t, dst)
  {
    hide Parts, AsPosix;
    SubTreeAt(t, dst, []);
    assert dst + [] == dst;
  }

  lemma ExtractedPaths(pf: Platform, t: Tree, dst: Path, pm: ParsedManifest, content: Content, path: string)
    requires ManifestOk(pf, pm) && SubTree(t, dst) == Complete(pm, content) && PrefixFree(Places(pm.files))
    requires ReadBack(pm.files)
    ensures path in PathsOf(pm.files) <==> IsDirPath(t, dst, path)
  {
    hide RequiredPaths, EntryPath, EntryFile, SafePath, Parts, AsPosix, SubTree, Complete, PrefixFree, FilesBelow, Blank, DriveLike;
    if path in PathsOf(pm.files) {
      var q := Parts(path);
      DescribedCanonical(pf, Items(pm.raw), pm.files, path);
      PlaceText(pf, pm, q);
      ManifestAlone(path, q);
      ExtractedAt(t, dst, pm, content, q);
    }
    if IsDirPath(t, dst, path) {
      var q :| q in FilesBelow(t, dst) && SafePath(AsPosix(q)) == Ok(path);
      ExtractedAt(t, dst, pm, content, q);
      PlaceText(pf, pm, q);
    }
  }

  lemma ManifestAlone(path: string, q: Path)
    requires AsPosix(q) == path && path != MANIFEST
    ensures q != [MANIFEST]
  {
    assert AsPosix([MANIFEST]) == MANIFEST;
  }

  /** An extracted tree holds exactly the listed payload. */
  lemma ExtractedPayload(pf: Platform, t: Tree, dst: Path, pm: ParsedManifest, content: Content, path: string)
    requires ManifestOk(pf, pm) && SubTree(t, dst) == Complete(pm, content) && PrefixFree(Places(pm.files))
    requires content.payload.Keys == PathsOf(pm.files) && path in content.payload
    ensures IsFile(t, dst + Parts(path)) && t[dst + Parts(path)].data == content.payload[path]
  {
    hide RequiredPaths, EntryPath, EntryFile, SafePath, Parts, SubTree, Complete, PrefixFree, FilesBelow;
    DescribedCanonical(pf, Items(pm.raw), pm.files, path);
    ManifestAlone(path, Parts(path));
    ExtractedAt(t, dst, pm, content, Parts(path));
  }

  lemma ExtractedManifest(t: Tree, dst: Path, pm: ParsedManifest, content: Content)
    requires SubTree(t, dst) == Complete(pm, content) && PrefixFree(Places(pm.files))
    ensures IsFile(t, dst + [MANIFEST]) && t[dst + [MANIFEST]].data == content.manifest
  {
    hide Parts, AsPosix, SubTree, Complete, PrefixFree, FilesBelow;
    ExtractedAt(t, dst, pm, content, [MANIFEST]);
  }

  lemma ExtractedSafe(pf: Platform, t: Tree, dst: Path, pm: ParsedManifest, content: Content)
    requires ManifestOk(pf, pm) && SubTree(t, dst) == Complete(pm, content) && PrefixFree(Places(pm.files))
    ensures DirSafe(t, dst) <==> ReadBack(pm.files)
  {
    hide RequiredPaths, EntryPath, EntryFile, SafePath, Parts, AsPosix, SubTree, Complete, PrefixFree, FilesBelow, Blank, DriveLike;
    forall q | q in FilesBelow(t, dst)
      ensures q in Places(pm.files)
      ensures ReadBack(pm.files) ==> SafePath(AsPosix(q)).Ok?
    {
      ExtractedAt(t, dst, pm, content, q);
      PlaceText(pf, pm, q);
    }
    forall file | file in pm.files
      ensures Parts(file.path) in FilesBelow(t, dst)
      ensures SafePath(AsPosix(Parts(file.path))).Ok? ==> !Blank(file.path) && !DriveLike(file.path)
    {
      DescribedCanonical(pf, Items(pm.raw), pm.files, file.path);
      ManifestAlone(file.path, Parts(file.path));
      ExtractedAt(t, dst, pm, content, Parts(file.path));
      PlaceText(pf, pm, Parts(file.path));
    }
  }

  /**
   * Round trip: what `safe_extract` leaves behind is accepted again, with the same parsed manifest and the same
   * content, exactly when no listed path is blank or drive-like; otherwise it is not accepted at all.
   */
  lemma RoundTrip(pf: Platform, t0: Tree, bundle: Path, pm: ParsedManifest, content: Content, t: Tree, dst: Path)
    requires Accepted(pf, t0, bundle, pm, content)
    requires SubTree(t, dst) == Complete(pm, content) && PrefixFree(Places(pm.files))
    ensures Accepted(pf, t, dst, pm, content) <==> ReadBack(pm.files)
    ensures !ReadBack(pm.files) ==> forall other, held :: !Accepted(pf, t, dst, other, held)
  {
    hide ManifestOk, Matches, IsZipPayload, Parts, SafePath, SubTree, Complete, PrefixFree, DirSafe, IsDirPath, ReadBack;
    ExtractedIsDir(t, dst, pm, content);
    ExtractedManifest(t, dst, pm, content);
    ExtractedSafe(pf, t, dst, pm, content);
    MatchedKeys(pf, pm.files, content.payload);
    forall path | path in content.payload
      ensures IsFile(t, dst + Parts(path)) && t[dst + Parts(path)].data == content.payload[path]
    {
      ExtractedPayload(pf, t, dst, pm, content, path);
    }
    if ReadBack(pm.files) {
      forall path
        ensures path in PathsOf(pm.files) <==> IsDirPath(t, dst, path)
      {
        ExtractedPaths(pf, t, dst, pm, content, path);
      }
    }
  }

  /** A directory bundle lists no blank or drive-like path, so for it the round trip always succeeds. */
  lemma DirBundleReadsBack(pf: Platform, t0: Tree, bundle: Path, pm: ParsedManifest, content: Content)
    requires Accepted(pf, t0, bundle, pm, content) && t0[bundle].Dir?
    ensures ReadBack(pm.files)
  {
    hide RequiredPaths, EntryPath, EntryFile, SafePath, Parts, IsDirPath;
    forall file | file in pm.files
      ensures !Blank(file.path) && !DriveLike(file.path)
    {
      var q := Parts(file.path);
      DescribedCanonical(pf, Items(pm.raw), pm.files, file.path);
      assert file.path in content.payload;
      FileHere(t0, bundle, q);
      SafePathOfClean(q);
    }
  }

  lemma FileHere(t: Tree, root: Path, q: Path)
    requires IsFile(t, root + q) && IsDir(t, root)
    ensures q in FilesBelow(t, root)
  {
    assert root + [] == root;
    assert root <= root + q && (root + q)[|root|..] == q;
  }

  /** The two calls: verifying what `safe_extract` left gives the same parsed manifest exactly when the paths read back. */
  method ExtractThenVerify(pf: Platform, fs: FileSystem, bundle: Path, target: Path, token1: string, token2: string)
    returns (end: Ending, r: Parsed<ParsedManifest>, ghost pm: ParsedManifest)
    requires fs.Valid()
    modifies fs
    ensures end.Returned? || end.Completed? ==> exists content :: Accepted(pf, old(fs.nodes), bundle, pm, content)
    ensures end.Returned? || end.Completed? ==> (r == Ok(pm) <==> ReadBack(pm.files)) && (r.Ok? <==> ReadBack(pm.files))
    ensures (end.Returned? || end.Completed?) && IsDir(old(fs.nodes), bundle) ==> r == Ok(pm)
  {
    hide Accepted, Complete, PrefixFree, Places, ReadBack, SubTree, Usable, Bystanders, AllOrNothing, StagingFor, BackupFor;
    ghost var t0 := fs.nodes;
    ghost var content, cleaned;
    end, pm, content, cleaned := SafeExtract(pf, fs, bundle, target, token1, token2);
    ghost var held;
    r, held := VerifyBundleManifest(pf, fs.nodes, target);
    if end.Returned? || end.Completed? {
      RoundTrip(pf, t0, bundle, pm, content, fs.nodes, target);
      if r.Ok? && ReadBack(pm.files) {
        AcceptedUnique(pf, fs.nodes, target, pm, content, r.value, held);
      }
      if IsDir(t0, bundle) {
        DirBundleReadsBack(pf, t0, bundle, pm, content);
      }
    }
  }
}
