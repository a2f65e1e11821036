/**
 * Verification of a release bundle, as a zip file or as a directory: the loaders, the two validators and
 * `verify_bundle_manifest` of scripts/verify_release_bundle_manifest.py, against one declarative notion of acceptance.
 */
module Bundle {
  import opened FileTree
  import opened Manifest
  import opened ManifestPath
  import opened Outcomes
  import opened Text

  datatype ParsedManifest = ParsedManifest(raw: Json, sourceBucket: string, mirrorRoot: string, files: seq<BundleFile>)

  /** What an accepted bundle carries: the bytes of its manifest and of each listed file. */
  datatype Content = Content(manifest: Bytes, payload: map<string, Bytes>)

  /***** Declarative acceptance *****/

  function Items(raw: Json): seq<Json> {
    if Field(raw, "files").JArr? then Field(raw, "files").items else []
  }

  /** `path.startswith(f"{mirror}/")` */
  predicate BelowMirror(path: string, mirror: string) {
    mirror + "/" <= path
  }

  /** The manifest alone is good: described files, a good header, the required files and a non-empty mirror. */
  ghost predicate ManifestOk(pf: Platform, pm: ParsedManifest) {
    && pm.raw.JObj? && "files" in pm.raw.fields && pm.raw.fields["files"].JArr?
    && Describes(pf, pm.raw.fields["files"].items, pm.files)
    && HeaderSays(pf, pm.raw, pm.mirrorRoot, pm.sourceBucket)
    && Lists(pm.files, pf.dump) && Lists(pm.files, pf.report)
    && exists file | file in pm.files :: UnderRoot(file.path, pm.mirrorRoot)
  }

  ghost predicate Lists(files: seq<BundleFile>, path: string) {
    exists file | file in files :: file.path == path
  }

  ghost predicate UnderRoot(path: string, root: string) {
    |root| < |path| && path[..|root|] == root && path[|root|] == '/'
  }

  /** The same through the code's own functions. */
  lemma ManifestOkRead(pf: Platform, pm: ParsedManifest)
    ensures ManifestOk(pf, pm) <==>
            && Field(pm.raw, "files").JArr? && Describes(pf, Items(pm.raw), pm.files)
            && RequiredPaths(pf, pm.raw) == Ok((pf.report, pm.mirrorRoot))
            && SafeBucketName(Field(Field(pm.raw, "object_storage"), "bucket")) == Ok(pm.sourceBucket)
            && RequiredListed(pf, pm.files, pf.report, pm.mirrorRoot).Ok?
  {
    hide Describes, RequiredPaths, SafeBucketName, HeaderSays;
    HeaderMeaning(pf, pm.raw, pm.mirrorRoot, pm.sourceBucket);
    assert Lists(pm.files, pf.dump) <==> pf.dump in PathsOf(pm.files);
    assert Lists(pm.files, pf.report) <==> pf.report in PathsOf(pm.files);
    forall path
      ensures UnderRoot(path, pm.mirrorRoot) <==> BelowMirror(path, pm.mirrorRoot)
    {
    }
  }

  /** Manifest and payload correspond one to one, with equal sizes and hashes. */
  ghost predicate Matches(pf: Platform, files: seq<BundleFile>, payload: map<string, Bytes>) {
    && payload.Keys == PathsOf(files)
    && forall file | file in files :: |payload[file.path]| == file.bytes && pf.sha256(payload[file.path]) == file.sha256
  }

  predicate IsDirName(name: string) {
    name != "" && name[|name| - 1] == '/'
  }

  /** A member that counts as payload: not a directory, and not the manifest under any spelling. */
  predicate IsPayload(m: Member) {
    !(m.name != "" && m.name[|m.name| - 1] == '/') && SafePath(m.name).Ok? && SafePath(m.name).value != MANIFEST
  }

  predicate NamesDistinct(members: seq<Member>) {
    forall i, j | 0 <= i < j < |members| :: members[i].name != members[j].name
  }

  predicate NamesSafe(members: seq<Member>) {
    forall m | m in members :: SafePath(m.name).Ok?
  }

  /** No two members have the same canonical payload path. */
  predicate PayloadInjective(members: seq<Member>) {
    forall i, j | 0 <= i < j < |members| && IsPayload(members[i]) && IsPayload(members[j]) ::
      SafePath(members[i].name) != SafePath(members[j].name)
  }

  /** `archive.read(name)`: the last member of that name. */
  function ReadMember(members: seq<Member>, name: string): (data: Option<Bytes>)
    ensures data.Some? ==> Member(name, data.value) in members
    ensures data.None? ==> forall m | m in members :: m.name != name
  {
    if members == [] then None
    else
      var last := members[|members| - 1];
      if last.name == name then Some(last.data)
      else
        var data := ReadMember(members[..|members| - 1], name);
        assert forall m | m in members :: m in members[..|members| - 1] || m == last;
        data
  }

  /** `payload` gives each payload member's data under its canonical path, and nothing else. */
  ghost predicate IsZipPayload(members: seq<Member>, payload: map<string, Bytes>) {
    && (forall m | m in members && IsPayload(m) ::
          SafePath(m.name).value in payload && payload[SafePath(m.name).value] == m.data)
    && (forall path | path in payload :: exists m | m in members :: IsPayload(m) && SafePath(m.name).value == path)
  }

  ghost predicate ZipAccepted(pf: Platform, members: seq<Member>, pm: ParsedManifest, content: Content) {
    && NamesDistinct(members) && NamesSafe(members) && PayloadInjective(members)
    && ReadMember(members, MANIFEST) == Some(content.manifest)
    && IsManifest(pf, content.manifest, pm.raw)
    && ManifestOk(pf, pm)
    && IsZipPayload(members, content.payload)
    && Matches(pf, pm.files, content.payload)
  }

  /** The paths of the files below `root`, relative to it. */
  function FilesBelow(t: Tree, root: Path): set<Path> {
    set p | p in t && root <= p && t[p].File? && p != root :: p[|root|..]
  }

  ghost predicate DirSafe(t: Tree, root: Path) {
    forall q | q in FilesBelow(t, root) :: SafePath(AsPosix(q)).Ok?
  }

  ghost predicate IsDirPath(t: Tree, root: Path, path: string) {
    path != MANIFEST && exists q | q in FilesBelow(t, root) :: SafePath(AsPosix(q)) == Ok(path)
  }

  ghost predicate DirAccepted(pf: Platform, t: Tree, root: Path, pm: ParsedManifest, content: Content) {
    && IsFile(t, root + [MANIFEST]) && t[root + [MANIFEST]].data == content.manifest
    && IsManifest(pf, content.manifest, pm.raw)
    && ManifestOk(pf, pm)
    && DirSafe(t, root)
    && (forall path :: path in PathsOf(pm.files) <==> IsDirPath(t, root, path))
    && (forall path | path in content.payload ::
          IsFile(t, root + Parts(path)) && t[root + Parts(path)].data == content.payload[path])
    && Matches(pf, pm.files, content.payload)
  }

  /** The bundle is accepted as `pm`, and carries `content`. */
  ghost predicate Accepted(pf: Platform, t: Tree, bundle: Path, pm: ParsedManifest, content: Content) {
    && bundle in t
    && match t[bundle]
       case File(data) => pf.openZip(data).Some? && ZipAccepted(pf, pf.openZip(data).value, pm, content)
       case Dir => DirAccepted(pf, t, bundle, pm, content)
  }

  /***** The loops *****/

  lemma {:induction false} ReadMemberAt(members: seq<Member>, i: nat)
    requires NamesDistinct(members) && i < |members|
    ensures ReadMember(members, members[i].name) == Some(members[i].data)
  {
    if i < |members| - 1 {
      ReadMemberAt(members[..|members| - 1], i);
    }
  }

  /** The first `k` members give the entries of `actual`: canonical path to member name. */
  ghost predicate IsMemberMap(members: seq<Member>, k: nat, actual: map<string, string>)
    requires k <= |members|
  {
    && (forall i | 0 <= i < k && IsPayload(members[i]) ::
          SafePath(members[i].name).value in actual && actual[SafePath(members[i].name).value] == members[i].name)
    && (forall path | path in actual ::
          exists i | 0 <= i < k :: IsPayload(members[i]) && SafePath(members[i].name).value == path)
  }

  /** `_zip_payload_member_map` */
  method ZipPayloadMemberMap(members: seq<Member>) returns (r: Parsed<map<string, string>>)
    ensures r.Ok? <==> NamesSafe(members) && PayloadInjective(members)
    ensures r.Ok? ==> IsMemberMap(members, |members|, r.value)
  {
    hide SafePath;
    var actual: map<string, string> := map[];
    for k := 0 to |members|
      invariant NamesSafe(members[..k]) && PayloadInjective(members[..k])
      invariant IsMemberMap(members, k, actual)
    {
      var info := members[k];
      var path := SafePath(info.name);
      if path.Err? {
        return Err(BadPath(path.error));
      }
      assert members[..k + 1] == members[..k] + [info];
      if !IsDirName(info.name) && path.value != MANIFEST {
        if path.value in actual {
          return Err(DuplicatePayload);
        }
        actual := actual[path.value := info.name];
        assert IsPayload(members[k]);
      }
    }
    assert members[..|members|] == members;
    return Ok(actual);
  }

  /** `_assert_exact_payload_set` */
  function ExactPayloadSet(actual: set<string>, files: seq<BundleFile>): (r: Parsed<()>)
    ensures r.Ok? <==> actual == PathsOf(files)
  {
    if PathsOf(files) - actual != {} then Err(ListedMissing)
    else if actual - PathsOf(files) != {} then
      Err(Unlisted)
    else
      assert actual == PathsOf(files);
      Ok(())
  }

  /** The checks both validators start with. */
  function RequiredListed(pf: Platform, files: seq<BundleFile>, report: string, mirror: string): (r: Parsed<()>)
    ensures r.Ok? <==>
            pf.dump in PathsOf(files) && report in PathsOf(files) && exists file | file in files :: BelowMirror(file.path, mirror)
  {
    if pf.dump !in PathsOf(files) || report !in PathsOf(files) then Err(RequiredMissing)
    else if !exists file | file in files :: BelowMirror(file.path, mirror) then Err(MirrorEmpty)
    else Ok(())
  }

  function CheckBytes(pf: Platform, file: BundleFile, data: Bytes): Parsed<()> {
    if |data| != file.bytes then Err(SizeMismatch)
    else if pf.sha256(data) != file.sha256 then Err(ShaMismatch)
    else Ok(())
  }

  ghost function PayloadVia(members: seq<Member>, actual: map<string, string>): map<string, Bytes> {
    map path | path in actual && ReadMember(members, actual[path]).Some? :: ReadMember(members, actual[path]).value
  }

  /** Reading through the member map gives the payload. */
  lemma PayloadViaCorrect(members: seq<Member>, actual: map<string, string>)
    requires NamesDistinct(members) && IsMemberMap(members, |members|, actual)
    ensures PayloadVia(members, actual).Keys == actual.Keys
    ensures forall path | path in actual :: ReadMember(members, actual[path]) == Some(PayloadVia(members, actual)[path])
    ensures IsZipPayload(members, PayloadVia(members, actual))
  {
    hide SafePath, ReadMember, NamesDistinct, IsMemberMap;
    forall path | path in actual
      ensures exists m | m in members :: IsPayload(m) && SafePath(m.name).value == path
      ensures ReadMember(members, actual[path]).Some?
    {
      var m := MemberMapEntry(members, actual, path);
    }
    forall m | m in members && IsPayload(m)
      ensures SafePath(m.name).value in actual && ReadMember(members, actual[SafePath(m.name).value]) == Some(m.data)
    {
      MemberInMap(members, actual, m);
    }
  }

  lemma MemberInMap(members: seq<Member>, actual: map<string, string>, m: Member)
    requires NamesDistinct(members) && IsMemberMap(members, |members|, actual) && m in members && IsPayload(m)
    ensures SafePath(m.name).value in actual && ReadMember(members, actual[SafePath(m.name).value]) == Some(m.data)
  {
    hide SafePath;
    var i :| 0 <= i < |members| && members[i] == m;
    ReadMemberAt(members, i);
  }

  lemma MemberMapEntry(members: seq<Member>, actual: map<string, string>, path: string) returns (m: Member)
    requires NamesDistinct(members) && IsMemberMap(members, |members|, actual) && path in actual
    ensures m in members && IsPayload(m) && SafePath(m.name).value == path
    ensures ReadMember(members, actual[path]) == Some(m.data)
  {
    hide SafePath;
    var i :| 0 <= i < |members| && IsPayload(members[i]) && SafePath(members[i].name).value == path;
    ReadMemberAt(members, i);
    m := members[i];
  }

  /** `_validate_files_from_zip` */
  method ValidateFilesFromZip(pf: Platform, members: seq<Member>, files: seq<BundleFile>, report: string, mirror: string)
    returns (r: Parsed<()>, ghost payload: map<string, Bytes>)
    requires NamesDistinct(members)
    ensures r.Ok? ==> RequiredListed(pf, files, report, mirror).Ok? && NamesSafe(members) && PayloadInjective(members)
    ensures r.Ok? ==> IsZipPayload(members, payload) && Matches(pf, files, payload)
    ensures r.Err? ==> !RequiredListed(pf, files, report, mirror).Ok? || !NamesSafe(members) || !PayloadInjective(members) ||
                       (IsZipPayload(members, payload) && !Matches(pf, files, payload))
  {
    hide IsMemberMap, IsZipPayload, NamesDistinct, NamesSafe, PayloadInjective, PayloadVia, ReadMember, RequiredListed;
    payload := map[];
    var required := RequiredListed(pf, files, report, mirror);
    if required.Err? {
      return required, payload;
    }
    var memberMap := ZipPayloadMemberMap(members);
    if memberMap.Err? {
      return Err(memberMap.error), payload;
    }
    var actual := memberMap.value;
    payload := PayloadVia(members, actual);
    PayloadViaCorrect(members, actual);
    var exact := ExactPayloadSet(actual.Keys, files);
    if exact.Err? {
      return exact, payload;
    }
    for k := 0 to |files|
      invariant forall i | 0 <= i < k :: CheckBytes(pf, files[i], payload[files[i].path]).Ok?
    {
      var data := ReadMember(members, actual[files[k].path]);
      var checked := CheckBytes(pf, files[k], data.value);
      if checked.Err? {
        return checked, payload;
      }
    }
    return Ok(()), payload;
  }

  lemma ZipPayloadUnique(members: seq<Member>, a: map<string, Bytes>, b: map<string, Bytes>)
    requires IsZipPayload(members, a) && IsZipPayload(members, b)
    ensures a == b
  {
    assert a.Keys == b.Keys;
  }

  /** `_actual_dir_payload_files`: the canonical paths of the files below `root`, in whatever order they are met. */
  method ActualDirPayloadFiles(t: Tree, root: Path) returns (r: Parsed<set<string>>)
    ensures r.Ok? <==> DirSafe(t, root)
    ensures r.Ok? ==> forall path :: path in r.value <==> IsDirPath(t, root, path)
  {
    var todo := FilesBelow(t, root);
    var actual: set<string> := {};
    while todo != {}
      invariant todo <= FilesBelow(t, root)
      invariant forall q | q in FilesBelow(t, root) - todo :: SafePath(AsPosix(q)).Ok?
      invariant forall path | path in actual :: IsDirPath(t, root, path)
      invariant forall q | q in FilesBelow(t, root) - todo ::
                  SafePath(AsPosix(q)).value == MANIFEST || SafePath(AsPosix(q)).value in actual
      decreases |todo|
    {
      var q :| q in todo;
      var safe := SafePath(AsPosix(q));
      if safe.Err? {
        return Err(BadPath(safe.error));
      }
      if safe.value != MANIFEST {
        actual := actual + {safe.value};
      }
      todo := todo - {q};
    }
    return Ok(actual);
  }

  /** `_validate_files_from_dir` */
  method ValidateFilesFromDir(pf: Platform, t: Tree, root: Path, files: seq<BundleFile>, report: string, mirror: string)
    returns (r: Parsed<()>, ghost payload: map<string, Bytes>)
    ensures r.Ok? ==> RequiredListed(pf, files, report, mirror).Ok? && DirSafe(t, root)
    ensures r.Ok? ==> forall path :: path in PathsOf(files) <==> IsDirPath(t, root, path)
    ensures r.Ok? ==> forall path | path in payload ::
                        IsFile(t, root + Parts(path)) && t[root + Parts(path)].data == payload[path]
    ensures r.Ok? ==> Matches(pf, files, payload)
    ensures r.Err? ==> !RequiredListed(pf, files, report, mirror).Ok? || !DirSafe(t, root) ||
                       (exists path :: (path in PathsOf(files)) != IsDirPath(t, root, path)) ||
                       (exists file | file in files ::
                          !IsFile(t, root + Parts(file.path)) || CheckBytes(pf, file, t[root + Parts(file.path)].data).Err?)
  {
    hide Parts, SafePath, DirSafe, IsDirPath, RequiredListed, FilesBelow;
    payload := map[];
    var required := RequiredListed(pf, files, report, mirror);
    if required.Err? {
      return required, payload;
    }
    var actual := ActualDirPayloadFiles(t, root);
    if actual.Err? {
      return Err(actual.error), payload;
    }
    var exact := ExactPayloadSet(actual.value, files);
    if exact.Err? {
      assert exists path :: (path in PathsOf(files)) != (path in actual.value);
      return exact, payload;
    }
    for k := 0 to |files|
      invariant forall i | 0 <= i < k ::
                  IsFile(t, root + Parts(files[i].path)) && CheckBytes(pf, files[i], t[root + Parts(files[i].path)].data).Ok?
    {
      var place := root + Parts(files[k].path);
      if !IsFile(t, place) {
        return Err(ListedMissing), payload;
      }
      var checked := CheckBytes(pf, files[k], t[place].data);
      if checked.Err? {
        return checked, payload;
      }
    }
    payload := map path | path in PathsOf(files) && IsFile(t, root + Parts(path)) :: t[root + Parts(path)].data;
    return Ok(()), payload;
  }

  function NamesOf(members: seq<Member>): set<string> {
    set m | m in members :: m.name
  }

  /** Counting the distinct names tells whether a name occurs twice. */
  lemma {:induction false} CountedNames(members: seq<Member>)
    ensures |NamesOf(members)| <= |members|
    ensures |NamesOf(members)| == |members| <==> NamesDistinct(members)
  {
    if members != [] {
      var init, last := members[..|members| - 1], members[|members| - 1];
      CountedNames(init);
      assert members == init + [last];
      assert NamesOf(members) == NamesOf(init) + {last.name};
      assert last.name in NamesOf(init) ==> exists i :: 0 <= i < |init| && members[i].name == last.name;
    }
  }

  lemma ManifestOwnText()
    ensures SafePath(AsPosix([MANIFEST])) == Ok(MANIFEST) && AsPosix([MANIFEST]) == MANIFEST
  {
    hide SafePath, AsPosix;
    ManifestText(MANIFEST);
  }

  lemma ManifestText(name: string)
    requires CleanName(name) && |name| >= 2 && name[1] != ':' && !IsSpace(name[0])
    ensures SafePath(AsPosix([name])) == Ok(name) && AsPosix([name]) == name
  {
    SafePathOfClean([name]);
    assert AsPosix([name]) == name && name[0] in name;
  }

  /** Some member is the manifest under some spelling. */
  predicate SpellsManifest(members: seq<Member>) {
    exists m | m in members :: SafePath(m.name) == Ok(MANIFEST)
  }

  /** These bytes are a JSON object. */
  predicate IsManifest(pf: Platform, data: Bytes, raw: Json) {
    pf.decodeJson(data) == Some(raw) && raw.JObj?
  }

  /** The first unsafe name, and why it is. */
  predicate FirstUnsafe(members: seq<Member>, k: nat, cause: PathError) {
    k < |members| && NamesSafe(members[..k]) && SafePath(members[k].name) == Err(cause)
  }

  /** The loop that fills `safe_names`. */
  method SafeNames(members: seq<Member>) returns (r: Parsed<set<string>>)
    ensures r.Ok? ==> NamesSafe(members) && forall path :: path in r.value <==> exists m | m in members :: SafePath(m.name) == Ok(path)
    ensures r.Err? ==> r.error.BadPath? && !NamesSafe(members) && exists k :: FirstUnsafe(members, k, r.error.cause)
  {
    hide SafePath;
    var safeNames: set<string> := {};
    for k := 0 to |members|
      invariant NamesSafe(members[..k])
      invariant forall path :: path in safeNames <==> exists m | m in members[..k] :: SafePath(m.name) == Ok(path)
    {
      var safe := SafePath(members[k].name);
      if safe.Err? {
        assert FirstUnsafe(members, k, safe.error) && members[k] in members;
        return Err(BadPath(safe.error));
      }
      assert members[..k + 1] == members[..k] + [members[k]];
      safeNames := safeNames + {safe.value};
    }
    assert members[..|members|] == members;
    return Ok(safeNames);
  }

  /**
   * `_load_manifest_from_zip`, without handing back the open archive. The name test passes for any spelling of the
   * manifest, such as `./manifest.json`; reading then fails unless a member is spelt `manifest.json`.
   */
  method LoadManifestFromZip(pf: Platform, members: seq<Member>) returns (r: Parsed<Json>)
    ensures r.Ok? ==> NamesDistinct(members) && NamesSafe(members) &&
                      exists data :: ReadMember(members, MANIFEST) == Some(data) && IsManifest(pf, data, r.value)
    ensures r == Err(DuplicateMember) <==> !NamesDistinct(members)
    ensures r.Err? && r.error.BadPath? ==> !NamesSafe(members) && exists k :: FirstUnsafe(members, k, r.error.cause)
    ensures r == Err(NoManifest) ==> NamesSafe(members) && !SpellsManifest(members) && ReadMember(members, MANIFEST).None?
    ensures r == Err(ManifestMisspelt) ==> NamesSafe(members) && SpellsManifest(members) && ReadMember(members, MANIFEST).None?
    ensures r.Err? && !(r.error.DuplicateMember? || r.error.BadPath? || r.error.NoManifest? || r.error.ManifestMisspelt?) ==>
              r.error in {BadJson, NotObject} &&
              exists data :: ReadMember(members, MANIFEST) == Some(data) && forall raw :: !IsManifest(pf, data, raw)
  {
    hide SafePath, NamesSafe, NamesDistinct, ReadMember, FirstUnsafe;
    CountedNames(members);
    if |NamesOf(members)| != |members| {
      return Err(DuplicateMember);
    }
    var safeNames := SafeNames(members);
    if safeNames.Err? {
      return Err(safeNames.error);
    }
    ManifestOwnText();
    var data := ReadMember(members, MANIFEST);
    if MANIFEST !in safeNames.value {
      return Err(NoManifest);
    }
    if data.None? {
      return Err(ManifestMisspelt);
    }
    return LoadManifestBytes(pf, data.value);
  }

  /** `_load_manifest_bytes` */
  function LoadManifestBytes(pf: Platform, data: Bytes): (r: Parsed<Json>)
    ensures r.Ok? ==> IsManifest(pf, data, r.value)
    ensures r.Err? ==> r.error in {BadJson, NotObject} && forall raw :: !IsManifest(pf, data, raw)
  {
    match pf.decodeJson(data)
    case None => Err(BadJson)
    case Some(raw) => if raw.JObj? then Ok(raw) else Err(NotObject)
  }

  /** `_manifest_files` and `_required_paths` together, as `verify_bundle_manifest` calls them. */
  method ReadManifest(pf: Platform, raw: Json) returns (r: Parsed<ParsedManifest>)
    requires raw.JObj?
    ensures r.Ok? ==> r.value.raw == raw && (RequiredListed(pf, r.value.files, pf.report, r.value.mirrorRoot).Ok? ==> ManifestOk(pf, r.value))
    ensures forall pm: ParsedManifest | pm.raw == raw && ManifestOk(pf, pm) ::
              r == Ok(pm) && RequiredListed(pf, pm.files, pf.report, pm.mirrorRoot).Ok?
  {
    hide EntrySays, SafePath, Parts, ManifestOk, RequiredPaths, SafeBucketName, RequiredListed, Wrong;
    forall pm: ParsedManifest | pm.raw == raw && ManifestOk(pf, pm)
      ensures Field(raw, "files").JArr? && Describes(pf, Items(raw), pm.files)
      ensures RequiredPaths(pf, raw) == Ok((pf.report, pm.mirrorRoot))
      ensures SafeBucketName(Field(Field(raw, "object_storage"), "bucket")) == Ok(pm.sourceBucket)
      ensures RequiredListed(pf, pm.files, pf.report, pm.mirrorRoot).Ok?
    {
      ManifestOkRead(pf, pm);
    }
    var files := ManifestFiles(pf, raw);
    if files.Err? {
      return Err(files.error);
    }
    var required := RequiredPaths(pf, raw);
    if required.Err? {
      return Err(required.error);
    }
    RequiredPathsShape(pf, raw);
    var bucket := SafeBucketName(Field(Field(raw, "object_storage"), "bucket"));
    forall pm: ParsedManifest | pm.raw == raw && ManifestOk(pf, pm)
      ensures pm.files == files.value
    {
      assert Items(raw)[..|Items(raw)|] == Items(raw);
      DescribesPrefix(pf, Items(raw), |Items(raw)|, pm.files, files.value);
    }
    ManifestOkRead(pf, ParsedManifest(raw, bucket.value, required.value.1, files.value));
    return Ok(ParsedManifest(raw, bucket.value, required.value.1, files.value));
  }

  method VerifyZip(pf: Platform, members: seq<Member>) returns (r: Parsed<ParsedManifest>, ghost content: Content)
    ensures r.Ok? ==> ZipAccepted(pf, members, r.value, content)
    ensures r.Err? ==> forall pm, other :: !ZipAccepted(pf, members, pm, other)
  {
    hide ManifestOk, RequiredPaths, SafePath, Parts;
    content := Content([], map[]);
    var raw := LoadManifestFromZip(pf, members);
    if raw.Err? {
      return Err(raw.error), content;
    }
    var pm := ReadManifest(pf, raw.value);
    if pm.Err? {
      return pm, content;
    }
    var valid, payload := ValidateFilesFromZip(pf, members, pm.value.files, pf.report, pm.value.mirrorRoot);
    content := Content(ReadMember(members, MANIFEST).value, payload);
    forall other | IsZipPayload(members, payload) && IsZipPayload(members, other)
      ensures other == payload
    {
      ZipPayloadUnique(members, other, payload);
    }
    return if valid.Err? then Err(valid.error) else pm, content;
  }

  method VerifyDir(pf: Platform, t: Tree, root: Path) returns (r: Parsed<ParsedManifest>, ghost content: Content)
    ensures r.Ok? ==> DirAccepted(pf, t, root, r.value, content)
    ensures r.Err? ==> forall pm, other :: !DirAccepted(pf, t, root, pm, other)
  {
    hide ManifestOk, RequiredPaths, SafePath, Parts;
    content := Content([], map[]);
    if !IsFile(t, root + [MANIFEST]) {
      return Err(NoManifest), content;
    }
    var raw := LoadManifestBytes(pf, t[root + [MANIFEST]].data);
    if raw.Err? {
      return Err(raw.error), content;
    }
    var pm := ReadManifest(pf, raw.value);
    if pm.Err? {
      return pm, content;
    }
    var valid, payload := ValidateFilesFromDir(pf, t, root, pm.value.files, pf.report, pm.value.mirrorRoot);
    content := Content(t[root + [MANIFEST]].data, payload);
    return if valid.Err? then Err(valid.error) else pm, content;
  }

  /** `verify_bundle_manifest`: succeeds exactly on the accepted bundles. */
  method VerifyBundleManifest(pf: Platform, t: Tree, bundle: Path) returns (r: Parsed<ParsedManifest>, ghost content: Content)
    ensures r.Ok? ==> Accepted(pf, t, bundle, r.value, content)
    ensures r.Err? ==> forall pm, other :: !Accepted(pf, t, bundle, pm, other)
  {
    hide ZipAccepted, DirAccepted;
    content := Content([], map[]);
    if bundle !in t {
      return Err(NotFound), content;
    }
    match t[bundle] {
      case Dir =>
        r, content := VerifyDir(pf, t, bundle);
      case File(data) =>
        var archive := pf.openZip(data);
        if archive.None? {
          return Err(NotZip), content;
        }
        r, content := VerifyZip(pf, archive.value);
    }
  }

  lemma ManifestOkUnique(pf: Platform, pm1: ParsedManifest, pm2: ParsedManifest)
    requires ManifestOk(pf, pm1) && ManifestOk(pf, pm2) && pm1.raw == pm2.raw
    ensures pm1 == pm2
  {
    hide EntrySays, ManifestOk, RequiredPaths, SafeBucketName, RequiredListed;
    ManifestOkRead(pf, pm1);
    ManifestOkRead(pf, pm2);
    var items := Items(pm1.raw);
    assert items[..|items|] == items;
    DescribesPrefix(pf, items, |items|, pm1.files, pm2.files);
  }

  lemma AcceptedManifest(pf: Platform, t: Tree, bundle: Path, pm: ParsedManifest, content: Content)
    requires Accepted(pf, t, bundle, pm, content)
    ensures ManifestOk(pf, pm) && Matches(pf, pm.files, content.payload)
  {
    hide ManifestOk, Matches, SafePath, Parts, DirSafe, IsDirPath, IsZipPayload, NamesSafe, NamesDistinct, PayloadInjective;
  }

  lemma AcceptedRaw(pf: Platform, t: Tree, bundle: Path, pm: ParsedManifest, content: Content)
    requires Accepted(pf, t, bundle, pm, content)
    ensures bundle in t && IsManifest(pf, content.manifest, pm.raw)
    ensures t[bundle].Dir? ==> IsFile(t, bundle + [MANIFEST]) && t[bundle + [MANIFEST]].data == content.manifest &&
                               forall path | path in content.payload :: IsFile(t, bundle + Parts(path)) && t[bundle + Parts(path)].data == content.payload[path]
    ensures t[bundle].File? ==> pf.openZip(t[bundle].data).Some? &&
                                ReadMember(pf.openZip(t[bundle].data).value, MANIFEST) == Some(content.manifest) &&
                                IsZipPayload(pf.openZip(t[bundle].data).value, content.payload)
  {
    hide ManifestOk, Matches, SafePath, Parts, DirSafe, IsDirPath, IsZipPayload, NamesSafe, NamesDistinct, PayloadInjective, IsManifest;
  }

  /** Acceptance determines the parsed manifest and the content. */
  lemma AcceptedUnique(pf: Platform, t: Tree, bundle: Path, pm1: ParsedManifest, c1: Content, pm2: ParsedManifest, c2: Content)
    requires Accepted(pf, t, bundle, pm1, c1) && Accepted(pf, t, bundle, pm2, c2)
    ensures pm1 == pm2 && c1 == c2
  {
    hide *;
    AcceptedRaw(pf, t, bundle, pm1, c1);
    AcceptedRaw(pf, t, bundle, pm2, c2);
    AcceptedManifest(pf, t, bundle, pm1, c1);
    AcceptedManifest(pf, t, bundle, pm2, c2);
    OneRaw(pf, c1.manifest, pm1.raw, pm2.raw);
    ManifestOkUnique(pf, pm1, pm2);
    MatchedKeys(pf, pm1.files, c1.payload);
    MatchedKeys(pf, pm1.files, c2.payload);
    if t[bundle].File? {
      ZipPayloadUnique(pf.openZip(t[bundle].data).value, c1.payload, c2.payload);
    }
    assert c1.payload == c2.payload;
  }

  lemma OneRaw(pf: Platform, data: Bytes, raw1: Json, raw2: Json)
    requires IsManifest(pf, data, raw1) && IsManifest(pf, data, raw2)
    ensures raw1 == raw2
  {
  }

  lemma MatchedKeys(pf: Platform, files: seq<BundleFile>, payload: map<string, Bytes>)
    requires Matches(pf, files, payload)
    ensures payload.Keys == PathsOf(files)
  {
  }

  /** In an accepted zip, listed files and payload members correspond one to one, each with its size and hash. */
  lemma ZipBijection(pf: Platform, members: seq<Member>, pm: ParsedManifest, content: Content, i: nat, j: nat)
    requires ZipAccepted(pf, members, pm, content)
    ensures i < |pm.files| ==>
              exists k | 0 <= k < |members| :: IsPayload(members[k]) && SafePath(members[k].name) == Ok(pm.files[i].path) &&
                                               CheckBytes(pf, pm.files[i], members[k].data).Ok?
    ensures j < |members| && IsPayload(members[j]) ==>
              exists k | 0 <= k < |pm.files| :: SafePath(members[j].name) == Ok(pm.files[k].path)
    ensures i < j < |members| && IsPayload(members[i]) && IsPayload(members[j]) ==> SafePath(members[i].name) != SafePath(members[j].name)
    ensures i < j < |pm.files| ==> pm.files[i].path != pm.files[j].path
  {
    hide SafePath, HeaderSays, EntrySays;
    if i < |pm.files| {
      var path := pm.files[i].path;
      assert path in content.payload;
      var m :| m in members && IsPayload(m) && SafePath(m.name).value == path;
      var k :| 0 <= k < |members| && members[k] == m;
    }
    if j < |members| && IsPayload(members[j]) {
      assert members[j] in members;
      assert SafePath(members[j].name).value in PathsOf(pm.files);
    }
  }
}
