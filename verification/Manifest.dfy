/** The manifest of a release bundle: `_manifest_files` and `_required_paths` of scripts/verify_release_bundle_manifest.py. */
module Manifest {
  import opened FileTree
  import opened ManifestPath
  import opened Outcomes
  import opened Text

  /** Decoded JSON. Of a float only its truth value and its `str` text matter here. */
  datatype Json =
    | JNull
    | JBool(flag: bool)
    | JInt(number: int)
    | JFloat(zero: bool, text: string)
    | JStr(s: string)
    | JArr(items: seq<Json>)
    | JObj(fields: map<string, Json>)

  datatype Member = Member(name: string, data: Bytes)

  /**
   * The library functions the scripts call, and the two paths every bundle must list. Every theorem holds for any
   * choice of them; `ScriptPlatform` makes the scripts' own choice.
   */
  datatype Platform = Platform(
    sha256: Bytes -> string,
    decodeJson: Bytes -> Option<Json>,
    parseInt: string -> Option<int>,
    openZip: Bytes -> Option<seq<Member>>,
    dump: string,
    report: string)

  datatype BundleFile = BundleFile(path: string, bytes: int, sha256: string)

  datatype Error =
    | BadPath(cause: PathError)
    | FilesNotList | NonObjectEntry | ListsManifest | DuplicatePath | BadSize | NegativeSize | BadSha
    | BadKind | NoDatabase | BadDump | NoIntegrity | BadReport | NoStorage | BadBucket | BadMirror
    | NotFound | NotZip | DuplicateMember | NoManifest | ManifestMisspelt | BadJson | NotObject
    | RequiredMissing | MirrorEmpty | DuplicatePayload | ListedMissing | Unlisted | SizeMismatch | ShaMismatch

  type Parsed<T> = Result<T, Error>

  const MANIFEST := "manifest.json"
  const DUMP := "database/immoapp.dump"
  const REPORT := "integrity/release_backup_integrity.json"
  const KIND := "immoapp_release_backup_bundle"

  /** The platform with the scripts' own paths. */
  function ScriptPlatform(sha256: Bytes -> string, decodeJson: Bytes -> Option<Json>, parseInt: string -> Option<int>,
                          openZip: Bytes -> Option<seq<Member>>): Platform
  {
    Platform(sha256, decodeJson, parseInt, openZip, DUMP, REPORT)
  }

  /** `obj.get(key)` */
  function Field(obj: Json, key: string): Json {
    if obj.JObj? && key in obj.fields then obj.fields[key] else JNull
  }

  /** `bool(value)` */
  predicate Truthy(value: Json) {
    match value
    case JNull => false
    case JBool(flag) => flag
    case JInt(number) => number != 0
    case JFloat(zero, _) => !zero
    case JStr(s) => s != ""
    case JArr(items) => items != []
    case JObj(fields) => |fields| != 0
  }

  /** `str(value or "")`. The text of a list or an object is cut to its first character, which no pattern below accepts. */
  function TextOf(value: Json): string {
    if !Truthy(value) then ""
    else
      match value
      case JBool(_) => "True"
      case JInt(number) => Decimal(number)
      case JFloat(_, text) => text
      case JStr(s) => s
      case JArr(_) => "["
      case _ => "{"
  }

  function SafeManifestPath(raw: Json): Parsed<string> {
    if !raw.JStr? then Err(BadPath(InvalidPath))
    else
      match SafePath(raw.s)
      case Ok(path) => Ok(path)
      case Err(cause) => Err(BadPath(cause))
  }

  predicate IsSha(sha: string) {
    |sha| == 64 && forall c | c in sha :: '0' <= c <= '9' || 'a' <= c <= 'f'
  }

  predicate BucketChar(c: char) {
    'a' <= c <= 'z' || '0' <= c <= '9'
  }

  /** `_SAFE_BUCKET.fullmatch` */
  predicate IsBucket(name: string) {
    && 3 <= |name| <= 63
    && BucketChar(name[0]) && BucketChar(name[|name| - 1])
    && forall c | c in name :: BucketChar(c) || c == '-'
  }

  function SafeBucketName(raw: Json): Parsed<string> {
    var bucket := Strip(TextOf(raw));
    if IsBucket(bucket) then Ok(bucket) else Err(BadBucket)
  }

  /** The path of one `files` entry. */
  function EntryPath(item: Json): Parsed<string> {
    if !item.JObj? then Err(NonObjectEntry)
    else
      var path :- SafeManifestPath(Field(item, "path"));
      if path == MANIFEST then Err(ListsManifest) else Ok(path)
  }

  /** `int(raw)` for an `int | str`; a JSON true or false is an int in Python. */
  function ByteCount(pf: Platform, raw: Json): Option<int> {
    match raw
    case JBool(flag) => Some(if flag then 1 else 0)
    case JInt(number) => Some(number)
    case JStr(s) => pf.parseInt(s)
    case _ => None
  }

  /** Size and hash of one `files` entry. */
  function EntryFile(pf: Platform, item: Json, path: string): Parsed<BundleFile> {
    match ByteCount(pf, Field(item, "bytes"))
    case None => Err(BadSize)
    case Some(count) =>
      var sha := Lower(Strip(TextOf(Field(item, "sha256"))));
      if count < 0 then Err(NegativeSize)
      else if !IsSha(sha) then Err(BadSha)
      else Ok(BundleFile(path, count, sha))
  }

  function PathsOf(files: seq<BundleFile>): set<string> {
    set file | file in files :: file.path
  }

  /***** What the JSON says, without the code that reads it *****/

  /** The text of a value that is neither a list nor an object, and not empty, zero, null, true or false. */
  ghost predicate Prints(value: Json, text: string) {
    match value
    case JStr(s) => text == s
    case JInt(number) => number != 0 && text == Decimal(number)
    case JFloat(zero, shown) => !zero && text == shown
    case _ => false
  }

  /** The value gives this text, space around it aside. */
  ghost predicate Says(value: Json, text: string) {
    exists raw :: Prints(value, raw) && IsTrim(raw, text)
  }

  const HEX := "0123456789abcdef"
  const HEX_UPPER := "0123456789ABCDEF"

  /** `digits` are the 64 hexadecimal digits of `text` in lower case. */
  ghost predicate HexOf(text: string, digits: string) {
    && |text| == |digits| == 64
    && forall i | 0 <= i < 64 :: HexDigit(text[i], digits[i])
  }

  ghost predicate HexDigit(c: char, digit: char) {
    exists n | 0 <= n < 16 :: digit == HEX[n] && (c == HEX[n] || c == HEX_UPPER[n])
  }

  /** The value is this number, as a number, as a text of it, or as the one or zero that true and false are in Python. */
  ghost predicate Counts(pf: Platform, value: Json, count: int) {
    || value == JInt(count)
    || (value.JStr? && pf.parseInt(value.s) == Some(count))
    || (value == JBool(true) && count == 1)
    || (value == JBool(false) && count == 0)
  }

  /** The entry is an object that gives this path, size and hash. */
  ghost predicate EntrySays(pf: Platform, item: Json, file: BundleFile) {
    && item.JObj? && {"path", "bytes", "sha256"} <= item.fields.Keys
    && item.fields["path"].JStr? && SafePath(item.fields["path"].s) == Ok(file.path) && file.path != "manifest.json"
    && Counts(pf, item.fields["bytes"], file.bytes) && file.bytes >= 0
    && GivesSha(item.fields["sha256"], file.sha256)
  }

  ghost predicate GivesSha(value: Json, sha: string) {
    exists text :: Says(value, text) && HexOf(text, sha)
  }

  lemma HexChar(c: char, digit: char)
    ensures HexDigit(c, digit) <==> LowerChar(c) == digit && ('0' <= digit <= '9' || 'a' <= digit <= 'f')
  {
    if '0' <= digit <= '9' {
      var n := (digit - '0') as int;
      assert HEX[n] == digit && HEX_UPPER[n] == digit;
    } else if 'a' <= digit <= 'f' {
      var n := (digit - 'a') as int + 10;
      assert HEX[n] == digit && HEX_UPPER[n] == digit - 'a' + 'A';
    }
  }

  lemma ShaText(text: string, sha: string)
    ensures HexOf(text, sha) <==> Lower(text) == sha && IsSha(sha)
  {
    forall i | 0 <= i < |text| && |text| == |sha|
      ensures HexDigit(text[i], sha[i]) <==> Lower(text)[i] == sha[i] && ('0' <= sha[i] <= '9' || 'a' <= sha[i] <= 'f')
    {
      HexChar(text[i], sha[i]);
    }
    hide HexDigit, LowerChar;
    if HexOf(text, sha) {
      assert Lower(text) == sha;
      forall c | c in sha
        ensures '0' <= c <= '9' || 'a' <= c <= 'f'
      {
        var i :| 0 <= i < |sha| && sha[i] == c;
      }
    }
    if Lower(text) == sha && IsSha(sha) {
      assert forall i | 0 <= i < 64 :: sha[i] in sha;
    }
  }

  /** A text of some length that a value gives is its trimmed `str`. */
  lemma SaysText(value: Json, text: string)
    ensures |text| > 4 ==> (Says(value, text) <==> Strip(TextOf(value)) == text)
    ensures Says(value, text) && text != "" ==> Strip(TextOf(value)) == text
    ensures text != "" && Strip(TextOf(value)) == text && !Says(value, text) ==>
              value == JBool(true) || value.JArr? || value.JObj?
  {
    hide Strip, IsTrim, Decimal, DecimalNat;
    StripIsTrim(TextOf(value));
    EmptyTrim();
    forall raw | Prints(value, raw) && IsTrim(raw, text)
      ensures Strip(raw) == text && (text != "" ==> raw == TextOf(value))
    {
      TrimUnique(raw, text);
    }
    if text != "" && Strip(TextOf(value)) == text && !(value == JBool(true) || value.JArr? || value.JObj?) {
      assert Prints(value, TextOf(value));
    }
    ShortTexts(value);
  }

  lemma EmptyTrim()
    ensures Strip("") == ""
  {
  }

  lemma ShortTexts(value: Json)
    ensures value == JBool(true) || value.JArr? || value.JObj? ==> |Strip(TextOf(value))| <= 4
  {
    StripIsTrim(TextOf(value));
  }

  lemma ShaMeaning(value: Json, sha: string)
    ensures GivesSha(value, sha) <==> Lower(Strip(TextOf(value))) == sha && IsSha(sha)
  {
    hide Strip, TextOf, Says, HexOf, IsSha;
    forall text
      ensures |text| == 64 ==> (Says(value, text) <==> Strip(TextOf(value)) == text)
      ensures HexOf(text, sha) <==> Lower(text) == sha && IsSha(sha)
      ensures HexOf(text, sha) ==> |text| == 64
    {
      SaysText(value, text);
      ShaText(text, sha);
      HexLength(text, sha);
    }
  }

  lemma CountMeaning(pf: Platform, value: Json, count: int)
    ensures Counts(pf, value, count) <==> ByteCount(pf, value) == Some(count)
  {
  }

  lemma PathMeaning(item: Json, path: string)
    ensures EntryPath(item) == Ok(path) <==>
            item.JObj? && "path" in item.fields && item.fields["path"].JStr? && SafePath(item.fields["path"].s) == Ok(path) &&
            path != "manifest.json"
  {
    hide SafePath;
  }

  /** What the code makes of size and hash. */
  lemma FileMeaning(pf: Platform, item: Json, path: string, file: BundleFile)
    ensures EntryFile(pf, item, path) == Ok(file) <==>
            file.path == path && file.bytes >= 0 && ByteCount(pf, Field(item, "bytes")) == Some(file.bytes) &&
            Lower(Strip(TextOf(Field(item, "sha256")))) == file.sha256 && IsSha(file.sha256)
  {
    hide Strip, TextOf, IsSha, ByteCount;
  }

  /** The code accepts an entry exactly when it says so. */
  lemma EntryMeaning(pf: Platform, item: Json, file: BundleFile)
    ensures EntryPath(item) == Ok(file.path) && EntryFile(pf, item, file.path) == Ok(file) <==> EntrySays(pf, item, file)
  {
    hide SafePath, Strip, TextOf, Says, HexOf, IsSha, EntryFile, EntryPath, GivesSha, Counts, ByteCount;
    PathMeaning(item, file.path);
    FileMeaning(pf, item, file.path, file);
    ShaMeaning(Field(item, "sha256"), file.sha256);
    CountMeaning(pf, Field(item, "bytes"), file.bytes);
    NothingGiven(pf, file.sha256);
  }

  lemma NothingGiven(pf: Platform, sha: string)
    ensures forall count :: !Counts(pf, JNull, count)
    ensures !GivesSha(JNull, sha)
  {
  }

  lemma HexLength(text: string, sha: string)
    ensures HexOf(text, sha) ==> |text| == 64
  {
  }

  lemma EntrySaysOne(pf: Platform, item: Json, file: BundleFile, other: BundleFile)
    requires EntrySays(pf, item, file) && EntrySays(pf, item, other)
    ensures file == other
  {
    hide EntrySays, EntryPath, EntryFile;
    EntryMeaning(pf, item, file);
    EntryMeaning(pf, item, other);
  }

  /** `files` is what the entries say, entry by entry, with no canonical path twice. */
  ghost predicate Describes(pf: Platform, items: seq<Json>, files: seq<BundleFile>) {
    && |files| == |items|
    && (forall i | 0 <= i < |items| :: EntrySays(pf, items[i], files[i]))
    && (forall i, j | 0 <= i < j < |files| :: files[i].path != files[j].path)
  }

  ghost predicate PathIs(item: Json, path: string) {
    item.JObj? && "path" in item.fields && item.fields["path"].JStr? && SafePath(item.fields["path"].s) == Ok(path)
  }

  /** The entry gives a path that may be listed next to those in `seen`. */
  ghost predicate NewPath(item: Json, seen: set<string>) {
    exists path :: PathIs(item, path) && path !in seen && path != "manifest.json"
  }

  ghost predicate GivesCount(pf: Platform, item: Json, count: int) {
    item.JObj? && "bytes" in item.fields && Counts(pf, item.fields["bytes"], count)
  }

  ghost predicate GivesNoSha(item: Json) {
    item.JObj? && ("sha256" in item.fields ==> forall sha :: !GivesSha(item.fields["sha256"], sha))
  }

  /** What is wrong with an entry after those whose paths are in `seen`: the first of these, in this order. */
  ghost predicate Wrong(pf: Platform, item: Json, seen: set<string>, error: Error) {
    match error
    case NonObjectEntry => !item.JObj?
    case BadPath(cause) =>
      item.JObj? && if "path" in item.fields && item.fields["path"].JStr? then SafePath(item.fields["path"].s) == Err(cause)
                    else cause == InvalidPath
    case ListsManifest => PathIs(item, "manifest.json")
    case DuplicatePath => exists path :: PathIs(item, path) && path in seen
    case BadSize => NewPath(item, seen) && forall count :: !GivesCount(pf, item, count)
    case NegativeSize => NewPath(item, seen) && exists count :: GivesCount(pf, item, count) && count < 0
    case BadSha => NewPath(item, seen) && (exists count :: GivesCount(pf, item, count) && count >= 0) && GivesNoSha(item)
    case _ => false
  }

  /** The `k`-th entry is the first that cannot be accepted, and `error` says why. */
  ghost predicate FirstFault(pf: Platform, items: seq<Json>, k: nat, files: seq<BundleFile>, error: Error) {
    && k < |items|
    && Describes(pf, items[..k], files)
    && Wrong(pf, items[k], PathsOf(files), error)
  }

  /** The code's error for an entry says what is wrong with it. */
  lemma WrongMeaning(pf: Platform, item: Json, seen: set<string>, error: Error)
    requires EntryPath(item) == Err(error) ||
             (EntryPath(item).Ok? && if EntryPath(item).value in seen then error == DuplicatePath
                                     else EntryFile(pf, item, EntryPath(item).value) == Err(error))
    ensures Wrong(pf, item, seen, error)
  {
    hide SafePath, Strip, TextOf, IsSha, GivesSha, Counts, ByteCount;
    if EntryPath(item).Ok? {
      var path := EntryPath(item).value;
      PathMeaning(item, path);
      assert PathIs(item, path);
      if path !in seen {
        assert NewPath(item, seen);
        forall count
          ensures GivesCount(pf, item, count) <==> ByteCount(pf, Field(item, "bytes")) == Some(count)
        {
          CountMeaning(pf, Field(item, "bytes"), count);
          NothingGiven(pf, "");
        }
        forall sha
          ensures GivesSha(Field(item, "sha256"), sha) <==> Lower(Strip(TextOf(Field(item, "sha256")))) == sha && IsSha(sha)
        {
          ShaMeaning(Field(item, "sha256"), sha);
        }
        if ByteCount(pf, Field(item, "bytes")).Some? {
          assert GivesCount(pf, item, ByteCount(pf, Field(item, "bytes")).value);
        }
      }
    }
  }

  lemma CountsOne(pf: Platform, value: Json, a: int, b: int)
    requires Counts(pf, value, a) && Counts(pf, value, b)
    ensures a == b
  {
  }

  lemma WrongIsNotSaid(pf: Platform, item: Json, seen: set<string>, error: Error, file: BundleFile)
    requires Wrong(pf, item, seen, error) && file.path !in seen
    ensures !EntrySays(pf, item, file)
  {
    hide SafePath, GivesSha, Counts;
    if EntrySays(pf, item, file) {
      assert PathIs(item, file.path) && GivesCount(pf, item, file.bytes);
      forall count | GivesCount(pf, item, count)
        ensures count == file.bytes
      {
        CountsOne(pf, item.fields["bytes"], count, file.bytes);
      }
    }
  }

  lemma DescribesPrefix(pf: Platform, items: seq<Json>, k: nat, files: seq<BundleFile>, other: seq<BundleFile>)
    requires k <= |items| && Describes(pf, items[..k], files) && Describes(pf, items, other)
    ensures files == other[..k]
    ensures k < |items| ==> other[k].path !in PathsOf(files)
  {
    hide EntrySays;
    forall i | 0 <= i < k
      ensures files[i] == other[i]
    {
      assert items[..k][i] == items[i];
      EntrySaysOne(pf, items[i], files[i], other[i]);
    }
  }

  lemma FaultMeansNoDescription(pf: Platform, items: seq<Json>, k: nat, files: seq<BundleFile>, error: Error, other: seq<BundleFile>)
    requires FirstFault(pf, items, k, files, error)
    ensures !Describes(pf, items, other)
  {
    hide EntrySays, Wrong;
    if Describes(pf, items, other) {
      DescribesPrefix(pf, items, k, files, other);
      WrongIsNotSaid(pf, items[k], PathsOf(files), error, other[k]);
    }
  }

  lemma EntryFilePath(pf: Platform, item: Json, path: string)
    ensures EntryFile(pf, item, path).Ok? ==> EntryFile(pf, item, path).value.path == path
  {
  }

  /** `_manifest_files`: the described files, or the first fault; a fault excludes every description. */
  method ManifestFiles(pf: Platform, manifest: Json) returns (r: Parsed<seq<BundleFile>>)
    ensures !Field(manifest, "files").JArr? ==> r == Err(FilesNotList)
    ensures Field(manifest, "files").JArr? ==>
              var items := Field(manifest, "files").items;
              match r
              case Ok(files) => Describes(pf, items, files)
              case Err(error) =>
                (exists k, files :: FirstFault(pf, items, k, files, error)) &&
                forall other :: !Describes(pf, items, other)
  {
    hide EntryPath, EntryFile, EntrySays, Wrong;
    if !Field(manifest, "files").JArr? {
      return Err(FilesNotList);
    }
    var items := Field(manifest, "files").items;
    var files: seq<BundleFile> := [];
    var seen: set<string> := {};
    for k := 0 to |items|
      invariant Describes(pf, items[..k], files)
      invariant seen == PathsOf(files)
    {
      var entry := EntryPath(items[k]);
      var file := if entry.Err? then Err(entry.error)
                  else if entry.value in seen then Err(DuplicatePath)
                  else EntryFile(pf, items[k], entry.value);
      if file.Err? {
        WrongMeaning(pf, items[k], seen, file.error);
        assert FirstFault(pf, items, k, files, file.error);
        forall other
          ensures !Describes(pf, items, other)
        {
          FaultMeansNoDescription(pf, items, k, files, file.error, other);
        }
        return Err(file.error);
      }
      EntryFilePath(pf, items[k], entry.value);
      EntryMeaning(pf, items[k], file.value);
      assert items[..k + 1] == items[..k] + [items[k]];
      assert forall i | 0 <= i < k :: files[i].path in seen;
      seen := seen + {entry.value};
      files := files + [file.value];
    }
    assert items[..|items|] == items;
    return Ok(files);
  }

  /** Every described path is canonical. */
  lemma DescribedCanonical(pf: Platform, items: seq<Json>, files: seq<BundleFile>, path: string)
    requires Describes(pf, items, files) && path in PathsOf(files)
    ensures CleanPath(Parts(path)) && AsPosix(Parts(path)) == path && path != MANIFEST
  {
    var i :| 0 <= i < |files| && files[i].path == path;
    assert EntrySays(pf, items[i], files[i]);
    SafePathCanonical(items[i].fields["path"].s);
  }

  /** `section.get(key) or expected` under `_safe_manifest_path`, which must give `expected`; see `DefaultIsCanonical`. */
  function FixedPath(section: Json, key: string, expected: string, error: Error): Parsed<string> {
    var value := Field(section, key);
    if !Truthy(value) then Ok(expected)
    else
      var path :- SafeManifestPath(value);
      if path == expected then Ok(path) else Err(error)
  }

  /** Why `FixedPath` need not canonicalise the default: `database/...` and `integrity/...` are such paths. */
  lemma {:induction false} DefaultIsCanonical(dir: string, name: string)
    requires CleanName(dir) && CleanName(name)
    requires |dir| >= 2 && !IsSpace(dir[0]) && dir[1] != ':'
    ensures SafePath(dir + ['/'] + name) == Ok(dir + ['/'] + name)
  {
    SafePathOfClean([dir, name]);
    var path := AsPosix([dir, name]);
    assert Join([name], '/') == name;
    assert path == dir + ['/'] + name;
    assert path[0] == dir[0] && path[1] == dir[1] && path[0] in path;
  }

  /** Two plain names with a slash at `k`. */
  predicate TwoNames(path: string, k: nat) {
    && 2 <= k < |path| - 1 && path[k] == '/' && IsLetter(path[0]) && IsLetter(path[1]) && IsLetter(path[k + 1])
    && forall i | 0 <= i < |path| && i != k :: path[i] != '/' && path[i] != '\\'
  }

  lemma TwoNamesCanonical(path: string, k: nat)
    requires TwoNames(path, k)
    ensures SafePath(path) == Ok(path)
  {
    hide SafePath;
    DefaultIsCanonical(path[..k], path[k + 1..]);
    assert path == path[..k] + ['/'] + path[k + 1..];
  }

  lemma ScriptPathShapes()
    ensures TwoNames(DUMP, 8) && TwoNames(REPORT, 9)
  {
  }

  /** The scripts' own two defaults are of this kind, so they are canonical. */
  lemma ScriptDefaults(pf: Platform)
    requires pf == ScriptPlatform(pf.sha256, pf.decodeJson, pf.parseInt, pf.openZip)
    ensures SafePath(pf.dump) == Ok(pf.dump) && SafePath(pf.report) == Ok(pf.report)
  {
    hide SafePath, TwoNames, DUMP, REPORT;
    ScriptPathShapes();
    TwoNamesCanonical(pf.dump, 8);
    TwoNamesCanonical(pf.report, 9);
  }

  /** `_required_paths`: the integrity report path and the mirror root. */
  function RequiredPaths(pf: Platform, manifest: Json): Parsed<(string, string)> {
    if Field(manifest, "kind") != JStr(KIND) then Err(BadKind)
    else if !Field(manifest, "database").JObj? then Err(NoDatabase)
    else
      var _ :- FixedPath(Field(manifest, "database"), "dump", pf.dump, BadDump);
      if !Field(manifest, "integrity").JObj? then Err(NoIntegrity)
      else
        var report :- FixedPath(Field(manifest, "integrity"), "report", pf.report, BadReport);
        var storage := Field(manifest, "object_storage");
        if !storage.JObj? then Err(NoStorage)
        else
          var mirror :- SafeManifestPath(Field(storage, "mirror_root"));
          var bucket :- SafeBucketName(Field(storage, "bucket"));
          if mirror == "minio/" + bucket then Ok((report, mirror)) else Err(BadMirror)
  }

  /***** What the header says, without the code that reads it *****/

  const DIGITS := "0123456789"

  /** `[a-z0-9][a-z0-9-]{1,61}[a-z0-9]` */
  ghost predicate BucketName(name: string) {
    && 3 <= |name| <= 63 && name[0] != '-' && name[|name| - 1] != '-'
    && forall c | c in name :: c in LOWER || c in DIGITS || c == '-'
  }

  /** Python takes the value for false. */
  ghost predicate Falsy(value: Json) {
    value in {JNull, JBool(false), JInt(0), JStr(""), JArr([]), JObj(map[])} || (value.JFloat? && value.zero)
  }

  /** The section is an object whose entry is `path` under some spelling, or is not given. */
  ghost predicate SectionSays(raw: Json, section: string, key: string, path: string) {
    && raw.JObj? && section in raw.fields && raw.fields[section].JObj?
    && var fields := raw.fields[section].fields;
       key !in fields || Falsy(fields[key]) || (fields[key].JStr? && SafePath(fields[key].s) == Ok(path))
  }

  ghost predicate StorageSays(raw: Json, mirror: string, bucket: string) {
    && raw.JObj? && "object_storage" in raw.fields && raw.fields["object_storage"].JObj?
    && var storage := raw.fields["object_storage"].fields;
       && "mirror_root" in storage && storage["mirror_root"].JStr? && SafePath(storage["mirror_root"].s) == Ok(mirror)
       && "bucket" in storage && Says(storage["bucket"], bucket) && BucketName(bucket)
       && mirror == "minio/" + bucket
  }

  /** The manifest is of the known kind, keeps dump and report where they belong, and names this bucket and its mirror root. */
  ghost predicate HeaderSays(pf: Platform, raw: Json, mirror: string, bucket: string) {
    && raw.JObj? && "kind" in raw.fields && raw.fields["kind"] == JStr("immoapp_release_backup_bundle")
    && SectionSays(raw, "database", "dump", pf.dump)
    && SectionSays(raw, "integrity", "report", pf.report)
    && StorageSays(raw, mirror, bucket)
  }

  lemma BucketChars(c: char)
    ensures BucketChar(c) <==> c in LOWER || c in DIGITS
    ensures !BucketChar('-')
  {
    LowerIs(c);
    hide LOWER;
    if '0' <= c <= '9' {
      assert DIGITS[(c - '0') as int] == c;
    }
  }

  lemma LowerIs(c: char)
    ensures c in LOWER <==> 'a' <= c <= 'z'
  {
    if 'a' <= c <= 'z' {
      assert LOWER[(c - 'a') as int] == c;
    }
  }

  lemma BucketMeaning(value: Json, bucket: string)
    ensures SafeBucketName(value) == Ok(bucket) <==> Says(value, bucket) && BucketName(bucket)
  {
    hide Strip, TextOf, Says, BucketName, IsBucket;
    BucketNames(bucket);
    BucketNames("");
    NoShortBucket();
    SaysText(value, bucket);
    OddBuckets(value);
  }

  lemma NoShortBucket()
    ensures !IsBucket("")
  {
  }

  lemma BucketNames(name: string)
    ensures IsBucket(name) <==> BucketName(name)
  {
    hide BucketChar, LOWER, DIGITS;
    forall c
      ensures BucketChar(c) <==> c in LOWER || c in DIGITS
      ensures !BucketChar('-')
    {
      BucketChars(c);
    }
    if |name| > 0 {
      assert name[0] in name && name[|name| - 1] in name;
    }
  }

  /** The text of a true, a list or an object is no bucket name. */
  lemma OddBuckets(value: Json)
    ensures value == JBool(true) || value.JArr? || value.JObj? ==> !IsBucket(Strip(TextOf(value)))
  {
    var text := TextOf(value);
    StripIsTrim(text);
    var i, j :| TrimAt(text, Strip(text), i, j);
    if value == JBool(true) && |Strip(text)| == 4 {
      assert Strip(text)[0] == 'T';
    }
  }

  lemma FixedMeaning(raw: Json, name: string, key: string, path: string, error: Error)
    ensures Field(raw, name).JObj? && FixedPath(Field(raw, name), key, path, error) == Ok(path) <==> SectionSays(raw, name, key, path)
    ensures FixedPath(Field(raw, name), key, path, error).Ok? ==> FixedPath(Field(raw, name), key, path, error) == Ok(path)
  {
    hide SafePath;
  }

  lemma StorageMeaning(raw: Json, mirror: string, bucket: string)
    ensures Field(raw, "object_storage").JObj? &&
            SafeManifestPath(Field(Field(raw, "object_storage"), "mirror_root")) == Ok(mirror) &&
            SafeBucketName(Field(Field(raw, "object_storage"), "bucket")) == Ok(bucket) && mirror == "minio/" + bucket <==>
            StorageSays(raw, mirror, bucket)
  {
    hide SafePath, Says, BucketName, SafeBucketName;
    BucketMeaning(Field(Field(raw, "object_storage"), "bucket"), bucket);
    NoBucketGiven(bucket);
  }

  lemma NoBucketGiven(bucket: string)
    ensures !Says(JNull, bucket)
  {
  }

  /** The code accepts a header exactly when it says so. */
  lemma HeaderMeaning(pf: Platform, raw: Json, mirror: string, bucket: string)
    ensures RequiredPaths(pf, raw) == Ok((pf.report, mirror)) &&
            SafeBucketName(Field(Field(raw, "object_storage"), "bucket")) == Ok(bucket) <==>
            HeaderSays(pf, raw, mirror, bucket)
  {
    hide SafeManifestPath, SafeBucketName, FixedPath, SectionSays, StorageSays;
    FixedMeaning(raw, "database", "dump", pf.dump, BadDump);
    FixedMeaning(raw, "integrity", "report", pf.report, BadReport);
    StorageMeaning(raw, mirror, bucket);
  }

  lemma {:induction false} MirrorParts(root: string, bucket: string)
    requires CleanName(root) && IsBucket(bucket)
    ensures Parts(root + ['/'] + bucket) == [root, bucket]
  {
    assert bucket[0] in bucket;
    assert CleanName(bucket);
    PartsOfPosix([root, bucket]);
    assert Join([bucket], '/') == bucket;
    assert AsPosix([root, bucket]) == root + ['/'] + bucket;
  }

  /** An accepted manifest fixes the report path and names a mirror root exactly two components deep, below `minio`. */
  lemma RequiredPathsShape(pf: Platform, manifest: Json)
    requires RequiredPaths(pf, manifest).Ok?
    ensures RequiredPaths(pf, manifest).value.0 == pf.report
    ensures var bucket := SafeBucketName(Field(Field(manifest, "object_storage"), "bucket"));
            bucket.Ok? && IsBucket(bucket.value) && RequiredPaths(pf, manifest).value.1 == "minio/" + bucket.value
    ensures Parts(RequiredPaths(pf, manifest).value.1) ==
            ["minio", SafeBucketName(Field(Field(manifest, "object_storage"), "bucket")).value]
  {
    hide SafeManifestPath, Strip, TextOf, Parts, Truthy;
    var bucket := SafeBucketName(Field(Field(manifest, "object_storage"), "bucket")).value;
    MirrorParts("minio", bucket);
    assert "minio/" + bucket == "minio" + ['/'] + bucket;
  }
}
