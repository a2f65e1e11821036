/** Restored objects against the bundle: scripts/verify_release_restore_bundle.py. */
module Restore {
  import opened Bundle
  import opened FileTree
  import opened Manifest
  import opened ManifestPath
  import opened Outcomes
  import opened Text

  /***** Digests *****/

  /** An incremental hash: `hashlib.sha256()`, `update` and `hexdigest`. */
  datatype Hasher<!S> = Hasher(init: S, update: (S, Bytes) -> S, hex: S -> string) {
    function OneShot(data: Bytes): string {
      hex(update(init, data))
    }
  }

  /** Feeding two pieces is feeding their concatenation. */
  ghost predicate Lawful<S(!new)>(h: Hasher<S>) {
    && (forall s, a, b :: h.update(h.update(s, a), b) == h.update(s, a + b))
    && (forall s :: h.update(s, []) == s)
  }

  /** The incremental hash computes `sha`. */
  ghost predicate Implements<S(!new)>(h: Hasher<S>, sha: Bytes -> string) {
    Lawful(h) && forall data :: h.OneShot(data) == sha(data)
  }

  /** Every hash has an incremental form: keep all the bytes until the end. */
  lemma EveryHashImplemented(sha: Bytes -> string)
    ensures Implements(Hasher([], (s: Bytes, a: Bytes) => s + a, sha), sha)
  {
    var h := Hasher([], (s: Bytes, a: Bytes) => s + a, sha);
    forall s, a, b
      ensures h.update(h.update(s, a), b) == h.update(s, a + b)
    {
      assert (s + a) + b == s + (a + b);
    }
    forall s: Bytes
      ensures h.update(s, []) == s
    {
      assert s + [] == s;
    }
    forall data: Bytes
      ensures h.OneShot(data) == sha(data)
    {
      assert [] + data == data;
    }
  }

  /** A response body: reads hand out what is left, in pieces of any size up to the one asked for. */
  class Body {
    var rest: Bytes

    constructor (data: Bytes)
      ensures rest == data
    {
      rest := data;
    }

    method Read(size: nat) returns (chunk: Bytes)
      requires size > 0
      modifies this
      ensures old(rest) == chunk + rest && |chunk| <= size
      ensures chunk == [] <==> old(rest) == []
    {
      var n :| 0 <= n <= |rest| && n <= size && (n == 0 <==> rest == []);
      chunk, rest := rest[..n], rest[n..];
    }
  }

  const CHUNK := 1024 * 1024

  /** `_sha256_stream`: whatever the chunks, the digest of everything that was left. */
  method Sha256Stream<S(!new)>(h: Hasher<S>, body: Body) returns (digest: string)
    requires Lawful(h)
    modifies body
    ensures digest == h.OneShot(old(body.rest)) && body.rest == []
  {
    var state := h.init;
    ghost var done: Bytes := [];
    while true
      invariant done + body.rest == old(body.rest)
      invariant state == h.update(h.init, done)
      decreases |body.rest|
    {
      ghost var left := body.rest;
      var chunk := body.Read(CHUNK);
      if chunk == [] {
        break;
      }
      state := h.update(state, chunk);
      done := done + chunk;
      assert done + body.rest == old(body.rest);
    }
    assert done == old(body.rest);
    return h.hex(state);
  }

  /***** Keys and paths *****/

  datatype KeyError = BlankKey | UnsafeKey | OutsideMirror

  /** `_manifest_path_for_object` */
  function ManifestPathForObject(pm: ParsedManifest, objectKey: string): Result<string, KeyError> {
    var key := Strip(objectKey);
    if key == "" then Err(BlankKey)
    else if '\\' in key || DriveLike(key) then Err(UnsafeKey)
    else if IsAbsolute(key) || ".." in Parts(key) then Err(UnsafeKey)
    else
      var path := pm.mirrorRoot + "/" + AsPosix(Parts(key));
      if "minio/" + pm.sourceBucket + "/" <= path then Ok(path) else Err(OutsideMirror)
  }

  lemma {:induction false} JoinConcat(a: Path, b: Path)
    requires a != [] && b != []
    ensures Join(a + b, '/') == Join(a, '/') + ['/'] + Join(b, '/')
  {
    assert (a + b)[0] == a[0] && (a + b)[1..] == a[1..] + b;
    if |a| > 1 {
      JoinConcat(a[1..], b);
    }
  }

  lemma KeyPartsClean(key: string)
    requires '\\' !in key && ".." !in Parts(key)
    ensures CleanPath(Parts(key))
  {
    forall name | name in Parts(key)
      ensures CleanName(name)
    {
      assert name in Split(key, '/');
      if '\\' in name {
        SplitChars(key, '/', name, '\\');
      }
    }
  }

  /** Below a two-component root, a key's path has the root's components followed by the key's. */
  lemma MirrorPathParts(root: string, bucket: string, parts: Path, dot: string)
    requires CleanName(root) && CleanName(bucket) && CleanPath(parts) && dot == "."
    ensures parts != [] ==> Parts(root + ['/'] + bucket + ['/'] + AsPosix(parts)) == [root, bucket] + parts
    ensures parts == [] ==> Parts(root + ['/'] + bucket + ['/'] + AsPosix(parts)) == [root, bucket]
    ensures root + ['/'] + bucket + ['/'] + dot != AsPosix([root, bucket])
  {
    assert Join([bucket], '/') == bucket;
    assert Join([root, bucket], '/') == root + ['/'] + bucket;
    if parts != [] {
      JoinConcat([root, bucket], parts);
      PartsOfPosix([root, bucket] + parts);
    } else {
      assert Join([dot], '/') == dot;
      JoinConcat([root, bucket], [dot]);
      SplitOfJoin([root, bucket, dot], '/');
      assert [root, bucket] + [dot] == [root, bucket, dot];
      var names := [root, bucket, dot];
      assert Join(names, '/') == root + ['/'] + bucket + ['/'] + dot;
      assert names[1..] == [bucket, dot] && names[1..][1..] == [dot] && [dot][1..] == [];
      assert DropTrivial([dot]) == [];
      assert DropTrivial([bucket, dot]) == [bucket];
      assert DropTrivial(names) == [root, bucket];
    }
  }

  /** A listed path reached from an object key lies below the mirror root, at the key's own components. */
  lemma ObjectPathBelowMirror(pf: Platform, pm: ParsedManifest, objectKey: string)
    requires ManifestOk(pf, pm)
    requires ManifestPathForObject(pm, objectKey).Ok? && ManifestPathForObject(pm, objectKey).value in PathsOf(pm.files)
    ensures var path := ManifestPathForObject(pm, objectKey).value;
            Parts(Strip(objectKey)) != [] && Parts(path) == Parts(pm.mirrorRoot) + Parts(Strip(objectKey))
  {
    hide EntryPath, EntryFile, SafePath, RequiredPaths, Parts, ManifestOk, Describes;
    var path, key := ManifestPathForObject(pm, objectKey).value, Strip(objectKey);
    ManifestOkRead(pf, pm);
    RequiredPathsShape(pf, pm.raw);
    var bucket := pm.sourceBucket;
    var root := "minio";
    assert CleanName(root);
    BucketIsClean(bucket);
    assert "minio/" + bucket == root + ['/'] + bucket;
    KeyPartsClean(key);
    MirrorPathParts(root, bucket, Parts(key), ".");
    DescribedCanonical(pf, Items(pm.raw), pm.files, path);
    assert path == root + ['/'] + bucket + ['/'] + AsPosix(Parts(key));
  }

  /** A key that can be kept below the mirror root. */
  ghost predicate PlainKey(key: string) {
    && key != "" && key[0] != '/' && '\\' !in key
    && !(|key| >= 2 && key[1] == ':' && (key[0] in LOWER || key[0] in UPPER))
    && forall name | name in Split(key, '/') :: name != ".."
  }

  lemma UpperIs(c: char)
    ensures c in UPPER <==> 'A' <= c <= 'Z'
  {
    if 'A' <= c <= 'Z' {
      assert UPPER[(c - 'A') as int] == c;
    }
  }

  lemma LetterIs(c: char)
    ensures IsLetter(c) <==> c in LOWER || c in UPPER
  {
    LowerIs(c);
    UpperIs(c);
    hide LOWER, UPPER;
  }

  /** Which keys are mapped into the bundle, and where. */
  lemma KeyMeaning(pm: ParsedManifest, objectKey: string, path: string)
    ensures ManifestPathForObject(pm, objectKey) == Ok(path) <==>
            && PlainKey(Strip(objectKey)) && path == pm.mirrorRoot + "/" + AsPosix(Parts(Strip(objectKey)))
            && "minio/" + pm.sourceBucket + "/" <= path
  {
    hide Strip, AsPosix, Split, LOWER, UPPER, IsLetter;
    var key := Strip(objectKey);
    if key != "" {
      LetterIs(key[0]);
    }
    assert ".." in Parts(key) <==> ".." in Split(key, '/');
  }

  lemma BucketIsClean(bucket: string)
    requires IsBucket(bucket)
    ensures CleanName(bucket)
  {
    assert bucket[0] in bucket;
  }

  /***** Rows *****/

  /** A row of `storage_objects`; a NULL column reads as the empty text. */
  datatype StorageRow = StorageRow(id: string, bucket: string, objectKey: string)

  /** A bucket and a key in it. */
  type Place = (string, string)

  /** The object store; `faults` counts the calls that failed although the object is there. */
  class ObjectStore {
    const objects: map<Place, Bytes>
    ghost var faults: nat

    constructor (objects: map<Place, Bytes>)
      ensures this.objects == objects && faults == 0
    {
      this.objects := objects;
      faults := 0;
    }

    /** `head_object`, of which the length matters, or the error of a failed call. */
    method Head(at: Place) returns (length: Option<nat>)
      modifies this
      ensures length.Some? ==> at in objects && length.value == |objects[at]|
      ensures faults == old(faults) + if length.None? && at in objects then 1 else 0
    {
      if at !in objects {
        return None;
      }
      if * {
        faults := faults + 1;
        return None;
      }
      return Some(|objects[at]|);
    }

    /** `get_object` */
    method Get(at: Place) returns (body: Option<Body>)
      modifies this
      ensures body.Some? ==> at in objects && fresh(body.value) && body.value.rest == objects[at]
      ensures faults == old(faults) + if body.None? && at in objects then 1 else 0
    {
      if at !in objects {
        return None;
      }
      if * {
        faults := faults + 1;
        return None;
      }
      var whole := new Body(objects[at]);
      return Some(whole);
    }
  }

  datatype Failure = BlankBucket | OtherBucket | BadKey(cause: KeyError) | NotListed | WrongSize | WrongHash | StoreError

  /** `files_by_path.get(path)`: the last file of that path. */
  function Find(files: seq<BundleFile>, path: string): (file: Option<BundleFile>)
    ensures file.Some? <==> exists i :: LastOf(files, path, i)
    ensures file.Some? ==> exists i :: LastOf(files, path, i) && files[i] == file.value
  {
    if files == [] then None
    else
      var init, last := files[..|files| - 1], files[|files| - 1];
      if last.path == path then
        assert LastOf(files, path, |files| - 1);
        Some(last)
      else
        assert forall i :: LastOf(init, path, i) <==> LastOf(files, path, i);
        Find(init, path)
  }

  predicate LastOf(files: seq<BundleFile>, path: string, i: int) {
    0 <= i < |files| && files[i].path == path && forall j | i < j < |files| :: files[j].path != path
  }

  lemma LastOfOne(files: seq<BundleFile>, path: string, i: int, j: int)
    requires LastOf(files, path, i) && LastOf(files, path, j)
    ensures i == j
  {
  }

  function EffectiveBucket(overrideBucket: string, row: StorageRow): string {
    if overrideBucket != "" then overrideBucket else Strip(row.bucket)
  }

  /**
   * The restored object of this row has the size and the hash the manifest lists for it: it lies in the override bucket,
   * if there is one, and otherwise in the bucket of its row, which is the one the bundle was made from.
   */
  ghost predicate RowVerified(sha: Bytes -> string, objects: map<Place, Bytes>, overrideBucket: string, pm: ParsedManifest, row: StorageRow) {
    var bucket, key := Strip(row.bucket), Strip(row.objectKey);
    && bucket == pm.sourceBucket && PlainKey(Strip(key))
    && (overrideBucket != "" ==> ListedIn(sha, objects, (overrideBucket, key), pm))
    && (overrideBucket == "" ==> bucket != "" && ListedIn(sha, objects, (bucket, key), pm))
  }

  /** The object at this place has the size and the hash that the manifest lists for its key below the mirror root. */
  ghost predicate ListedIn(sha: Bytes -> string, objects: map<Place, Bytes>, at: Place, pm: ParsedManifest) {
    var path := pm.mirrorRoot + "/" + AsPosix(Parts(Strip(at.1)));
    && at in objects && "minio/" + pm.sourceBucket + "/" <= path
    && exists i :: LastOf(pm.files, path, i) && |objects[at]| == pm.files[i].bytes && sha(objects[at]) == pm.files[i].sha256
  }

  ghost predicate ObjectThere(objects: map<Place, Bytes>, overrideBucket: string, row: StorageRow) {
    if overrideBucket != "" then (overrideBucket, Strip(row.objectKey)) in objects
    else (Strip(row.bucket), Strip(row.objectKey)) in objects
  }

  /** One turn of the loop of `_verify_storage_objects`: a verified row fails only through a fault of the store. */
  method VerifyRow<S(!new)>(h: Hasher<S>, ghost sha: Bytes -> string, store: ObjectStore, overrideBucket: string,
                            pm: ParsedManifest, row: StorageRow)
    returns (failure: Option<Failure>)
    requires Implements(h, sha)
    modifies store
    ensures failure.None? ==> RowVerified(sha, store.objects, overrideBucket, pm, row)
    ensures failure.Some? && RowVerified(sha, store.objects, overrideBucket, pm, row) ==> failure == Some(StoreError)
    ensures store.faults == old(store.faults) +
                            if failure == Some(StoreError) && ObjectThere(store.objects, overrideBucket, row) then 1 else 0
  {
    hide ManifestPathForObject, Lawful, PlainKey, AsPosix, Parts, Strip;
    ghost var wanted := pm.mirrorRoot + "/" + AsPosix(Parts(Strip(Strip(row.objectKey))));
    KeyMeaning(pm, Strip(row.objectKey), wanted);
    var dbBucket, bucket, key := Strip(row.bucket), EffectiveBucket(overrideBucket, row), Strip(row.objectKey);
    if bucket == "" {
      return Some(BlankBucket);
    }
    if dbBucket != pm.sourceBucket {
      return Some(OtherBucket);
    }
    var path := ManifestPathForObject(pm, key);
    if path.Err? {
      return Some(BadKey(path.error));
    }
    KeyMeaning(pm, key, path.value);
    var expected := Find(pm.files, path.value);
    if expected.None? {
      return Some(NotListed);
    }
    forall i, j | LastOf(pm.files, path.value, i) && LastOf(pm.files, path.value, j)
      ensures i == j
    {
      LastOfOne(pm.files, path.value, i, j);
    }
    var length := store.Head((bucket, key));
    if length.None? {
      return Some(StoreError);
    }
    if length.value != expected.value.bytes {
      return Some(WrongSize);
    }
    var body := store.Get((bucket, key));
    if body.None? {
      return Some(StoreError);
    }
    var actual := Sha256Stream(h, body.value);
    return if actual != expected.value.sha256 then Some(WrongHash) else None;
  }

  type Failures = seq<(string, Failure)>

  /** `_verify_storage_objects`: without a fault of the store it succeeds exactly when every row is verified. */
  method VerifyStorageObjects<S(!new)>(h: Hasher<S>, ghost sha: Bytes -> string, store: ObjectStore, overrideBucket: string,
                                       rows: seq<StorageRow>, pm: ParsedManifest)
    returns (r: Result<(bool, nat), Failures>)
    requires Implements(h, sha)
    modifies store
    ensures r.Ok? ==> forall row | row in rows :: RowVerified(sha, store.objects, overrideBucket, pm, row)
    ensures r.Ok? ==> r.value == (overrideBucket != "", |rows|) && store.faults == old(store.faults)
    ensures r.Err? ==> forall row | row in rows && !RowVerified(sha, store.objects, overrideBucket, pm, row) ::
                         exists failure | failure in r.error :: failure.0 == Strip(row.id)
    ensures r.Err? && store.faults == old(store.faults) ==>
              exists row | row in rows :: !RowVerified(sha, store.objects, overrideBucket, pm, row)
  {
    hide RowVerified, Implements;
    var failures: Failures := [];
    for k := 0 to |rows|
      invariant store.faults >= old(store.faults) && (failures == [] ==> store.faults == old(store.faults))
      invariant forall i | 0 <= i < k && !RowVerified(sha, store.objects, overrideBucket, pm, rows[i]) ::
                  exists failure | failure in failures :: failure.0 == Strip(rows[i].id)
      invariant failures != [] && store.faults == old(store.faults) ==>
                  exists row | row in rows :: !RowVerified(sha, store.objects, overrideBucket, pm, row)
    {
      var failure := VerifyRow(h, sha, store, overrideBucket, pm, rows[k]);
      if failure.Some? {
        ghost var before := failures;
        var entry := (Strip(rows[k].id), failure.value);
        failures := failures + [entry];
        assert entry in failures && forall f | f in before :: f in failures;
        assert rows[k] in rows;
        FaultOrUnverified(sha, store.objects, overrideBucket, pm, rows[k]);
      }
    }
    return if failures != [] then Err(failures) else Ok((overrideBucket != "", |rows|));
  }

  lemma FaultOrUnverified(sha: Bytes -> string, objects: map<Place, Bytes>, overrideBucket: string, pm: ParsedManifest, row: StorageRow)
    ensures RowVerified(sha, objects, overrideBucket, pm, row) ==> ObjectThere(objects, overrideBucket, row)
  {
    hide PlainKey, Strip;
  }

  /***** End to end *****/

  /** The bundle holds these bytes at its file below the mirror root, at the components of the object key. */
  ghost predicate BundleHolds(pf: Platform, t: Tree, bundle: Path, pm: ParsedManifest, row: StorageRow, data: Bytes)
  {
    && bundle in t
    && match t[bundle]
       case Dir =>
         var place := bundle + Parts(pm.mirrorRoot) + Parts(Strip(Strip(row.objectKey)));
         IsFile(t, place) && t[place].data == data
       case File(archive) =>
         pf.openZip(archive).Some? &&
         exists m | m in pf.openZip(archive).value ::
           IsPayload(m) && Parts(SafePath(m.name).value) == Parts(pm.mirrorRoot) + Parts(Strip(Strip(row.objectKey))) && m.data == data
  }

  /** The object at this place is there, with the length and the hash of the bytes the bundle holds for the row. */
  ghost predicate RestoredAt(pf: Platform, t: Tree, bundle: Path, pm: ParsedManifest, objects: map<Place, Bytes>, at: Place, row: StorageRow) {
    && at in objects
    && exists data: Bytes :: BundleHolds(pf, t, bundle, pm, row, data) && |objects[at]| == |data| && pf.sha256(objects[at]) == pf.sha256(data)
  }

  /** In an accepted bundle, a verified row's object is restored from the bundle's file below the mirror root. */
  lemma RestoredAsBundled(pf: Platform, t: Tree, bundle: Path, pm: ParsedManifest, content: Content,
                          objects: map<Place, Bytes>, overrideBucket: string, row: StorageRow)
    requires Accepted(pf, t, bundle, pm, content)
    requires RowVerified(pf.sha256, objects, overrideBucket, pm, row)
    ensures overrideBucket != "" ==> RestoredAt(pf, t, bundle, pm, objects, (overrideBucket, Strip(row.objectKey)), row)
    ensures overrideBucket == "" ==> RestoredAt(pf, t, bundle, pm, objects, (Strip(row.bucket), Strip(row.objectKey)), row)
  {
    hide ManifestOk, SafePath, Parts, AsPosix, ManifestPathForObject, DirSafe, IsDirPath, Strip, PlainKey;
    var key := Strip(row.objectKey);
    var path := pm.mirrorRoot + "/" + AsPosix(Parts(Strip(key)));
    KeyMeaning(pm, key, path);
    assert path in PathsOf(pm.files);
    AcceptedManifest(pf, t, bundle, pm, content);
    ObjectPathBelowMirror(pf, pm, key);
    assert bundle + Parts(path) == bundle + Parts(pm.mirrorRoot) + Parts(Strip(key));
    assert BundleHolds(pf, t, bundle, pm, row, content.payload[path]);
  }

  datatype RestoreError = BundleRefused(error: Error) | NoObject | ObjectsFailed(failures: Failures)

  /**
   * `main`, with the rows of `_storage_rows` as an argument: bundle verification, then the objects. Success means that
   * every row's object is restored from the accepted bundle; without a fault of the store, failure means that the
   * bundle is not accepted, that a required object is missing, or that some row is not verified.
   */
  method VerifyRestore<S(!new)>(pf: Platform, h: Hasher<S>, t: Tree, bundle: Path, store: ObjectStore, overrideBucket: string,
                                rows: seq<StorageRow>, requireObject: bool)
    returns (r: Result<nat, RestoreError>, ghost pm: ParsedManifest, ghost content: Content)
    requires Implements(h, pf.sha256)
    modifies store
    ensures r.Ok? ==> Accepted(pf, t, bundle, pm, content) && r.value == |rows| && (requireObject ==> rows != [])
    ensures r.Ok? && overrideBucket != "" ==>
              forall row | row in rows :: RestoredAt(pf, t, bundle, pm, store.objects, (overrideBucket, Strip(row.objectKey)), row)
    ensures r.Ok? && overrideBucket == "" ==>
              forall row | row in rows :: RestoredAt(pf, t, bundle, pm, store.objects, (Strip(row.bucket), Strip(row.objectKey)), row)
    ensures r.Err? && store.faults == old(store.faults) ==>
              || (forall other, held :: !Accepted(pf, t, bundle, other, held))
              || (requireObject && rows == [])
              || (Accepted(pf, t, bundle, pm, content) &&
                  exists row | row in rows :: !RowVerified(pf.sha256, store.objects, overrideBucket, pm, row))
  {
    hide Accepted, RowVerified, RestoredAt, Implements;
    var parsed;
    parsed, content := VerifyBundleManifest(pf, t, bundle);
    pm := if parsed.Ok? then parsed.value else ParsedManifest(JNull, "", "", []);
    if parsed.Err? {
      return Err(BundleRefused(parsed.error)), pm, content;
    }
    if requireObject && rows == [] {
      return Err(NoObject), pm, content;
    }
    if rows == [] {
      return Ok(0), pm, content;
    }
    var verified := VerifyStorageObjects(h, pf.sha256, store, overrideBucket, rows, parsed.value);
    if verified.Err? {
      return Err(ObjectsFailed(verified.error)), pm, content;
    }
    forall row | row in rows
      ensures overrideBucket != "" ==> RestoredAt(pf, t, bundle, pm, store.objects, (overrideBucket, Strip(row.objectKey)), row)
      ensures overrideBucket == "" ==> RestoredAt(pf, t, bundle, pm, store.objects, (Strip(row.bucket), Strip(row.objectKey)), row)
    {
      RestoredAsBundled(pf, t, bundle, pm, content, store.objects, overrideBucket, row);
    }
    return Ok(verified.value.1), pm, content;
  }
}
