/** Canonical manifest paths: `_safe_manifest_path` of scripts/verify_release_bundle_manifest.py. */
module ManifestPath {
  import opened FileTree
  import opened Outcomes
  import opened Text

  datatype PathError = InvalidPath | AbsolutePath | TraversalPath

  /** `re.compile(r"^[A-Za-z]:").match` */
  predicate DriveLike(s: string) {
    |s| >= 2 && IsLetter(s[0]) && s[1] == ':'
  }

  predicate IsAbsolute(s: string) {
    s != "" && s[0] == '/'
  }

  function DropTrivial(names: seq<string>): (kept: Path)
    ensures forall name :: name in kept <==> name in names && name != "" && name != "."
  {
    if names == [] then []
    else if names[0] == "" || names[0] == "." then DropTrivial(names[1..])
    else [names[0]] + DropTrivial(names[1..])
  }

  /** `PurePosixPath(s).parts` of a relative path: empty and `.` components vanish, `..` stays. */
  function Parts(s: string): (parts: Path)
    ensures forall name | name in parts :: name != "" && name != "." && '/' !in name
  {
    DropTrivial(Split(s, '/'))
  }

  /** `PurePosixPath.as_posix`; the path without components prints as a dot. */
  function AsPosix(parts: Path): string {
    if parts == [] then "." else Join(parts, '/')
  }

  /** `_safe_manifest_path` on a string. */
  function SafePath(raw: string): Result<string, PathError> {
    if Blank(raw) then Err(InvalidPath)
    else
      var path := Replace(raw, '\\', '/');
      if IsAbsolute(path) || DriveLike(path) then Err(AbsolutePath)
      else if ".." in Parts(path) then Err(TraversalPath)
      else Ok(AsPosix(Parts(path)))
  }

  /** A component that names a child of a directory and nothing else. */
  predicate CleanName(name: string) {
    name != "" && name != "." && name != ".." && '/' !in name && '\\' !in name
  }

  predicate CleanPath(path: Path) {
    forall name | name in path :: CleanName(name)
  }

  /** Lexical POSIX resolution of path components against a directory, written without the filter above. */
  function Resolve(dir: Path, names: seq<string>): Path
    decreases names
  {
    if names == [] then dir
    else if names[0] == "" || names[0] == "." then Resolve(dir, names[1..])
    else if names[0] == ".." then Resolve(if dir == [] then [] else dir[..|dir| - 1], names[1..])
    else Resolve(dir + [names[0]], names[1..])
  }

  lemma {:induction false} DropTrivialKeepsAll(names: seq<string>)
    requires forall name | name in names :: name != "" && name != "."
    ensures DropTrivial(names) == names
  {
    if names != [] {
      assert names[0] in names && forall name | name in names[1..] :: name in names;
      DropTrivialKeepsAll(names[1..]);
    }
  }

  lemma {:induction false} ResolveWithoutDotDot(dir: Path, names: seq<string>)
    requires ".." !in names
    ensures Resolve(dir, names) == dir + DropTrivial(names)
    decreases names
  {
    if names == [] {
    } else if names[0] == "" || names[0] == "." {
      ResolveWithoutDotDot(dir, names[1..]);
    } else {
      ResolveWithoutDotDot(dir + [names[0]], names[1..]);
      assert dir + [names[0]] + DropTrivial(names[1..]) == dir + DropTrivial(names);
    }
  }

  /** Reading back the text of a clean path gives the same components. */
  lemma {:induction false} PartsOfPosix(path: Path)
    requires CleanPath(path)
    ensures Parts(AsPosix(path)) == path
  {
    if path == [] {
      SplitWhole(".", '/');
    } else {
      SplitOfJoin(path, '/');
      DropTrivialKeepsAll(path);
    }
  }

  /** An accepted path is canonical, has clean components, and reads the same whatever slashes or dots the raw text used. */
  lemma {:induction false} SafePathCanonical(raw: string)
    requires SafePath(raw).Ok?
    ensures var p := SafePath(raw).value;
            CleanPath(Parts(p)) && p == AsPosix(Parts(p)) && '\\' !in p &&
            Parts(p) == Parts(Replace(raw, '\\', '/'))
  {
    var path := Replace(raw, '\\', '/');
    var parts := Parts(path);
    forall name | name in parts
      ensures CleanName(name)
    {
      assert name in Split(path, '/');
      if '\\' in name {
        SplitChars(path, '/', name, '\\');
      }
    }
    PartsOfPosix(parts);
    var p := AsPosix(parts);
    if '\\' in p {
      JoinChars(parts, '/', '\\');
    }
  }

  /** No accepted path leaves the directory it is resolved in, wherever that directory is. */
  lemma {:induction false} SafePathStaysInside(dir: Path, raw: string)
    requires SafePath(raw).Ok?
    ensures Resolve(dir, Split(Replace(raw, '\\', '/'), '/')) == dir + Parts(SafePath(raw).value)
  {
    SafePathCanonical(raw);
    var names := Split(Replace(raw, '\\', '/'), '/');
    assert ".." in names ==> ".." in DropTrivial(names);
    ResolveWithoutDotDot(dir, names);
  }

  /** Two canonical texts with the same components are the same text. */
  lemma {:induction false} CanonicalInjective(raw1: string, raw2: string)
    requires SafePath(raw1).Ok? && SafePath(raw2).Ok?
    requires Parts(SafePath(raw1).value) == Parts(SafePath(raw2).value)
    ensures SafePath(raw1).value == SafePath(raw2).value
  {
    SafePathCanonical(raw1);
    SafePathCanonical(raw2);
  }

  /** The texts on which canonicalisation is the identity, written for a clean path. */
  lemma {:induction false} SafePathOfClean(path: Path)
    requires CleanPath(path)
    ensures SafePath(AsPosix(path)) ==
            if Blank(AsPosix(path)) then Err(InvalidPath)
            else if DriveLike(AsPosix(path)) then Err(AbsolutePath)
            else Ok(AsPosix(path))
  {
    var p := AsPosix(path);
    PartsOfPosix(path);
    if '\\' in p {
      JoinChars(path, '/', '\\');
    }
    assert Replace(p, '\\', '/') == p;
    if path != [] {
      assert path[0] in path;
      assert p[0] == path[0][0];
      assert path[0][0] in path[0];
    }
  }

  /**
   * Canonicalising twice is canonicalising once exactly when the first result is neither blank nor
   * drive-like; those two kinds of result are refused the second time.
   */
  lemma {:induction false} SafePathIdempotent(raw: string)
    requires SafePath(raw).Ok?
    ensures var p := SafePath(raw).value;
            (SafePath(p) == Ok(p) <==> !Blank(p) && !DriveLike(p)) &&
            (SafePath(p).Ok? ==> SafePath(p) == Ok(p))
  {
    SafePathCanonical(raw);
    SafePathOfClean(Parts(SafePath(raw).value));
  }

  /** Every clean path is the result of some raw text: a leading `./` hides a drive letter or a blank name. */
  lemma {:induction false} EveryCleanPathArises(path: Path)
    requires CleanPath(path)
    ensures SafePath("./" + AsPosix(path)) == Ok(AsPosix(path))
  {
    var p := AsPosix(path);
    var raw := "./" + p;
    if '\\' in p {
      JoinChars(path, '/', '\\');
    }
    assert Replace(raw, '\\', '/') == raw;
    assert raw[0] == '.' && '.' in raw;
    assert raw == "." + ['/'] + p;
    SplitPrefix(".", p, '/');
    PartsOfPosix(path);
    assert Split(raw, '/')[1..] == Split(p, '/');
    assert Parts(raw) == path;
  }

  /** So canonicalisation is not idempotent: a drive letter or a blank name passes once and is refused the second time. */
  lemma {:induction false} SafePathNotIdempotent(drive: string, blank: string)
    requires drive == "C:" && blank == " "
    ensures SafePath("./" + drive) == Ok(drive) && SafePath(drive) == Err(AbsolutePath)
    ensures SafePath("./" + blank) == Ok(blank) && SafePath(blank) == Err(InvalidPath)
  {
    EveryCleanPathArises([drive]);
    EveryCleanPathArises([blank]);
    assert drive[0] == 'C' && 'C' in drive;
    SafePathOfClean([drive]);
    SafePathOfClean([blank]);
  }
}
