/** The keyring the environment describes: `get_encryption_service` of core/encryption.py. */
module KeyringConfig {
  import opened FileTree
  import opened Keyring
  import opened Outcomes
  import opened Text

  /** `os.environ`, in iteration order. */
  type Environ = seq<(string, string)>

  /** `os.environ.get(name, default)` */
  function Setting(env: Environ, name: string, default: string): string {
    if env == [] then default else if env[0].0 == name then env[0].1 else Setting(env[1..], name, default)
  }

  datatype ConfigError = BadVersion | NoKeys | MissingCurrent | BadSalt

  const VERSIONED := "ALE_MASTER_KEY_V"

  /** `re.split(r"[;,]", text)` */
  function SplitList(text: string): seq<string> {
    Split(Replace(text, ',', ';'), ';')
  }

  /** The position of the first equals sign, or the length. */
  function EqualsAt(s: string): (i: nat)
    ensures i <= |s| && (i < |s| ==> s[i] == '=')
  {
    if s == "" || s[0] == '=' then 0 else 1 + EqualsAt(s[1..])
  }

  /** One part of `ALE_MASTER_KEYS`: at most one key. */
  function PartKeys(raw: string): seq<KeyMaterial> {
    var part := Strip(raw);
    var i := EqualsAt(part);
    if i == |part| then []
    else
      var id, key := Strip(part[..i]), Strip(part[i + 1..]);
      if id == "" || key == "" then [] else [KeyMaterial(id, key)]
  }

  function ListKeys(parts: seq<string>): seq<KeyMaterial> {
    if parts == [] then [] else ListKeys(parts[..|parts| - 1]) + PartKeys(parts[|parts| - 1])
  }

  /** One environment variable: a key if it is named `ALE_MASTER_KEY_V...` and not empty. */
  function VariableKeys(variable: (string, string)): seq<KeyMaterial> {
    if VERSIONED <= variable.0 && variable.1 != "" then [KeyMaterial("v" + variable.0[|VERSIONED|..], variable.1)] else []
  }

  function VersionedKeys(env: Environ): seq<KeyMaterial> {
    if env == [] then [] else VersionedKeys(env[..|env| - 1]) + VariableKeys(env[|env| - 1])
  }

  function CurrentId(env: Environ): string {
    var id := Strip(Setting(env, "ALE_KEY_VERSION", "v1"));
    if id == "" then "v1" else id
  }

  /** All key material in source order: the list, the versioned variables, the primary key, the old key. */
  function Sources(env: Environ): seq<KeyMaterial> {
    var list, primary, old_ := Setting(env, "ALE_MASTER_KEYS", ""), Setting(env, "ALE_MASTER_KEY", ""), Setting(env, "ALE_MASTER_KEY_OLD", "");
    (if list != "" then ListKeys(SplitList(list)) else []) + VersionedKeys(env) +
    (if primary != "" then [KeyMaterial(CurrentId(env), primary)] else []) +
    (if old_ != "" then [KeyMaterial("v0", old_)] else [])
  }

  /***** What the environment says, without the code that reads it *****/

  /** The environment gives this value for the name. */
  ghost predicate Given(env: Environ, name: string, value: string) {
    exists i :: GivenAt(env, name, value, i)
  }

  ghost predicate GivenAt(env: Environ, name: string, value: string, i: int) {
    0 <= i < |env| && env[i] == (name, value) && forall j | 0 <= j < i :: env[j].0 != name
  }

  lemma GivenHead(env: Environ, name: string, value: string)
    requires env != []
    ensures env[0].0 == name ==> (Given(env, name, value) <==> value == env[0].1)
    ensures env[0].0 != name ==> (Given(env, name, value) <==> Given(env[1..], name, value))
  {
    if env[0].0 == name && value == env[0].1 {
      assert GivenAt(env, name, value, 0);
    }
    if i :| GivenAt(env[1..], name, value, i) && env[0].0 != name {
      assert GivenAt(env, name, value, i + 1) by {
        assert forall j | 0 < j < i + 1 :: env[j] == env[1..][j - 1];
      }
    }
    if i :| GivenAt(env, name, value, i) && env[0].0 != name {
      assert GivenAt(env[1..], name, value, i - 1);
    }
  }

  lemma {:induction false} SettingMeaning(env: Environ, name: string, value: string, default: string)
    ensures Given(env, name, value) ==> Setting(env, name, default) == value
    ensures Setting(env, name, default) == value ==>
              Given(env, name, value) || (value == default && forall other :: !Given(env, name, other))
  {
    hide Given;
    if env == [] {
      NothingGiven(env, name);
    } else {
      SettingMeaning(env[1..], name, value, default);
      forall other
        ensures env[0].0 == name ==> (Given(env, name, other) <==> other == env[0].1)
        ensures env[0].0 != name ==> (Given(env, name, other) <==> Given(env[1..], name, other))
      {
        GivenHead(env, name, other);
      }
    }
  }

  lemma NothingGiven(env: Environ, name: string)
    requires env == []
    ensures forall value :: !Given(env, name, value)
  {
  }

  /** The current id is what `ALE_KEY_VERSION` says, space around it aside, and `v1` if it says nothing. */
  lemma CurrentIdMeaning(env: Environ, value: string, id: string)
    ensures Given(env, "ALE_KEY_VERSION", value) && IsTrim(value, id) ==> CurrentId(env) == if id == "" then "v1" else id
    ensures (forall other :: !Given(env, "ALE_KEY_VERSION", other)) ==> CurrentId(env) == "v1"
  {
    hide Strip, IsTrim;
    var name, default := "ALE_KEY_VERSION", "v1";
    SettingMeaning(env, name, Setting(env, name, default), default);
    SettingMeaning(env, name, value, default);
    if IsTrim(value, id) {
      TrimUnique(value, id);
    }
    DefaultIsTrimmed(default);
  }

  lemma DefaultIsTrimmed(version: string)
    requires version == "v1"
    ensures Strip(version) == version
  {
    StripFixed(version);
  }

  lemma {:induction false} FirstEquals(left: string, right: string)
    requires '=' !in left
    ensures EqualsAt(left + ['='] + right) == |left|
  {
    var s := left + ['='] + right;
    if left != "" {
      FirstEquals(left[1..], right);
      assert s[1..] == left[1..] + ['='] + right;
    }
  }

  lemma {:induction false} NoEquals(s: string)
    requires '=' !in s
    ensures EqualsAt(s) == |s|
  {
    if s != "" {
      NoEquals(s[1..]);
    }
  }

  /** A part gives what stands before its first equals sign as the id, and all that stands behind as the key. */
  lemma PartMeaning(raw: string, left: string, right: string, id: string, key: string)
    requires IsTrim(raw, left + ['='] + right) && '=' !in left && IsTrim(left, id) && IsTrim(right, key)
    ensures PartKeys(raw) == if id == "" || key == "" then [] else [KeyMaterial(id, key)]
  {
    hide Strip, IsTrim;
    var part := left + ['='] + right;
    TrimUnique(raw, part);
    TrimUnique(left, id);
    TrimUnique(right, key);
    FirstEquals(left, right);
    assert part[..|left|] == left && part[|left| + 1..] == right;
  }

  lemma PartWithoutEquals(raw: string, part: string)
    requires IsTrim(raw, part) && '=' !in part
    ensures PartKeys(raw) == []
  {
    TrimUnique(raw, part);
    NoEquals(part);
  }

  /** The key may hold further equals signs: `v1=abc=` is the key `abc=` under the id `v1`. */
  lemma PartExample(id: string, key: string)
    requires id == "v1" && key == "abc="
    ensures PartKeys(id + ['='] + key) == [KeyMaterial(id, key)]
  {
    hide PartKeys;
    assert TrimAt(id, id, 0, 2) && TrimAt(key, key, 0, 4);
    var raw := id + ['='] + key;
    assert TrimAt(raw, raw, 0, 7);
    PartMeaning(raw, id, key, id, key);
  }

  /** The list is cut at every semicolon and comma, and nowhere else. */
  lemma ListMeaning(text: string)
    ensures forall part | part in SplitList(text) :: ';' !in part && ',' !in part
    ensures Join(SplitList(text), ';') == Replace(text, ',', ';')
  {
    var same := Replace(text, ',', ';');
    JoinOfSplit(same, ';');
    forall part | part in SplitList(text)
      ensures ',' !in part
    {
      if ',' in part {
        SplitChars(same, ';', part, ',');
      }
    }
  }

  /** A variable `ALE_MASTER_KEY_Vx` gives its value as the key of the id `vx`, and no other variable gives one here. */
  lemma VariableMeaning(suffix: string, value: string, other: (string, string))
    ensures VariableKeys(("ALE_MASTER_KEY_V" + suffix, value)) == if value == "" then [] else [KeyMaterial("v" + suffix, value)]
    ensures (forall rest :: other.0 != "ALE_MASTER_KEY_V" + rest) ==> VariableKeys(other) == []
  {
    var name := VERSIONED + suffix;
    assert VERSIONED <= name && name[|VERSIONED|..] == suffix;
    if VERSIONED <= other.0 {
      assert other.0 == VERSIONED + other.0[|VERSIONED|..];
    }
  }

  lemma {:induction false} InListKeys(parts: seq<string>, item: KeyMaterial)
    ensures item in ListKeys(parts) <==> exists part | part in parts :: item in PartKeys(part)
  {
    hide PartKeys;
    if parts != [] {
      InListKeys(parts[..|parts| - 1], item);
      assert parts == parts[..|parts| - 1] + [parts[|parts| - 1]];
    }
  }

  lemma {:induction false} InVersionedKeys(env: Environ, item: KeyMaterial)
    ensures item in VersionedKeys(env) <==> exists variable | variable in env :: item in VariableKeys(variable)
  {
    hide VariableKeys;
    if env != [] {
      InVersionedKeys(env[..|env| - 1], item);
      assert env == env[..|env| - 1] + [env[|env| - 1]];
    }
  }

  /** Where key material comes from: a part of `ALE_MASTER_KEYS`, a versioned variable, the primary key or the old key. */
  lemma SourcesMeaning(env: Environ, item: KeyMaterial)
    ensures item in Sources(env) <==>
            || (exists list, part :: Given(env, "ALE_MASTER_KEYS", list) && part in SplitList(list) && item in PartKeys(part))
            || (exists variable | variable in env :: item in VariableKeys(variable))
            || (item.id == CurrentId(env) && item.key != "" && Given(env, "ALE_MASTER_KEY", item.key))
            || (item.id == "v0" && item.key != "" && Given(env, "ALE_MASTER_KEY_OLD", item.key))
  {
    hide Given, PartKeys, VariableKeys, CurrentId, Setting, SplitList;
    var listName, primaryName, oldName, none := "ALE_MASTER_KEYS", "ALE_MASTER_KEY", "ALE_MASTER_KEY_OLD", "";
    forall name: string, value: string
      ensures value != "" ==> (Given(env, name, value) <==> Setting(env, name, none) == value)
      ensures Given(env, name, value) ==> Setting(env, name, none) == value
    {
      SettingMeaning(env, name, value, none);
    }
    NothingListed();
    InListKeys(SplitList(Setting(env, listName, none)), item);
    InVersionedKeys(env, item);
  }

  lemma NothingListed()
    ensures forall part | part in SplitList("") :: PartKeys(part) == []
  {
    assert Split("", ';') == [""];
    assert TrimAt("", "", 0, 0);
    PartWithoutEquals("", "");
  }

  function Ids(keys: seq<KeyMaterial>): set<string> {
    set item | item in keys :: item.id
  }

  ghost predicate DistinctIds(keys: seq<KeyMaterial>) {
    forall i, j | 0 <= i < j < |keys| :: keys[i].id != keys[j].id
  }

  /** The value the last item of that id carries. */
  function LastKey(keys: seq<KeyMaterial>, id: string): string
    requires id in Ids(keys)
  {
    var last := keys[|keys| - 1];
    if last.id == id then last.key
    else
      assert forall item | item in keys && item.id == id :: item in keys[..|keys| - 1];
      LastKey(keys[..|keys| - 1], id)
  }

  /** The ring holds each id of the sources once, with the last value given for it. */
  ghost predicate KeepsLast(ring: seq<KeyMaterial>, keys: seq<KeyMaterial>) {
    && DistinctIds(ring) && Ids(ring) == Ids(keys)
    && forall item | item in ring :: item.id in Ids(keys) && item.key == LastKey(keys, item.id)
  }

  /** The ids in the order in which they first occur, which is the order of a Python dictionary. */
  function FirstIds(keys: seq<KeyMaterial>): seq<string> {
    if keys == [] then []
    else
      var before, id := FirstIds(keys[..|keys| - 1]), keys[|keys| - 1].id;
      if id in before then before else before + [id]
  }

  function IdsInOrder(ring: seq<KeyMaterial>): seq<string> {
    seq(|ring|, i requires 0 <= i < |ring| => ring[i].id)
  }

  /** The ids other than the current one. */
  function Others(ids: seq<string>, current: string): seq<string> {
    if ids == [] then []
    else
      var last := ids[|ids| - 1];
      Others(ids[..|ids| - 1], current) + if last == current then [] else [last]
  }

  /** `dedup[item.key_id] = item`: an id keeps its place and takes the new value; a new id goes to the end. */
  method Put(dedup: seq<KeyMaterial>, item: KeyMaterial) returns (r: seq<KeyMaterial>)
    requires DistinctIds(dedup)
    ensures DistinctIds(r) && Ids(r) == Ids(dedup) + {item.id}
    ensures forall other :: other in r <==> other == item || (other in dedup && other.id != item.id)
    ensures IdsInOrder(r) == IdsInOrder(dedup) + if item.id in Ids(dedup) then [] else [item.id]
  {
    for i := 0 to |dedup|
      invariant forall j | 0 <= j < i :: dedup[j].id != item.id
    {
      if dedup[i].id == item.id {
        r := dedup[i := item];
        forall other
          ensures other in r <==> other == item || (other in dedup && other.id != item.id)
        {
          assert r[i] == item;
          if other in dedup && other.id != item.id {
            var j :| 0 <= j < |dedup| && dedup[j] == other;
            assert r[j] == other;
          }
        }
        assert forall id :: id in Ids(r) <==> id in Ids(dedup);
        assert dedup[i] in dedup && IdsInOrder(r) == IdsInOrder(dedup);
        return;
      }
    }
    return dedup + [item];
  }

  lemma SameIds(ring: seq<KeyMaterial>)
    ensures forall id :: id in IdsInOrder(ring) <==> id in Ids(ring)
  {
    forall id | id in Ids(ring)
      ensures id in IdsInOrder(ring)
    {
      var i :| 0 <= i < |ring| && ring[i].id == id;
      assert IdsInOrder(ring)[i] == id;
    }
  }

  /** The deduplication loop. */
  method Deduplicate(keys: seq<KeyMaterial>) returns (dedup: seq<KeyMaterial>)
    ensures KeepsLast(dedup, keys) && IdsInOrder(dedup) == FirstIds(keys)
  {
    dedup := [];
    for k := 0 to |keys|
      invariant KeepsLast(dedup, keys[..k]) && IdsInOrder(dedup) == FirstIds(keys[..k])
    {
      SameIds(dedup);
      var before := dedup;
      dedup := Put(dedup, keys[k]);
      assert keys[..k + 1] == keys[..k] + [keys[k]];
      assert keys[..k + 1][..k] == keys[..k];
      assert Ids(keys[..k + 1]) == Ids(keys[..k]) + {keys[k].id};
    }
    assert keys[..|keys|] == keys;
  }

  /** The current key first, the others in their order. */
  method OrderRing(dedup: seq<KeyMaterial>, current: string) returns (ordered: seq<KeyMaterial>)
    requires DistinctIds(dedup)
    ensures DistinctIds(ordered) && forall item :: item in ordered <==> item in dedup
    ensures IdsInOrder(ordered) ==
            (if current in Ids(dedup) then [current] else []) + Others(IdsInOrder(dedup), current)
  {
    hide Others, IdsInOrder;
    var rest: seq<KeyMaterial> := [];
    var at: Option<nat> := None;
    OthersNone(dedup, current);
    for i := 0 to |dedup|
      invariant IdsInOrder(rest) == Others(IdsInOrder(dedup[..i]), current)
      invariant at.Some? ==> at.value < i && dedup[at.value].id == current
      invariant at.None? ==> forall j | 0 <= j < i :: dedup[j].id != current
      invariant forall item :: item in rest <==> item in dedup[..i] && item.id != current
      invariant DistinctIds(rest)
    {
      assert dedup[..i + 1] == dedup[..i] + [dedup[i]];
      OthersNext(dedup[..i], dedup[i], rest, current);
      if dedup[i].id == current {
        at := Some(i);
      } else {
        rest := rest + [dedup[i]];
      }
    }
    assert dedup[..|dedup|] == dedup;
    if at.None? {
      return rest;
    }
    IdsInFront(dedup[at.value], rest);
    assert forall item | item in dedup && item.id == current :: item == dedup[at.value];
    return [dedup[at.value]] + rest;
  }

  lemma OthersNone(dedup: seq<KeyMaterial>, current: string)
    ensures IdsInOrder([]) == Others(IdsInOrder(dedup[..0]), current)
  {
  }

  lemma OthersNext(before: seq<KeyMaterial>, next: KeyMaterial, rest: seq<KeyMaterial>, current: string)
    ensures Others(IdsInOrder(before + [next]), current) ==
            Others(IdsInOrder(before), current) + if next.id == current then [] else [next.id]
    ensures IdsInOrder(rest + [next]) == IdsInOrder(rest) + [next.id]
  {
    assert IdsInOrder(before + [next]) == IdsInOrder(before) + [next.id];
    assert (IdsInOrder(before) + [next.id])[..|before|] == IdsInOrder(before);
  }

  lemma IdsInFront(first: KeyMaterial, rest: seq<KeyMaterial>)
    ensures IdsInOrder([first] + rest) == [first.id] + IdsInOrder(rest)
  {
  }

  /** What the environment describes; `_instance` keeps it for the life of the process. */
  class Ale {
    var instance: Option<Service>

    constructor ()
      ensures instance == None
    {
      instance := None;
    }

    /** `get_encryption_service`; the ghost result is the ring the new service was made from. */
    method GetEncryptionService(c: Crypto, env: Environ) returns (r: Result<Service, ConfigError>, ghost ring: seq<KeyMaterial>)
      modifies this
      ensures old(instance).Some? ==> r == Ok(old(instance).value) && instance == old(instance)
      ensures old(instance).None? ==> instance == if r.Ok? then Some(r.value) else None
      ensures old(instance).None? ==>
                (r.Ok? <==> VersionMatch(CurrentId(env)) && CurrentId(env) in Ids(Sources(env)) &&
                            |Strip(Setting(env, "ALE_KDF_SALT", ""))| >= 16)
      ensures old(instance).None? && r.Ok? ==>
                KeepsLast(ring, Sources(env)) &&
                IdsInOrder(ring) == [CurrentId(env)] + Others(FirstIds(Sources(env)), CurrentId(env)) &&
                r.value == MakeService(c, ring, CurrentId(env), Strip(Setting(env, "ALE_KDF_SALT", "")))
    {
      ring := [];
      if instance.Some? {
        return Ok(instance.value), ring;
      }
      var current := CurrentId(env);
      if !VersionMatch(current) {
        return Err(BadVersion), ring;
      }
      var keys := CollectKeys(env, current);
      if keys == [] {
        return Err(NoKeys), ring;
      }
      var dedup := Deduplicate(keys);
      var ordered := OrderRing(dedup, current);
      SameItemsSameIds(dedup, ordered);
      if current !in Ids(ordered) {
        return Err(MissingCurrent), ring;
      }
      var salt := Strip(Setting(env, "ALE_KDF_SALT", ""));
      if |salt| < 16 {
        return Err(BadSalt), ring;
      }
      ring := ordered;
      instance := Some(MakeService(c, ordered, current, salt));
      return Ok(instance.value), ring;
    }

    /** The three appending passes over the sources. */
    method CollectKeys(env: Environ, current: string) returns (keys: seq<KeyMaterial>)
      requires current == CurrentId(env)
      ensures keys == Sources(env)
    {
      hide PartKeys, VariableKeys, Setting, SplitList, CurrentId;
      keys := [];
      var list := Setting(env, "ALE_MASTER_KEYS", "");
      ghost var fromList: seq<KeyMaterial> := [];
      if list != "" {
        var parts := SplitList(list);
        for k := 0 to |parts|
          invariant keys == ListKeys(parts[..k])
        {
          assert parts[..k + 1][..k] == parts[..k];
          keys := keys + PartKeys(parts[k]);
        }
        assert parts[..|parts|] == parts;
        fromList := ListKeys(parts);
      }
      for k := 0 to |env|
        invariant keys == fromList + VersionedKeys(env[..k])
      {
        assert env[..k + 1][..k] == env[..k];
        keys := keys + VariableKeys(env[k]);
      }
      assert env[..|env|] == env;
      var primary := Setting(env, "ALE_MASTER_KEY", "");
      if primary != "" {
        keys := keys + [KeyMaterial(current, primary)];
      }
      var legacy := Setting(env, "ALE_MASTER_KEY_OLD", "");
      if legacy != "" {
        keys := keys + [KeyMaterial("v0", legacy)];
      }
    }
  }

  lemma SameItemsSameIds(a: seq<KeyMaterial>, b: seq<KeyMaterial>)
    requires forall item :: item in b <==> item in a
    ensures Ids(a) == Ids(b)
  {
  }

  lemma {:induction false} DerivedAt(c: Crypto, ring: seq<KeyMaterial>, salt: string, id: string)
    ensures id in DerivedKeys(c, ring, salt) <==> id in Ids(ring)
    ensures id in Ids(ring) ==> DerivedKeys(c, ring, salt)[id] == c.derive(LastKey(ring, id), salt)
  {
    if ring != [] {
      DerivedAt(c, ring[..|ring| - 1], salt, id);
      assert ring == ring[..|ring| - 1] + [ring[|ring| - 1]];
      assert Ids(ring) == Ids(ring[..|ring| - 1]) + {ring[|ring| - 1].id};
    }
  }

  lemma {:induction false} DistinctLast(ring: seq<KeyMaterial>, item: KeyMaterial)
    requires DistinctIds(ring) && item in ring
    ensures item.id in Ids(ring) && LastKey(ring, item.id) == item.key
  {
    var last := ring[|ring| - 1];
    if last.id != item.id {
      assert item in ring[..|ring| - 1];
      DistinctLast(ring[..|ring| - 1], item);
    }
  }

  /**
   * A configured service is well formed, and under every id holds the key derived from the last value the sources
   * give for that id; so it satisfies the premises of the rotation theorem.
   */
  lemma ConfiguredService(c: Crypto, env: Environ, ring: seq<KeyMaterial>, salt: string)
    requires KeepsLast(ring, Sources(env)) && CurrentId(env) in Ids(Sources(env)) && VersionMatch(CurrentId(env))
    ensures var svc := MakeService(c, ring, CurrentId(env), salt);
            GoodService(svc) && svc.keys.Keys == Ids(Sources(env)) &&
            forall id | id in svc.keys :: svc.keys[id] == c.derive(LastKey(Sources(env), id), salt)
  {
    hide Sources, CurrentId;
    var svc := MakeService(c, ring, CurrentId(env), salt);
    forall id
      ensures id in svc.keys <==> id in Ids(Sources(env))
      ensures id in svc.keys ==> svc.keys[id] == c.derive(LastKey(Sources(env), id), salt)
      ensures id in svc.order <==> id in Ids(ring)
    {
      DerivedAt(c, ring, salt, id);
      if id in Ids(ring) {
        var item :| item in ring && item.id == id;
        DistinctLast(ring, item);
        var i :| 0 <= i < |ring| && ring[i] == item;
        assert svc.order[i] == id;
      }
    }
    StrippedVersion(env);
  }

  /** The current id has no trailing line end, so the version pattern means what it says. */
  lemma StrippedVersion(env: Environ)
    requires VersionMatch(CurrentId(env))
    ensures IsVersion(CurrentId(env))
  {
    var raw := Setting(env, "ALE_KEY_VERSION", "v1");
    StripEnds(raw);
  }
}
