/** Search secrets by tenant and key version: core/blind_index.py. */
module BlindIndex {
  import opened Keyring
  import opened Outcomes
  import opened Text

  /** `_normalize_key_version` */
  function NormalizeKeyVersion(raw: Option<string>, default: string): string {
    var value := Lower(Strip(if raw.Some? then raw.value else ""));
    if value == "" || !VersionMatch(value) then default else value
  }

  const GLOBAL_SCOPE := "global"
  const AGENCY_SCOPE := "agency:"
  const SEARCH_MARK := ":search:"

  function TenantScope(agency: Option<int>): string {
    if agency.None? then GLOBAL_SCOPE else AGENCY_SCOPE + Decimal(agency.value)
  }

  /** The message `_derive_tenant_secret` authenticates; version 1 keeps its old form. */
  function Message(agency: Option<int>, version: string): string {
    if version == "v1" then TenantScope(agency) else TenantScope(agency) + SEARCH_MARK + version
  }

  /** `_derive_tenant_secret`, over an abstract HMAC. */
  function DeriveTenantSecret(hmac: (string, string) -> string, master: string, agency: Option<int>, version: string): string {
    hmac(master, Message(agency, version))
  }

  /** What a scope has before its number, if it has one. */
  lemma ScopeShape(agency: Option<int>)
    ensures TenantScope(agency) != "" && (agency.None? ==> TenantScope(agency)[0] == 'g')
    ensures agency.Some? ==> TenantScope(agency)[0] == 'a' && TenantScope(agency)[..7] == AGENCY_SCOPE &&
                             TenantScope(agency)[7..] == Decimal(agency.value)
    ensures agency.Some? ==> ':' !in Decimal(agency.value)
  {
  }

  /** The length of the text before the first colon from position `from` on. */
  function FreeOfColon(s: string, from: nat): nat
    requires from <= |s|
  {
    ColonAt(s[from..])
  }

  lemma ScopeBody(agency: Option<int>)
    ensures var scope, from := TenantScope(agency), if agency.None? then 0 else 7;
            from <= |scope| && ':' !in scope[from..]
  {
    ScopeShape(agency);
    if agency.None? {
      assert TenantScope(agency)[0..] == GLOBAL_SCOPE;
    }
  }

  lemma MessageScope(agency: Option<int>, version: string)
    requires IsVersion(version)
    ensures var m, scope := Message(agency, version), TenantScope(agency);
            var from := if agency.None? then 0 else 7;
            from <= |scope| <= |m| && scope <= m && FreeOfColon(m, from) == |scope| - from &&
            m[|scope|..] == if version == "v1" then "" else SEARCH_MARK + version
  {
    hide IsVersion;
    ScopeShape(agency);
    var m, scope := Message(agency, version), TenantScope(agency);
    var from := if agency.None? then 0 else 7;
    var body := scope[from..];
    ScopeBody(agency);
    if version == "v1" {
      NoColon(body);
    } else {
      var tail := "search:" + version;
      assert m[from..] == body + ":" + tail;
      ColonAtPrefix(body, tail);
    }
  }

  /** Different tenants or different versions never share a message, version 1 included. */
  lemma MessageInjective(agency: Option<int>, version: string, agency': Option<int>, version': string)
    requires IsVersion(version) && IsVersion(version')
    requires Message(agency, version) == Message(agency', version')
    ensures agency == agency' && version == version'
  {
    hide TenantScope, Message, IsVersion;
    ScopeShape(agency);
    ScopeShape(agency');
    MessageScope(agency, version);
    MessageScope(agency', version');
    var m := Message(agency, version);
    assert m[0] == TenantScope(agency)[0] == TenantScope(agency')[0];
    assert TenantScope(agency) == m[..|TenantScope(agency)|] == TenantScope(agency');
    if agency.Some? {
      DecimalInjective(agency.value, agency'.value);
    }
    VersionRead(version, version', m[|TenantScope(agency)|..]);
  }

  lemma VersionRead(version: string, version': string, rest: string)
    requires rest == if version == "v1" then "" else SEARCH_MARK + version
    requires rest == if version' == "v1" then "" else SEARCH_MARK + version'
    ensures version == version'
  {
    if rest != "" {
      assert rest[8..] == version && rest[8..] == version';
    }
  }

  /***** Rotation windows *****/

  /** `ALE_SEARCH_KEY_VERSION` and `ALE_SEARCH_KEY_PREVIOUS_VERSION`. */
  datatype SearchConfig = SearchConfig(version: Option<string>, previous: Option<string>)

  function SearchKeyVersion(config: SearchConfig): string {
    NormalizeKeyVersion(config.version, "v1")
  }

  function PreviousSearchKeyVersion(config: SearchConfig): Option<string> {
    var previous := NormalizeKeyVersion(config.previous, "");
    if previous == "" || previous == SearchKeyVersion(config) then None else Some(previous)
  }

  /** `get_search_secret`; without a version it is the secret new rows are written with. */
  function SearchSecret(hmac: (string, string) -> string, master: string, agency: Option<int>, config: SearchConfig, version: Option<string>): string {
    DeriveTenantSecret(hmac, master, agency, NormalizeKeyVersion(version, SearchKeyVersion(config)))
  }

  /** What the secret set of a configuration holds. */
  predicate InSecretSet(hmac: (string, string) -> string, master: string, agency: Option<int>, config: SearchConfig, secret: string) {
    || secret == DeriveTenantSecret(hmac, master, agency, SearchKeyVersion(config))
    || (PreviousSearchKeyVersion(config).Some? &&
        secret == DeriveTenantSecret(hmac, master, agency, PreviousSearchKeyVersion(config).value))
  }

  lemma VersionFixed(v: string)
    requires IsVersion(v)
    ensures Strip(v) == v && Lower(v) == v
  {
    StripFixed(v);
  }

  /** Normalisation gives the default or a version, and leaves versions alone. */
  lemma NormalizeShape(raw: Option<string>, default: string)
    ensures NormalizeKeyVersion(raw, default) == default || IsVersion(NormalizeKeyVersion(raw, default))
    ensures raw.Some? && IsVersion(raw.value) ==> NormalizeKeyVersion(raw, default) == raw.value
    ensures raw.None? ==> NormalizeKeyVersion(raw, default) == default
  {
    if raw.Some? {
      var stripped := Strip(raw.value);
      StripEnds(raw.value);
      assert stripped != "" ==> Lower(stripped)[|stripped| - 1] == LowerChar(stripped[|stripped| - 1]);
      if IsVersion(raw.value) {
        VersionFixed(raw.value);
      }
    }
  }

  /***** Which versions a configuration names *****/

  /** The setting names this version, space around it and letter case aside. */
  ghost predicate Names(setting: Option<string>, version: string) {
    IsVersion(version) && setting.Some? && exists text :: IsTrim(setting.value, text) && Lower(text) == version
  }

  /** New rows are written under this version: the one that is named, or `v1` if none is. */
  ghost predicate Current(config: SearchConfig, version: string) {
    Names(config.version, version) || (version == "v1" && forall other :: !Names(config.version, other))
  }

  lemma NormalizeMeaning(raw: Option<string>, default: string, version: string)
    ensures Names(raw, version) ==> NormalizeKeyVersion(raw, default) == version
    ensures (forall other :: !Names(raw, other)) ==> NormalizeKeyVersion(raw, default) == default
    ensures NormalizeKeyVersion(raw, default) == version ==> Names(raw, version) || version == default
  {
    hide Strip, IsTrim, IsVersion;
    NoVersionEmpty();
    NormalizeNone(raw, default);
    if raw.Some? {
      var stripped := Strip(raw.value);
      StripIsTrim(raw.value);
      StripEnds(raw.value);
      assert stripped != "" ==> Lower(stripped)[|stripped| - 1] == LowerChar(stripped[|stripped| - 1]);
      forall text | IsTrim(raw.value, text)
        ensures text == stripped
      {
        TrimUnique(raw.value, text);
      }
      assert IsVersion(Lower(stripped)) ==> Names(raw, Lower(stripped));
    }
  }

  lemma NoVersionEmpty()
    ensures !IsVersion("")
  {
  }

  lemma NormalizeNone(raw: Option<string>, default: string)
    ensures raw.None? ==> NormalizeKeyVersion(raw, default) == default
  {
  }

  lemma CurrentMeaning(config: SearchConfig, version: string)
    ensures Current(config, version) <==> SearchKeyVersion(config) == version
  {
    hide Names, NormalizeKeyVersion;
    var found := NormalizeKeyVersion(config.version, "v1");
    NormalizeMeaning(config.version, "v1", version);
    NormalizeMeaning(config.version, "v1", found);
    forall other
      ensures Names(config.version, other) ==> other == found
    {
      NormalizeMeaning(config.version, "v1", other);
    }
  }

  /** The previous version counts when it is named and is not the current one. */
  lemma PreviousMeaning(config: SearchConfig, version: string)
    ensures PreviousSearchKeyVersion(config) == Some(version) <==> Names(config.previous, version) && !Current(config, version)
  {
    hide Names, Current, NormalizeKeyVersion, SearchKeyVersion;
    CurrentMeaning(config, version);
    NormalizeMeaning(config.previous, "", version);
    NormalizeMeaning(config.previous, "", NormalizeKeyVersion(config.previous, ""));
    NothingNamesEmpty(config.previous);
  }

  lemma NothingNamesEmpty(setting: Option<string>)
    ensures !Names(setting, "")
  {
  }

  /** The authenticated message, letter by letter what earlier rows were written with. */
  lemma MessageText(agency: int, version: string)
    ensures Message(None, "v1") == "global" && Message(Some(agency), "v1") == "agency:" + Decimal(agency)
    ensures version != "v1" ==> Message(None, version) == "global:search:" + version
    ensures version != "v1" ==> Message(Some(agency), version) == "agency:" + Decimal(agency) + ":search:" + version
  {
    hide Decimal;
  }

  lemma VersionsAreVersions(config: SearchConfig)
    ensures IsVersion(SearchKeyVersion(config))
    ensures PreviousSearchKeyVersion(config).Some? ==> IsVersion(PreviousSearchKeyVersion(config).value)
  {
    hide NormalizeKeyVersion;
    NormalizeShape(config.version, "v1");
    NormalizeShape(config.previous, "");
  }

  lemma SecretOfVersion(hmac: (string, string) -> string, master: string, agency: Option<int>, config: SearchConfig, version: string)
    requires IsVersion(version)
    ensures SearchSecret(hmac, master, agency, config, Some(version)) == DeriveTenantSecret(hmac, master, agency, version)
    ensures SearchSecret(hmac, master, agency, config, None) == DeriveTenantSecret(hmac, master, agency, SearchKeyVersion(config))
  {
    hide NormalizeKeyVersion, IsVersion, Message;
    NormalizeShape(Some(version), SearchKeyVersion(config));
    NormalizeShape(None, SearchKeyVersion(config));
  }

  /** `get_search_secret_set`: the current secret first, then the previous one if it is another. */
  method SearchSecretSet(hmac: (string, string) -> string, master: string, agency: Option<int>, config: SearchConfig)
    returns (secrets: seq<string>)
    ensures 1 <= |secrets| <= 2 && (|secrets| == 2 ==> secrets[0] != secrets[1])
    ensures secrets[0] == SearchSecret(hmac, master, agency, config, None)
    ensures forall secret :: secret in secrets <==> InSecretSet(hmac, master, agency, config, secret)
  {
    hide NormalizeKeyVersion, IsVersion, DeriveTenantSecret, SearchSecret, SearchKeyVersion, PreviousSearchKeyVersion;
    VersionsAreVersions(config);
    var current := SearchKeyVersion(config);
    var versions := [current];
    var previous := PreviousSearchKeyVersion(config);
    if previous.Some? {
      versions := versions + [previous.value];
    }
    secrets := [];
    for k := 0 to |versions|
      invariant |secrets| <= k && (k > 0 ==> |secrets| > 0)
      invariant |secrets| == 2 ==> secrets[0] != secrets[1]
      invariant k > 0 ==> secrets[0] == DeriveTenantSecret(hmac, master, agency, current)
      invariant forall secret :: secret in secrets <==>
                  exists j | 0 <= j < k :: secret == DeriveTenantSecret(hmac, master, agency, versions[j])
    {
      SecretOfVersion(hmac, master, agency, config, versions[k]);
      var secret := SearchSecret(hmac, master, agency, config, Some(versions[k]));
      if secret !in secrets {
        secrets := secrets + [secret];
      }
    }
    SecretOfVersion(hmac, master, agency, config, current);
    assert versions[0] == current && (previous.Some? ==> versions[1] == previous.value);
  }

  /**
   * Rows written under a version are found by a reader whose current version it is or who names it as the previous
   * one; if HMAC does not collide under this master secret, only by such a reader.
   */
  lemma RowCovered(hmac: (string, string) -> string, master: string, agency: Option<int>, writer: SearchConfig, version: string, reader: SearchConfig)
    requires Current(writer, version)
    ensures Current(reader, version) || Names(reader.previous, version) ==>
              InSecretSet(hmac, master, agency, reader, SearchSecret(hmac, master, agency, writer, None))
    ensures (forall m, m' :: hmac(master, m) == hmac(master, m') ==> m == m') &&
            InSecretSet(hmac, master, agency, reader, SearchSecret(hmac, master, agency, writer, None)) ==>
              Current(reader, version) || Names(reader.previous, version)
  {
    hide NormalizeKeyVersion, IsVersion, Message, SearchKeyVersion, PreviousSearchKeyVersion, SearchSecret, Names, Current;
    CurrentMeaning(writer, version);
    CurrentMeaning(reader, version);
    PreviousMeaning(reader, version);
    VersionsAreVersions(writer);
    VersionsAreVersions(reader);
    SecretOfVersion(hmac, master, agency, writer, version);
    if Message(agency, version) == Message(agency, SearchKeyVersion(reader)) {
      MessageInjective(agency, version, agency, SearchKeyVersion(reader));
    }
    if PreviousSearchKeyVersion(reader).Some? && Message(agency, version) == Message(agency, PreviousSearchKeyVersion(reader).value) {
      MessageInjective(agency, version, agency, PreviousSearchKeyVersion(reader).value);
    }
  }

  /** And no row written for one tenant is ever found for another, whatever the versions. */
  lemma TenantsApart(hmac: (string, string) -> string, master: string, agency: Option<int>, other: Option<int>,
                     writer: SearchConfig, reader: SearchConfig)
    requires agency != other && forall m, m' :: hmac(master, m) == hmac(master, m') ==> m == m'
    ensures !InSecretSet(hmac, master, other, reader, SearchSecret(hmac, master, agency, writer, None))
  {
    hide NormalizeKeyVersion, IsVersion, Message, SearchKeyVersion, PreviousSearchKeyVersion, SearchSecret;
    VersionsAreVersions(writer);
    VersionsAreVersions(reader);
    var version := SearchKeyVersion(writer);
    SecretOfVersion(hmac, master, agency, writer, version);
    forall v | IsVersion(v)
      ensures Message(agency, version) != Message(other, v)
    {
      if Message(agency, version) == Message(other, v) {
        MessageInjective(agency, version, other, v);
      }
    }
  }
}
