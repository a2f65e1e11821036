/** Versioned encryption keys: core/encryption.py, over an abstract cipher. */
module Keyring {
  import opened FileTree
  import opened Outcomes
  import opened Text

  /***** The cipher *****/

  /** PBKDF2, AES-GCM, base64 and UTF-8 as functions; a failed call is None. */
  datatype Crypto = Crypto(
    derive: (string, string) -> Bytes,
    seal: (Bytes, Bytes, Bytes) -> Bytes,
    open: (Bytes, Bytes, Bytes) -> Option<Bytes>,
    encode64: Bytes -> string,
    decode64: string -> Option<Bytes>,
    toUtf8: string -> Option<Bytes>,
    fromUtf8: Bytes -> Option<string>)

  /**
   * Opening undoes sealing and refuses any other key (NIST SP 800-38D, sections 7.1 and 7.2); base64 round trips and
   * its alphabet has no colon (RFC 4648, section 4); UTF-8 round trips.
   */
  ghost predicate Lawful(c: Crypto) {
    && (forall k, n, p :: c.open(k, n, c.seal(k, n, p)) == Some(p))
    && (forall k, k', n, p :: k != k' ==> c.open(k', n, c.seal(k, n, p)) == None)
    && (forall b :: c.decode64(c.encode64(b)) == Some(b) && ':' !in c.encode64(b) && (c.encode64(b) == "" <==> b == []))
    && (forall s :: c.toUtf8(s).Some? ==> c.fromUtf8(c.toUtf8(s).value) == Some(s))
  }

  datatype AleError = EncryptionFailed | DecryptionFailed | UnknownVersion | AllKeysFailed

  const NONCE := 12

  /** `EncryptionService.encrypt_raw`, with the random nonce as an argument. */
  function EncryptRaw(c: Crypto, key: Bytes, nonce: Bytes, plaintext: string): Result<string, AleError>
    requires |nonce| == NONCE
  {
    if plaintext == "" then Ok("")
    else
      match c.toUtf8(plaintext)
      case None => Err(EncryptionFailed)
      case Some(data) => Ok(c.encode64(nonce + c.seal(key, nonce, data)))
  }

  /** `EncryptionService.decrypt_raw` */
  function DecryptRaw(c: Crypto, key: Bytes, token: string): Result<string, AleError> {
    if token == "" then Ok("")
    else
      match c.decode64(token)
      case None => Err(DecryptionFailed)
      case Some(combined) =>
        if |combined| < NONCE then Err(DecryptionFailed)
        else
          match c.open(key, combined[..NONCE], combined[NONCE..])
          case None => Err(DecryptionFailed)
          case Some(data) =>
            match c.fromUtf8(data)
            case None => Err(DecryptionFailed)
            case Some(text) => Ok(text)
  }

  /** A raw token decrypts to its plaintext under its own key, and under no other. */
  lemma RawRoundTrip(c: Crypto, key: Bytes, nonce: Bytes, plaintext: string, other: Bytes)
    requires Lawful(c) && |nonce| == NONCE && plaintext != "" && EncryptRaw(c, key, nonce, plaintext).Ok?
    ensures var token := EncryptRaw(c, key, nonce, plaintext).value;
            token != "" && ':' !in token && DecryptRaw(c, other, token) == if other == key then Ok(plaintext) else Err(DecryptionFailed)
  {
    var data := c.toUtf8(plaintext).value;
    var combined := nonce + c.seal(key, nonce, data);
    assert combined[..NONCE] == nonce && combined[NONCE..] == c.seal(key, nonce, data);
  }

  /***** The keyring *****/

  datatype KeyMaterial = KeyMaterial(id: string, key: string)

  /** `KeyringEncryptionService`: derived keys by id, in the order in which untagged text is tried. */
  datatype Service = Service(current: string, keys: map<string, Bytes>, order: seq<string>)

  /** The constructor of `KeyringEncryptionService`. */
  function MakeService(c: Crypto, materials: seq<KeyMaterial>, current: string, salt: string): Service {
    Service(current, DerivedKeys(c, materials, salt), seq(|materials|, i requires 0 <= i < |materials| => materials[i].id))
  }

  function DerivedKeys(c: Crypto, materials: seq<KeyMaterial>, salt: string): map<string, Bytes> {
    if materials == [] then map[]
    else
      var last := materials[|materials| - 1];
      DerivedKeys(c, materials[..|materials| - 1], salt)[last.id := c.derive(last.key, salt)]
  }

  /** `^v\d+$` on a text without a line end. */
  predicate IsVersion(s: string) {
    |s| >= 2 && s[0] == 'v' && forall i | 1 <= i < |s| :: IsDigit(s[i])
  }

  /** `_VERSION_RE.match`: the dollar sign also matches before a final line end. */
  predicate VersionMatch(s: string) {
    IsVersion(s) || (s != "" && s[|s| - 1] == '\n' && IsVersion(s[..|s| - 1]))
  }

  ghost predicate GoodService(svc: Service) {
    && IsVersion(svc.current) && svc.current in svc.keys
    && (forall id :: id in svc.keys <==> id in svc.order)
  }

  function Encrypt(c: Crypto, svc: Service, nonce: Bytes, plaintext: string): Result<string, AleError>
    requires svc.current in svc.keys && |nonce| == NONCE
  {
    if plaintext == "" then Ok("")
    else
      var token :- EncryptRaw(c, svc.keys[svc.current], nonce, plaintext);
      Ok(svc.current + ":" + token)
  }

  /** The position of the first colon, or the length. */
  function ColonAt(s: string): (i: nat)
    ensures i <= |s|
    ensures (forall j | 0 <= j < i :: s[j] != ':') && (i < |s| ==> s[i] == ':')
  {
    if s == "" || s[0] == ':' then 0 else 1 + ColonAt(s[1..])
  }

  /** The first key, in order, under which the text decrypts. */
  function TryAll(c: Crypto, keys: map<string, Bytes>, order: seq<string>, text: string): Result<string, AleError>
    requires forall id | id in order :: id in keys
  {
    if order == [] then Err(AllKeysFailed)
    else if DecryptRaw(c, keys[order[0]], text).Ok? then DecryptRaw(c, keys[order[0]], text)
    else TryAll(c, keys, order[1..], text)
  }

  /** What `decrypt` returns. */
  function Decrypted(c: Crypto, svc: Service, text: string): Result<string, AleError>
    requires forall id | id in svc.order :: id in svc.keys
  {
    var i := ColonAt(text);
    if text == "" then Ok("")
    else if i < |text| && text[..i] in svc.keys && text[i + 1..] != "" then DecryptRaw(c, svc.keys[text[..i]], text[i + 1..])
    else if i < |text| && VersionMatch(text[..i]) then Err(UnknownVersion)
    else TryAll(c, svc.keys, svc.order, text)
  }

  /**
   * What is stored: the current id, a colon, and the base64 form of the nonce followed by the sealed text. The empty text
   * is stored as it is.
   */
  lemma TokenFormat(c: Crypto, svc: Service, nonce: Bytes, plaintext: string)
    requires svc.current in svc.keys && |nonce| == NONCE && forall id | id in svc.order :: id in svc.keys
    ensures Encrypt(c, svc, nonce, "") == Ok("") && Decrypted(c, svc, "") == Ok("")
    ensures plaintext != "" ==>
              Encrypt(c, svc, nonce, plaintext) ==
              match c.toUtf8(plaintext)
              case None => Err(EncryptionFailed)
              case Some(data) => Ok(svc.current + ":" + c.encode64(nonce + c.seal(svc.keys[svc.current], nonce, data)))
    ensures NONCE == 12
  {
  }

  /** `KeyringEncryptionService.decrypt` */
  method Decrypt(c: Crypto, svc: Service, text: string) returns (r: Result<string, AleError>)
    requires forall id | id in svc.order :: id in svc.keys
    ensures r == Decrypted(c, svc, text)
  {
    if text == "" {
      return Ok("");
    }
    var colon := ColonAt(text);
    if colon < |text| {
      var id, payload := text[..colon], text[colon + 1..];
      if id in svc.keys && payload != "" {
        return DecryptRaw(c, svc.keys[id], payload);
      }
      if VersionMatch(id) {
        return Err(UnknownVersion);
      }
    }
    for k := 0 to |svc.order|
      invariant TryAll(c, svc.keys, svc.order[k..], text) == TryAll(c, svc.keys, svc.order, text)
    {
      var attempt := DecryptRaw(c, svc.keys[svc.order[k]], text);
      if attempt.Ok? {
        return attempt;
      }
      assert svc.order[k..][1..] == svc.order[k + 1..];
    }
    return Err(AllKeysFailed);
  }

  lemma ColonAtPrefix(id: string, rest: string)
    requires ':' !in id
    ensures ColonAt(id + ":" + rest) == |id|
  {
    var s := id + ":" + rest;
    assert s[|id|] == ':' && forall j | 0 <= j < |id| :: s[j] == id[j] && id[j] in id;
  }

  lemma NoColon(s: string)
    requires ':' !in s
    ensures ColonAt(s) == |s|
  {
  }

  /**
   * A ciphertext made under one keyring decrypts to its plaintext under another exactly when that one still holds the
   * same derived key under the same id. Without the id it is refused as unknown; with another key it fails.
   */
  lemma TaggedExact(c: Crypto, writer: Service, reader: Service, nonce: Bytes, plaintext: string)
    requires Lawful(c) && GoodService(writer) && GoodService(reader) && |nonce| == NONCE && plaintext != ""
    requires Encrypt(c, writer, nonce, plaintext).Ok?
    ensures var text, id := Encrypt(c, writer, nonce, plaintext).value, writer.current;
            Decrypted(c, reader, text) ==
            if id !in reader.keys then Err(UnknownVersion)
            else if reader.keys[id] == writer.keys[id] then Ok(plaintext)
            else Err(DecryptionFailed)
  {
    hide Lawful, EncryptRaw, DecryptRaw, TryAll;
    var id, key := writer.current, writer.keys[writer.current];
    var token := EncryptRaw(c, key, nonce, plaintext).value;
    var text := id + ":" + token;
    VersionHasNoColon(id);
    ColonAtPrefix(id, token);
    assert text[..|id|] == id && text[|id| + 1..] == token;
    if id in reader.keys {
      RawRoundTrip(c, key, nonce, plaintext, reader.keys[id]);
    } else {
      RawRoundTrip(c, key, nonce, plaintext, key);
    }
  }

  lemma VersionHasNoColon(id: string)
    requires IsVersion(id)
    ensures ':' !in id
  {
  }

  lemma {:induction false} TryAllExact(c: Crypto, keys: map<string, Bytes>, order: seq<string>, key: Bytes, nonce: Bytes, plaintext: string)
    requires Lawful(c) && |nonce| == NONCE && plaintext != "" && EncryptRaw(c, key, nonce, plaintext).Ok?
    requires forall id | id in order :: id in keys
    ensures TryAll(c, keys, order, EncryptRaw(c, key, nonce, plaintext).value) ==
            if exists id | id in order :: keys[id] == key then Ok(plaintext) else Err(AllKeysFailed)
  {
    hide Lawful, EncryptRaw, DecryptRaw;
    if order != [] {
      RawRoundTrip(c, key, nonce, plaintext, keys[order[0]]);
      TryAllExact(c, keys, order[1..], key, nonce, plaintext);
      assert order == [order[0]] + order[1..];
    }
  }

  /** Untagged ciphertext decrypts under any keyring that holds its key, under any id and at any position. */
  lemma UntaggedExact(c: Crypto, reader: Service, key: Bytes, nonce: Bytes, plaintext: string)
    requires Lawful(c) && GoodService(reader) && |nonce| == NONCE && plaintext != "" && EncryptRaw(c, key, nonce, plaintext).Ok?
    ensures Decrypted(c, reader, EncryptRaw(c, key, nonce, plaintext).value) ==
            if key in reader.keys.Values then Ok(plaintext) else Err(AllKeysFailed)
  {
    hide Lawful, EncryptRaw, DecryptRaw, TryAll;
    RawRoundTrip(c, key, nonce, plaintext, key);
    NoColon(EncryptRaw(c, key, nonce, plaintext).value);
    TryAllExact(c, reader.keys, reader.order, key, nonce, plaintext);
    assert key in reader.keys.Values <==> exists id | id in reader.order :: reader.keys[id] == key;
  }

  /***** Rotation histories *****/

  /** What happens to a store of ciphertexts: the keyring changes, or something is written. */
  datatype Event = Rotate(next: Service) | Write(nonce: Bytes, plaintext: string)

  /** A stored ciphertext with what it stands for and the id and key it was made with. */
  datatype Entry = Entry(text: string, plaintext: string, id: string, key: Bytes)

  datatype Vault = Vault(svc: Service, entries: seq<Entry>)

  ghost predicate Possible(e: Event) {
    match e
    case Rotate(next) => GoodService(next)
    case Write(nonce, plaintext) => |nonce| == NONCE && plaintext != ""
  }

  /** One event; a write that cannot be encrypted stores nothing. */
  ghost function Next(c: Crypto, v: Vault, e: Event): Vault
    requires GoodService(v.svc) && Possible(e)
  {
    match e
    case Rotate(next) => v.(svc := next)
    case Write(nonce, plaintext) =>
      var text := Encrypt(c, v.svc, nonce, plaintext);
      if text.Err? then v
      else v.(entries := v.entries + [Entry(text.value, plaintext, v.svc.current, v.svc.keys[v.svc.current])])
  }

  ghost function Run(c: Crypto, v: Vault, events: seq<Event>): (r: Vault)
    requires GoodService(v.svc) && forall e | e in events :: Possible(e)
    ensures GoodService(r.svc)
  {
    if events == [] then v else Next(c, Run(c, v, events[..|events| - 1]), events[|events| - 1])
  }

  /** The keyring still holds the key of every stored ciphertext under its id. */
  ghost predicate Holds(svc: Service, entries: seq<Entry>) {
    forall e | e in entries :: e.id in svc.keys && svc.keys[e.id] == e.key
  }

  ghost predicate AllReadable(c: Crypto, v: Vault)
    requires GoodService(v.svc)
  {
    forall e | e in v.entries :: Decrypted(c, v.svc, e.text) == Ok(e.plaintext)
  }

  /** No entry is forged: each was written by some keyring that had its id as the current one. */
  ghost predicate Written(c: Crypto, entries: seq<Entry>) {
    forall e | e in entries ::
      exists writer: Service, nonce: Bytes :: WrittenBy(c, e, writer, nonce)
  }

  ghost predicate WrittenBy(c: Crypto, e: Entry, writer: Service, nonce: Bytes) {
    && GoodService(writer) && |nonce| == NONCE && e.plaintext != ""
    && Encrypt(c, writer, nonce, e.plaintext) == Ok(e.text)
    && writer.current == e.id && writer.keys[writer.current] == e.key
  }

  lemma {:induction false} RunWrites(c: Crypto, v: Vault, events: seq<Event>)
    requires GoodService(v.svc) && (forall e | e in events :: Possible(e)) && Written(c, v.entries)
    ensures Written(c, Run(c, v, events).entries)
  {
    hide Encrypt;
    if events != [] {
      var before, last := Run(c, v, events[..|events| - 1]), events[|events| - 1];
      RunWrites(c, v, events[..|events| - 1]);
      var after := Next(c, before, last);
      forall e | e in after.entries
        ensures exists writer: Service, nonce: Bytes :: WrittenBy(c, e, writer, nonce)
      {
        if e !in before.entries {
          assert WrittenBy(c, e, before.svc, last.nonce);
        }
      }
    }
  }

  /** A vault of written entries is readable exactly when its keyring holds all their keys. */
  lemma ReadableIffHeld(c: Crypto, v: Vault)
    requires Lawful(c) && GoodService(v.svc) && Written(c, v.entries)
    ensures AllReadable(c, v) <==> Holds(v.svc, v.entries)
  {
    hide Lawful, Encrypt, Decrypted;
    forall e | e in v.entries
      ensures Decrypted(c, v.svc, e.text) == Ok(e.plaintext) <==> e.id in v.svc.keys && v.svc.keys[e.id] == e.key
    {
      var writer, nonce :| WrittenBy(c, e, writer, nonce);
      TaggedExact(c, writer, v.svc, nonce, e.plaintext);
    }
  }

  /** The event after the first `k` does not drop a key in use. */
  ghost predicate KeepsKeys(c: Crypto, v: Vault, events: seq<Event>, k: nat)
    requires GoodService(v.svc) && (forall e | e in events :: Possible(e)) && k < |events|
  {
    events[k].Rotate? ==> Holds(events[k].next, Run(c, v, events[..k]).entries)
  }

  /** Every rotation of the run keeps the keys of what had been written by then. */
  ghost predicate Careful(c: Crypto, v: Vault, events: seq<Event>)
    requires GoodService(v.svc) && forall e | e in events :: Possible(e)
  {
    forall k | 0 <= k < |events| :: KeepsKeys(c, v, events, k)
  }

  /**
   * Rotation safety: over any run from an empty store, everything ever written is readable after every event
   * exactly when every rotation kept the keys in use.
   */
  lemma {:induction false} RotationSafety(c: Crypto, svc: Service, events: seq<Event>)
    requires Lawful(c) && GoodService(svc) && forall e | e in events :: Possible(e)
    ensures Careful(c, Vault(svc, []), events) <==>
            forall k | 0 <= k <= |events| :: AllReadable(c, Run(c, Vault(svc, []), events[..k]))
  {
    hide Lawful, GoodService, AllReadable, Written, Holds;
    var v := Vault(svc, []);
    forall k | 0 <= k <= |events|
      ensures AllReadable(c, Run(c, v, events[..k])) <==> HeldAfter(c, v, events, k)
    {
      NothingWritten(c);
      RunWrites(c, v, events[..k]);
      ReadableIffHeld(c, Run(c, v, events[..k]));
    }
    HeldThroughout(c, v, events);
  }

  lemma NothingWritten(c: Crypto)
    ensures Written(c, [])
  {
  }

  /** After `k` events the keyring holds the keys in use. */
  ghost predicate HeldAfter(c: Crypto, v: Vault, events: seq<Event>, k: nat)
    requires GoodService(v.svc) && (forall e | e in events :: Possible(e)) && k <= |events|
  {
    Holds(Run(c, v, events[..k]).svc, Run(c, v, events[..k]).entries)
  }

  lemma {:induction false} HeldUpTo(c: Crypto, v: Vault, events: seq<Event>, n: nat)
    requires GoodService(v.svc) && (forall e | e in events :: Possible(e)) && v.entries == [] && n <= |events|
    requires forall k | 0 <= k < n :: KeepsKeys(c, v, events, k)
    ensures HeldAfter(c, v, events, n)
  {
    if n > 0 {
      hide HeldAfter, KeepsKeys, GoodService, Possible;
      HeldUpTo(c, v, events, n - 1);
      HeldNext(c, v, events, n - 1);
    }
  }

  lemma HeldThroughout(c: Crypto, v: Vault, events: seq<Event>)
    requires GoodService(v.svc) && (forall e | e in events :: Possible(e)) && v.entries == []
    ensures Careful(c, v, events) <==> forall k | 0 <= k <= |events| :: HeldAfter(c, v, events, k)
  {
    hide HeldAfter, KeepsKeys, GoodService, Possible;
    if Careful(c, v, events) {
      forall k | 0 <= k <= |events|
        ensures HeldAfter(c, v, events, k)
      {
        HeldUpTo(c, v, events, k);
      }
    } else {
      var k :| 0 <= k < |events| && !KeepsKeys(c, v, events, k);
      HeldNext(c, v, events, k);
    }
  }

  lemma HeldNext(c: Crypto, v: Vault, events: seq<Event>, k: nat)
    requires GoodService(v.svc) && (forall e | e in events :: Possible(e)) && k < |events|
    ensures HeldAfter(c, v, events, k) && KeepsKeys(c, v, events, k) ==> HeldAfter(c, v, events, k + 1)
    ensures !KeepsKeys(c, v, events, k) ==> !HeldAfter(c, v, events, k + 1)
  {
    hide Encrypt;
    assert events[..k + 1][..k] == events[..k];
    assert events[k] in events;
  }
}
