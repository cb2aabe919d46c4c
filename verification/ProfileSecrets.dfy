/**
 The secrets of a CLI profile, cli/src/lib/config-storage.ts: which key opens them, and what the
 readers and writers of tokens, credentials and the API key do with it.

 Sealing is authenticated encryption, so a sealed value opens under exactly one key.
 */
module ProfileSecrets {
  import opened Wrappers

  type Key = int

  /** A stored string: sealed under a key, or something no key opens. */
  datatype Sealed = Sealed(key: Key, plain: string) | Garbage(text: string)

  predicate Opens(key: Key, s: Sealed) {
    s.Sealed? && s.key == key
  }

  /** Whether a stored string is truthy, that is, not empty. */
  predicate IsFilled(s: Option<Sealed>) {
    s.Some? && s.value != Garbage("")
  }

  datatype Token = Token(encrypted: Option<Sealed>, createdAt: string, updatedAt: string)

  /** A stored credential: a string as written here, or any other JSON value. */
  datatype Credential = Text(sealed: Sealed) | Other

  datatype Config = Config(
    tokens: map<string, Token>,
    credentials: map<string, Credential>,
    apiKey: Option<Sealed>,
    preferences: map<string, string>)

  datatype Source = Vault | Legacy

  datatype Candidate = Candidate(source: Source, key: Key)

  datatype Error =
    | VaultLocked
    | StaleKeyFile
    | CannotOpen
    | FailedToDecrypt(provider: string)

  // ---- choosing the key ------------------------------------------------------------

  function Candidates(vault: Option<Key>, keyFile: Option<Key>): seq<Candidate> {
    (if vault.Some? then [Candidate(Vault, vault.value)] else [])
    + (if keyFile.Some? then [Candidate(Legacy, keyFile.value)] else [])
  }

  function TokensFilled(config: Config): set<string> {
    set p | p in config.tokens && IsFilled(config.tokens[p].encrypted)
  }

  function CredentialsFilled(config: Config): set<string> {
    set p | p in config.credentials && config.credentials[p].Text? && config.credentials[p].sealed != Garbage("")
  }

  /** A value to test keys against: the API key, else some token, else some credential, else none. */
  ghost predicate IsProbe(config: Config, probe: Option<Sealed>) {
    if IsFilled(config.apiKey) then probe == config.apiKey
    else if TokensFilled(config) != {} then exists p :: p in TokensFilled(config) && probe == config.tokens[p].encrypted
    else if CredentialsFilled(config) != {} then
      exists p :: p in CredentialsFilled(config) && probe == Some(config.credentials[p].sealed)
    else probe == None
  }

  /** The first candidate that opens the probe; without a probe, the first candidate. */
  function Choice(candidates: seq<Candidate>, probe: Option<Sealed>): Option<Candidate> {
    if candidates == [] then None
    else if probe == None || Opens(candidates[0].key, probe.value) then Some(candidates[0])
    else Choice(candidates[1..], probe)
  }

  lemma {:induction false} ChoiceIsOneOf(candidates: seq<Candidate>, probe: Option<Sealed>)
    ensures Choice(candidates, probe).Some? ==> Choice(candidates, probe).value in candidates
  {
    if candidates == [] {
    } else {
      ChoiceIsOneOf(candidates[1..], probe);
    }
  }

  function StaleError(vaultFile: bool): Error {
    if vaultFile then StaleKeyFile else CannotOpen
  }

  /** How the readers report what is in the way: only an opaque failure names the provider. */
  function ReadError(e: Error, provider: string): Error {
    if e == CannotOpen then FailedToDecrypt(provider) else e
  }

  /** What the `encryptionKey` getter gives, with the key it has cached and the probe it took. */
  function KeyFor(
    cached: Option<Key>, vault: Option<Key>, keyFile: Option<Key>, vaultFile: bool, probe: Option<Sealed>)
    : Result<Key, Error>
  {
    var candidates := Candidates(vault, keyFile);
    if cached.Some? then Ok(cached.value)
    else if candidates == [] then Err(VaultLocked)
    else match Choice(candidates, probe)
      case Some(c) => Ok(c.key)
      case None => Err(StaleError(vaultFile))
  }

  // ---- profiles under one key ------------------------------------------------------

  predicate TokenUnder(t: Token, key: Key) {
    t.encrypted.Some? && Opens(key, t.encrypted.value)
  }

  predicate CredentialUnder(c: Credential, key: Key) {
    c.Text? && Opens(key, c.sealed)
  }

  /** Every secret of the profile is sealed under `key`. */
  ghost predicate UnderKey(config: Config, key: Key) {
    && (forall p :: p in config.tokens ==> TokenUnder(config.tokens[p], key))
    && (forall p :: p in config.credentials ==> CredentialUnder(config.credentials[p], key))
    && (config.apiKey.Some? ==> Opens(key, config.apiKey.value))
  }

  predicate HasSecret(config: Config) {
    config.tokens != map[] || config.credentials != map[] || config.apiKey.Some?
  }

  lemma ProbeIsUnderKey(config: Config, key: Key, probe: Option<Sealed>)
    requires UnderKey(config, key) && IsProbe(config, probe)
    ensures probe.Some? <==> HasSecret(config)
    ensures probe.Some? ==> Opens(key, probe.value)
  {
    if !IsFilled(config.apiKey) {
      if config.tokens != map[] {
        var p :| p in config.tokens;
        assert p in TokensFilled(config);
      } else if config.credentials != map[] {
        var p :| p in config.credentials;
        assert p in CredentialsFilled(config);
      }
    }
  }

  /** A secret opens under one key only, and so does the profile that holds it. */
  lemma SameKey(config: Config, key: Key, other: Key)
    requires UnderKey(config, key) && UnderKey(config, other) && HasSecret(config)
    ensures key == other
  {
    if config.tokens != map[] {
      var p :| p in config.tokens;
    } else if config.credentials != map[] {
      var p :| p in config.credentials;
    }
  }

  /** The getter finds the key of a profile sealed under one key exactly if it is at hand; it never gives another. */
  lemma GetterGivesTheKey(
      config: Config, key: Key, vault: Option<Key>, keyFile: Option<Key>, vaultFile: bool, probe: Option<Sealed>)
    requires UnderKey(config, key) && HasSecret(config) && IsProbe(config, probe)
    ensures var r := KeyFor(None, vault, keyFile, vaultFile, probe);
            && (r.Ok? ==> r.value == key)
            && (r.Ok? <==> vault == Some(key) || keyFile == Some(key))
            && (r == Err(VaultLocked) <==> vault == None && keyFile == None)
  {
    ProbeIsUnderKey(config, key, probe);
    var candidates := Candidates(vault, keyFile);
    var fromFile := if keyFile.Some? then [Candidate(Legacy, keyFile.value)] else [];
    assert Choice(fromFile, probe) == if keyFile == Some(key) then Some(Candidate(Legacy, key)) else None by {
      if keyFile.Some? {
        assert fromFile[1..] == [];
      }
    }
    if vault.Some? {
      assert candidates[1..] == fromFile;
    } else {
      assert candidates == fromFile;
    }
  }

  // ---- what a profile holds --------------------------------------------------------

  function Plain(s: Sealed): string {
    if s.Sealed? then s.plain else ""
  }

  /** The plaintexts a profile stands for. */
  datatype View = View(tokens: map<string, string>, credentials: map<string, string>, apiKey: Option<string>)

  function TokenPlain(t: Token): string {
    if t.encrypted.Some? then Plain(t.encrypted.value) else ""
  }

  function CredentialPlain(c: Credential): string {
    if c.Text? then Plain(c.sealed) else ""
  }

  function ViewOf(config: Config): View {
    View(
      map p | p in config.tokens :: TokenPlain(config.tokens[p]),
      map p | p in config.credentials :: CredentialPlain(config.credentials[p]),
      if config.apiKey.Some? then Some(Plain(config.apiKey.value)) else None)
  }

  predicate IsEmpty(view: View) {
    view.tokens == map[] && view.credentials == map[] && view.apiKey == None
  }

  lemma EmptyHasNoSecret(config: Config)
    ensures IsEmpty(ViewOf(config)) <==> !HasSecret(config)
  {
    assert config.tokens != map[] ==> ViewOf(config).tokens.Keys == config.tokens.Keys;
    assert config.credentials != map[] ==> ViewOf(config).credentials.Keys == config.credentials.Keys;
  }

  /** One key for every secret of the profile, and it is the one cached, if any is. */
  ghost predicate Consistent(config: Config, cached: Option<Key>) {
    exists key :: UnderKey(config, key) && (cached.Some? ==> cached.value == key)
  }

  /** What is left after a removal is under each key the whole was, and reads as it did. */
  lemma RemovalKeepsKeys(was: Config, p: string)
    ensures forall key :: UnderKey(was, key) ==>
      UnderKey(was.(tokens := was.tokens - {p}), key) && UnderKey(was.(credentials := was.credentials - {p}), key)
    ensures ViewOf(was.(tokens := was.tokens - {p})) == ViewOf(was).(tokens := ViewOf(was).tokens - {p})
    ensures ViewOf(was.(credentials := was.credentials - {p})) ==
            ViewOf(was).(credentials := ViewOf(was).credentials - {p})
  {
    assert ViewOf(was.(tokens := was.tokens - {p})).tokens == ViewOf(was).tokens - {p};
    assert ViewOf(was.(credentials := was.credentials - {p})).credentials == ViewOf(was).credentials - {p};
  }

  lemma TokenSavedKeepsOneKey(config: Config, key: Key, provider: string, t: Token)
    requires UnderKey(config, key) && t.encrypted.Some? && Opens(key, t.encrypted.value)
    ensures UnderKey(config.(tokens := config.tokens[provider := t]), key)
  {
  }

  lemma TokenSaved(config: Config, provider: string, t: Token)
    requires t.encrypted.Some?
    ensures var tokens := config.tokens[provider := t];
            && ViewOf(config.(tokens := tokens)) ==
               ViewOf(config).(tokens := ViewOf(config).tokens[provider := TokenPlain(t)])
            && tokens - {provider} == config.tokens - {provider}
  {
    assert ViewOf(config.(tokens := config.tokens[provider := t])).tokens ==
           ViewOf(config).tokens[provider := TokenPlain(t)];
  }

  lemma CredentialSaved(config: Config, key: Key, provider: string, c: Credential)
    requires UnderKey(config, key) && c.Text? && Opens(key, c.sealed)
    ensures var credentials := config.credentials[provider := c];
            && UnderKey(config.(credentials := credentials), key)
            && ViewOf(config.(credentials := credentials)) ==
               ViewOf(config).(credentials := ViewOf(config).credentials[provider := CredentialPlain(c)])
            && credentials - {provider} == config.credentials - {provider}
  {
    assert ViewOf(config.(credentials := config.credentials[provider := c])).credentials ==
           ViewOf(config).credentials[provider := CredentialPlain(c)];
  }

  // ---- the object ------------------------------------------------------------------

  /** An instance over one profile's files; `vault` is the key the session offers for it. */
  class ConfigStorage {
    var config: Config
    var keyFile: Option<Key>
    const vault: Option<Key>
    const vaultFile: bool

    var resolvedKey: Option<Key>
    var keySource: Option<Source>
    var lastApiKeyFailure: Option<Error>

    constructor (config: Config, keyFile: Option<Key>, vault: Option<Key>, vaultFile: bool)
      ensures this.config == config && this.keyFile == keyFile && this.vault == vault && this.vaultFile == vaultFile
      ensures resolvedKey == None && keySource == None && lastApiKeyFailure == None
    {
      this.config, this.keyFile, this.vault, this.vaultFile := config, keyFile, vault, vaultFile;
      resolvedKey, keySource, lastApiKeyFailure := None, None, None;
    }

    /** The profile is under one key; a cached key is that key. */
    ghost predicate Valid()
      reads this
    {
      Consistent(config, resolvedKey)
    }

    /** Whether the getter can give `key`, when it is the profile's. */
    ghost predicate AtHand(key: Key)
      reads this
    {
      resolvedKey.Some? || vault == Some(key) || keyFile == Some(key)
    }

    /** Whether the getter gives a key: the profile's own is at hand or, with nothing sealed yet, any is. */
    ghost predicate Usable()
      reads this
    {
      exists key :: UnderKey(config, key) && AtHand(key)
    }

    /** Whether there is any key to try. */
    predicate AnyKey()
      reads this
    {
      vault.Some? || keyFile.Some?
    }

    /** The key a new instance would try first. */
    function FirstKey(): Option<Key>
      reads this
    {
      if vault.Some? then vault else keyFile
    }

    /** Whether a key is one that a new instance would try as well. */
    predicate IsOwn(key: Option<Key>)
      reads this`keyFile
    {
      key.Some? && (key == vault || key == keyFile)
    }

    /** The one key of the profile, cached or not, is one that a new instance would find. */
    ghost predicate StaysOpen()
      reads this
    {
      exists key :: UnderKey(config, key) && (resolvedKey.Some? ==> resolvedKey.value == key) && IsOwn(Some(key))
    }

    /** What is in the way when the getter gives no key. */
    function Obstacle(): Error
      reads this
    {
      if AnyKey() then StaleError(vaultFile) else VaultLocked
    }

    ghost function Abstract(): State
      reads this
    {
      State(ViewOf(config), Usable())
    }

    /** What the getter gives over these files, when they hold `config` and `cached` is its cache. */
    ghost predicate Resolves(config: Config, cached: Option<Key>, r: Result<Key, Error>)
      reads this`keyFile
    {
      exists probe :: IsProbe(config, probe) && r == KeyFor(cached, vault, keyFile, vaultFile, probe)
    }

    /** The cache holds the key the getter gave over `config`, when `cached` was its cache. */
    ghost predicate Took(config: Config, cached: Option<Key>)
      reads this
    {
      resolvedKey.Some? && Resolves(config, cached, Ok(resolvedKey.value))
    }

    /** What a candidate key is tried on: the API key, else a token, else a credential, of any provider. */
    method SealedProbe() returns (probe: Option<Sealed>)
      ensures IsProbe(config, probe)
    {
      if IsFilled(config.apiKey) {
        return config.apiKey;
      }
      var tokens := TokensFilled(config);
      if tokens != {} {
        var p :| p in tokens;
        return config.tokens[p].encrypted;
      }
      var credentials := CredentialsFilled(config);
      if credentials != {} {
        var p :| p in credentials;
        return Some(config.credentials[p].sealed);
      }
      probe := None;
    }

    lemma UsableWhenEmpty()
      requires !HasSecret(config)
      ensures Usable() <==> resolvedKey.Some? || AnyKey()
    {
      if vault.Some? {
        assert UnderKey(config, vault.value) && AtHand(vault.value);
      }
      if keyFile.Some? {
        assert UnderKey(config, keyFile.value) && AtHand(keyFile.value);
      }
      if resolvedKey.Some? {
        assert UnderKey(config, resolvedKey.value) && AtHand(resolvedKey.value);
      }
    }

    /** In a profile under one key the getter gives that key, exactly if the profile is usable. */
    lemma KeyIsTheOne(probe: Option<Sealed>)
      requires Valid() && IsProbe(config, probe)
      ensures var r := KeyFor(resolvedKey, vault, keyFile, vaultFile, probe);
              (r.Ok? ==> UnderKey(config, r.value)) && (r.Ok? <==> Usable())
    {
      var key :| UnderKey(config, key) && (resolvedKey.Some? ==> resolvedKey.value == key);
      if resolvedKey.Some? {
        assert AtHand(key);
      } else if HasSecret(config) {
        GetterGivesTheKey(config, key, vault, keyFile, vaultFile, probe);
      } else {
        ProbeIsUnderKey(config, key, probe);
        UsableWhenEmpty();
      }
    }

    /** The getter: resolves the key once, by trying the candidates on a sealed value. */
    method EncryptionKey() returns (r: Result<Key, Error>)
      modifies this`resolvedKey, this`keySource
      ensures Resolves(config, old(resolvedKey), r)
      ensures resolvedKey == if r.Ok? then Some(r.value) else old(resolvedKey)
      ensures resolvedKey == old(resolvedKey) || (old(resolvedKey) == None && IsOwn(resolvedKey))
      ensures old(StaysOpen()) ==> StaysOpen()
      ensures r.Err? ==> r.error == Obstacle()
      ensures r.Ok? ==> Took(config, old(resolvedKey))
      ensures old(Valid()) ==> Valid() && (r.Ok? ==> UnderKey(config, r.value)) && r.Ok? == old(Usable()) == Usable()
    {
      var probe := SealedProbe();
      if old(Valid()) {
        KeyIsTheOne(probe);
      }
      if resolvedKey.Some? {
        assert KeyFor(resolvedKey, vault, keyFile, vaultFile, probe) == Ok(resolvedKey.value);
        return Ok(resolvedKey.value);
      }
      var candidates := Candidates(vault, keyFile);
      if candidates == [] {
        assert KeyFor(resolvedKey, vault, keyFile, vaultFile, probe) == Err(VaultLocked);
        return Err(VaultLocked);
      }
      var chosen := Choice(candidates, probe);
      ChoiceIsOneOf(candidates, probe);
      if chosen.None? {
        keySource := Some(candidates[0].source);
        assert KeyFor(old(resolvedKey), vault, keyFile, vaultFile, probe) == Err(StaleError(vaultFile));
        return Err(StaleError(vaultFile));
      }
      keySource := Some(chosen.value.source);
      resolvedKey := Some(chosen.value.key);
      assert KeyFor(old(resolvedKey), vault, keyFile, vaultFile, probe) == Ok(chosen.value.key);
      r := Ok(chosen.value.key);
    }

    /** Opens one value, or says why it cannot. */
    method Decrypt(s: Option<Sealed>) returns (r: Result<string, Error>)
      modifies this`resolvedKey, this`keySource
      ensures r.Ok? ==> s.Some? && s.value.Sealed? && r.value == s.value.plain
      ensures old(Valid()) ==> Valid() && Usable() == old(Usable())
      ensures resolvedKey == old(resolvedKey) || (old(resolvedKey) == None && IsOwn(resolvedKey))
      ensures old(StaysOpen()) ==> StaysOpen()
      ensures old(Valid()) && old(Usable()) ==> Took(config, old(resolvedKey))
      ensures old(Valid()) && s.Some? && s.value.Sealed? && old(UnderKey(config, s.value.key)) && HasSecret(config)
        ==> r.Ok? == old(Usable()) && (r.Err? ==> r.error == Obstacle())
    {
      var key := EncryptionKey();
      if old(Valid()) && key.Ok? && s.Some? && s.value.Sealed? && UnderKey(config, s.value.key) && HasSecret(config) {
        SameKey(config, s.value.key, key.value);
      }
      if key.Err? {
        return Err(key.error);
      }
      if s.Some? && Opens(key.value, s.value) {
        return Ok(s.value.plain);
      }
      r := if keySource == Some(Legacy) then Err(StaleError(vaultFile)) else Err(CannotOpen);
    }

    /** In a profile under one key, any one secret says which. */
    lemma SecretNamesTheKey(key: Key)
      requires Valid() && HasSecret(config)
      requires (exists p :: p in config.tokens && TokenUnder(config.tokens[p], key))
        || (exists p :: p in config.credentials && CredentialUnder(config.credentials[p], key))
        || (config.apiKey.Some? && Opens(key, config.apiKey.value))
      ensures forall other :: UnderKey(config, other) <==> other == key
    {
      var it :| UnderKey(config, it);
    }

    /** Removing a secret, the profile keeps its key; emptied, it can take any. */
    lemma UsableAfterRemoval(key: Key, was: Config)
      requires UnderKey(was, key) && UnderKey(config, key) && (resolvedKey.Some? ==> resolvedKey.value == key)
      requires HasSecret(config) ==> HasSecret(was)
      ensures Usable() == ((exists k :: UnderKey(was, k) && AtHand(k)) || (AnyKey() && !HasSecret(config)))
    {
      if HasSecret(config) {
        if k :| UnderKey(was, k) && AtHand(k) {
          SameKey(was, key, k);
        }
      } else {
        UsableWhenEmpty();
        if k :| UnderKey(was, k) && AtHand(k) {
          assert resolvedKey.Some? || AnyKey();
        }
      }
    }

    lemma EmptyIsUsable()
      ensures IsEmpty(ViewOf(config)) <==> !HasSecret(config)
      ensures IsEmpty(ViewOf(config)) && AnyKey() ==> Usable()
    {
      EmptyHasNoSecret(config);
      if !HasSecret(config) {
        UsableWhenEmpty();
      }
    }

    // ---- tokens --------------------------------------------------------------------

    method SaveToken(provider: string, token: string, now: string) returns (r: Result<(), Error>)
      modifies this`config, this`resolvedKey, this`keySource
      ensures old(Valid()) ==> Valid() && r.Ok? == old(Usable()) == Usable()
      ensures r.Err? ==> config == old(config) && r.error == Obstacle()
      ensures resolvedKey == old(resolvedKey) || (old(resolvedKey) == None && IsOwn(resolvedKey))
      ensures old(StaysOpen()) ==> StaysOpen()
      ensures r.Ok? ==>
        && ViewOf(config) == old(ViewOf(config)).(tokens := old(ViewOf(config)).tokens[provider := token])
        && config == old(config).(tokens := config.tokens)
        && config.tokens - {provider} == old(config.tokens) - {provider}
        && provider in config.tokens && config.tokens[provider].updatedAt == now
        && config.tokens[provider].createdAt ==
           if provider in old(config.tokens) && old(config.tokens)[provider].createdAt != ""
           then old(config.tokens)[provider].createdAt else now
      ensures r.Ok? ==> Took(old(config), old(resolvedKey))
      ensures Resolves(old(config), old(resolvedKey), if r.Ok? then Ok(resolvedKey.value) else Err(r.error))
      ensures r.Ok? ==> config.tokens[provider].encrypted == Some(Sealed.Sealed(resolvedKey.value, token))
    {
      var key := EncryptionKey();
      if key.Err? {
        return Err(key.error);
      }
      var createdAt :=
        if provider in config.tokens && config.tokens[provider].createdAt != ""
        then config.tokens[provider].createdAt else now;
      var t := Token(Some(Sealed.Sealed(key.value, token)), createdAt, now);
      if old(Valid()) {
        TokenSavedKeepsOneKey(config, key.value, provider, t);
      }
      TokenSaved(config, provider, t);
      config := config.(tokens := config.tokens[provider := t]);
      r := Ok(());
    }

    method GetToken(provider: string) returns (r: Result<Option<string>, Error>)
      requires Valid()
      modifies this`resolvedKey, this`keySource
      ensures Valid() && Usable() == old(Usable())
      ensures provider !in ViewOf(config).tokens ==> r == Ok(None)
      ensures provider in ViewOf(config).tokens ==>
        if old(Usable())
        then r == Ok(Some(ViewOf(config).tokens[provider])) else r == Err(ReadError(Obstacle(), provider))
      ensures if provider in ViewOf(config).tokens
        then old(Usable()) ==> Took(config, old(resolvedKey)) else resolvedKey == old(resolvedKey)
      ensures resolvedKey == old(resolvedKey) || (old(resolvedKey) == None && IsOwn(resolvedKey))
      ensures old(StaysOpen()) ==> StaysOpen()
    {
      if provider !in config.tokens {
        return Ok(None);
      }
      ghost var key := config.tokens[provider].encrypted.value.key;
      SecretNamesTheKey(key);
      var plain := Decrypt(config.tokens[provider].encrypted);
      match plain
      case Ok(value) => r := Ok(Some(value));
      case Err(e) => r := Err(ReadError(e, provider));
    }

    method RemoveToken(provider: string)
      requires Valid()
      modifies this`config
      ensures Valid() && Usable() == (old(Usable()) || (AnyKey() && !HasSecret(config)))
      ensures config == old(config).(tokens := old(config.tokens) - {provider})
      ensures ViewOf(config) == old(ViewOf(config)).(tokens := old(ViewOf(config)).tokens - {provider})
      ensures old(StaysOpen()) ==> StaysOpen()
    {
      ghost var key :| UnderKey(config, key) && (resolvedKey.Some? ==> resolvedKey.value == key);
      ghost var was := config;
      RemovalKeepsKeys(was, provider);
      config := config.(tokens := config.tokens - {provider});
      UsableAfterRemoval(key, was);
    }

    // ---- credentials ---------------------------------------------------------------

    method SaveCredentials(provider: string, credentials: string) returns (r: Result<(), Error>)
      requires Valid()
      modifies this`config, this`resolvedKey, this`keySource
      ensures Valid()
      ensures r.Ok? == old(Usable()) == Usable()
      ensures r.Err? ==> config == old(config) && r.error == Obstacle()
      ensures resolvedKey == old(resolvedKey) || (old(resolvedKey) == None && IsOwn(resolvedKey))
      ensures old(StaysOpen()) ==> StaysOpen()
      ensures r.Ok? ==>
        && config == old(config).(credentials := config.credentials)
        && config.credentials - {provider} == old(config.credentials) - {provider}
        && ViewOf(config) ==
           old(ViewOf(config)).(credentials := old(ViewOf(config)).credentials[provider := credentials])
      ensures r.Ok? ==> Took(old(config), old(resolvedKey))
    {
      var key := EncryptionKey();
      if key.Err? {
        return Err(key.error);
      }
      var c := Text(Sealed.Sealed(key.value, credentials));
      CredentialSaved(config, key.value, provider, c);
      config := config.(credentials := config.credentials[provider := c]);
      r := Ok(());
    }

    method GetCredentials(provider: string) returns (r: Result<Option<string>, Error>)
      requires Valid()
      modifies this`resolvedKey, this`keySource
      ensures Valid() && Usable() == old(Usable())
      ensures provider !in ViewOf(config).credentials ==> r == Ok(None)
      ensures provider in ViewOf(config).credentials ==>
        if old(Usable())
        then r == Ok(Some(ViewOf(config).credentials[provider])) else r == Err(ReadError(Obstacle(), provider))
      ensures if provider in ViewOf(config).credentials
        then old(Usable()) ==> Took(config, old(resolvedKey)) else resolvedKey == old(resolvedKey)
      ensures resolvedKey == old(resolvedKey) || (old(resolvedKey) == None && IsOwn(resolvedKey))
      ensures old(StaysOpen()) ==> StaysOpen()
    {
      if provider !in config.credentials || config.credentials[provider] == Text(Garbage("")) {
        return Ok(None);
      }
      var sealed := match config.credentials[provider] case Text(s) => Some(s) case Other => None;
      SecretNamesTheKey(config.credentials[provider].sealed.key);
      var plain := Decrypt(sealed);
      match plain
      case Ok(value) => r := Ok(Some(value));
      case Err(e) => r := Err(ReadError(e, provider));
    }

    method RemoveCredentials(provider: string)
      requires Valid()
      modifies this`config
      ensures Valid() && Usable() == (old(Usable()) || (AnyKey() && !HasSecret(config)))
      ensures config == old(config).(credentials := old(config.credentials) - {provider})
      ensures ViewOf(config) == old(ViewOf(config)).(credentials := old(ViewOf(config)).credentials - {provider})
      ensures old(StaysOpen()) ==> StaysOpen()
    {
      ghost var key :| UnderKey(config, key) && (resolvedKey.Some? ==> resolvedKey.value == key);
      ghost var was := config;
      RemovalKeepsKeys(was, provider);
      config := config.(credentials := config.credentials - {provider});
      UsableAfterRemoval(key, was);
    }

    // ---- the API key ---------------------------------------------------------------

    method SetApiKey(apiKey: string) returns (r: Result<(), Error>)
      requires Valid()
      modifies this`config, this`resolvedKey, this`keySource
      ensures Valid()
      ensures r.Ok? == old(Usable()) == Usable()
      ensures r.Err? ==> config == old(config) && r.error == Obstacle()
      ensures resolvedKey == old(resolvedKey) || (old(resolvedKey) == None && IsOwn(resolvedKey))
      ensures old(StaysOpen()) ==> StaysOpen()
      ensures r.Ok? ==> config == old(config).(apiKey := config.apiKey)
      ensures r.Ok? ==> ViewOf(config) == old(ViewOf(config)).(apiKey := Some(apiKey))
      ensures r.Ok? ==> Took(old(config), old(resolvedKey))
    {
      var key := EncryptionKey();
      if key.Err? {
        return Err(key.error);
      }
      config := config.(apiKey := Some(Sealed.Sealed(key.value, apiKey)));
      assert UnderKey(config, key.value);
      r := Ok(());
    }

    /** The API key, silently nothing when it cannot be opened; the reason is kept. */
    method GetApiKey(environment: string) returns (r: Option<string>)
      requires Valid()
      modifies this`resolvedKey, this`keySource, this`lastApiKeyFailure
      ensures Valid() && Usable() == old(Usable())
      ensures environment != "" ==> r == Some(environment) && lastApiKeyFailure == old(lastApiKeyFailure)
      ensures environment == "" && ViewOf(config).apiKey == None ==>
        r == None && lastApiKeyFailure == old(lastApiKeyFailure)
      ensures environment == "" && ViewOf(config).apiKey.Some? ==>
        && r == (if old(Usable()) then ViewOf(config).apiKey else None)
        && lastApiKeyFailure == (if old(Usable()) then None else Some(Obstacle()))
      ensures if environment == "" && ViewOf(config).apiKey.Some?
        then old(Usable()) ==> Took(config, old(resolvedKey)) else resolvedKey == old(resolvedKey)
      ensures resolvedKey == old(resolvedKey) || (old(resolvedKey) == None && IsOwn(resolvedKey))
      ensures old(StaysOpen()) ==> StaysOpen()
    {
      if environment != "" {
        return Some(environment);
      }
      if !IsFilled(config.apiKey) {
        return None;
      }
      SecretNamesTheKey(config.apiKey.value.key);
      lastApiKeyFailure := None;
      var plain := Decrypt(config.apiKey);
      match plain
      case Ok(value) => r := Some(value);
      case Err(e) =>
        lastApiKeyFailure := Some(e);
        r := None;
    }
  }

  // ---- whole runs ------------------------------------------------------------------

  datatype Op =
    | SaveToken(provider: string, value: string)
    | RemoveToken(provider: string)
    | GetToken(provider: string)
    | SaveCredentials(provider: string, value: string)
    | RemoveCredentials(provider: string)
    | GetCredentials(provider: string)
    | SetApiKey(value: string)
    | GetApiKey(environment: string)

  /** What an operation answers: it throws, it is done, or it reads a value or nothing. */
  datatype Output = Threw | Done | Read(value: Option<string>)

  /** A profile without keys and sealing: its plaintexts, and whether the getter gives a key. */
  datatype State = State(view: View, usable: bool)

  function Lookup(m: map<string, string>, p: string): Option<string> {
    if p in m then Some(m[p]) else None
  }

  /** A secret that is there is read or, without a key, refused; one that is not there is nothing. */
  function Reading(secret: Option<string>, usable: bool): Output {
    if secret.Some? && !usable then Threw else Read(secret)
  }

  function Answer(s: State, op: Op): Output {
    match op
    case GetToken(p) => Reading(Lookup(s.view.tokens, p), s.usable)
    case GetCredentials(p) => Reading(Lookup(s.view.credentials, p), s.usable)
    case GetApiKey(environment) =>
      Read(if environment != "" then Some(environment) else if s.usable then s.view.apiKey else None)
    case RemoveToken(_) => Done
    case RemoveCredentials(_) => Done
    case _ => if s.usable then Done else Threw
  }

  /** The view after an operation that did not throw. */
  function Applied(view: View, op: Op): View {
    match op
    case SaveToken(p, v) => view.(tokens := view.tokens[p := v])
    case RemoveToken(p) => view.(tokens := view.tokens - {p})
    case SaveCredentials(p, v) => view.(credentials := view.credentials[p := v])
    case RemoveCredentials(p) => view.(credentials := view.credentials - {p})
    case SetApiKey(v) => view.(apiKey := Some(v))
    case _ => view
  }

  /** Removing the last secret of a profile frees it from a key that is not there. */
  function Step(s: State, anyKey: bool, op: Op): State {
    var view := if Answer(s, op).Threw? then s.view else Applied(s.view, op);
    State(view, s.usable || (anyKey && IsEmpty(view)))
  }

  function StateAfter(s: State, anyKey: bool, ops: seq<Op>): State {
    if ops == [] then s
    else Step(StateAfter(s, anyKey, ops[..|ops| - 1]), anyKey, ops[|ops| - 1])
  }

  /** Whether an operation asks the getter for the key. */
  predicate AsksForKey(view: View, op: Op) {
    match op
    case GetToken(p) => p in view.tokens
    case GetCredentials(p) => p in view.credentials
    case GetApiKey(environment) => environment == "" && view.apiKey.Some?
    case RemoveToken(_) => false
    case RemoveCredentials(_) => false
    case _ => true
  }

  /** What an instance starts a run with: its state, whether it has any key, its cache, and the first key to try. */
  datatype Beginning = Beginning(state: State, anyKey: bool, cached: Option<Key>, first: Option<Key>)

  /**
   What an instance has cached after a run on a profile under `home`, one of its keys: the key it had, or
   the one the first operation that asked was given: `home`, or over an empty profile the first to try.
   */
  function CacheAfter(b: Beginning, home: Key, ops: seq<Op>): Option<Key> {
    if ops == [] then b.cached
    else
      var front, op := ops[..|ops| - 1], ops[|ops| - 1];
      var held, view := CacheAfter(b, home, front), StateAfter(b.state, b.anyKey, front).view;
      if held.Some? || !AsksForKey(view, op) then held else if IsEmpty(view) then b.first else Some(home)
  }

  /** The answer and the state that an operation of the plain state gives. */
  ghost predicate IsPerformed(before: State, anyKey: bool, op: Op, out: Output, after: State) {
    out == Answer(before, op) && after == Step(before, anyKey, op)
  }

  ghost predicate KeysStay(was: Config, config: Config) {
    forall key :: UnderKey(was, key) ==> UnderKey(config, key)
  }

  /** An operation that asks for the key caches it; any other leaves the cache and the profile's keys as they are. */
  ghost predicate CacheIsMoved(s: ConfigStorage, op: Op, before: State, was: Config, cached: Option<Key>)
    reads s
  {
    if AsksForKey(before.view, op) then before.usable ==> s.Took(was, cached)
    else s.resolvedKey == cached && KeysStay(was, s.config)
  }

  method PerformSave(s: ConfigStorage, op: Op, now: string) returns (out: Output)
    requires s.Valid() && (op.SaveToken? || op.SaveCredentials? || op.SetApiKey?)
    modifies s
    ensures s.Valid() && s.keyFile == old(s.keyFile) && (old(s.StaysOpen()) ==> s.StaysOpen())
    ensures IsPerformed(old(s.Abstract()), s.AnyKey(), op, out, s.Abstract())
    ensures CacheIsMoved(s, op, old(s.Abstract()), old(s.config), old(s.resolvedKey))
  {
    s.EmptyIsUsable();
    match op
    case SaveToken(p, v) =>
      var r := s.SaveToken(p, v, now);
      out := if r.Ok? then Done else Threw;
    case SaveCredentials(p, v) =>
      var r := s.SaveCredentials(p, v);
      out := if r.Ok? then Done else Threw;
    case SetApiKey(v) =>
      var r := s.SetApiKey(v);
      out := if r.Ok? then Done else Threw;
    s.EmptyIsUsable();
  }

  method PerformRead(s: ConfigStorage, op: Op) returns (out: Output)
    requires s.Valid() && (op.GetToken? || op.GetCredentials? || op.GetApiKey?)
    modifies s
    ensures s.Valid() && s.keyFile == old(s.keyFile) && (old(s.StaysOpen()) ==> s.StaysOpen())
    ensures IsPerformed(old(s.Abstract()), s.AnyKey(), op, out, s.Abstract())
    ensures CacheIsMoved(s, op, old(s.Abstract()), old(s.config), old(s.resolvedKey))
  {
    s.EmptyIsUsable();
    match op
    case GetToken(p) =>
      var r := s.GetToken(p);
      out := if r.Ok? then Read(r.value) else Threw;
    case GetCredentials(p) =>
      var r := s.GetCredentials(p);
      out := if r.Ok? then Read(r.value) else Threw;
    case GetApiKey(environment) =>
      var r := s.GetApiKey(environment);
      out := Read(r);
  }

  method PerformRemoval(s: ConfigStorage, op: Op) returns (out: Output)
    requires s.Valid() && (op.RemoveToken? || op.RemoveCredentials?)
    modifies s
    ensures s.Valid() && s.keyFile == old(s.keyFile) && (old(s.StaysOpen()) ==> s.StaysOpen())
    ensures IsPerformed(old(s.Abstract()), s.AnyKey(), op, out, s.Abstract())
    ensures CacheIsMoved(s, op, old(s.Abstract()), old(s.config), old(s.resolvedKey))
  {
    out := Done;
    RemovalKeepsKeys(s.config, op.provider);
    match op
    case RemoveToken(p) => s.RemoveToken(p);
    case RemoveCredentials(p) => s.RemoveCredentials(p);
    s.EmptyIsUsable();
  }

  method Perform(s: ConfigStorage, op: Op, now: string) returns (out: Output)
    requires s.Valid()
    modifies s
    ensures s.Valid() && s.keyFile == old(s.keyFile) && (old(s.StaysOpen()) ==> s.StaysOpen())
    ensures IsPerformed(old(s.Abstract()), s.AnyKey(), op, out, s.Abstract())
    ensures CacheIsMoved(s, op, old(s.Abstract()), old(s.config), old(s.resolvedKey))
  {
    if op.RemoveToken? || op.RemoveCredentials? {
      out := PerformRemoval(s, op);
    } else if op.GetToken? || op.GetCredentials? || op.GetApiKey? {
      out := PerformRead(s, op);
    } else {
      out := PerformSave(s, op, now);
    }
  }

  /** Each operation of a run gets the answer of the state the ones before it lead to. */
  ghost predicate AnswersLike(s: State, anyKey: bool, ops: seq<Op>, outs: seq<Output>) {
    |outs| == |ops| && forall k :: 0 <= k < |ops| ==> outs[k] == Answer(StateAfter(s, anyKey, ops[..k]), ops[k])
  }

  lemma OneMoreAnswer(s: State, anyKey: bool, ops: seq<Op>, outs: seq<Output>, op: Op)
    requires AnswersLike(s, anyKey, ops, outs)
    ensures StateAfter(s, anyKey, ops + [op]) == Step(StateAfter(s, anyKey, ops), anyKey, op)
    ensures AnswersLike(s, anyKey, ops + [op], outs + [Answer(StateAfter(s, anyKey, ops), op)])
  {
    assert forall k :: 0 <= k < |ops| ==> (ops + [op])[..k] == ops[..k];
    assert (ops + [op])[..|ops|] == ops;
  }

  /** The keys that the profile is under and a new instance would find. */
  ghost function HomesOf(s: ConfigStorage): iset<Key>
    reads s
  {
    iset home | UnderKey(s.config, home) && s.IsOwn(Some(home))
  }

  /** The key the getter took over a profile under `home`. */
  lemma TookWhich(s: ConfigStorage, was: Config, cached: Option<Key>, home: Key)
    requires UnderKey(was, home) && s.IsOwn(Some(home)) && s.Took(was, cached)
    ensures s.resolvedKey ==
            if cached.Some? then cached else if IsEmpty(ViewOf(was)) then s.FirstKey() else Some(home)
  {
    var probe :|
      IsProbe(was, probe) && Ok(s.resolvedKey.value) == KeyFor(cached, s.vault, s.keyFile, s.vaultFile, probe);
    EmptyHasNoSecret(was);
    if HasSecret(was) {
      GetterGivesTheKey(was, home, s.vault, s.keyFile, s.vaultFile, probe);
    } else {
      ProbeIsUnderKey(was, home, probe);
    }
  }

  /** The cache is what `CacheAfter` says, whichever of `homes` the profile was under; while empty it still is. */
  ghost predicate CacheFollows(b: Beginning, homes: iset<Key>, ops: seq<Op>, config: Config, held: Option<Key>) {
    forall home :: home in homes ==> held == CacheAfter(b, home, ops) && (held == None ==> UnderKey(config, home))
  }

  lemma CacheStep(
      s: ConfigStorage, b: Beginning, homes: iset<Key>, ops: seq<Op>, op: Op, was: Config, held: Option<Key>)
    requires CacheFollows(b, homes, ops, was, held) && (forall home :: home in homes ==> s.IsOwn(Some(home)))
    requires homes != iset{} ==> StateAfter(b.state, b.anyKey, ops) == State(ViewOf(was), true)
    requires b.first == s.FirstKey() && CacheIsMoved(s, op, StateAfter(b.state, b.anyKey, ops), was, held)
    ensures CacheFollows(b, homes, ops + [op], s.config, s.resolvedKey)
  {
    assert (ops + [op])[..|ops|] == ops;
    forall home | home in homes
      ensures s.resolvedKey == CacheAfter(b, home, ops + [op]) && (s.resolvedKey == None ==> UnderKey(s.config, home))
    {
      if AsksForKey(ViewOf(was), op) {
        if held.Some? {
          assert s.Resolves(was, held, Ok(s.resolvedKey.value));
        } else {
          TookWhich(s, was, held, home);
        }
      }
    }
  }

  ghost function BeginningOf(s: ConfigStorage): Beginning
    reads s
  {
    Beginning(s.Abstract(), s.AnyKey(), s.resolvedKey, s.FirstKey())
  }

  /** Any run keeps the profile under one key and answers as the plain state does. */
  method PerformAll(s: ConfigStorage, ops: seq<Op>, now: string) returns (outs: seq<Output>)
    requires s.Valid()
    modifies s
    ensures s.Valid() && s.keyFile == old(s.keyFile) && AnswersLike(old(s.Abstract()), old(s.AnyKey()), ops, outs)
    ensures old(s.StaysOpen()) ==> s.StaysOpen()
    ensures s.Abstract() == StateAfter(old(s.Abstract()), old(s.AnyKey()), ops)
    ensures CacheFollows(old(BeginningOf(s)), old(HomesOf(s)), ops, s.config, s.resolvedKey)
  {
    outs := [];
    ghost var b, homes := BeginningOf(s), HomesOf(s);
    for n := 0 to |ops|
      invariant s.Valid() && s.keyFile == old(s.keyFile)
      invariant old(s.StaysOpen()) ==> s.StaysOpen()
      invariant homes != iset{} ==> s.Usable()
      invariant CacheFollows(b, homes, ops[..n], s.config, s.resolvedKey)
      invariant s.Abstract() == StateAfter(b.state, b.anyKey, ops[..n])
      invariant AnswersLike(b.state, b.anyKey, ops[..n], outs)
    {
      OneMoreAnswer(b.state, b.anyKey, ops[..n], outs, ops[n]);
      ghost var config, held := s.config, s.resolvedKey;
      var out := Perform(s, ops[n], now);
      CacheStep(s, b, homes, ops[..n], ops[n], config, held);
      outs := outs + [out];
      assert ops[..n + 1] == ops[..n] + [ops[n]];
    }
    assert ops[..|ops|] == ops;
  }

  lemma AllButLastAnswer(s: State, anyKey: bool, ops: seq<Op>, outs: seq<Output>)
    requires ops != [] && AnswersLike(s, anyKey, ops, outs)
    ensures var n := |ops| - 1;
            && AnswersLike(s, anyKey, ops[..n], outs[..n])
            && outs == outs[..n] + [Answer(StateAfter(s, anyKey, ops[..n]), ops[n])]
  {
    var n := |ops| - 1;
    forall k | 0 <= k < n ensures ops[..n][..k] == ops[..k] {
    }
    assert outs == outs[..n] + [outs[n]];
  }

  lemma {:induction false} StatesInTurn(s: State, anyKey: bool, ops: seq<Op>, more: seq<Op>)
    ensures StateAfter(s, anyKey, ops + more) == StateAfter(StateAfter(s, anyKey, ops), anyKey, more)
    decreases |more|
  {
    if more == [] {
      assert ops + more == ops;
    } else {
      var n := |more| - 1;
      StatesInTurn(s, anyKey, ops, more[..n]);
      assert (ops + more)[..|ops| + n] == ops + more[..n] && (ops + more)[|ops| + n] == more[n];
    }
  }

  lemma SameWithLast<T>(a: seq<T>, b: seq<T>)
    requires b != []
    ensures a + b[..|b| - 1] + [b[|b| - 1]] == a + b
  {
  }

  /** Two runs, one after the other, are a run. */
  lemma {:induction false} RunsInTurn(
      s: State, anyKey: bool, ops: seq<Op>, outs: seq<Output>, more: seq<Op>, moreOuts: seq<Output>)
    requires AnswersLike(s, anyKey, ops, outs)
    requires AnswersLike(StateAfter(s, anyKey, ops), anyKey, more, moreOuts)
    ensures AnswersLike(s, anyKey, ops + more, outs + moreOuts)
    decreases |more|
  {
    if more == [] {
      assert ops + more == ops && outs + moreOuts == outs;
    } else {
      var n := |more| - 1;
      var front, frontOuts := more[..n], moreOuts[..n];
      AllButLastAnswer(StateAfter(s, anyKey, ops), anyKey, more, moreOuts);
      RunsInTurn(s, anyKey, ops, outs, front, frontOuts);
      StatesInTurn(s, anyKey, ops, front);
      OneMoreAnswer(s, anyKey, ops + front, outs + frontOuts, more[n]);
      SameWithLast(ops, more);
      SameWithLast(outs, moreOuts);
    }
  }

  /** A place of the profile that holds one secret. */
  datatype Slot = TokenOf(provider: string) | CredentialsOf(provider: string) | TheApiKey

  function Stored(view: View, slot: Slot): Option<string> {
    match slot
    case TokenOf(p) => Lookup(view.tokens, p)
    case CredentialsOf(p) => Lookup(view.credentials, p)
    case TheApiKey => view.apiKey
  }

  predicate Saves(op: Op, slot: Slot) {
    match op
    case SaveToken(p, _) => slot == TokenOf(p)
    case SaveCredentials(p, _) => slot == CredentialsOf(p)
    case SetApiKey(_) => slot == TheApiKey
    case _ => false
  }

  predicate Removes(op: Op, slot: Slot) {
    (op.RemoveToken? && slot == TokenOf(op.provider)) || (op.RemoveCredentials? && slot == CredentialsOf(op.provider))
  }

  /** The value of the last save to a slot that took effect, unless it was removed since. */
  function LastSaved(s: State, anyKey: bool, ops: seq<Op>, slot: Slot): Option<string> {
    if ops == [] then Stored(s.view, slot)
    else
      var before, op := ops[..|ops| - 1], ops[|ops| - 1];
      if Saves(op, slot) && StateAfter(s, anyKey, before).usable then Some(op.value)
      else if Removes(op, slot) then None
      else LastSaved(s, anyKey, before, slot)
  }

  /** What a slot holds, and so what its reader answers from, is the last value saved there. */
  lemma {:induction false} ReadsReturnLastSaved(s: State, anyKey: bool, ops: seq<Op>, slot: Slot)
    ensures Stored(StateAfter(s, anyKey, ops).view, slot) == LastSaved(s, anyKey, ops, slot)
    decreases |ops|
  {
    if ops == [] {
    } else {
      ReadsReturnLastSaved(s, anyKey, ops[..|ops| - 1], slot);
    }
  }

  ghost predicate IsEmptyAt(s: State, anyKey: bool, ops: seq<Op>, k: int) {
    0 <= k <= |ops| && IsEmpty(StateAfter(s, anyKey, ops[..k]).view)
  }

  /** Whether some point of a run finds the profile empty. */
  ghost predicate IsEverEmpty(s: State, anyKey: bool, ops: seq<Op>) {
    exists k :: IsEmptyAt(s, anyKey, ops, k)
  }

  lemma SameAtEarlier(s: State, anyKey: bool, ops: seq<Op>, k: int)
    requires ops != [] && k < |ops|
    ensures IsEmptyAt(s, anyKey, ops[..|ops| - 1], k) <==> IsEmptyAt(s, anyKey, ops, k)
  {
    if 0 <= k {
      assert ops[..|ops| - 1][..k] == ops[..k];
    }
  }

  lemma EverEmptyStep(s: State, anyKey: bool, ops: seq<Op>)
    requires ops != []
    ensures IsEverEmpty(s, anyKey, ops) <==>
            IsEverEmpty(s, anyKey, ops[..|ops| - 1]) || IsEmpty(StateAfter(s, anyKey, ops).view)
  {
    var front := ops[..|ops| - 1];
    if k :| IsEmptyAt(s, anyKey, ops, k) && k < |ops| {
      SameAtEarlier(s, anyKey, ops, k);
    }
    if k :| IsEmptyAt(s, anyKey, front, k) {
      SameAtEarlier(s, anyKey, ops, k);
    }
    assert ops[..|ops|] == ops;
    assert IsEmptyAt(s, anyKey, ops, |ops|) <==> IsEmpty(StateAfter(s, anyKey, ops).view);
  }

  /** A profile has a key from the start, or from when it is empty with some key at hand, and then for good. */
  lemma {:induction false} UsableStays(s: State, anyKey: bool, ops: seq<Op>)
    requires IsEmpty(s.view) && anyKey ==> s.usable
    ensures StateAfter(s, anyKey, ops).usable <==> s.usable || (anyKey && IsEverEmpty(s, anyKey, ops))
    decreases |ops|
  {
    if ops == [] {
    } else {
      UsableStays(s, anyKey, ops[..|ops| - 1]);
      EverEmptyStep(s, anyKey, ops);
    }
  }

  /** With a key, nothing throws. */
  lemma UsableNeverThrows(s: State, op: Op)
    ensures s.usable ==> !Answer(s, op).Threw?
  {
  }
}
