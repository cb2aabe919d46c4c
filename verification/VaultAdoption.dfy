/**
 Moving a profile from its old key file to the vault, `adoptVaultKey` of cli/src/lib/config-storage.ts
 lines 205-253: every secret is re-sealed, the file is written, and only then is the old key removed.
 The move may be interrupted before the write, between the write and the removal, or not at all.
 */
module VaultAdoption {
  import opened Wrappers
  import opened ProfileSecrets

  /** The two files of a profile. */
  datatype Disk = Disk(config: Config, keyFile: Option<Key>)

  /** Where a run of the move stops. */
  datatype Stop = BeforeWrite | BeforeRemoval | AtEnd

  // ---- re-sealing ------------------------------------------------------------------

  predicate OpensWithEither(vault: Key, legacy: Key, s: Sealed) {
    Opens(vault, s) || Opens(legacy, s)
  }

  /** A value under the vault key, its plaintext kept. */
  function Resealed(vault: Key, s: Sealed): Sealed {
    if s.Sealed? then Sealed.Sealed(vault, s.plain) else s
  }

  predicate TokenMoves(vault: Key, legacy: Key, t: Token) {
    t.encrypted.Some? && OpensWithEither(vault, legacy, t.encrypted.value)
  }

  predicate CredentialMoves(vault: Key, legacy: Key, c: Credential) {
    c.Text? ==> OpensWithEither(vault, legacy, c.sealed)
  }

  /** Every secret opens with the vault key or the old one; an empty API key counts as none. */
  ghost predicate CanMove(config: Config, vault: Key, legacy: Key) {
    && (forall p :: p in config.tokens ==> TokenMoves(vault, legacy, config.tokens[p]))
    && (forall p :: p in config.credentials ==> CredentialMoves(vault, legacy, config.credentials[p]))
    && (IsFilled(config.apiKey) ==> OpensWithEither(vault, legacy, config.apiKey.value))
  }

  function MovedToken(vault: Key, t: Token): Token {
    if t.encrypted.Some? then t.(encrypted := Some(Resealed(vault, t.encrypted.value))) else t
  }

  function MovedCredential(vault: Key, c: Credential): Credential {
    if c.Text? then Text(Resealed(vault, c.sealed)) else c
  }

  function MovedConfig(config: Config, vault: Key): Config {
    config.(
      tokens := map p | p in config.tokens :: MovedToken(vault, config.tokens[p]),
      credentials := map p | p in config.credentials :: MovedCredential(vault, config.credentials[p]),
      apiKey := if config.apiKey.Some? then Some(Resealed(vault, config.apiKey.value)) else None)
  }

  /** What a run of the move, stopped where it stops, leaves on disk. */
  ghost function AfterAdoption(disk: Disk, vault: Key, stop: Stop): Disk {
    if disk.keyFile == None || !CanMove(disk.config, vault, disk.keyFile.value) then disk
    else match stop
      case BeforeWrite => disk
      case BeforeRemoval => disk.(config := MovedConfig(disk.config, vault))
      case AtEnd => Disk(MovedConfig(disk.config, vault), None)
  }

  /** The providers whose token the move has to re-seal. */
  ghost function MovingTokens(config: Config, vault: Key): set<string> {
    set p | p in config.tokens && config.tokens[p].encrypted.Some? && !Opens(vault, config.tokens[p].encrypted.value)
  }

  ghost function MovingCredentials(config: Config, vault: Key): set<string> {
    set p | p in config.credentials && config.credentials[p].Text? && !Opens(vault, config.credentials[p].sealed)
  }

  /** How many secrets are not under the vault key yet. */
  ghost function Moving(config: Config, vault: Key): nat {
    |MovingTokens(config, vault)| + |MovingCredentials(config, vault)|
    + if IsFilled(config.apiKey) && !Opens(vault, config.apiKey.value) then 1 else 0
  }

  // ---- the method ------------------------------------------------------------------

  method Reseal(vault: Key, legacy: Key, s: Sealed) returns (r: Option<Sealed>, moved: nat)
    ensures r == if OpensWithEither(vault, legacy, s) then Some(Resealed(vault, s)) else None
    ensures r.Some? ==> moved == if Opens(vault, s) then 0 else 1
  {
    if Opens(vault, s) {
      return Some(s), 0;
    }
    if !Opens(legacy, s) {
      return None, 0;
    }
    r, moved := Some(Sealed.Sealed(vault, s.plain)), 1;
  }

  /** The loop over tokens: `done` holds those re-sealed so far, `moving` names those that had to be. */
  ghost predicate TokensUnderWay(
    work: Config, vault: Key, legacy: Key, left: set<string>, done: map<string, Token>, moving: set<string>)
  {
    && moving == MovingTokens(work, vault) - left
    && left <= work.tokens.Keys && done.Keys == work.tokens.Keys - left
    && forall p :: p in done ==>
         TokenMoves(vault, legacy, work.tokens[p]) && done[p] == MovedToken(vault, work.tokens[p])
  }

  lemma TokensStep(
      work: Config, vault: Key, legacy: Key, left: set<string>, done: map<string, Token>, moving: set<string>,
      p: string, t: Token)
    requires TokensUnderWay(work, vault, legacy, left, done, moving) && p in left
    requires TokenMoves(vault, legacy, work.tokens[p]) && t == MovedToken(vault, work.tokens[p])
    ensures p !in moving
    ensures TokensUnderWay(work, vault, legacy, left - {p}, done[p := t],
                       if p in MovingTokens(work, vault) then moving + {p} else moving)
  {
    assert done[p := t].Keys == done.Keys + {p};
  }

  lemma TokensDone(work: Config, vault: Key, legacy: Key, done: map<string, Token>, moving: set<string>)
    requires TokensUnderWay(work, vault, legacy, {}, done, moving)
    ensures done == MovedConfig(work, vault).tokens
    ensures forall p :: p in work.tokens ==> TokenMoves(vault, legacy, work.tokens[p])
    ensures moving == MovingTokens(work, vault)
  {
  }

  /** The loop over credentials: `done` holds those re-sealed so far, `moving` names those that had to be. */
  ghost predicate CredentialsUnderWay(
    work: Config, vault: Key, legacy: Key, left: set<string>, done: map<string, Credential>, moving: set<string>)
  {
    && moving == MovingCredentials(work, vault) - left
    && left <= work.credentials.Keys && done.Keys == work.credentials.Keys - left
    && forall p :: p in done ==>
         CredentialMoves(vault, legacy, work.credentials[p]) && done[p] == MovedCredential(vault, work.credentials[p])
  }

  lemma CredentialsStep(
      work: Config, vault: Key, legacy: Key, left: set<string>, done: map<string, Credential>, moving: set<string>,
      p: string, c: Credential)
    requires CredentialsUnderWay(work, vault, legacy, left, done, moving) && p in left
    requires CredentialMoves(vault, legacy, work.credentials[p]) && c == MovedCredential(vault, work.credentials[p])
    ensures p !in moving
    ensures CredentialsUnderWay(work, vault, legacy, left - {p}, done[p := c],
                       if p in MovingCredentials(work, vault) then moving + {p} else moving)
  {
    assert done[p := c].Keys == done.Keys + {p};
  }

  lemma CredentialsDone(work: Config, vault: Key, legacy: Key, done: map<string, Credential>, moving: set<string>)
    requires CredentialsUnderWay(work, vault, legacy, {}, done, moving)
    ensures done == MovedConfig(work, vault).credentials
    ensures forall p :: p in work.credentials ==> CredentialMoves(vault, legacy, work.credentials[p])
    ensures moving == MovingCredentials(work, vault)
  {
  }

  ghost function OnDisk(s: ConfigStorage): Disk
    reads s
  {
    Disk(s.config, s.keyFile)
  }

  method ResealToken(vault: Key, legacy: Key, t: Token) returns (r: Option<Token>, moved: nat)
    ensures r == if TokenMoves(vault, legacy, t) then Some(MovedToken(vault, t)) else None
    ensures r.Some? ==> moved == if Opens(vault, t.encrypted.value) then 0 else 1
  {
    if t.encrypted.None? {
      return None, 0;
    }
    var sealed, m := Reseal(vault, legacy, t.encrypted.value);
    moved := m;
    r := if sealed.Some? then Some(t.(encrypted := sealed)) else None;
  }

  /** Re-seals token after token in a copy of the configuration; names the first that cannot be. */
  method ResealTokens(work: Config, vault: Key, legacy: Key) returns (r: Result<Config, string>, moved: nat)
    ensures r.Ok? <==> forall p :: p in work.tokens ==> TokenMoves(vault, legacy, work.tokens[p])
    ensures r.Ok? ==>
      r.value == work.(tokens := MovedConfig(work, vault).tokens) && moved == |MovingTokens(work, vault)|
    ensures r.Err? ==> r.error in work.tokens && !TokenMoves(vault, legacy, work.tokens[r.error])
  {
    moved := 0;
    var left := work.tokens.Keys;
    var done: map<string, Token> := map[];
    ghost var moving: set<string> := {};
    while left != {}
      invariant TokensUnderWay(work, vault, legacy, left, done, moving) && moved == |moving|
      decreases |left|
    {
      var p :| p in left;
      var t, m := ResealToken(vault, legacy, work.tokens[p]);
      if t.None? {
        return Err(p), moved;
      }
      TokensStep(work, vault, legacy, left, done, moving, p, t.value);
      if p in MovingTokens(work, vault) {
        moving := moving + {p};
      }
      moved := moved + m;
      done := done[p := t.value];
      left := left - {p};
    }
    TokensDone(work, vault, legacy, done, moving);
    r := Ok(work.(tokens := done));
  }

  method ResealCredential(vault: Key, legacy: Key, c: Credential) returns (r: Option<Credential>, moved: nat)
    ensures r == if CredentialMoves(vault, legacy, c) then Some(MovedCredential(vault, c)) else None
    ensures r.Some? ==> moved == if c.Text? && !Opens(vault, c.sealed) then 1 else 0
  {
    if c.Other? {
      return Some(c), 0;
    }
    var sealed, m := Reseal(vault, legacy, c.sealed);
    moved := m;
    r := if sealed.Some? then Some(Text(sealed.value)) else None;
  }

  /** Re-seals credential after credential; values that are not strings stay as they are. */
  method ResealCredentials(work: Config, vault: Key, legacy: Key) returns (r: Result<Config, string>, moved: nat)
    ensures r.Ok? <==> forall p :: p in work.credentials ==> CredentialMoves(vault, legacy, work.credentials[p])
    ensures r.Ok? ==>
      r.value == work.(credentials := MovedConfig(work, vault).credentials) && moved == |MovingCredentials(work, vault)|
    ensures r.Err? ==> r.error in work.credentials && !CredentialMoves(vault, legacy, work.credentials[r.error])
  {
    moved := 0;
    var left := work.credentials.Keys;
    var done: map<string, Credential> := map[];
    ghost var moving: set<string> := {};
    while left != {}
      invariant CredentialsUnderWay(work, vault, legacy, left, done, moving) && moved == |moving|
      decreases |left|
    {
      var p :| p in left;
      var c, m := ResealCredential(vault, legacy, work.credentials[p]);
      if c.None? {
        return Err(p), moved;
      }
      CredentialsStep(work, vault, legacy, left, done, moving, p, c.value);
      if p in MovingCredentials(work, vault) {
        moving := moving + {p};
      }
      moved := moved + m;
      done := done[p := c.value];
      left := left - {p};
    }
    CredentialsDone(work, vault, legacy, done, moving);
    r := Ok(work.(credentials := done));
  }

  /** The move; `stop` says where a crash ends it. It throws, naming a value, when one opens with neither key. */
  method AdoptVaultKey(s: ConfigStorage, vault: Key, stop: Stop) returns (r: Result<nat, string>)
    modifies s`config, s`keyFile
    ensures OnDisk(s) == AfterAdoption(old(OnDisk(s)), vault, stop)
    ensures r.Ok? ==> r.value == if old(s.keyFile).Some? then Moving(old(s.config), vault) else 0
    ensures r.Err? <==> old(s.keyFile).Some? && !CanMove(old(s.config), vault, old(s.keyFile).value)
  {
    if s.keyFile.None? {
      return Ok(0);
    }
    var legacy := s.keyFile.value;
    var tokens, movedTokens := ResealTokens(s.config, vault, legacy);
    if tokens.Err? {
      return Err("the " + tokens.error + " token");
    }
    var work := tokens.value;
    var credentials, movedCredentials := ResealCredentials(work, vault, legacy);
    if credentials.Err? {
      return Err("the " + credentials.error + " credentials");
    }
    work := credentials.value;
    var moved := movedTokens + movedCredentials;
    if IsFilled(work.apiKey) {
      var sealed, m := Reseal(vault, legacy, work.apiKey.value);
      if sealed.None? {
        return Err("the API key");
      }
      moved := moved + m;
      work := work.(apiKey := sealed);
    }
    assert work == MovedConfig(s.config, vault);
    assert MovingCredentials(tokens.value, vault) == MovingCredentials(s.config, vault);
    if stop == BeforeWrite {
      return Ok(moved);
    }
    s.config := work;
    if stop == BeforeRemoval {
      return Ok(moved);
    }
    s.keyFile := None;
    r := Ok(moved);
  }

  // ---- nothing is lost -------------------------------------------------------------

  ghost predicate UnderVault(config: Config, vault: Key) {
    CanMove(config, vault, vault)
  }

  /** Every secret opens with the vault key, or with a key file that is still there. */
  ghost predicate Recoverable(disk: Disk, vault: Key) {
    if disk.keyFile.Some? then CanMove(disk.config, vault, disk.keyFile.value) else UnderVault(disk.config, vault)
  }

  lemma MoveKeepsPlaintexts(config: Config, vault: Key)
    ensures ViewOf(MovedConfig(config, vault)) == ViewOf(config)
    ensures MovedConfig(config, vault).preferences == config.preferences
  {
    var moved := MovedConfig(config, vault);
    assert ViewOf(moved).tokens == ViewOf(config).tokens;
    assert ViewOf(moved).credentials == ViewOf(config).credentials;
  }

  /** Wherever a run stops, every secret stays recoverable and every plaintext is what it was. */
  lemma AnyStopLosesNothing(disk: Disk, vault: Key, stop: Stop)
    requires Recoverable(disk, vault)
    ensures Recoverable(AfterAdoption(disk, vault, stop), vault)
    ensures ViewOf(AfterAdoption(disk, vault, stop).config) == ViewOf(disk.config)
  {
    if disk.keyFile.Some? {
      MoveKeepsPlaintexts(disk.config, vault);
    }
  }

  /** The disk after a run for each stop, one after the other. */
  ghost function AfterRuns(disk: Disk, vault: Key, stops: seq<Stop>): Disk
    decreases |stops|
  {
    if stops == [] then disk else AfterRuns(AfterAdoption(disk, vault, stops[0]), vault, stops[1..])
  }

  lemma {:induction false} InterruptedRunsLoseNothing(disk: Disk, vault: Key, stops: seq<Stop>)
    requires Recoverable(disk, vault)
    ensures Recoverable(AfterRuns(disk, vault, stops), vault)
    ensures ViewOf(AfterRuns(disk, vault, stops).config) == ViewOf(disk.config)
    decreases |stops|
  {
    if stops == [] {
    } else {
      AnyStopLosesNothing(disk, vault, stops[0]);
      InterruptedRunsLoseNothing(AfterAdoption(disk, vault, stops[0]), vault, stops[1..]);
    }
  }

  /** However often it was interrupted, one run to the end leaves all under the vault and no key file. */
  lemma RerunCompletesTheMove(disk: Disk, vault: Key, stops: seq<Stop>)
    requires Recoverable(disk, vault)
    ensures var end := AfterAdoption(AfterRuns(disk, vault, stops), vault, AtEnd);
            && end.keyFile == None && UnderVault(end.config, vault)
            && ViewOf(end.config) == ViewOf(disk.config)
            && AfterAdoption(end, vault, AtEnd) == end
  {
    InterruptedRunsLoseNothing(disk, vault, stops);
    var before := AfterRuns(disk, vault, stops);
    AnyStopLosesNothing(before, vault, AtEnd);
  }

  /** A profile with a key file reaches the vault exactly if each of its secrets opens with one of the two keys. */
  lemma UnopenableValueStopsTheMove(disk: Disk, vault: Key, stop: Stop)
    requires disk.keyFile.Some?
    ensures AfterAdoption(disk, vault, AtEnd).keyFile == None <==> CanMove(disk.config, vault, disk.keyFile.value)
    ensures !CanMove(disk.config, vault, disk.keyFile.value) ==> AfterAdoption(disk, vault, stop) == disk
  {
  }

  // ---- the cached key --------------------------------------------------------------

  /** A cache that the move does not make stale: empty, or holding the vault key already. */
  predicate IsFresh(cached: Option<Key>, vault: Key) {
    cached == None || cached == Some(vault)
  }

  /** After the move a fresh cache gives the vault key, and any other keeps giving its own. */
  lemma KeyAfterMove(s: ConfigStorage, config: Config, vault: Key, cached: Option<Key>, r: Result<Key, Error>)
    requires UnderKey(config, vault) && s.vault == Some(vault) && s.keyFile == None && s.Resolves(config, cached, r)
    ensures r == Ok(if IsFresh(cached, vault) then vault else cached.value)
  {
    var probe :| IsProbe(config, probe) && r == KeyFor(cached, s.vault, s.keyFile, s.vaultFile, probe);
    if cached == None {
      if HasSecret(config) {
        GetterGivesTheKey(config, vault, Some(vault), None, s.vaultFile, probe);
      } else {
        ProbeIsUnderKey(config, vault, probe);
      }
    }
  }

  /** A token sealed under another key is none the profile's key opens. */
  lemma OtherKeyBreaksTheProfile(config: Config, vault: Key, key: Key, provider: string, t: Token)
    requires t.encrypted.Some? && Opens(key, t.encrypted.value) && UnderKey(config, vault)
    ensures UnderKey(config.(tokens := config.tokens[provider := t]), vault) <==> key == vault
  {
    var saved := config.(tokens := config.tokens[provider := t]);
    assert saved.tokens[provider] == t;
    if key == vault {
      TokenSavedKeepsOneKey(config, vault, provider, t);
    }
  }

  /** Whether the move leaves this profile under the vault key: each secret opens with one of its keys. */
  ghost predicate EndsUnderVault(disk: Disk, vault: Key) {
    Recoverable(disk, vault) && UnderKey(AfterAdoption(disk, vault, AtEnd).config, vault)
  }

  /** No key that is left opens the token. */
  ghost predicate IsLost(s: ConfigStorage, provider: string)
    reads s
  {
    && provider in s.config.tokens && s.config.tokens[provider].encrypted.Some?
    && forall c :: c in Candidates(s.vault, s.keyFile) ==> !Opens(c.key, s.config.tokens[provider].encrypted.value)
  }

  lemma OneTokenChanged(was: Config, config: Config, p: string)
    requires config == was.(tokens := config.tokens) && config.tokens - {p} == was.tokens - {p} && p in config.tokens
    ensures config == was.(tokens := was.tokens[p := config.tokens[p]])
  {
    forall q ensures q in config.tokens <==> q in was.tokens[p := config.tokens[p]] {
      assert q != p ==> (q in config.tokens <==> q in config.tokens - {p});
      assert q != p ==> (q in was.tokens <==> q in was.tokens - {p});
    }
    forall q | q in config.tokens && q != p ensures config.tokens[q] == was.tokens[q] {
      assert config.tokens[q] == (config.tokens - {p})[q] && was.tokens[q] == (was.tokens - {p})[q];
    }
    assert config.tokens == was.tokens[p := config.tokens[p]];
  }

  /**
   An instance that runs the move and then saves keeps the profile under the vault exactly if it
   had not cached another key before: the move does not reset the cache. If it had, what it saves
   opens with no key that is left.
   */
  method SaveAfterMove(s: ConfigStorage, vault: Key, provider: string, value: string, now: string)
    requires s.vault == Some(vault) && EndsUnderVault(OnDisk(s), vault)
    modifies s
    ensures s.keyFile == None
    ensures ViewOf(s.config) == old(ViewOf(s.config)).(tokens := old(ViewOf(s.config)).tokens[provider := value])
    ensures UnderKey(s.config, vault) <==> IsFresh(old(s.resolvedKey), vault)
    ensures !IsFresh(old(s.resolvedKey), vault) ==> IsLost(s, provider)
  {
    AnyStopLosesNothing(OnDisk(s), vault, AtEnd);
    var moved := AdoptVaultKey(s, vault, AtEnd);
    ghost var end, cached := s.config, s.resolvedKey;
    var saved := s.SaveToken(provider, value, now);
    KeyAfterMove(s, end, vault, cached, if saved.Ok? then Ok(s.resolvedKey.value) else Err(saved.error));
    OneTokenChanged(end, s.config, provider);
    OtherKeyBreaksTheProfile(end, vault, s.resolvedKey.value, provider, s.config.tokens[provider]);
  }

  /** An API key under the old key 1, to be moved to the vault key 2. */
  const OLD_PROFILE := Disk(Config(map[], map[], Some(Sealed.Sealed(1, "secret")), map[]), Some(1))

  /** A read before the move caches the old key, and it goes on sealing what no key then opens. */
  lemma StaleCacheLosesSecrets()
    ensures EndsUnderVault(OLD_PROFILE, 2)
    ensures KeyFor(None, Some(2), OLD_PROFILE.keyFile, true, OLD_PROFILE.config.apiKey) == Ok(1)
    ensures var moved := AfterAdoption(OLD_PROFILE, 2, AtEnd);
            && KeyFor(Some(1), Some(2), moved.keyFile, true, moved.config.apiKey) == Ok(1)
            && forall c :: c in Candidates(Some(2), moved.keyFile) ==> !Opens(c.key, Sealed.Sealed(1, "token"))
  {
    var candidates := Candidates(Some(2), Some(1));
    assert candidates[1..] == [Candidate(Legacy, 1)];
    assert CanMove(OLD_PROFILE.config, 2, 1);
  }

  /** A profile that stays open under its own keys can be moved. */
  lemma StayingOpenMoves(s: ConfigStorage, vault: Key)
    requires s.StaysOpen() && s.vault == Some(vault)
    ensures EndsUnderVault(OnDisk(s), vault)
  {
    var key :| UnderKey(s.config, key) && s.IsOwn(Some(key));
  }

  /**
   The move on an instance and then operations: with a fresh cache every answer is that of the plain
   state, in which the move is nothing at all. With another cache the move leaves the same files, and the cache stale.
   */
  method MoveThenPerform(s: ConfigStorage, vault: Key, after: seq<Op>, now: string) returns (outs: seq<Output>)
    requires s.vault == Some(vault) && EndsUnderVault(OnDisk(s), vault)
    modifies s
    ensures s.keyFile == None
    ensures IsFresh(old(s.resolvedKey), vault) ==>
      var was := State(old(ViewOf(s.config)), true);
      AnswersLike(was, true, after, outs) && s.Abstract() == StateAfter(was, true, after) && s.StaysOpen()
    ensures !IsFresh(old(s.resolvedKey), vault) ==>
      && outs == [] && UnderKey(s.config, vault) && ViewOf(s.config) == old(ViewOf(s.config))
      && s.resolvedKey == old(s.resolvedKey)
  {
    AnyStopLosesNothing(OnDisk(s), vault, AtEnd);
    var moved := AdoptVaultKey(s, vault, AtEnd);
    outs := [];
    if IsFresh(s.resolvedKey, vault) {
      assert s.StaysOpen() && s.Valid() && s.Usable();
      outs := PerformAll(s, after, now);
    }
  }

  // ---- whether the cache is fresh --------------------------------------------------

  /** The profile as operation `k` of a run finds it. */
  function ViewAt(b: Beginning, ops: seq<Op>, k: nat): View
    requires k <= |ops|
  {
    StateAfter(b.state, b.anyKey, ops[..k]).view
  }

  predicate AsksAt(b: Beginning, ops: seq<Op>, k: nat) {
    k < |ops| && AsksForKey(ViewAt(b, ops, k), ops[k])
  }

  /** Operation `k` of a run is the first that asks for the key. */
  ghost predicate IsFirstAsk(b: Beginning, ops: seq<Op>, k: nat) {
    AsksAt(b, ops, k) && forall j: nat :: j < k ==> !AsksAt(b, ops, j)
  }

  lemma SameAsks(b: Beginning, ops: seq<Op>, k: nat)
    requires ops != [] && k < |ops| - 1
    ensures AsksAt(b, ops, k) <==> AsksAt(b, ops[..|ops| - 1], k)
    ensures ViewAt(b, ops, k) == ViewAt(b, ops[..|ops| - 1], k)
  {
    assert ops[..|ops| - 1][..k] == ops[..k];
  }

  lemma {:induction false} NoAskNoCache(b: Beginning, home: Key, ops: seq<Op>)
    requires b.cached == None && forall j: nat :: j < |ops| ==> !AsksAt(b, ops, j)
    ensures CacheAfter(b, home, ops) == None
    decreases |ops|
  {
    if ops == [] {
    } else {
      var front := ops[..|ops| - 1];
      forall j: nat | j < |front| ensures !AsksAt(b, front, j) {
        SameAsks(b, ops, j);
      }
      NoAskNoCache(b, home, front);
      assert !AsksAt(b, ops, |ops| - 1);
    }
  }

  /** An empty cache takes what the getter gives the first operation that asks. */
  lemma {:induction false} FirstAskFillsCache(b: Beginning, home: Key, ops: seq<Op>, k: nat)
    requires b.cached == None && b.first.Some? && IsFirstAsk(b, ops, k)
    ensures CacheAfter(b, home, ops) == if IsEmpty(ViewAt(b, ops, k)) then b.first else Some(home)
    decreases |ops|
  {
    var front := ops[..|ops| - 1];
    if k == |ops| - 1 {
      forall j: nat | j < |front| ensures !AsksAt(b, front, j) {
        SameAsks(b, ops, j);
      }
      NoAskNoCache(b, home, front);
    } else {
      SameAsks(b, ops, k);
      forall j: nat | j < k ensures !AsksAt(b, front, j) {
        SameAsks(b, ops, j);
      }
      FirstAskFillsCache(b, home, front, k);
    }
  }

  lemma {:induction false} SomeFirstAsk(b: Beginning, ops: seq<Op>, j: nat) returns (k: nat)
    requires AsksAt(b, ops, j)
    ensures IsFirstAsk(b, ops, k)
    decreases j
  {
    if i: nat :| i < j && AsksAt(b, ops, i) {
      k := SomeFirstAsk(b, ops, i);
    } else {
      k := j;
    }
  }

  lemma {:induction false} CachedStays(b: Beginning, home: Key, ops: seq<Op>)
    requires b.cached.Some?
    ensures CacheAfter(b, home, ops) == b.cached
    decreases |ops|
  {
    if ops == [] {
    } else {
      CachedStays(b, home, ops[..|ops| - 1]);
    }
  }

  /**
   Where the vault key is the first to try, a run leaves the cache fresh exactly if it was filled with that key before,
   or it was empty and the profile is under the vault, or has no secret left when an operation first asks for the key.
   */
  lemma CacheStaysFresh(b: Beginning, home: Key, vault: Key, ops: seq<Op>)
    requires b.first == Some(vault)
    ensures IsFresh(CacheAfter(b, home, ops), vault) <==>
            if b.cached.Some? then b.cached.value == vault
            else home == vault || forall k: nat :: IsFirstAsk(b, ops, k) ==> IsEmpty(ViewAt(b, ops, k))
  {
    if b.cached.Some? {
      CachedStays(b, home, ops);
    } else if j: nat :| AsksAt(b, ops, j) {
      var k := SomeFirstAsk(b, ops, j);
      FirstAskFillsCache(b, home, ops, k);
      forall i: nat | IsFirstAsk(b, ops, i) ensures i == k {
      }
    } else {
      NoAskNoCache(b, home, ops);
    }
  }

  /**
   Operations, the move, and more operations on one instance, which answers as the plain state does. Whether its
   cache is fresh when the move comes follows from the operations before; if not, the move leaves it stale.
   */
  method PerformAcrossMove(s: ConfigStorage, vault: Key, before: seq<Op>, after: seq<Op>, now: string, ghost home: Key)
    returns (outs: seq<Output>)
    requires s.StaysOpen() && s.vault == Some(vault) && home in HomesOf(s)
    modifies s
    ensures s.keyFile == None
    ensures IsFresh(CacheAfter(old(BeginningOf(s)), home, before), vault) ==>
      && AnswersLike(old(s.Abstract()), true, before + after, outs)
      && s.Abstract() == StateAfter(old(s.Abstract()), true, before + after) && s.StaysOpen()
    ensures !IsFresh(CacheAfter(old(BeginningOf(s)), home, before), vault) ==>
      && AnswersLike(old(s.Abstract()), true, before, outs)
      && UnderKey(s.config, vault) && ViewOf(s.config) == StateAfter(old(s.Abstract()), true, before).view
      && s.resolvedKey == CacheAfter(old(BeginningOf(s)), home, before)
  {
    ghost var was := s.Abstract();
    outs := PerformAll(s, before, now);
    StayingOpenMoves(s, vault);
    ghost var between := s.Abstract();
    var more := MoveThenPerform(s, vault, after, now);
    RunsInTurn(was, true, before, outs, if more == [] then [] else after, more);
    StatesInTurn(was, true, before, after);
    outs := outs + more;
  }
}
