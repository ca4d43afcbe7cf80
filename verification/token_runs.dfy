/** Whole runs of the authorization server: any sequence of requests and maintenance runs from the empty store. */
module TokenRuns {
  import opened Wrappers
  import opened TokenTables
  import opened TokenEndpoints

  const MAX_ACCESS_TTL_MS := DAY_MS
  const MIN_REFRESH_TTL_MS := 60 * MINUTE_MS

  datatype Step =
    | Approval(approval: TokenEndpoints.Approval)
    | Redemption(form: Form, env: Env)
    | Rotation(form: Form, scope: ScopeParameter, env: Env)
    | Bearer(token: string, env: Env)
    | Revocation(token: string, at: int)
    | Disconnect(operator: string, consent: Id, at: int)
    | Maintenance(at: int)

  /** The store, with the history no table keeps: every code ever approved, every id and credential ever drawn,
      and what each request answered. */
  datatype World = World(db: Db, approved: map<Hash, Code>, ids: set<Id>, secrets: set<string>, log: seq<Event>)

  const Empty := World(Db(map[], map[], map[]), map[], {}, {}, [])

  ghost function Answer(db: Db, step: Step): (Db, Event) {
    match step
    case Approval(a) => ApproveSpec(db, a)
    case Redemption(form, env) => RedeemSpec(db, form, env)
    case Rotation(form, scope, env) => RefreshSpec(db, form, scope, env)
    case Bearer(token, env) => VerifySpec(db, token, env)
    case Revocation(token, at) => RevokeTokenSpec(db, token, at)
    case Disconnect(operator, consent, at) => RevokeConsentSpec(db, operator, consent, at)
    case Maintenance(at) => SweepSpec(db, at)
  }

  function IdsOf(step: Step): set<Id> {
    match step
    case Approval(a) => {a.newId}
    case Redemption(_, env) => {env.accessId, env.refreshId}
    case Rotation(_, _, env) => {env.accessId, env.refreshId}
    case _ => {}
  }

  function SecretsOf(step: Step): set<string> {
    match step
    case Approval(a) => {a.code}
    case Redemption(_, env) => {env.access, env.refresh}
    case Rotation(_, _, env) => {env.access, env.refresh}
    case _ => {}
  }

  predicate MintsPair(env: Env) {
    && env.accessId != env.refreshId && env.access != env.refresh
    && 0 < env.accessTtl <= MAX_ACCESS_TTL_MS && MIN_REFRESH_TTL_MS <= env.refreshTtl
  }

  /** Randomness never repeats, and the configured lifetimes are within the bounds the schema enforces. */
  predicate Admissible(w: World, step: Step) {
    && IdsOf(step) !! w.ids && SecretsOf(step) !! w.secrets
    && (step.Redemption? ==> MintsPair(step.env))
    && (step.Rotation? ==> MintsPair(step.env))
  }

  ghost function Next(w: World, step: Step): World {
    var (db, event) := Answer(w.db, step);
    World(db,
          if event.Approved? && event.code in db.codes then w.approved[event.code := db.codes[event.code]]
          else w.approved,
          w.ids + IdsOf(step), w.secrets + SecretsOf(step), w.log + [event])
  }

  ghost predicate ValidRun(w: World, steps: seq<Step>)
    decreases |steps|
  {
    steps == [] || (Admissible(w, steps[0]) && ValidRun(Next(w, steps[0]), steps[1..]))
  }

  ghost function Run(w: World, steps: seq<Step>): World
    decreases |steps|
  {
    if steps == [] then w else Run(Next(w, steps[0]), steps[1..])
  }

  // ---------- what the events mean ----------

  /** The request after which nothing of the family may be used again. */
  predicate KillsFamily(e: Event, family: Hash) {
    || e == CodeReplayed(family)
    || e == RefreshReplayed(family)
    || (e.TokenRevoked? && e.kind == RefreshToken && e.family == family)
  }

  /** A token of the family was accepted, or a new one joined it. */
  predicate UsesFamily(e: Event, family: Hash) {
    || (e.Issued? && e.code == family)
    || (e.Rotated? && e.family == family)
    || (e.Verified? && e.family == family)
  }

  predicate UsesConsent(e: Event, consent: Id) {
    || (e.Issued? && e.consent == consent)
    || (e.Rotated? && e.consent == consent)
    || (e.Verified? && e.consent == consent)
  }

  // ---------- invariants ----------

  ghost predicate TablesKeyed(w: World) {
    && UniqueHashes(w.db.tokens)
    && UniqueActive(w.db.consents)
    && (forall id | id in w.db.tokens ::
          w.db.tokens[id].id == id && id in w.ids && w.db.tokens[id].hash.of in w.secrets)
    && (forall h | h in w.db.codes :: w.db.codes[h].hash == h && h in w.approved
          && w.db.codes[h] == w.approved[h].(usedAt := w.db.codes[h].usedAt))
    && (forall id | id in w.db.consents :: id in w.ids)
    && (forall h | h in w.approved :: w.approved[h].hash == h && h.of in w.secrets)
  }

  /** Where a token's authority comes from: its code, and the consent that code was approved under. */
  predicate ComesFrom(token: Token, approved: map<Hash, Code>) {
    && token.family in approved
    && token.client == approved[token.family].client
    && token.resource == approved[token.family].resource
    && token.consent == approved[token.family].consent
    && IsScopeSubset(token.scopes, approved[token.family].scopes)
  }

  predicate IsCovered(code: Code, consents: map<Id, Consent>) {
    && code.consent in consents
    && consents[code.consent].client == code.client
    && IsScopeSubset(code.scopes, consents[code.consent].scopes)
  }

  ghost predicate Authorised(w: World) {
    && (forall id | id in w.db.tokens :: ComesFrom(w.db.tokens[id], w.approved))
    && (forall h | h in w.approved :: IsCovered(w.approved[h], w.db.consents))
  }

  /** A code that can never be redeemed again: its row is gone, or claimed. */
  predicate IsSpent(w: World, code: Hash) {
    code in w.approved && (code in w.db.codes ==> w.db.codes[code].usedAt.Some?)
  }

  ghost predicate FamiliesSpent(w: World) {
    && (forall id | id in w.db.tokens :: IsSpent(w, w.db.tokens[id].family))
    && (forall i | 0 <= i < |w.log| && w.log[i].Issued? :: IsSpent(w, w.log[i].code))
  }

  predicate SameFate(r: Token, s: Token) {
    r.expiresAt == s.expiresAt && r.revokedAt == s.revokedAt
  }

  predicate AreKin(tokens: map<Id, Token>, i: Id, a: Kind, j: Id, b: Kind) {
    && i in tokens && j in tokens && tokens[i].family == tokens[j].family
    && tokens[i].kind == a && tokens[j].kind == b
  }

  /** The refresh tokens of a family live and die together, and no access token outlives them by a full day. */
  ghost predicate FamiliesUniform(tokens: map<Id, Token>) {
    && (forall i, j | AreKin(tokens, i, RefreshToken, j, RefreshToken) :: SameFate(tokens[i], tokens[j]))
    && (forall i, j | AreKin(tokens, i, RefreshToken, j, AccessToken) ::
          tokens[j].expiresAt < tokens[i].expiresAt + MAX_ACCESS_TTL_MS)
    && (forall i | i in tokens && tokens[i].kind == AccessToken ::
          tokens[i].expiresAt <= tokens[i].issuedAt + MAX_ACCESS_TTL_MS && tokens[i].replacedBy.None?)
  }

  predicate IsRefreshOf(tokens: map<Id, Token>, family: Hash, id: Id) {
    id in tokens && tokens[id].kind == RefreshToken && tokens[id].family == family
  }

  predicate IsLinkedAt(tokens: map<Id, Token>, chain: seq<Id>, i: nat)
    requires i < |chain|
  {
    && chain[i] in tokens
    && tokens[chain[i]].parent == (if i == 0 then None else Some(chain[i - 1]))
    && tokens[chain[i]].replacedBy == (if i == |chain| - 1 then None else Some(chain[i + 1]))
  }

  /** `chain` lists a family's refresh tokens from the first to the current one, each linked to its neighbours. */
  ghost predicate IsChain(tokens: map<Id, Token>, family: Hash, chain: seq<Id>) {
    && (forall i, j | 0 <= i < j < |chain| :: chain[i] != chain[j])
    && (forall id :: id in chain <==> IsRefreshOf(tokens, family, id))
    && (forall i | 0 <= i < |chain| :: IsLinkedAt(tokens, chain, i))
  }

  ghost predicate HasChain(tokens: map<Id, Token>, family: Hash) {
    exists chain :: IsChain(tokens, family, chain)
  }

  ghost predicate Chained(tokens: map<Id, Token>) {
    forall family :: HasChain(tokens, family)
  }

  predicate IsRotatedAway(w: World, id: Id) {
    id in w.ids && (id in w.db.tokens ==> w.db.tokens[id].replacedBy.Some?)
  }

  predicate IsDeadToken(w: World, id: Id) {
    id in w.ids && (id in w.db.tokens ==> w.db.tokens[id].revokedAt.Some?)
  }

  ghost predicate IsDeadFamily(w: World, family: Hash) {
    IsSpent(w, family) && forall id | id in w.db.tokens && w.db.tokens[id].family == family :: IsDeadToken(w, id)
  }

  predicate IsDeadConsent(w: World, consent: Id) {
    consent in w.db.consents && w.db.consents[consent].revokedAt.Some?
  }

  ghost predicate LogKept(w: World) {
    && (forall i | 0 <= i < |w.log| && w.log[i].Rotated? :: IsRotatedAway(w, w.log[i].source))
    && (forall i, f | 0 <= i < |w.log| && KillsFamily(w.log[i], f) :: IsDeadFamily(w, f))
    && (forall i | 0 <= i < |w.log| && w.log[i].TokenRevoked? :: IsDeadToken(w, w.log[i].token))
    && (forall i | 0 <= i < |w.log| && w.log[i].ConsentRevoked? :: IsDeadConsent(w, w.log[i].consent))
  }

  /** What the log says about the past: single use, and death is permanent. */
  ghost predicate History(log: seq<Event>) {
    && (forall i, j | 0 <= i < j < |log| && log[i].Issued? && log[j].Issued? :: log[i].code != log[j].code)
    && (forall i, j | 0 <= i < j < |log| && log[i].Rotated? && log[j].Rotated? :: log[i].source != log[j].source)
    && (forall i, j, f | 0 <= i < j < |log| && KillsFamily(log[i], f) :: !UsesFamily(log[j], f))
    && (forall i, j | 0 <= i < j < |log| && log[i].TokenRevoked? && log[j].Verified? :: log[i].token != log[j].token)
    && (forall i, j | 0 <= i < j < |log| && log[i].ConsentRevoked? :: !UsesConsent(log[j], log[i].consent))
  }

  ghost predicate Inv(w: World) {
    && TablesKeyed(w) && Authorised(w) && FamiliesSpent(w) && FamiliesUniform(w.db.tokens)
    && Chained(w.db.tokens) && LogKept(w) && History(w.log)
  }

  // ---------- what one step may change ----------

  /** All a row can do besides being rotated or deleted: be revoked, once, and be used. */
  predicate Aged(was: Token, is_: Token) {
    && is_ == was.(revokedAt := is_.revokedAt, lastUsedAt := is_.lastUsedAt)
    && (was.revokedAt.Some? ==> is_.revokedAt == was.revokedAt)
  }

  ghost predicate AllAged(tokens: map<Id, Token>, tokens': map<Id, Token>) {
    && tokens'.Keys == tokens.Keys
    && (forall id | id in tokens :: Aged(tokens[id], tokens'[id]))
    && (forall i, j | AreKin(tokens, i, RefreshToken, j, RefreshToken) :: SameFate(tokens'[i], tokens'[j]))
  }

  ghost predicate CodesClaimed(codes: map<Hash, Code>, codes': map<Hash, Code>) {
    && codes'.Keys == codes.Keys
    && forall h | h in codes ::
      && codes'[h] == codes[h].(usedAt := codes'[h].usedAt)
      && (codes[h].usedAt.Some? ==> codes'[h].usedAt.Some?)
  }

  ghost predicate ConsentsRevoked(consents: map<Id, Consent>, consents': map<Id, Consent>) {
    && consents'.Keys == consents.Keys
    && forall c | c in consents ::
      && consents'[c] == consents[c].(revokedAt := consents'[c].revokedAt)
      && (consents[c].revokedAt.Some? ==> consents'[c].revokedAt.Some?)
  }

  /** A step that inserts and deletes no row and rotates no token. */
  ghost predicate Quiet(db: Db, db': Db) {
    && AllAged(db.tokens, db'.tokens)
    && CodesClaimed(db.codes, db'.codes)
    && ConsentsRevoked(db.consents, db'.consents)
  }

  /** Nothing dead comes back: rows never lose a revocation, a claim or a successor, and no row joins a dead family. */
  ghost predicate Forward(w: World, w': World) {
    && w.ids <= w'.ids
    && (forall h | h in w.approved :: h in w'.approved)
    && (forall h | h in w.approved && h in w'.db.codes ::
          h in w.db.codes && (w.db.codes[h].usedAt.Some? ==> w'.db.codes[h].usedAt.Some?))
    && (forall c | IsDeadConsent(w, c) :: IsDeadConsent(w', c))
    && (forall id | id in w.ids && id in w'.db.tokens ::
          && id in w.db.tokens && w.db.tokens[id].family == w'.db.tokens[id].family
          && (w.db.tokens[id].replacedBy.Some? ==> w'.db.tokens[id].replacedBy.Some?)
          && (w.db.tokens[id].revokedAt.Some? ==> w'.db.tokens[id].revokedAt.Some?))
    && (forall id | id !in w.ids && id in w'.db.tokens :: !IsDeadFamily(w, w'.db.tokens[id].family))
  }

  /** The state a successful request found. */
  ghost predicate Justified(w: World, e: Event) {
    && (e.Issued? ==> e.code in w.db.codes && !IsSpent(w, e.code) && IsActive(w.db.consents, e.consent))
    && (e.Rotated? ==>
          && e.source in w.db.tokens && IsActive(w.db.consents, e.consent)
          && var t := w.db.tokens[e.source];
             t.kind == RefreshToken && t.family == e.family && t.revokedAt.None? && t.replacedBy.None?)
    && (e.Verified? ==>
          && e.token in w.db.tokens && IsActive(w.db.consents, e.consent)
          && var t := w.db.tokens[e.token]; t.family == e.family && t.revokedAt.None?)
  }

  /** The state a destructive request leaves. */
  ghost predicate Effective(w': World, e: Event) {
    && (e.Issued? ==> IsSpent(w', e.code))
    && (e.Rotated? ==> IsRotatedAway(w', e.source))
    && (forall f | KillsFamily(e, f) :: IsDeadFamily(w', f))
    && (e.TokenRevoked? ==> IsDeadToken(w', e.token))
    && (e.ConsentRevoked? ==> IsDeadConsent(w', e.consent))
  }

  // ---------- consequences ----------

  lemma DeadFamilyStays(w: World, w': World, f: Hash)
    requires TablesKeyed(w) && Forward(w, w') && IsDeadFamily(w, f)
    ensures IsDeadFamily(w', f)
  {
  }

  lemma LogKeptOn(w: World, w': World, e: Event)
    requires TablesKeyed(w) && LogKept(w) && Forward(w, w') && Effective(w', e) && w'.log == w.log + [e]
    ensures LogKept(w')
  {
    forall i, f | 0 <= i < |w'.log| && KillsFamily(w'.log[i], f)
      ensures IsDeadFamily(w', f)
    {
      if i < |w.log| {
        DeadFamilyStays(w, w', f);
      }
    }
  }

  lemma HistoryKeptOn(w: World, e: Event)
    requires FamiliesSpent(w) && LogKept(w) && History(w.log) && Justified(w, e)
    ensures History(w.log + [e])
  {
    var log := w.log + [e];
    forall i, f | 0 <= i < |w.log| && KillsFamily(log[i], f)
      ensures !UsesFamily(e, f)
    {
      assert KillsFamily(w.log[i], f) && IsDeadFamily(w, f);
    }
    forall i, j, f | 0 <= i < j < |log| && KillsFamily(log[i], f)
      ensures !UsesFamily(log[j], f)
    {
      if j < |w.log| {
        assert KillsFamily(w.log[i], f);
      }
    }
    forall i, j | 0 <= i < j < |log| && log[i].ConsentRevoked?
      ensures !UsesConsent(log[j], log[i].consent)
    {
      assert IsDeadConsent(w, w.log[i].consent);
    }
  }

  // ---------- quiet steps ----------

  lemma QuietKeepsChains(tokens: map<Id, Token>, tokens': map<Id, Token>)
    requires Chained(tokens) && AllAged(tokens, tokens')
    ensures Chained(tokens')
  {
    forall family ensures HasChain(tokens', family) {
      assert HasChain(tokens, family);
      var chain :| IsChain(tokens, family, chain);
      assert forall id :: IsRefreshOf(tokens, family, id) <==> IsRefreshOf(tokens', family, id);
      assert forall i | 0 <= i < |chain| && IsLinkedAt(tokens, chain, i) :: IsLinkedAt(tokens', chain, i);
      assert IsChain(tokens', family, chain);
    }
  }

  lemma QuietKeepsTables(w: World, w': World)
    requires TablesKeyed(w) && Authorised(w) && Quiet(w.db, w'.db)
    requires w'.approved == w.approved && w.ids <= w'.ids && w.secrets <= w'.secrets
    ensures TablesKeyed(w') && Authorised(w')
  {
    assert forall i, j | ShareHash(w'.db.tokens, i, j) :: ShareHash(w.db.tokens, i, j);
    assert forall i, j | AreRivals(w'.db.consents, i, j) :: AreRivals(w.db.consents, i, j);
  }

  lemma QuietKeepsFamilies(w: World, w': World)
    requires TablesKeyed(w) && FamiliesUniform(w.db.tokens) && FamiliesSpent(w) && Quiet(w.db, w'.db)
    requires w'.approved == w.approved && w.ids <= w'.ids
    ensures FamiliesUniform(w'.db.tokens) && Forward(w, w')
    ensures forall id | id in w'.db.tokens :: IsSpent(w', w'.db.tokens[id].family)
  {
    assert forall i, a, j, b | AreKin(w'.db.tokens, i, a, j, b) :: AreKin(w.db.tokens, i, a, j, b);
  }

  /** A step that only ages rows keeps the invariant. */
  lemma QuietKeeps(w: World, w': World, e: Event)
    requires Inv(w) && Quiet(w.db, w'.db) && w'.approved == w.approved && w.ids <= w'.ids && w.secrets <= w'.secrets
    requires w'.log == w.log + [e] && !e.Issued? && Justified(w, e) && Effective(w', e)
    ensures Inv(w')
  {
    hide History, LogKept, Chained, FamiliesUniform, TablesKeyed, Authorised;
    QuietKeepsTables(w, w');
    QuietKeepsFamilies(w, w');
    QuietKeepsChains(w.db.tokens, w'.db.tokens);
    LogKeptOn(w, w', e);
    HistoryKeptOn(w, e);
  }

  lemma SameAges(db: Db)
    requires FamiliesUniform(db.tokens)
    ensures Quiet(db, db)
  {
  }

  lemma RevokeFamilyAges(tokens: map<Id, Token>, family: Hash, at: int)
    requires FamiliesUniform(tokens)
    ensures AllAged(tokens, RevokeFamily(tokens, family, at))
  {
  }

  lemma RevokeByIdAges(tokens: map<Id, Token>, id: Id, at: int)
    requires FamiliesUniform(tokens) && id in tokens && tokens[id].kind == AccessToken
    ensures AllAged(tokens, RevokeById(tokens, id, at))
  {
  }

  lemma RevokeByConsentAges(tokens: map<Id, Token>, approved: map<Hash, Code>, consent: Id, at: int)
    requires FamiliesUniform(tokens)
    requires forall id | id in tokens :: ComesFrom(tokens[id], approved)
    ensures AllAged(tokens, RevokeByConsent(tokens, consent, at))
  {
  }

  lemma TouchedAges(tokens: map<Id, Token>, row: Token, at: int)
    requires FamiliesUniform(tokens)
    ensures AllAged(tokens, Touched(tokens, row, at))
  {
  }

  // ---------- the steps ----------

  lemma FoundByHash(w: World, hash: Hash)
    requires TablesKeyed(w)
    ensures var r := FindByHash(w.db.tokens, hash);
            r.Some? ==> r.value.id in w.db.tokens && w.db.tokens[r.value.id] == r.value
  {
  }

  lemma VerifyFacts(w: World, w': World, row: Token, env: Env)
    requires TablesKeyed(w) && FamiliesUniform(w.db.tokens)
    requires row.id in w.db.tokens && w.db.tokens[row.id] == row
    requires w'.db == VerifyFound(w.db, row, env).0
    ensures Quiet(w.db, w'.db)
    ensures var e := VerifyFound(w.db, row, env).1; Justified(w, e) && Effective(w', e) && !e.Issued?
  {
    hide History, LogKept, Chained, FamiliesUniform, FamiliesSpent, Authorised, AllAged, TablesKeyed;
    SameAges(w.db);
    TouchedAges(w.db.tokens, row, env.at);
  }

  lemma BearerKeeps(w: World, token: string, env: Env)
    requires Inv(w)
    ensures Inv(Next(w, Bearer(token, env)))
  {
    hide History, LogKept, Chained, FamiliesUniform, FamiliesSpent, TablesKeyed, Authorised;
    var w' := Next(w, Bearer(token, env));
    var found := FindByHash(w.db.tokens, Sha256(token));
    var e := VerifySpec(w.db, token, env).1;
    if e.Rejected? {
      assert w'.db == w.db;
      SameAges(w.db);
    } else {
      FoundByHash(w, Sha256(token));
      VerifyFacts(w, w', found.value, env);
    }
    QuietKeeps(w, w', e);
  }

  lemma RevokedRowFacts(w: World, w': World, row: Token, at: int)
    requires TablesKeyed(w) && FamiliesUniform(w.db.tokens) && IsSpent(w, row.family)
    requires row.id in w.db.tokens && w.db.tokens[row.id] == row
    requires w'.approved == w.approved && w.ids <= w'.ids
    requires w'.db == w.db.(tokens := if row.kind == RefreshToken then RevokeFamily(w.db.tokens, row.family, at)
                                      else RevokeById(w.db.tokens, row.id, at))
    ensures Quiet(w.db, w'.db)
    ensures Effective(w', TokenRevoked(row.id, row.kind, row.family))
  {
    hide AllAged, CodesClaimed, ConsentsRevoked, UniqueHashes, UniqueActive, FamiliesUniform;
    SameAges(w.db);
    if row.kind == RefreshToken {
      RevokeFamilyAges(w.db.tokens, row.family, at);
    } else {
      RevokeByIdAges(w.db.tokens, row.id, at);
    }
  }

  lemma RevocationKeeps(w: World, token: string, at: int)
    requires Inv(w)
    ensures Inv(Next(w, Revocation(token, at)))
  {
    hide History, LogKept, Chained, FamiliesUniform, TablesKeyed, Authorised;
    var w' := Next(w, Revocation(token, at));
    var found := FindByHash(w.db.tokens, Sha256(token));
    var e := RevokeTokenSpec(w.db, token, at).1;
    if e.Ignored? {
      assert w'.db == w.db;
      SameAges(w.db);
    } else {
      FoundByHash(w, Sha256(token));
      RevokedRowFacts(w, w', found.value, at);
    }
    QuietKeeps(w, w', e);
  }

  lemma DisconnectKeeps(w: World, operator: string, consent: Id, at: int)
    requires Inv(w)
    ensures Inv(Next(w, Disconnect(operator, consent, at)))
  {
    hide History, LogKept, Chained, FamiliesUniform, FamiliesSpent, TablesKeyed;
    var w' := Next(w, Disconnect(operator, consent, at));
    SameAges(w.db);
    RevokeByConsentAges(w.db.tokens, w.approved, consent, at);
    QuietKeeps(w, w', RevokeConsentSpec(w.db, operator, consent, at).1);
  }

  // ---------- a pair joins a family ----------

  /** The new names collide with nothing stored. */
  predicate IsFreshPair(w: World, env: Env) {
    && env.accessId !in w.ids && env.refreshId !in w.ids && env.access !in w.secrets && env.refresh !in w.secrets
    && MintsPair(env)
  }

  /** The family a grant joins has no other current refresh token with another fate. */
  predicate Joins(tokens: map<Id, Token>, grant: Grant, env: Env) {
    var r := RefreshRow(grant, env);
    && env.at < r.expiresAt
    && forall i | i in tokens && tokens[i].family == grant.family ::
         if tokens[i].kind == RefreshToken then SameFate(tokens[i], r)
         else tokens[i].expiresAt < r.expiresAt + MAX_ACCESS_TTL_MS
  }

  /** The pair's two rows are added; of the others, only a missing successor may be filled in. */
  ghost predicate PairAdded(tokens: map<Id, Token>, tokens': map<Id, Token>, grant: Grant, env: Env) {
    && tokens'.Keys == tokens.Keys + {env.accessId, env.refreshId}
    && env.accessId !in tokens && env.refreshId !in tokens
    && tokens'[env.accessId] == AccessRow(grant, env)
    && tokens'[env.refreshId] == RefreshRow(grant, env)
    && forall id | id in tokens ::
      && tokens'[id] == tokens[id].(replacedBy := tokens'[id].replacedBy)
      && (tokens[id].replacedBy.Some? || tokens[id].kind == AccessToken ==> tokens'[id] == tokens[id])
  }

  lemma PairKeepsUniform(tokens: map<Id, Token>, tokens': map<Id, Token>, grant: Grant, env: Env)
    requires FamiliesUniform(tokens) && Joins(tokens, grant, env) && MintsPair(env)
    requires PairAdded(tokens, tokens', grant, env)
    ensures FamiliesUniform(tokens')
  {
    forall i, j | AreKin(tokens', i, RefreshToken, j, RefreshToken)
      ensures SameFate(tokens'[i], tokens'[j])
    {
      assert i in tokens && j in tokens ==> AreKin(tokens, i, RefreshToken, j, RefreshToken);
    }
    forall i, j | AreKin(tokens', i, RefreshToken, j, AccessToken)
      ensures tokens'[j].expiresAt < tokens'[i].expiresAt + MAX_ACCESS_TTL_MS
    {
      assert i in tokens && j in tokens ==> AreKin(tokens, i, RefreshToken, j, AccessToken);
    }
  }

  /** A step that adds a pair to a living, spent family and leaves the consents alone. */
  ghost predicate PairStep(w: World, w': World, grant: Grant, env: Env) {
    && PairAdded(w.db.tokens, w'.db.tokens, grant, env)
    && CodesClaimed(w.db.codes, w'.db.codes) && w'.db.consents == w.db.consents
    && w'.approved == w.approved
    && w'.ids == w.ids + {env.accessId, env.refreshId} && w'.secrets == w.secrets + {env.access, env.refresh}
    && ComesFrom(AccessRow(grant, env), w.approved)
    && IsSpent(w', grant.family) && !IsDeadFamily(w, grant.family)
  }

  lemma PairKeepsHashes(w: World, w': World, grant: Grant, env: Env)
    requires TablesKeyed(w) && IsFreshPair(w, env) && PairStep(w, w', grant, env)
    ensures UniqueHashes(w'.db.tokens)
  {
    forall i, j | ShareHash(w'.db.tokens, i, j)
      ensures i == j
    {
      assert i in w.db.tokens && j in w.db.tokens ==> ShareHash(w.db.tokens, i, j);
    }
  }

  lemma PairKeepsKeys(w: World, w': World, grant: Grant, env: Env)
    requires TablesKeyed(w) && IsFreshPair(w, env) && PairStep(w, w', grant, env)
    ensures TablesKeyed(w')
  {
    PairKeepsHashes(w, w', grant, env);
  }

  lemma PairKeepsAuthority(w: World, w': World, grant: Grant, env: Env)
    requires Authorised(w) && PairStep(w, w', grant, env)
    ensures Authorised(w')
  {
  }

  lemma PairGoesForward(w: World, w': World, grant: Grant, env: Env)
    requires TablesKeyed(w) && IsFreshPair(w, env) && PairStep(w, w', grant, env)
    ensures Forward(w, w')
  {
    hide IsDeadFamily, ComesFrom, UniqueHashes, UniqueActive;
  }

  lemma PairKeepsSpent(w: World, w': World, grant: Grant, env: Env)
    requires FamiliesSpent(w) && PairStep(w, w', grant, env)
    ensures forall id | id in w'.db.tokens :: IsSpent(w', w'.db.tokens[id].family)
    ensures forall i | 0 <= i < |w.log| && w.log[i].Issued? :: IsSpent(w', w.log[i].code)
  {
  }

  lemma PairKeepsPast(w: World, w': World, grant: Grant, env: Env, e: Event)
    requires TablesKeyed(w) && FamiliesSpent(w) && LogKept(w) && History(w.log)
    requires IsFreshPair(w, env) && PairStep(w, w', grant, env)
    requires w'.log == w.log + [e] && Justified(w, e) && Effective(w', e)
    ensures FamiliesSpent(w') && LogKept(w') && History(w'.log)
  {
    hide History, LogKept, Chained, FamiliesUniform, TablesKeyed, Authorised;
    PairGoesForward(w, w', grant, env);
    PairKeepsSpent(w, w', grant, env);
    LogKeptOn(w, w', e);
    HistoryKeptOn(w, e);
  }

  lemma PairKeeps(w: World, w': World, grant: Grant, env: Env, e: Event)
    requires Inv(w) && IsFreshPair(w, env) && PairStep(w, w', grant, env) && Joins(w.db.tokens, grant, env)
    requires w'.log == w.log + [e] && Justified(w, e) && Effective(w', e) && Chained(w'.db.tokens)
    ensures Inv(w')
  {
    hide History, LogKept, Chained, FamiliesUniform, FamiliesSpent, TablesKeyed, Authorised;
    PairKeepsPast(w, w', grant, env, e);
    PairKeepsKeys(w, w', grant, env);
    PairKeepsAuthority(w, w', grant, env);
    PairKeepsUniform(w.db.tokens, w'.db.tokens, grant, env);
  }

  lemma OtherChainKept(tokens: map<Id, Token>, tokens': map<Id, Token>, family: Hash)
    requires HasChain(tokens, family)
    requires forall id :: IsRefreshOf(tokens, family, id) <==> IsRefreshOf(tokens', family, id)
    requires forall id | IsRefreshOf(tokens, family, id) ::
               && id in tokens'
               && tokens'[id].parent == tokens[id].parent && tokens'[id].replacedBy == tokens[id].replacedBy
    ensures HasChain(tokens', family)
  {
    var chain :| IsChain(tokens, family, chain);
    forall i | 0 <= i < |chain|
      ensures IsLinkedAt(tokens', chain, i)
    {
      assert chain[i] in chain && IsLinkedAt(tokens, chain, i);
    }
    assert IsChain(tokens', family, chain);
  }

  /** A first pair starts the chain of a family that had no token. */
  lemma FirstPairChains(tokens: map<Id, Token>, grant: Grant, env: Env)
    requires Chained(tokens) && grant.parent.None?
    requires env.accessId !in tokens && env.refreshId !in tokens && env.accessId != env.refreshId
    requires forall id | id in tokens :: tokens[id].family != grant.family
    ensures Chained(WithPair(tokens, grant, env))
  {
    var tokens' := WithPair(tokens, grant, env);
    forall family ensures HasChain(tokens', family) {
      if family == grant.family {
        assert IsChain(tokens', family, [env.refreshId]);
      } else {
        OtherChainKept(tokens, tokens', family);
      }
    }
  }

  /** The one refresh token of a chain without a successor is its last. */
  lemma CurrentIsLast(tokens: map<Id, Token>, family: Hash, chain: seq<Id>, id: Id)
    requires IsChain(tokens, family, chain) && IsRefreshOf(tokens, family, id) && tokens[id].replacedBy.None?
    ensures chain != [] && chain[|chain| - 1] == id
  {
    var k :| 0 <= k < |chain| && chain[k] == id;
    assert IsLinkedAt(tokens, chain, k);
  }

  lemma ChainGrows(tokens: map<Id, Token>, tokens': map<Id, Token>, family: Hash, chain: seq<Id>, next: Id)
    requires IsChain(tokens, family, chain) && chain != [] && next !in tokens
    requires forall id :: IsRefreshOf(tokens', family, id) <==> IsRefreshOf(tokens, family, id) || id == next
    requires next in tokens'
    requires tokens'[next].parent == Some(chain[|chain| - 1]) && tokens'[next].replacedBy.None?
    requires forall id | IsRefreshOf(tokens, family, id) :: id in tokens' &&
               tokens'[id] == if id == chain[|chain| - 1] then tokens[id].(replacedBy := Some(next)) else tokens[id]
    ensures IsChain(tokens', family, chain + [next])
  {
    var longer := chain + [next];
    assert forall id :: id in longer <==> id in chain || id == next;
    assert forall i | 0 <= i < |chain| ::
        longer[i] == chain[i] && longer[i] in chain && IsRefreshOf(tokens, family, chain[i]);
    forall i | 0 <= i < |longer|
      ensures IsLinkedAt(tokens', longer, i)
    {
      if i < |chain| {
        assert IsLinkedAt(tokens, chain, i) && chain[i] in chain;
      }
    }
  }

  function Rotated'(tokens: map<Id, Token>, source: Id, scopes: seq<string>, env: Env): map<Id, Token>
    requires source in tokens
  {
    MarkReplaced(WithPair(tokens, RefreshGrant(tokens[source], scopes), env), source, env.refreshId)
  }

  /** A rotation appends its new token to the chain, after the one it replaces. */
  lemma RotationChains(tokens: map<Id, Token>, source: Id, scopes: seq<string>, env: Env)
    requires Chained(tokens) && source in tokens && tokens[source].id == source
    requires tokens[source].kind == RefreshToken && tokens[source].replacedBy.None?
    requires env.accessId !in tokens && env.refreshId !in tokens && env.accessId != env.refreshId
    ensures Chained(Rotated'(tokens, source, scopes, env))
  {
    var home := tokens[source].family;
    var tokens' := Rotated'(tokens, source, scopes, env);
    forall family ensures HasChain(tokens', family) {
      if family == home {
        assert HasChain(tokens, home);
        var chain :| IsChain(tokens, home, chain);
        CurrentIsLast(tokens, home, chain, source);
        ChainGrows(tokens, tokens', home, chain, env.refreshId);
      } else {
        OtherChainKept(tokens, tokens', family);
      }
    }
  }

  /** What a redemption that succeeds found: a stored, unclaimed code. */
  lemma UnclaimedCode(db: Db, form: Form, env: Env)
    requires RedeemSpec(db, form, env).1.Issued?
    ensures IsCodeForm(form)
    ensures var hash := Sha256(form["code"]);
            && hash in db.codes && db.codes[hash].usedAt.None? && IsActive(db.consents, db.codes[hash].consent)
            && db.codes[hash].resource == form["resource"]
            && var code := db.codes[hash].(usedAt := Some(env.at));
               RedeemSpec(db, form, env) ==
               (db.(codes := db.codes[hash := code],
                    tokens := WithPair(db.tokens, CodeGrant(code, form["resource"]), env)),
                Issued(code.hash, code.consent, env.accessId, env.refreshId))
  {
  }

  /** A code still unclaimed has no token yet. */
  lemma NoTokenYet(w: World, hash: Hash)
    requires FamiliesSpent(w) && hash in w.db.codes && w.db.codes[hash].usedAt.None?
    ensures !IsSpent(w, hash) && forall id | id in w.db.tokens :: w.db.tokens[id].family != hash
  {
    assert forall id | id in w.db.tokens :: IsSpent(w, w.db.tokens[id].family);
  }

  lemma IssueFacts(w: World, w': World, hash: Hash, resource: string, env: Env)
    requires TablesKeyed(w) && Authorised(w) && FamiliesSpent(w) && Chained(w.db.tokens) && IsFreshPair(w, env)
    requires hash in w.db.codes && w.db.codes[hash].usedAt.None? && w.db.codes[hash].resource == resource
    requires var code := w.db.codes[hash].(usedAt := Some(env.at));
             w'.db == w.db.(codes := w.db.codes[hash := code],
                            tokens := WithPair(w.db.tokens, CodeGrant(code, resource), env))
    requires w'.approved == w.approved
    requires w'.ids == w.ids + {env.accessId, env.refreshId} && w'.secrets == w.secrets + {env.access, env.refresh}
    ensures var grant := CodeGrant(w.db.codes[hash], resource);
            PairStep(w, w', grant, env) && Joins(w.db.tokens, grant, env) && Chained(w'.db.tokens)
  {
    hide Chained, FamiliesSpent, UniqueHashes, UniqueActive;
    var grant := CodeGrant(w.db.codes[hash], resource);
    NoTokenYet(w, hash);
    assert PairAdded(w.db.tokens, w'.db.tokens, grant, env);
    hide PairAdded, WithPair;
    FirstPairChains(w.db.tokens, grant, env);
    assert IsSpent(w', hash);
  }

  lemma IssueKeeps(w: World, form: Form, env: Env)
    requires Inv(w) && IsFreshPair(w, env) && RedeemSpec(w.db, form, env).1.Issued?
    ensures Inv(Next(w, Redemption(form, env)))
  {
    hide History, LogKept, Chained, FamiliesUniform, FamiliesSpent, Authorised;
    UnclaimedCode(w.db, form, env);
    var w' := Next(w, Redemption(form, env));
    var hash := Sha256(form["code"]);
    IssueFacts(w, w', hash, form["resource"], env);
    PairKeeps(w, w', CodeGrant(w.db.codes[hash], form["resource"]), env, RedeemSpec(w.db, form, env).1);
  }

  lemma ReplayedCodeFacts(w: World, w': World, hash: Hash, at: int)
    requires TablesKeyed(w) && FamiliesUniform(w.db.tokens)
    requires hash in w.db.codes && w.db.codes[hash].usedAt.Some?
    requires w'.approved == w.approved && w.ids <= w'.ids
    requires w'.db == w.db.(tokens := RevokeFamily(w.db.tokens, hash, at))
    ensures Quiet(w.db, w'.db) && Effective(w', CodeReplayed(hash))
  {
    SameAges(w.db);
    RevokeFamilyAges(w.db.tokens, hash, at);
  }

  lemma RefusedRedemption(w: World, w': World, form: Form, env: Env)
    requires TablesKeyed(w) && FamiliesUniform(w.db.tokens)
    requires w'.db == RedeemSpec(w.db, form, env).0 && w'.approved == w.approved && w.ids <= w'.ids
    requires !RedeemSpec(w.db, form, env).1.Issued?
    ensures Quiet(w.db, w'.db) && Effective(w', RedeemSpec(w.db, form, env).1)
  {
    hide History, LogKept, Chained, FamiliesUniform, FamiliesSpent, Authorised, TablesKeyed;
    hide AllAged, RevokeFamily;
    var e := RedeemSpec(w.db, form, env).1;
    if e.CodeReplayed? {
      ReplayedCodeFacts(w, w', e.family, env.at);
    } else {
      SameAges(w.db);
    }
  }

  lemma RedemptionKeeps(w: World, form: Form, env: Env)
    requires Inv(w) && IsFreshPair(w, env)
    ensures Inv(Next(w, Redemption(form, env)))
  {
    hide History, LogKept, Chained, FamiliesUniform, FamiliesSpent, TablesKeyed, Authorised;
    var w' := Next(w, Redemption(form, env));
    var e := RedeemSpec(w.db, form, env).1;
    if e.Issued? {
      IssueKeeps(w, form, env);
    } else {
      RefusedRedemption(w, w', form, env);
      QuietKeeps(w, w', e);
    }
  }

  // ---------- rotation ----------

  /** A current, unrevoked, unexpired refresh token. */
  predicate IsLive(tokens: map<Id, Token>, id: Id, at: int) {
    && id in tokens && tokens[id].id == id && tokens[id].kind == RefreshToken
    && tokens[id].revokedAt.None? && tokens[id].replacedBy.None? && tokens[id].expiresAt > at
  }

  lemma RotationJoins(tokens: map<Id, Token>, source: Id, scopes: seq<string>, env: Env)
    requires FamiliesUniform(tokens) && IsLive(tokens, source, env.at)
    ensures Joins(tokens, RefreshGrant(tokens[source], scopes), env)
  {
  }

  lemma RotationAddsPair(tokens: map<Id, Token>, source: Id, scopes: seq<string>, env: Env)
    requires IsLive(tokens, source, env.at)
    requires env.accessId !in tokens && env.refreshId !in tokens && env.accessId != env.refreshId
    ensures PairAdded(tokens, Rotated'(tokens, source, scopes, env), RefreshGrant(tokens[source], scopes), env)
  {
  }

  lemma RotationStep(w: World, w': World, source: Id, scopes: seq<string>, env: Env)
    requires TablesKeyed(w) && Authorised(w) && FamiliesSpent(w) && IsFreshPair(w, env)
    requires IsLive(w.db.tokens, source, env.at) && IsScopeSubset(scopes, w.db.tokens[source].scopes)
    requires w'.db == w.db.(tokens := Rotated'(w.db.tokens, source, scopes, env))
    requires w'.approved == w.approved
    requires w'.ids == w.ids + {env.accessId, env.refreshId} && w'.secrets == w.secrets + {env.access, env.refresh}
    ensures PairStep(w, w', RefreshGrant(w.db.tokens[source], scopes), env)
  {
    var t := w.db.tokens[source];
    RotationAddsPair(w.db.tokens, source, scopes, env);
    assert ComesFrom(t, w.approved) && IsSpent(w, t.family);
    assert !IsDeadFamily(w, t.family) by {
      assert !IsDeadToken(w, source);
    }
  }

  lemma RotatedKeeps(w: World, w': World, source: Id, scopes: seq<string>, env: Env)
    requires Inv(w) && IsFreshPair(w, env)
    requires IsLive(w.db.tokens, source, env.at) && IsScopeSubset(scopes, w.db.tokens[source].scopes)
    requires IsActive(w.db.consents, w.db.tokens[source].consent)
    requires w'.db == w.db.(tokens := Rotated'(w.db.tokens, source, scopes, env))
    requires w'.approved == w.approved
    requires w'.ids == w.ids + {env.accessId, env.refreshId} && w'.secrets == w.secrets + {env.access, env.refresh}
    requires var t := w.db.tokens[source]; w'.log == w.log + [Rotated(t.family, t.consent, source, env.refreshId)]
    ensures Inv(w')
  {
    hide History, LogKept, Chained, FamiliesUniform, FamiliesSpent, Authorised;
    var t := w.db.tokens[source];
    RotationChains(w.db.tokens, source, scopes, env);
    RotationJoins(w.db.tokens, source, scopes, env);
    RotationStep(w, w', source, scopes, env);
    PairKeeps(w, w', RefreshGrant(t, scopes), env, Rotated(t.family, t.consent, source, env.refreshId));
  }

  /** How a rotation of the token found ends when it succeeds. */
  lemma SuccessfulRotation(w: World, t: Token, form: Form, scope: ScopeParameter, env: Env)
    requires TablesKeyed(w) && IsFreshPair(w, env) && Given(form, "client_id")
    requires t.id in w.db.tokens && w.db.tokens[t.id] == t
    requires RefreshFound(w.db, t, form, scope, env).1.Rotated?
    ensures t.replacedBy.None? && t.expiresAt > env.at && IsActive(w.db.consents, t.consent)
    ensures var scopes := if scope.Requested? then scope.scopes else t.scopes;
            && IsScopeSubset(scopes, t.scopes)
            && RefreshFound(w.db, t, form, scope, env) ==
               (w.db.(tokens := Rotated'(w.db.tokens, t.id, scopes, env)),
                Rotated(t.family, t.consent, t.id, env.refreshId))
  {
  }

  /** The last branch of a refresh, for a token rotated meanwhile, cannot be reached within one request. */
  lemma RefusedRotation(w: World, w': World, t: Token, form: Form, scope: ScopeParameter, env: Env)
    requires TablesKeyed(w) && FamiliesUniform(w.db.tokens) && IsFreshPair(w, env) && Given(form, "client_id")
    requires IsSpent(w, t.family) && t.id in w.db.tokens && w.db.tokens[t.id] == t
    requires w'.db == RefreshFound(w.db, t, form, scope, env).0 && w'.approved == w.approved && w.ids <= w'.ids
    requires !RefreshFound(w.db, t, form, scope, env).1.Rotated?
    ensures Quiet(w.db, w'.db) && Effective(w', RefreshFound(w.db, t, form, scope, env).1)
  {
    hide History, LogKept, Chained, FamiliesUniform, FamiliesSpent, Authorised, AllAged;
    if t.replacedBy.Some? {
      RevokeFamilyAges(w.db.tokens, t.family, env.at);
    }
    SameAges(w.db);
  }

  /** A refresh request is refused outright or concerns one stored, unrevoked refresh token. */
  lemma RotationTarget(w: World, form: Form, scope: ScopeParameter, env: Env) returns (t: Option<Token>)
    requires TablesKeyed(w)
    ensures t.None? ==> RefreshSpec(w.db, form, scope, env).0 == w.db && RefreshSpec(w.db, form, scope, env).1.Refused?
    ensures t.Some? ==>
              && t.value.id in w.db.tokens && w.db.tokens[t.value.id] == t.value
              && t.value.kind == RefreshToken && t.value.revokedAt.None? && Given(form, "client_id")
              && RefreshSpec(w.db, form, scope, env) == RefreshFound(w.db, t.value, form, scope, env)
  {
    t := None;
    if Given(form, "refresh_token") && Given(form, "client_id") && HasPrefix(form["refresh_token"], REFRESH_PREFIX) {
      t := FindByHash(w.db.tokens, Sha256(form["refresh_token"]));
      FoundByHash(w, Sha256(form["refresh_token"]));
      if t.Some? && (t.value.kind != RefreshToken || t.value.revokedAt.Some?) {
        t := None;
      }
    }
  }

  lemma RotationKeeps(w: World, form: Form, scope: ScopeParameter, env: Env)
    requires Inv(w) && IsFreshPair(w, env)
    ensures Inv(Next(w, Rotation(form, scope, env)))
  {
    hide History, LogKept, Chained, FamiliesUniform, TablesKeyed, Authorised, Quiet, RefreshSpec;
    var w' := Next(w, Rotation(form, scope, env));
    var e := RefreshSpec(w.db, form, scope, env).1;
    var t := RotationTarget(w, form, scope, env);
    if t.Some? && e.Rotated? {
      SuccessfulRotation(w, t.value, form, scope, env);
      RotatedKeeps(w, w', t.value.id, if scope.Requested? then scope.scopes else t.value.scopes, env);
    } else if t.Some? {
      assert IsSpent(w, t.value.family);
      RefusedRotation(w, w', t.value, form, scope, env);
      QuietKeeps(w, w', e);
    } else {
      SameAges(w.db);
      QuietKeeps(w, w', e);
    }
  }

  // ---------- approval ----------

  /** Consents only widen, are revoked at most once, and are never deleted. */
  ghost predicate ConsentsGrow(consents: map<Id, Consent>, consents': map<Id, Consent>) {
    forall c | c in consents ::
      && c in consents' && consents'[c].client == consents[c].client && consents'[c].revokedAt == consents[c].revokedAt
      && IsScopeSubset(consents[c].scopes, consents'[c].scopes)
  }

  ghost predicate CodeAdded(w: World, w': World, code: Code, secret: string) {
    && w'.db.tokens == w.db.tokens && ConsentsGrow(w.db.consents, w'.db.consents)
    && code.hash == Sha256(secret) && secret !in w.secrets && code.usedAt.None? && IsCovered(code, w'.db.consents)
    && w'.db.codes == w.db.codes[code.hash := code] && w'.approved == w.approved[code.hash := code]
    && w.ids <= w'.ids && w'.secrets == w.secrets + {secret}
    && (forall c | c in w'.db.consents :: c in w'.ids) && UniqueActive(w'.db.consents)
  }

  lemma CodeKeepsKeys(w: World, w': World, code: Code, secret: string)
    requires TablesKeyed(w) && CodeAdded(w, w', code, secret)
    ensures TablesKeyed(w') && code.hash !in w.approved
  {
    hide UniqueHashes, UniqueActive, IsCovered, ConsentsGrow;
  }

  lemma CodeKeepsAuthority(w: World, w': World, code: Code, secret: string)
    requires Authorised(w) && CodeAdded(w, w', code, secret) && code.hash !in w.approved
    ensures Authorised(w')
  {
    hide UniqueHashes, UniqueActive;
    forall h | h in w.approved
      ensures IsCovered(w'.approved[h], w'.db.consents)
    {
      assert IsCovered(w.approved[h], w.db.consents);
    }
  }

  lemma CodeKeepsSpent(w: World, w': World, code: Code, secret: string)
    requires FamiliesSpent(w) && CodeAdded(w, w', code, secret) && code.hash !in w.approved
    ensures forall id | id in w'.db.tokens :: IsSpent(w', w'.db.tokens[id].family)
    ensures forall i | 0 <= i < |w.log| && w.log[i].Issued? :: IsSpent(w', w.log[i].code)
  {
  }

  lemma CodeKeeps(w: World, w': World, code: Code, secret: string, e: Event)
    requires Inv(w) && CodeAdded(w, w', code, secret) && e.Approved? && w'.log == w.log + [e]
    ensures Inv(w')
  {
    hide History, LogKept, Chained, FamiliesUniform, Authorised;
    CodeKeepsKeys(w, w', code, secret);
    CodeKeepsAuthority(w, w', code, secret);
    CodeKeepsSpent(w, w', code, secret);
    LogKeptOn(w, w', e);
    HistoryKeptOn(w, e);
  }

  lemma ApprovalKeepsRivals(db: Db, a: TokenEndpoints.Approval)
    requires UniqueActive(db.consents) && a.ticked != [] && a.newId !in db.consents
    ensures UniqueActive(ApproveSpec(db, a).0.consents)
  {
    var found := FindActive(db.consents, a.operator, a.client);
    var consents := ApproveSpec(db, a).0.consents;
    forall i, j | AreRivals(consents, i, j)
      ensures i == j
    {
      assert i in db.consents && j in db.consents ==> AreRivals(db.consents, i, j);
      assert found.None? ==>
          !IsActiveFor(db.consents, i, a.operator, a.client) && !IsActiveFor(db.consents, j, a.operator, a.client);
    }
  }

  lemma ApprovalAddsCode(w: World, w': World, a: TokenEndpoints.Approval)
    requires TablesKeyed(w) && a.newId !in w.ids && a.code !in w.secrets && a.ticked != []
    requires w' == Next(w, Step.Approval(a))
    ensures CodeAdded(w, w', w'.db.codes[Sha256(a.code)], a.code)
  {
    hide UniqueActive, UniqueHashes;
    ApprovalKeepsRivals(w.db, a);
  }

  lemma ApprovalKeeps(w: World, a: TokenEndpoints.Approval)
    requires Inv(w) && Admissible(w, Step.Approval(a))
    ensures Inv(Next(w, Step.Approval(a)))
  {
    hide History, LogKept, Chained, FamiliesUniform, FamiliesSpent, Authorised;
    var w' := Next(w, Step.Approval(a));
    var e := ApproveSpec(w.db, a).1;
    if a.ticked == [] {
      SameAges(w.db);
      QuietKeeps(w, w', e);
    } else {
      ApprovalAddsCode(w, w', a);
      CodeKeeps(w, w', w'.db.codes[Sha256(a.code)], a.code, e);
    }
  }

  // ---------- maintenance ----------

  /** A family's refresh tokens are deleted together or not at all. */
  lemma SweptTogether(tokens: map<Id, Token>, family: Hash, threshold: int, i: Id, j: Id)
    requires FamiliesUniform(tokens) && IsRefreshOf(tokens, family, i) && IsRefreshOf(tokens, family, j)
    ensures IsSwept(tokens[i], threshold) == IsSwept(tokens[j], threshold)
  {
  }

  /** So no foreign key of a surviving refresh token is nulled: a rotated token never becomes current again. */
  lemma SweepKeepsLinks(tokens: map<Id, Token>, threshold: int, id: Id)
    requires id in tokens
    requires FamiliesUniform(tokens) && HasChain(tokens, tokens[id].family)
    requires tokens[id].kind == RefreshToken && !IsSwept(tokens[id], threshold)
    ensures DeleteTokens(tokens, threshold)[id] == tokens[id]
  {
    var family := tokens[id].family;
    var chain :| IsChain(tokens, family, chain);
    assert IsRefreshOf(tokens, family, id) && id in chain;
    var k :| 0 <= k < |chain| && chain[k] == id;
    assert IsLinkedAt(tokens, chain, k);
    forall m | 0 <= m < |chain|
      ensures chain[m] in tokens && !IsSwept(tokens[chain[m]], threshold)
    {
      assert chain[m] in chain && IsRefreshOf(tokens, family, chain[m]);
      SweptTogether(tokens, family, threshold, id, chain[m]);
    }
  }

  lemma SweepKeepsChains(tokens: map<Id, Token>, threshold: int)
    requires FamiliesUniform(tokens) && Chained(tokens)
    ensures Chained(DeleteTokens(tokens, threshold))
  {
    var tokens' := DeleteTokens(tokens, threshold);
    forall family ensures HasChain(tokens', family) {
      assert HasChain(tokens, family);
      if exists id :: IsRefreshOf(tokens', family, id) {
        var id :| IsRefreshOf(tokens', family, id);
        forall j | IsRefreshOf(tokens, family, j)
          ensures IsRefreshOf(tokens', family, j) && tokens'[j] == tokens[j]
        {
          SweptTogether(tokens, family, threshold, id, j);
          SweepKeepsLinks(tokens, threshold, j);
        }
        OtherChainKept(tokens, tokens', family);
      } else {
        assert IsChain(tokens', family, []);
      }
    }
  }

  lemma SweepKeepsUniform(tokens: map<Id, Token>, threshold: int)
    requires FamiliesUniform(tokens)
    ensures FamiliesUniform(DeleteTokens(tokens, threshold))
  {
    var tokens' := DeleteTokens(tokens, threshold);
    assert forall i, a, j, b | AreKin(tokens', i, a, j, b) :: AreKin(tokens, i, a, j, b);
  }

  lemma SweepKeepsTables(w: World, w': World, now: int)
    requires TablesKeyed(w) && Authorised(w) && FamiliesSpent(w)
    requires w' == Next(w, Maintenance(now))
    ensures TablesKeyed(w') && Authorised(w')
    ensures forall id | id in w'.db.tokens :: IsSpent(w', w'.db.tokens[id].family)
  {
    assert forall i, j | ShareHash(w'.db.tokens, i, j) :: ShareHash(w.db.tokens, i, j);
    forall id | id in w'.db.tokens
      ensures ComesFrom(w'.db.tokens[id], w'.approved)
    {
      assert ComesFrom(w.db.tokens[id], w.approved);
    }
  }

  lemma SweepGoesForward(w: World, w': World, now: int)
    requires TablesKeyed(w) && FamiliesUniform(w.db.tokens) && Chained(w.db.tokens)
    requires w' == Next(w, Maintenance(now))
    ensures Forward(w, w')
  {
    forall id | id in w'.db.tokens && w.db.tokens[id].replacedBy.Some?
      ensures w'.db.tokens[id].replacedBy.Some?
    {
      if w.db.tokens[id].kind == RefreshToken {
        SweepKeepsLinks(w.db.tokens, now - TOKEN_GRACE_MS, id);
      }
    }
  }

  lemma SweepKeepsPast(w: World, w': World, now: int)
    requires TablesKeyed(w) && Authorised(w) && FamiliesSpent(w) && FamiliesUniform(w.db.tokens) && Chained(w.db.tokens)
    requires LogKept(w) && History(w.log) && w' == Next(w, Maintenance(now))
    ensures FamiliesSpent(w') && LogKept(w') && History(w'.log)
  {
    hide History, LogKept, Chained, FamiliesUniform, TablesKeyed, Authorised;
    SweepKeepsTables(w, w', now);
    SweepGoesForward(w, w', now);
    LogKeptOn(w, w', Swept);
    HistoryKeptOn(w, Swept);
  }

  lemma MaintenanceKeeps(w: World, now: int)
    requires Inv(w)
    ensures Inv(Next(w, Maintenance(now)))
  {
    hide History, LogKept, Chained, FamiliesUniform, FamiliesSpent, TablesKeyed, Authorised;
    var w' := Next(w, Maintenance(now));
    assert TablesKeyed(w') && Authorised(w') by { SweepKeepsTables(w, w', now); }
    assert FamiliesSpent(w') && LogKept(w') && History(w'.log) by { SweepKeepsPast(w, w', now); }
    assert FamiliesUniform(w'.db.tokens) by { SweepKeepsUniform(w.db.tokens, now - TOKEN_GRACE_MS); }
    assert Chained(w'.db.tokens) by { SweepKeepsChains(w.db.tokens, now - TOKEN_GRACE_MS); }
  }

  // ---------- whole runs ----------

  lemma EmptyHolds()
    ensures Inv(Empty)
  {
    forall family ensures HasChain(Empty.db.tokens, family) {
      assert IsChain(Empty.db.tokens, family, []);
    }
  }

  lemma StepKeeps(w: World, step: Step)
    requires Inv(w) && Admissible(w, step)
    ensures Inv(Next(w, step))
  {
    hide History, LogKept, Chained, FamiliesUniform, FamiliesSpent, TablesKeyed, Authorised;
    match step
    case Approval(a) => ApprovalKeeps(w, a);
    case Redemption(form, env) => RedemptionKeeps(w, form, env);
    case Rotation(form, scope, env) => RotationKeeps(w, form, scope, env);
    case Bearer(token, env) => BearerKeeps(w, token, env);
    case Revocation(token, at) => RevocationKeeps(w, token, at);
    case Disconnect(operator, consent, at) => DisconnectKeeps(w, operator, consent, at);
    case Maintenance(at) => MaintenanceKeeps(w, at);
  }

  lemma {:induction false} RunKeeps(w: World, steps: seq<Step>)
    requires Inv(w) && ValidRun(w, steps)
    ensures Inv(Run(w, steps))
    decreases |steps|
  {
    if steps != [] {
      StepKeeps(w, steps[0]);
      RunKeeps(Next(w, steps[0]), steps[1..]);
    }
  }

  ghost predicate Reachable(w: World) {
    exists steps :: ValidRun(Empty, steps) && w == Run(Empty, steps)
  }

  lemma ReachableHolds(w: World)
    requires Reachable(w)
    ensures Inv(w)
  {
    var steps :| ValidRun(Empty, steps) && w == Run(Empty, steps);
    EmptyHolds();
    RunKeeps(Empty, steps);
  }

  // ---------- the theorems ----------

  /** A code is redeemed, and a refresh token exchanged, at most once in any run. */
  lemma SingleUse(w: World, i: nat, j: nat)
    requires Reachable(w) && i < j < |w.log|
    ensures w.log[i].Issued? && w.log[j].Issued? ==> w.log[i].code != w.log[j].code
    ensures w.log[i].Rotated? && w.log[j].Rotated? ==> w.log[i].source != w.log[j].source
  {
    ReachableHolds(w);
  }

  /** In every reachable store a family's refresh tokens form one parent chain, whose last is the only one a
      refresh could still be granted for. */
  lemma OneChainPerFamily(w: World, family: Hash) returns (chain: seq<Id>)
    requires Reachable(w)
    ensures IsChain(w.db.tokens, family, chain)
    ensures forall id | IsRefreshOf(w.db.tokens, family, id) && w.db.tokens[id].replacedBy.None? ::
              chain != [] && id == chain[|chain| - 1]
  {
    ReachableHolds(w);
    assert HasChain(w.db.tokens, family);
    chain :| IsChain(w.db.tokens, family, chain);
    forall id | IsRefreshOf(w.db.tokens, family, id) && w.db.tokens[id].replacedBy.None?
      ensures chain != [] && id == chain[|chain| - 1]
    {
      CurrentIsLast(w.db.tokens, family, chain, id);
    }
  }

  /** Replay of a rotated refresh token, reuse of a stored code, or revocation of a refresh token ends the family:
      nothing later in any run verifies, refreshes or joins it, and whatever is still stored of it is revoked. */
  lemma DeathIsPermanent(w: World, i: nat, family: Hash)
    requires Reachable(w) && i < |w.log| && KillsFamily(w.log[i], family)
    ensures forall j | i < j < |w.log| :: !UsesFamily(w.log[j], family)
    ensures forall id | id in w.db.tokens && w.db.tokens[id].family == family :: w.db.tokens[id].revokedAt.Some?
  {
    ReachableHolds(w);
    assert IsDeadFamily(w, family);
    forall id | id in w.db.tokens && w.db.tokens[id].family == family
      ensures w.db.tokens[id].revokedAt.Some?
    {
      assert IsDeadToken(w, id);
    }
  }

  /** A verified token carries no scope its code was not approved for, and its consent records all of them. */
  lemma ScopesStayWithinConsent(w: World, id: Id)
    requires Reachable(w) && id in w.db.tokens
    ensures var t := w.db.tokens[id];
            && t.family in w.approved && IsScopeSubset(t.scopes, w.approved[t.family].scopes)
            && t.consent == w.approved[t.family].consent && t.consent in w.db.consents
            && t.client == w.db.consents[t.consent].client && t.resource == w.approved[t.family].resource
            && IsScopeSubset(t.scopes, w.db.consents[t.consent].scopes)
  {
    ReachableHolds(w);
    var t := w.db.tokens[id];
    assert ComesFrom(t, w.approved);
    assert IsCovered(w.approved[t.family], w.db.consents);
  }

  /** Exactly which bearer tokens are accepted. */
  lemma AcceptedExactly(w: World, token: string, env: Env)
    requires Reachable(w)
    ensures VerifySpec(w.db, token, env).1.Verified? <==>
              && HasPrefix(token, ACCESS_PREFIX)
              && exists id :: id in w.db.tokens && w.db.tokens[id].hash == Sha256(token) && IsAcceptable(w.db, id, env)
  {
    assert UniqueHashes(w.db.tokens) by { ReachableHolds(w); }
    forall i, j | i in w.db.tokens && j in w.db.tokens && w.db.tokens[i].hash == w.db.tokens[j].hash
      ensures i == j
    {
      assert ShareHash(w.db.tokens, i, j);
    }
  }

  predicate IsAcceptable(db: Db, id: Id, env: Env) {
    && id in db.tokens && db.tokens[id].kind == AccessToken && db.tokens[id].revokedAt.None?
    && db.tokens[id].expiresAt > env.at && db.tokens[id].resource == env.resource
    && IsActive(db.consents, db.tokens[id].consent)
  }

  /** Exactly which refresh requests are granted. */
  lemma ExchangedExactly(w: World, form: Form, scope: ScopeParameter, env: Env)
    requires Reachable(w) && IsFreshPair(w, env)
    ensures RefreshSpec(w.db, form, scope, env).1.Rotated? <==>
              && Given(form, "refresh_token") && Given(form, "client_id")
              && HasPrefix(form["refresh_token"], REFRESH_PREFIX) && !scope.Unparsable?
              && exists id :: id in w.db.tokens && w.db.tokens[id].hash == Sha256(form["refresh_token"])
                   && IsExchangeable(w.db, id, form, scope, env)
  {
    hide RefreshFound;
    assert TablesKeyed(w) by { ReachableHolds(w); }
    forall i, j | i in w.db.tokens && j in w.db.tokens && w.db.tokens[i].hash == w.db.tokens[j].hash
      ensures i == j
    {
      assert ShareHash(w.db.tokens, i, j);
    }
    forall id | id in w.db.tokens && w.db.tokens[id].kind == RefreshToken && w.db.tokens[id].revokedAt.None?
                && Given(form, "client_id")
      ensures RefreshFound(w.db, w.db.tokens[id], form, scope, env).1.Rotated?
              <==> !scope.Unparsable? && IsExchangeable(w.db, id, form, scope, env)
    {
      FoundIsExchanged(w, id, form, scope, env);
    }
  }

  lemma FoundIsExchanged(w: World, id: Id, form: Form, scope: ScopeParameter, env: Env)
    requires TablesKeyed(w) && IsFreshPair(w, env) && Given(form, "client_id")
    requires id in w.db.tokens && w.db.tokens[id].kind == RefreshToken && w.db.tokens[id].revokedAt.None?
    ensures RefreshFound(w.db, w.db.tokens[id], form, scope, env).1.Rotated?
            <==> !scope.Unparsable? && IsExchangeable(w.db, id, form, scope, env)
  {
  }

  predicate IsExchangeable(db: Db, id: Id, form: Form, scope: ScopeParameter, env: Env) {
    && IsLive(db.tokens, id, env.at) && "client_id" in form && form["client_id"] == db.tokens[id].client
    && IsActive(db.consents, db.tokens[id].consent)
    && ("resource" in form ==> form["resource"] == db.tokens[id].resource)
    && (scope.Requested? ==> IsScopeSubset(scope.scopes, db.tokens[id].scopes))
  }

  /** A family has one absolute end, which no access token outlives by the longest access lifetime. */
  lemma FamiliesEndTogether(w: World, i: Id, j: Id)
    requires Reachable(w) && i in w.db.tokens && j in w.db.tokens
    requires w.db.tokens[i].family == w.db.tokens[j].family && w.db.tokens[i].kind == RefreshToken
    ensures if w.db.tokens[j].kind == RefreshToken then w.db.tokens[j].expiresAt == w.db.tokens[i].expiresAt
            else && w.db.tokens[j].expiresAt < w.db.tokens[i].expiresAt + MAX_ACCESS_TTL_MS
                 && w.db.tokens[j].expiresAt <= w.db.tokens[j].issuedAt + MAX_ACCESS_TTL_MS
  {
    ReachableHolds(w);
    assert AreKin(w.db.tokens, i, RefreshToken, j, w.db.tokens[j].kind);
  }

  /** Maintenance never forgets a replay that could still matter: when it deletes a rotated but unrevoked refresh
      token, every token of that family has already expired. */
  lemma ForgottenReplaysAreHarmless(w: World, id: Id, now: int)
    requires Reachable(w) && id in w.db.tokens && w.db.tokens[id].kind == RefreshToken
    requires w.db.tokens[id].revokedAt.None? && id !in SweepSpec(w.db, now).0.tokens
    ensures forall j | j in w.db.tokens && w.db.tokens[j].family == w.db.tokens[id].family ::
              w.db.tokens[j].expiresAt < now
  {
    hide History, LogKept, Chained, FamiliesSpent, TablesKeyed, Authorised;
    ReachableHolds(w);
    forall j | j in w.db.tokens && w.db.tokens[j].family == w.db.tokens[id].family
      ensures w.db.tokens[j].expiresAt < now
    {
      assert AreKin(w.db.tokens, id, RefreshToken, j, w.db.tokens[j].kind);
    }
  }

  /** Maintenance never makes a rotated refresh token current again, although the schema nulls links to deleted rows. */
  lemma MaintenanceKeepsRotation(w: World, id: Id, now: int)
    requires Reachable(w) && id in SweepSpec(w.db, now).0.tokens && w.db.tokens[id].kind == RefreshToken
    ensures SweepSpec(w.db, now).0.tokens[id] == w.db.tokens[id]
  {
    hide History, LogKept, FamiliesUniform, FamiliesSpent, TablesKeyed, Authorised;
    assert FamiliesUniform(w.db.tokens) && Chained(w.db.tokens) by { ReachableHolds(w); }
    SweepKeepsLinks(w.db.tokens, now - TOKEN_GRACE_MS, id);
  }
}
