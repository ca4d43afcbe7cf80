/** Which requests succeed, told from the request and the stored rows alone, and what a success can be used for. */
module TokenGrants {
  import opened TokenEndpoints
  import opened TokenRuns
  import opened TokenTables
  import opened Wrappers

  predicate IsFilled(form: Form, name: string) {
    name in form && form[name] != ""
  }

  predicate IsCredential(value: string, prefix: string) {
    prefix < value
  }

  predicate IsUnrevoked(db: Db, consent: Id) {
    consent in db.consents && db.consents[consent].revokedAt == None
  }

  // ---------- redemption ----------

  predicate HasCodeFields(form: Form) {
    && IsFilled(form, "code") && IsFilled(form, "client_id") && IsFilled(form, "redirect_uri")
    && IsFilled(form, "code_verifier") && IsFilled(form, "resource")
  }

  /** The form names a stored code of this deployment. */
  predicate PresentsCode(db: Db, form: Form, resource: string) {
    && HasCodeFields(form) && form["resource"] == resource && IsCredential(form["code"], "vg_ac_")
    && Sha256(form["code"]) in db.codes
  }

  /** Exactly which redemptions are granted: everything the code was bound to is presented again, in time, with the
      verifier of its challenge. */
  lemma RedeemedExactly(db: Db, form: Form, env: Env)
    ensures RedeemSpec(db, form, env).1.Issued? <==>
              && PresentsCode(db, form, env.resource)
              && var code := db.codes[Sha256(form["code"])];
                 && code.usedAt == None && env.at < code.expiresAt
                 && code.client == form["client_id"] && code.redirectUri == form["redirect_uri"]
                 && code.resource == form["resource"] && code.challenge.verifier == form["code_verifier"]
                 && IsUnrevoked(db, code.consent)
  {
    hide RevokeFamily, WithPair;
  }

  /** ... and which are taken for a replay, refused as misdirected, or refused as incomplete. */
  lemma RedemptionAnswers(db: Db, form: Form, env: Env)
    ensures var answer := RedeemSpec(db, form, env).1;
            && (answer.CodeReplayed? <==>
                  PresentsCode(db, form, env.resource) && db.codes[Sha256(form["code"])].usedAt != None)
            && (answer == Refused(InvalidRequest) <==> !HasCodeFields(form))
            && (answer == Refused(InvalidTarget) <==> HasCodeFields(form) && form["resource"] != env.resource)
            && (answer.Issued? || answer.CodeReplayed? || answer == Refused(InvalidRequest)
                || answer == Refused(InvalidTarget) || answer == Refused(InvalidGrant))
  {
    hide RevokeFamily, WithPair;
  }

  /** A replayed code takes every token it led to, then and not before. */
  lemma CodeReplayRevokes(db: Db, form: Form, env: Env)
    requires RedeemSpec(db, form, env).1.CodeReplayed?
    ensures var db' := RedeemSpec(db, form, env).0;
            && IsCodeForm(form) && db' == db.(tokens := db'.tokens) && db'.tokens.Keys == db.tokens.Keys
            && forall id | id in db.tokens ::
                 db'.tokens[id] == if db.tokens[id].family == Sha256(form["code"]) then RevokedAt(db.tokens[id], env.at)
                                   else db.tokens[id]
  {
    hide WithPair;
  }

  /** A refused redemption touches no token and no consent, and of the codes only claims the one presented. */
  lemma RefusalClaims(db: Db, form: Form, env: Env)
    requires RedeemSpec(db, form, env).1.Refused?
    ensures var db' := RedeemSpec(db, form, env).0;
            && db' == db.(codes := db'.codes)
            && db'.codes == if PresentsCode(db, form, env.resource) then
                              var hash := Sha256(form["code"]);
                              db.codes[hash := db.codes[hash].(usedAt := Some(env.at))]
                            else db.codes
  {
    hide WithPair, RevokeFamily;
  }

  /** A code is claimed by its first presentation, granted or not: the second is a replay. */
  lemma SecondPresentationIsReplay(db: Db, form: Form, env: Env, form2: Form, env2: Env)
    requires PresentsCode(db, form, env.resource) && PresentsCode(db, form2, env2.resource)
    requires form2["code"] == form["code"]
    ensures RedeemSpec(RedeemSpec(db, form, env).0, form2, env2).1 == CodeReplayed(Sha256(form["code"]))
  {
    hide RevokeFamily, WithPair;
  }

  /** The pair just issued works until it expires: the access token carries the code's scopes, the refresh token can be
      exchanged by the code's client. */
  lemma IssuedIsUsable(w: World, form: Form, env: Env, later: Env)
    requires Reachable(w) && Admissible(w, Step.Redemption(form, env)) && RedeemSpec(w.db, form, env).1.Issued?
    requires later.resource == env.resource
    ensures var code := w.db.codes[Sha256(form["code"])];
            var db := RedeemSpec(w.db, form, env).0;
            && (IsCredential(env.access, "vg_at_") && later.at < env.at + env.accessTtl ==>
                  VerifySpec(db, env.access, later).1 == Verified(env.accessId, code.hash, code.consent, code.scopes))
            && forall again, scope |
                 && HasRefreshFields(again) && again["refresh_token"] == env.refresh
                 && IsCredential(env.refresh, "vg_rt_")
                 && again["client_id"] == code.client && ("resource" in again ==> again["resource"] == env.resource)
                 && Within(scope, code.scopes) && later.at < env.at + env.refreshTtl
                 && IsFreshPair(Next(w, Step.Redemption(form, env)), later) ::
                 RefreshSpec(db, again, scope, later).1
                 == Rotated(code.hash, code.consent, env.refreshId, later.refreshId)
  {
    var w' := Next(w, Step.Redemption(form, env));
    var code := w.db.codes[Sha256(form["code"])];
    IssuedStore(w, form, env);
    hide RedeemSpec, Next, RefreshSpec, TablesKeyed;
    assert RedeemSpec(w.db, form, env).0 == w'.db by { NextStore(w, form, env); }
    if IsCredential(env.access, "vg_at_") && later.at < env.at + env.accessTtl {
      StoredIsFound(w', env.accessId);
    }
    forall again, scope |
      && HasRefreshFields(again) && again["refresh_token"] == env.refresh && IsCredential(env.refresh, "vg_rt_")
      && again["client_id"] == code.client && ("resource" in again ==> again["resource"] == env.resource)
      && Within(scope, code.scopes) && later.at < env.at + env.refreshTtl && IsFreshPair(w', later)
      ensures RefreshSpec(w'.db, again, scope, later).1
              == Rotated(code.hash, code.consent, env.refreshId, later.refreshId)
    {
      CurrentIsExchanged(w', env.refreshId, again, scope, later);
    }
  }

  lemma NextStore(w: World, form: Form, env: Env)
    ensures Next(w, Step.Redemption(form, env)).db == RedeemSpec(w.db, form, env).0
  {
    hide RedeemSpec;
  }

  /** The store a granted redemption leaves. */
  lemma IssuedStore(w: World, form: Form, env: Env)
    requires Reachable(w) && Admissible(w, Step.Redemption(form, env)) && RedeemSpec(w.db, form, env).1.Issued?
    ensures PresentsCode(w.db, form, env.resource)
    ensures var (code, w') := (w.db.codes[Sha256(form["code"])], Next(w, Step.Redemption(form, env)));
            && TablesKeyed(w') && code.resource == form["resource"] && IsUnrevoked(w'.db, code.consent)
            && {env.accessId, env.refreshId} <= w'.db.tokens.Keys
            && w'.db.tokens[env.accessId] == AccessRow(CodeGrant(code, form["resource"]), env)
            && w'.db.tokens[env.refreshId] == RefreshRow(CodeGrant(code, form["resource"]), env)
            && w'.db.tokens[env.accessId].parent == None == w'.db.tokens[env.refreshId].parent
  {
    RedeemedExactly(w.db, form, env);
    hide Inv;
    ReachableHolds(w);
    StepKeeps(w, Step.Redemption(form, env));
    KeyedOfInv(Next(w, Step.Redemption(form, env)));
    hide TablesKeyed;
  }

  lemma KeyedOfInv(w: World)
    requires Inv(w)
    ensures TablesKeyed(w)
  {
  }

  // ---------- refresh ----------

  predicate HasRefreshFields(form: Form) {
    IsFilled(form, "refresh_token") && IsFilled(form, "client_id")
  }

  predicate Within(scope: ScopeParameter, granted: seq<string>) {
    match scope
    case Absent => true
    case Unparsable => false
    case Requested(scopes) => forall s | s in scopes :: s in granted
  }

  function Asked(scope: ScopeParameter, granted: seq<string>): seq<string> {
    if scope.Requested? then scope.scopes else granted
  }

  lemma StoredIsFound(w: World, id: Id)
    requires TablesKeyed(w) && id in w.db.tokens
    ensures FindByHash(w.db.tokens, w.db.tokens[id].hash) == Some(w.db.tokens[id])
  {
    var r := FindByHash(w.db.tokens, w.db.tokens[id].hash);
    var found :| found in w.db.tokens && w.db.tokens[found] == r.value && r.value.hash == w.db.tokens[id].hash;
    assert ShareHash(w.db.tokens, found, id);
  }

  /** The form presents a stored refresh token that carries no revocation. */
  ghost predicate PresentsRefresh(db: Db, form: Form, id: Id) {
    && HasRefreshFields(form) && IsCredential(form["refresh_token"], "vg_rt_")
    && id in db.tokens && db.tokens[id].hash == Sha256(form["refresh_token"])
    && db.tokens[id].kind == RefreshToken && db.tokens[id].revokedAt == None
  }

  lemma PresentedIsFound(w: World, form: Form, scope: ScopeParameter, env: Env, id: Id)
    requires TablesKeyed(w) && PresentsRefresh(w.db, form, id)
    ensures Given(form, "client_id")
    ensures RefreshSpec(w.db, form, scope, env) == RefreshFound(w.db, w.db.tokens[id], form, scope, env)
  {
    hide RefreshFound;
    StoredIsFound(w, id);
  }

  /** A rotated token presented again is a replay and nothing else is. */
  lemma ReplayedExactly(w: World, form: Form, scope: ScopeParameter, env: Env)
    requires Reachable(w)
    ensures RefreshSpec(w.db, form, scope, env).1.RefreshReplayed? <==>
              exists id :: PresentsRefresh(w.db, form, id) && w.db.tokens[id].replacedBy != None
  {
    assert TablesKeyed(w) by { ReachableHolds(w); }
    hide TablesKeyed, RefreshFound;
    if RefreshSpec(w.db, form, scope, env).1.RefreshReplayed? {
      var row := FindByHash(w.db.tokens, Sha256(form["refresh_token"])).value;
      var id :| id in w.db.tokens && w.db.tokens[id] == row && row.hash == Sha256(form["refresh_token"]);
      FoundReplayed(w.db, row, form, scope, env);
      assert PresentsRefresh(w.db, form, id);
    }
    forall id | PresentsRefresh(w.db, form, id) && w.db.tokens[id].replacedBy != None
      ensures RefreshSpec(w.db, form, scope, env).1.RefreshReplayed?
    {
      PresentedIsFound(w, form, scope, env, id);
      FoundReplayed(w.db, w.db.tokens[id], form, scope, env);
    }
  }

  lemma FoundReplayed(db: Db, row: Token, form: Form, scope: ScopeParameter, env: Env)
    requires Given(form, "client_id")
    ensures RefreshFound(db, row, form, scope, env).1.RefreshReplayed? <==> row.replacedBy != None
  {
  }

  /** ... and it takes the whole family. */
  lemma ReplayRevokes(w: World, form: Form, scope: ScopeParameter, env: Env)
    requires Reachable(w) && RefreshSpec(w.db, form, scope, env).1.RefreshReplayed?
    ensures var (db, e) := RefreshSpec(w.db, form, scope, env);
            && db == w.db.(tokens := db.tokens) && db.tokens.Keys == w.db.tokens.Keys
            && (exists id :: PresentsRefresh(w.db, form, id) && w.db.tokens[id].family == e.family)
            && forall id | id in w.db.tokens ::
                 db.tokens[id] == if w.db.tokens[id].family == e.family then RevokedAt(w.db.tokens[id], env.at)
                                  else w.db.tokens[id]
  {
    ReplayedExactly(w, form, scope, env);
    assert TablesKeyed(w) by { ReachableHolds(w); }
    var id :| PresentsRefresh(w.db, form, id) && w.db.tokens[id].replacedBy != None;
    PresentedIsFound(w, form, scope, env, id);
    hide UniqueHashes, UniqueActive, RefreshSpec;
  }

  /** How a refresh that is neither granted nor a replay is refused; it changes nothing. */
  lemma RefreshRefusals(w: World, form: Form, scope: ScopeParameter, env: Env)
    requires Reachable(w) && IsFreshPair(w, env) && RefreshSpec(w.db, form, scope, env).1.Refused?
    ensures var (db, e) := RefreshSpec(w.db, form, scope, env);
            && db == w.db
            && (e == Refused(InvalidRequest) <==> !HasRefreshFields(form))
            && (forall id | PresentsRefresh(w.db, form, id) ::
                  e == RefusalOf(w.db, w.db.tokens[id], form, env))
            && (HasRefreshFields(form) && (forall id :: !PresentsRefresh(w.db, form, id)) ==>
                  e == Refused(InvalidGrant))
  {
    assert TablesKeyed(w) by { ReachableHolds(w); }
    forall id | PresentsRefresh(w.db, form, id)
      ensures RefreshSpec(w.db, form, scope, env) == (w.db, RefusalOf(w.db, w.db.tokens[id], form, env))
    {
      PresentedIsFound(w, form, scope, env, id);
      hide UniqueActive, UniqueHashes, RefreshSpec;
      FoundRefused(w, id, form, scope, env);
    }
    hide TablesKeyed, RefreshFound;
    if forall id :: !PresentsRefresh(w.db, form, id) {
      NonePresented(w.db, form, scope, env);
    }
  }

  /** What is wrong with the token presented, in the order it is looked for. */
  function RefusalOf(db: Db, t: Token, form: Form, env: Env): TokenEndpoints.Event {
    if t.expiresAt <= env.at || !("client_id" in form && form["client_id"] == t.client)
       || !IsUnrevoked(db, t.consent) then Refused(InvalidGrant)
    else if "resource" in form && form["resource"] != t.resource then Refused(InvalidTarget)
    else Refused(InvalidScope)
  }

  lemma FoundRefused(w: World, id: Id, form: Form, scope: ScopeParameter, env: Env)
    requires TablesKeyed(w) && IsFreshPair(w, env) && PresentsRefresh(w.db, form, id)
    requires Given(form, "client_id") && RefreshFound(w.db, w.db.tokens[id], form, scope, env).1.Refused?
    ensures RefreshFound(w.db, w.db.tokens[id], form, scope, env) == (w.db, RefusalOf(w.db, w.db.tokens[id], form, env))
  {
    hide UniqueActive, UniqueHashes, IsScopeSubset;
    assert w.db.tokens[id].id == id && env.accessId != id && env.refreshId != id;
  }

  lemma NonePresented(db: Db, form: Form, scope: ScopeParameter, env: Env)
    requires forall id :: !PresentsRefresh(db, form, id)
    ensures RefreshSpec(db, form, scope, env)
            == (db, Refused(if HasRefreshFields(form) then InvalidGrant else InvalidRequest))
  {
    hide RefreshFound;
    if HasRefreshFields(form) && IsCredential(form["refresh_token"], "vg_rt_") {
      var hash := Sha256(form["refresh_token"]);
      forall id | id in db.tokens && db.tokens[id].hash == hash
        ensures db.tokens[id].kind != RefreshToken || db.tokens[id].revokedAt != None
      {
        assert !PresentsRefresh(db, form, id);
      }
    }
  }

  lemma CurrentIsExchanged(w: World, id: Id, form: Form, scope: ScopeParameter, env: Env)
    requires TablesKeyed(w) && IsFreshPair(w, env) && PresentsRefresh(w.db, form, id)
    requires var t := w.db.tokens[id];
             && t.replacedBy == None && env.at < t.expiresAt && form["client_id"] == t.client
             && IsUnrevoked(w.db, t.consent) && ("resource" in form ==> form["resource"] == t.resource)
             && Within(scope, t.scopes)
    ensures var t, (db, e) := w.db.tokens[id], RefreshSpec(w.db, form, scope, env);
            && e == Rotated(t.family, t.consent, id, env.refreshId)
            && db == w.db.(tokens := Rotated'(w.db.tokens, id, Asked(scope, t.scopes), env))
  {
    hide UniqueHashes, UniqueActive;
    PresentedIsFound(w, form, scope, env, id);
    SuccessfulRotation(w, w.db.tokens[id], form, scope, env) by {
      assert IsScopeSubset(Asked(scope, w.db.tokens[id].scopes), w.db.tokens[id].scopes);
    }
  }

  /** The step after which the pair is to be used. */
  function Rotating(form: Form, scope: ScopeParameter, env: Env): Step {
    Step.Rotation(form, scope, env)
  }

  /** After a rotation the new access token carries the scopes asked for, the new refresh token can be exchanged until
      the old one would have expired, and the old one presented again is a replay. */
  lemma RotatedIsUsable(w: World, form: Form, scope: ScopeParameter, env: Env, id: Id, later: Env)
    requires Reachable(w) && Admissible(w, Rotating(form, scope, env)) && PresentsRefresh(w.db, form, id)
    requires RefreshSpec(w.db, form, scope, env).1.Rotated? && later.resource == w.db.tokens[id].resource
    ensures var t, w' := w.db.tokens[id], Next(w, Rotating(form, scope, env));
            && (IsCredential(env.access, "vg_at_") && later.at < env.at + env.accessTtl ==>
                  VerifySpec(w'.db, env.access, later).1
                  == Verified(env.accessId, t.family, t.consent, Asked(scope, t.scopes)))
            && (forall other :: RefreshSpec(w'.db, form, other, later).1 == RefreshReplayed(t.family))
            && forall again, other |
                 && HasRefreshFields(again) && again["refresh_token"] == env.refresh
                 && IsCredential(env.refresh, "vg_rt_")
                 && again["client_id"] == t.client && ("resource" in again ==> again["resource"] == t.resource)
                 && Within(other, Asked(scope, t.scopes)) && later.at < t.expiresAt && IsFreshPair(w', later) ::
                 RefreshSpec(w'.db, again, other, later).1
                 == Rotated(t.family, t.consent, env.refreshId, later.refreshId)
  {
    var t, w' := w.db.tokens[id], Next(w, Rotating(form, scope, env));
    ReachableHolds(w);
    hide Chained, FamiliesUniform, FamiliesSpent, Authorised, LogKept, History;
    RotatedStore(w, form, scope, env, id);
    assert TablesKeyed(w') by { StepKeeps(w, Rotating(form, scope, env)); }
    hide RefreshSpec, RefreshFound, Next, TablesKeyed, Rotated';
    StoredIsFound(w', env.accessId);
    StoredIsFound(w', env.refreshId);
    forall other
      ensures RefreshSpec(w'.db, form, other, later).1 == RefreshReplayed(t.family)
    {
      PresentedIsFound(w', form, other, later, id);
      ReplayKills(w'.db, w'.db.tokens[id], form, other, later);
    }
    forall again, other |
      && HasRefreshFields(again) && again["refresh_token"] == env.refresh && IsCredential(env.refresh, "vg_rt_")
      && again["client_id"] == t.client && ("resource" in again ==> again["resource"] == t.resource)
      && Within(other, Asked(scope, t.scopes)) && later.at < t.expiresAt && IsFreshPair(w', later)
      ensures RefreshSpec(w'.db, again, other, later).1
              == Rotated(t.family, t.consent, env.refreshId, later.refreshId)
    {
      CurrentIsExchanged(w', env.refreshId, again, other, later);
    }
  }

  lemma ReplayKills(db: Db, row: Token, form: Form, scope: ScopeParameter, env: Env)
    requires Given(form, "client_id") && row.replacedBy != None
    ensures RefreshFound(db, row, form, scope, env).1 == RefreshReplayed(row.family)
  {
  }

  lemma RotatedStore(w: World, form: Form, scope: ScopeParameter, env: Env, id: Id)
    requires TablesKeyed(w) && IsFreshPair(w, env) && PresentsRefresh(w.db, form, id)
    requires RefreshSpec(w.db, form, scope, env).1.Rotated?
    ensures IsFreshPair(w, env)
    ensures var t, w' := w.db.tokens[id], Next(w, Rotating(form, scope, env));
            && {id, env.accessId, env.refreshId} <= w'.db.tokens.Keys && w'.db.consents == w.db.consents
            && IsUnrevoked(w.db, t.consent)
            && w'.db.tokens[id] == t.(replacedBy := Some(env.refreshId))
            && w'.db.tokens[env.accessId] == AccessRow(RefreshGrant(t, Asked(scope, t.scopes)), env)
            && w'.db.tokens[env.refreshId] == RefreshRow(RefreshGrant(t, Asked(scope, t.scopes)), env)
            && w'.db.tokens[env.accessId].parent == Some(id) == w'.db.tokens[env.refreshId].parent
  {
    PresentedIsFound(w, form, scope, env, id);
    hide UniqueHashes, UniqueActive, RefreshSpec;
    SuccessfulRotation(w, w.db.tokens[id], form, scope, env);
  }

  // ---------- verification ----------

  /** What a verified token is told to carry is what its row says; and its use is recorded to the minute. */
  lemma VerifiedTellsTheRow(w: World, token: string, env: Env)
    requires Reachable(w) && VerifySpec(w.db, token, env).1.Verified?
    ensures var (db, e) := VerifySpec(w.db, token, env);
            && e.token in w.db.tokens && e.token in db.tokens
            && var row, now := w.db.tokens[e.token], db.tokens[e.token];
               && row.hash == Sha256(token) && IsAcceptable(w.db, e.token, env)
               && e == Verified(row.id, row.family, row.consent, row.scopes)
               && now == row.(lastUsedAt := now.lastUsedAt)
               && now.lastUsedAt.Some? && env.at - now.lastUsedAt.value < 60_000
               && (now.lastUsedAt == row.lastUsedAt || now.lastUsedAt == Some(env.at))
               && (now.lastUsedAt != row.lastUsedAt && row.lastUsedAt.Some? ==> env.at - row.lastUsedAt.value >= 60_000)
               && db == w.db.(tokens := w.db.tokens[e.token := now])
  {
    assert TablesKeyed(w) by { ReachableHolds(w); }
    FoundByHash(w, Sha256(token));
  }

  /** How a bearer token is rejected: as malformed, as revoked with its consent or alone, as expired, or as unknown; the
      store is untouched. */
  lemma RejectedExactly(w: World, token: string, env: Env)
    requires Reachable(w) && VerifySpec(w.db, token, env).1.Rejected?
    ensures var (db, e) := VerifySpec(w.db, token, env);
            && db == w.db
            && (e.reason == Malformed <==> !IsCredential(token, "vg_at_"))
            && (forall id | id in w.db.tokens && w.db.tokens[id].hash == Sha256(token) && e.reason != Malformed ::
                  var t := w.db.tokens[id];
                  e.reason == if t.kind != AccessToken then UnknownToken
                              else if t.revokedAt != None then IsRevoked
                              else if t.expiresAt <= env.at then IsExpired
                              else if t.resource != env.resource then UnknownToken
                              else IsRevoked)
            && ((forall id | id in w.db.tokens :: w.db.tokens[id].hash != Sha256(token)) && e.reason != Malformed ==>
                  e.reason == UnknownToken)
  {
    assert TablesKeyed(w) by { ReachableHolds(w); }
    forall id | id in w.db.tokens && w.db.tokens[id].hash == Sha256(token)
      ensures FindByHash(w.db.tokens, Sha256(token)) == Some(w.db.tokens[id])
    {
      StoredIsFound(w, id);
    }
    hide UniqueActive, UniqueHashes;
  }

  // ---------- revocation ----------

  /** The row of a revocation at `at`: revoked then, unless it was before. */
  function RevokedAt(row: Token, at: int): Token {
    if row.revokedAt == None then row.(revokedAt := Some(at)) else row
  }

  /** A revoked access token takes its own row, a revoked refresh token every row of its family; codes and consents stay
      as they are. */
  lemma TokenRevokedExactly(w: World, token: string, at: int)
    requires Reachable(w)
    ensures var (db, e) := RevokeTokenSpec(w.db, token, at);
            && (e.TokenRevoked? <==>
                  && (IsCredential(token, "vg_at_") || IsCredential(token, "vg_rt_"))
                  && exists id :: id in w.db.tokens && w.db.tokens[id].hash == Sha256(token))
            && (!e.TokenRevoked? ==> e == Ignored && db == w.db)
            && (e.TokenRevoked? ==>
                  && e.token in w.db.tokens && w.db.tokens[e.token].hash == Sha256(token)
                  && e.family == w.db.tokens[e.token].family && e.kind == w.db.tokens[e.token].kind
                  && db == w.db.(tokens := db.tokens) && db.tokens.Keys == w.db.tokens.Keys
                  && forall id | id in w.db.tokens ::
                       var isTaken := id == e.token || (e.kind == RefreshToken && w.db.tokens[id].family == e.family);
                       db.tokens[id] == if isTaken then RevokedAt(w.db.tokens[id], at) else w.db.tokens[id])
  {
    assert TablesKeyed(w) by { ReachableHolds(w); }
    FoundByHash(w, Sha256(token));
    hide UniqueHashes, UniqueActive;
  }

  /** Only the operator a consent belongs to can end it, once; it takes exactly the tokens under it. */
  lemma DisconnectedExactly(db: Db, operator: string, consent: Id, at: int)
    ensures var (db', e) := RevokeConsentSpec(db, operator, consent, at);
            && (e == ConsentRevoked(consent) <==>
                  consent in db.consents && db.consents[consent].operator == operator && IsUnrevoked(db, consent))
            && (e != ConsentRevoked(consent) ==> e == Ignored && db' == db)
            && (e == ConsentRevoked(consent) ==>
                  && db'.codes == db.codes
                  && db'.consents == db.consents[consent := db.consents[consent].(revokedAt := Some(at))]
                  && db'.tokens.Keys == db.tokens.Keys
                  && forall id | id in db.tokens ::
                       db'.tokens[id] == if db.tokens[id].consent == consent then RevokedAt(db.tokens[id], at)
                                         else db.tokens[id])
  {
  }

  // ---------- maintenance ----------

  /** A foreign key of a stored row, once the rows it may point at have gone. */
  function LinkLeft(link: Option<Id>, was: map<Id, Token>, now: map<Id, Token>): Option<Id> {
    if link.Some? && link.value in was && link.value !in now then None else link
  }

  /** Rows go exactly a week after their end, codes at their expiry, and links only to rows that went. */
  lemma SweptExactly(db: Db, now: int)
    ensures var swept := SweepSpec(db, now).0;
            && swept.consents == db.consents
            && (forall hash :: hash in swept.codes <==> hash in db.codes && now < db.codes[hash].expiresAt)
            && (forall hash | hash in swept.codes :: swept.codes[hash] == db.codes[hash])
            && (forall id :: id in swept.tokens <==>
                  && id in db.tokens && now < db.tokens[id].expiresAt + 604_800_000
                  && (db.tokens[id].revokedAt.Some? ==> now < db.tokens[id].revokedAt.value + 604_800_000))
            && (forall id | id in swept.tokens ::
                  var row := db.tokens[id];
                  swept.tokens[id] == row.(parent := LinkLeft(row.parent, db.tokens, swept.tokens),
                                           replacedBy := LinkLeft(row.replacedBy, db.tokens, swept.tokens)))
  {
  }
}
