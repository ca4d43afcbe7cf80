/** What a consent row can become over a run, and what its revocation ends. */
module TokenConsents {
  import opened TokenEndpoints
  import opened TokenRuns
  import opened TokenTables

  /** The same operator and client, no scope fewer, and a revocation that stands. */
  predicate HasGrown(was: Consent, now: Consent) {
    && now.operator == was.operator && now.client == was.client && IsScopeSubset(was.scopes, now.scopes)
    && (was.revokedAt.Some? ==> now.revokedAt == was.revokedAt)
  }

  /** Only an approval and a disconnect write consents. */
  lemma OthersKeepConsents(db: Db, step: Step)
    requires !step.Approval? && !step.Disconnect?
    ensures Answer(db, step).0.consents == db.consents
  {
    hide WithPair, RevokeFamily, RevokeById, DeleteTokens, DeleteCodes, FindByHash, MarkReplaced, IsScopeSubset;
  }

  lemma ApprovalGrowsConsents(db: Db, a: Approval, id: Id)
    requires id in db.consents && a.newId !in db.consents
    ensures id in ApproveSpec(db, a).0.consents && HasGrown(db.consents[id], ApproveSpec(db, a).0.consents[id])
  {
    hide FindActive;
  }

  lemma StepGrowsConsents(w: World, step: Step, id: Id)
    requires TablesKeyed(w) && Admissible(w, step) && id in w.db.consents
    ensures id in Next(w, step).db.consents && HasGrown(w.db.consents[id], Next(w, step).db.consents[id])
  {
    hide UniqueHashes, UniqueActive, ApproveSpec;
    if step.Approval? {
      ApprovalGrowsConsents(w.db, step.approval, id);
    } else if !step.Disconnect? {
      hide Answer;
      OthersKeepConsents(w.db, step);
    }
  }

  lemma {:induction false} RunGrowsConsents(w: World, steps: seq<Step>, id: Id)
    requires Inv(w) && ValidRun(w, steps) && id in w.db.consents
    ensures id in Run(w, steps).db.consents && HasGrown(w.db.consents[id], Run(w, steps).db.consents[id])
    decreases |steps|
  {
    hide History, LogKept, Chained, FamiliesUniform, FamiliesSpent, Authorised, Next, TablesKeyed;
    if steps != [] {
      StepGrowsConsents(w, steps[0], id);
      StepKeeps(w, steps[0]);
      RunGrowsConsents(Next(w, steps[0]), steps[1..], id);
    }
  }

  /** From any reachable store on, a consent is never deleted, never narrowed, and once revoked stays revoked. */
  lemma ConsentsOnlyGrow(w: World, steps: seq<Step>, id: Id)
    requires Reachable(w) && ValidRun(w, steps) && id in w.db.consents
    ensures id in Run(w, steps).db.consents && HasGrown(w.db.consents[id], Run(w, steps).db.consents[id])
  {
    hide Inv, ValidRun, Run, HasGrown;
    ReachableHolds(w);
    RunGrowsConsents(w, steps, id);
  }

  // ---------- tokens without an active consent ----------

  /** Every stored token is revoked or its consent is active. */
  ghost predicate IsBacked(db: Db) {
    forall id | id in db.tokens :: db.tokens[id].revokedAt.Some? || IsActive(db.consents, db.tokens[id].consent)
  }

  lemma ApprovalKeepsBacked(db: Db, a: Approval)
    requires IsBacked(db) && a.newId !in db.consents
    ensures IsBacked(ApproveSpec(db, a).0)
  {
    hide FindActive;
  }

  lemma RedemptionKeepsBacked(db: Db, form: Form, env: Env)
    requires IsBacked(db)
    ensures IsBacked(RedeemSpec(db, form, env).0)
  {
    hide IsScopeSubset, HasPrefix;
  }

  lemma RefreshKeepsBacked(db: Db, token: Token, form: Form, scope: ScopeParameter, env: Env)
    requires IsBacked(db) && Given(form, "client_id")
    ensures IsBacked(RefreshFound(db, token, form, scope, env).0)
  {
    hide IsScopeSubset;
  }

  lemma RotationKeepsBacked(db: Db, form: Form, scope: ScopeParameter, env: Env)
    requires IsBacked(db)
    ensures IsBacked(RefreshSpec(db, form, scope, env).0)
  {
    hide RefreshFound, IsBacked, FindByHash, HasPrefix;
    if Given(form, "refresh_token") && Given(form, "client_id") {
      var found := FindByHash(db.tokens, Sha256(form["refresh_token"]));
      if found.Some? {
        RefreshKeepsBacked(db, found.value, form, scope, env);
      }
    }
  }

  lemma BearerKeepsBacked(db: Db, token: string, env: Env)
    requires IsBacked(db)
    ensures IsBacked(VerifySpec(db, token, env).0)
  {
    hide FindByHash, HasPrefix;
  }

  lemma RevocationKeepsBacked(db: Db, token: string, at: int)
    requires IsBacked(db)
    ensures IsBacked(RevokeTokenSpec(db, token, at).0)
  {
    hide FindByHash, HasPrefix;
  }

  lemma DisconnectKeepsBacked(db: Db, operator: string, consent: Id, at: int)
    requires IsBacked(db)
    ensures IsBacked(RevokeConsentSpec(db, operator, consent, at).0)
  {
  }

  lemma SweepKeepsBacked(db: Db, now: int)
    requires IsBacked(db)
    ensures IsBacked(SweepSpec(db, now).0)
  {
  }

  lemma StepKeepsBacked(w: World, step: Step)
    requires TablesKeyed(w) && Admissible(w, step) && IsBacked(w.db)
    ensures IsBacked(Next(w, step).db)
  {
    hide IsBacked, UniqueHashes, UniqueActive, ApproveSpec, RedeemSpec, RefreshSpec, VerifySpec, RevokeTokenSpec,
         RevokeConsentSpec, SweepSpec;
    match step {
      case Approval(a) => ApprovalKeepsBacked(w.db, a);
      case Redemption(form, env) => RedemptionKeepsBacked(w.db, form, env);
      case Rotation(form, scope, env) => RotationKeepsBacked(w.db, form, scope, env);
      case Bearer(token, env) => BearerKeepsBacked(w.db, token, env);
      case Revocation(token, at) => RevocationKeepsBacked(w.db, token, at);
      case Disconnect(operator, consent, at) => DisconnectKeepsBacked(w.db, operator, consent, at);
      case Maintenance(at) => SweepKeepsBacked(w.db, at);
    }
  }

  lemma {:induction false} RunKeepsBacked(w: World, steps: seq<Step>)
    requires Inv(w) && ValidRun(w, steps) && IsBacked(w.db)
    ensures IsBacked(Run(w, steps).db)
    decreases |steps|
  {
    hide History, LogKept, Chained, FamiliesUniform, FamiliesSpent, Authorised, Next, TablesKeyed, IsBacked;
    if steps != [] {
      StepKeepsBacked(w, steps[0]);
      StepKeeps(w, steps[0]);
      RunKeepsBacked(Next(w, steps[0]), steps[1..]);
    }
  }

  lemma ReachableIsBacked(w: World)
    requires Reachable(w)
    ensures IsBacked(w.db)
  {
    hide Inv, ValidRun, Run;
    var steps :| ValidRun(Empty, steps) && w == Run(Empty, steps);
    EmptyHolds();
    RunKeepsBacked(Empty, steps);
  }

  /** After a disconnect no request under that consent succeeds and every token still stored under it is revoked; after
      an access token's own revocation it never verifies again, and stays revoked while it is stored. */
  lemma RevocationIsPermanent(w: World, i: nat)
    requires Reachable(w) && i < |w.log|
    ensures w.log[i].ConsentRevoked? ==>
              && (forall j | i < j < |w.log| :: !UsesConsent(w.log[j], w.log[i].consent))
              && (forall id | id in w.db.tokens && w.db.tokens[id].consent == w.log[i].consent ::
                    w.db.tokens[id].revokedAt.Some?)
    ensures w.log[i].TokenRevoked? ==>
              && (forall j | i < j < |w.log| && w.log[j].Verified? :: w.log[i].token != w.log[j].token)
              && (w.log[i].token in w.db.tokens ==> w.db.tokens[w.log[i].token].revokedAt.Some?)
  {
    ReachableHolds(w);
    ReachableIsBacked(w);
    hide Chained, FamiliesUniform, FamiliesSpent, Authorised, TablesKeyed, Reachable;
    assert w.log[i].ConsentRevoked? ==> IsDeadConsent(w, w.log[i].consent);
    assert w.log[i].TokenRevoked? ==> IsDeadToken(w, w.log[i].token);
  }
}
