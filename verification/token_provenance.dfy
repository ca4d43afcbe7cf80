/** Where everything in a reachable store comes from: the steps of the run that made it. */
module TokenProvenance {
  import opened TokenConsents
  import opened TokenEndpoints
  import opened TokenGrants
  import opened TokenRuns
  import opened TokenTables
  import opened Wrappers

  // ---------- runs, cut ----------

  /** The store when the first `i` steps of a run have been taken. */
  ghost function At(steps: seq<Step>, i: nat): World
    requires i <= |steps|
  {
    Run(Empty, steps[..i])
  }

  lemma {:induction false} RunOneMore(w: World, steps: seq<Step>, step: Step)
    ensures Run(w, steps + [step]) == Next(Run(w, steps), step)
    ensures ValidRun(w, steps + [step]) <==> ValidRun(w, steps) && Admissible(Run(w, steps), step)
    decreases |steps|
  {
    hide Next, Admissible;
    if steps == [] {
      assert [step][1..] == [] && [] + [step] == [step];
    } else {
      RunOneMore(Next(w, steps[0]), steps[1..], step);
      assert (steps + [step])[1..] == steps[1..] + [step];
    }
  }

  /** Every beginning of a run is a run, and each step takes one to the next. */
  lemma {:induction false} Beginning(steps: seq<Step>, i: nat)
    requires ValidRun(Empty, steps) && i <= |steps|
    ensures ValidRun(Empty, steps[..i]) && Reachable(At(steps, i)) && Inv(At(steps, i))
    ensures i < |steps| ==> At(steps, i + 1) == Next(At(steps, i), steps[i]) && Admissible(At(steps, i), steps[i])
    ensures At(steps, |steps|) == Run(Empty, steps)
    decreases |steps| - i
  {
    hide Next, Admissible, Run, Inv;
    assert steps[..|steps|] == steps;
    if i < |steps| {
      Beginning(steps, i + 1);
      RunOneMore(Empty, steps[..i], steps[i]);
      assert steps[..i + 1] == steps[..i] + [steps[i]];
    }
    ReachableHolds(At(steps, i)) by { assert Reachable(At(steps, i)); }
  }

  // ---------- codes and consents ----------

  /** The row an approval stores for its code. */
  predicate IsCodeOf(code: Code, a: Approval) {
    && a.ticked != [] && code.hash == Sha256(a.code) && code.client == a.client && code.redirectUri == a.redirectUri
    && code.challenge == a.challenge && code.resource == a.resource && code.scopes == a.ticked
    && code.expiresAt == a.at + 300_000
  }

  predicate IsConsentOf(w: World, consent: Id, a: Approval) {
    && consent in w.db.consents
    && w.db.consents[consent].operator == a.operator && w.db.consents[consent].client == a.client
  }

  predicate ApprovesCode(w: World, step: Step, code: Code) {
    step.Approval? && IsCodeOf(code, step.approval) && IsConsentOf(w, code.consent, step.approval)
  }

  /** A step that adds to what was approved is the approval of what it adds. */
  lemma NewCodeIsApproved(w: World, step: Step, hash: Hash)
    requires TablesKeyed(w) && Admissible(w, step) && hash in Next(w, step).approved
    ensures (hash in w.approved && Next(w, step).approved[hash] == w.approved[hash])
            || ApprovesCode(Next(w, step), step, Next(w, step).approved[hash])
  {
    hide RedeemSpec, RefreshSpec, VerifySpec, RevokeTokenSpec, RevokeConsentSpec, UniqueHashes, UniqueActive;
    match step {
      case Approval(a) =>
      case _ => NotApproved(w.db, step);
    }
  }

  lemma NotApproved(db: Db, step: Step)
    requires !step.Approval?
    ensures !Answer(db, step).1.Approved?
  {
    hide WithPair, RevokeFamily, RevokeById, DeleteTokens, DeleteCodes, FindByHash, MarkReplaced, IsScopeSubset;
  }

  lemma ConsentStays(w: World, step: Step, consent: Id, a: Approval)
    requires TablesKeyed(w) && Admissible(w, step) && IsConsentOf(w, consent, a)
    ensures IsConsentOf(Next(w, step), consent, a)
  {
    hide Next, Admissible, TablesKeyed;
    StepGrowsConsents(w, step, consent);
  }

  /** Every code known at some point of a run was approved before, by the operator of its consent. */
  lemma {:induction false} CodeWasApproved(steps: seq<Step>, n: nat, hash: Hash) returns (i: nat)
    requires ValidRun(Empty, steps) && n <= |steps| && hash in At(steps, n).approved
    ensures i < n && ApprovesCode(At(steps, n), steps[i], At(steps, n).approved[hash])
  {
    hide Next, Admissible, Run, ValidRun, IsCodeOf, IsConsentOf, Authorised, FamiliesSpent, FamiliesUniform, Chained;
    hide LogKept, History, TablesKeyed, Reachable;
    NothingRun(steps);
    if n > 0 {
      Beginning(steps, n - 1);
      var w, w' := At(steps, n - 1), At(steps, n);
      NewCodeIsApproved(w, steps[n - 1], hash);
      if hash in w.approved && w'.approved[hash] == w.approved[hash] {
        i := CodeWasApproved(steps, n - 1, hash);
        ConsentStays(w, steps[n - 1], w.approved[hash].consent, steps[i].approval);
      } else {
        i := n - 1;
      }
    }
  }

  lemma NothingRun(steps: seq<Step>)
    ensures At(steps, 0) == Empty
  {
  }

  /** A redemption that is granted repeats, in time, every parameter of an approval of the run, proves its challenge,
      and yields its scopes under the consent of its operator. */
  lemma RedeemedAsApproved(steps: seq<Step>, form: Form, env: Env) returns (i: nat)
    requires ValidRun(Empty, steps) && RedeemSpec(Run(Empty, steps).db, form, env).1.Issued?
    ensures IsCodeForm(form) && i < |steps| && steps[i].Approval?
    ensures var (a, w) := (steps[i].approval, Run(Empty, steps));
            var (db, e) := RedeemSpec(w.db, form, env);
            && a.code == form["code"] && a.client == form["client_id"] && a.redirectUri == form["redirect_uri"]
            && a.challenge == S256(form["code_verifier"]) && a.resource == form["resource"] == env.resource
            && env.at < a.at + 300_000
            && IsConsentOf(w, e.consent, a) && IsUnrevoked(w.db, e.consent)
            && env.accessId in db.tokens && db.tokens[env.accessId].scopes == a.ticked
            && db.tokens[env.accessId].consent == e.consent && db.tokens[env.accessId].client == a.client
  {
    var n, w := |steps|, Run(Empty, steps);
    Beginning(steps, n);
    RedeemedExactly(w.db, form, env);
    var hash := Sha256(form["code"]);
    StoredAsApproved(w, hash);
    hide Run, ValidRun, Inv, Reachable;
    i := CodeWasApproved(steps, n, hash);
    IssuedRow(w.db, form, env);
  }

  lemma StoredAsApproved(w: World, hash: Hash)
    requires Inv(w) && hash in w.db.codes
    ensures hash in w.approved && w.db.codes[hash] == w.approved[hash].(usedAt := w.db.codes[hash].usedAt)
  {
  }

  lemma IssuedRow(db: Db, form: Form, env: Env)
    requires RedeemSpec(db, form, env).1.Issued?
    ensures PresentsCode(db, form, env.resource)
    ensures var ((db', e), code) := (RedeemSpec(db, form, env), db.codes[Sha256(form["code"])]);
            && e.consent == code.consent && env.accessId in db'.tokens
            && db'.tokens[env.accessId].scopes == code.scopes && db'.tokens[env.accessId].consent == code.consent
            && db'.tokens[env.accessId].client == code.client
  {
  }

  // ---------- tokens ----------

  /** What of a row no later step changes. */
  function Birth(t: Token): Token {
    t.(parent := None, replacedBy := None, revokedAt := None, lastUsedAt := None)
  }

  function EnvOf(step: Step): Option<Env> {
    match step
    case Redemption(_, env) => Some(env)
    case Rotation(_, _, env) => Some(env)
    case _ => None
  }

  /** The row is one of the pair the step minted. */
  predicate IsMintedBy(t: Token, step: Step) {
    && EnvOf(step).Some?
    && var env := EnvOf(step).value;
       && t.issuedAt == env.at
       && if t.kind == AccessToken
          then t.id == env.accessId && t.hash == Sha256(env.access) && t.expiresAt == env.at + env.accessTtl
          else t.id == env.refreshId && t.hash == Sha256(env.refresh)
  }

  lemma RedemptionMints(w: World, form: Form, env: Env, id: Id)
    requires id in RedeemSpec(w.db, form, env).0.tokens
    ensures var t := RedeemSpec(w.db, form, env).0.tokens[id];
            (id in w.db.tokens && Birth(t) == Birth(w.db.tokens[id])) || IsMintedBy(t, Redemption(form, env))
  {
  }

  lemma RotationMints(w: World, form: Form, scope: ScopeParameter, env: Env, id: Id)
    requires id in RefreshSpec(w.db, form, scope, env).0.tokens
    ensures var t := RefreshSpec(w.db, form, scope, env).0.tokens[id];
            (id in w.db.tokens && Birth(t) == Birth(w.db.tokens[id])) || IsMintedBy(t, Rotation(form, scope, env))
  {
    hide FindByHash, IsScopeSubset, RefreshFound;
    if Given(form, "refresh_token") && Given(form, "client_id") {
      var found := FindByHash(w.db.tokens, Sha256(form["refresh_token"]));
      if found.Some? {
        FoundMints(w.db, found.value, form, scope, env, id);
      }
    }
  }

  lemma PairMints(tokens: map<Id, Token>, row: Token, form: Form, scope: ScopeParameter, scopes: seq<string>, env: Env,
                  id: Id)
    ensures var after := WithPair(tokens, RefreshGrant(row, scopes), env);
            id in after ==>
              (id in tokens && Birth(after[id]) == Birth(tokens[id]))
              || IsMintedBy(after[id], Rotation(form, scope, env))
  {
  }

  lemma BirthKept(tokens: map<Id, Token>, family: Hash, at: int, replaced: Id, successor: Id, id: Id)
    requires id in tokens
    ensures Birth(RevokeFamily(tokens, family, at)[id]) == Birth(tokens[id])
    ensures id in MarkReplaced(tokens, replaced, successor)
    ensures Birth(MarkReplaced(tokens, replaced, successor)[id]) == Birth(tokens[id])
  {
  }

  lemma MintedAlike(s: Token, t: Token, step: Step)
    requires Birth(s) == Birth(t)
    ensures IsMintedBy(s, step) ==> IsMintedBy(t, step)
  {
    assert s.kind == Birth(s).kind && s.id == Birth(s).id && s.hash == Birth(s).hash;
    assert s.issuedAt == Birth(s).issuedAt && s.expiresAt == Birth(s).expiresAt;
  }

  lemma FoundMints(db: Db, row: Token, form: Form, scope: ScopeParameter, env: Env, id: Id)
    requires Given(form, "client_id")
    ensures var tokens := RefreshFound(db, row, form, scope, env).0.tokens;
            id in tokens ==>
              (id in db.tokens && Birth(tokens[id]) == Birth(db.tokens[id]))
              || IsMintedBy(tokens[id], Rotation(form, scope, env))
  {
    hide IsScopeSubset, WithPair, Birth, IsMintedBy, RefreshGrant, CanReplace, MarkReplaced;
    var scopes := if scope.Requested? then scope.scopes else row.scopes;
    var pair := WithPair(db.tokens, RefreshGrant(row, scopes), env);
    var after := RefreshFound(db, row, form, scope, env).0.tokens;
    PairMints(db.tokens, row, form, scope, scopes, env, id);
    if id in db.tokens {
      BirthKept(db.tokens, row.family, env.at, row.id, env.refreshId, id);
    }
    if id in pair {
      BirthKept(pair, row.family, env.at, row.id, env.refreshId, id);
      if id in after && Birth(after[id]) == Birth(pair[id]) {
        MintedAlike(pair[id], after[id], Rotation(form, scope, env));
      }
    }
    NothingAdded(pair, row.id, env.refreshId, id);
  }

  lemma NothingAdded(tokens: map<Id, Token>, replaced: Id, successor: Id, id: Id)
    ensures id in MarkReplaced(tokens, replaced, successor) ==> id in tokens
  {
  }

  lemma NewTokenIsMinted(w: World, step: Step, id: Id)
    requires id in Next(w, step).db.tokens
    ensures (id in w.db.tokens && Birth(Next(w, step).db.tokens[id]) == Birth(w.db.tokens[id]))
            || IsMintedBy(Next(w, step).db.tokens[id], step)
  {
    hide RedeemSpec, RefreshSpec, IsMintedBy, FindByHash;
    match step {
      case Redemption(form, env) => RedemptionMints(w, form, env, id);
      case Rotation(form, scope, env) => RotationMints(w, form, scope, env, id);
      case _ =>
    }
  }

  /** Every row of a reachable store was minted by some step. */
  lemma {:induction false} TokenWasMinted(steps: seq<Step>, n: nat, id: Id) returns (j: nat)
    requires ValidRun(Empty, steps) && n <= |steps| && id in At(steps, n).db.tokens
    ensures j < n && IsMintedBy(At(steps, n).db.tokens[id], steps[j])
    ensures id in At(steps, j + 1).db.tokens
    ensures Birth(At(steps, j + 1).db.tokens[id]) == Birth(At(steps, n).db.tokens[id])
  {
    hide Next, Admissible, Run, ValidRun, Inv, Reachable;
    NothingRun(steps);
    if n > 0 {
      Beginning(steps, n - 1);
      var w := At(steps, n - 1);
      NewTokenIsMinted(w, steps[n - 1], id);
      if id in w.db.tokens && Birth(At(steps, n).db.tokens[id]) == Birth(w.db.tokens[id]) {
        j := TokenWasMinted(steps, n - 1, id);
      } else {
        j := n - 1;
      }
    }
  }

  lemma ApprovedStays(w: World, step: Step, hash: Hash)
    requires TablesKeyed(w) && Admissible(w, step) && hash in w.approved
    ensures hash in Next(w, step).approved && Next(w, step).approved[hash] == w.approved[hash]
  {
    hide RedeemSpec, RefreshSpec, VerifySpec, RevokeTokenSpec, RevokeConsentSpec, UniqueHashes, UniqueActive;
    match step {
      case Approval(a) =>
      case _ => NotApproved(w.db, step);
    }
  }

  lemma {:induction false} ApprovalStays(steps: seq<Step>, m: nat, n: nat, hash: Hash, a: Approval)
    requires ValidRun(Empty, steps) && m <= n <= |steps| && hash in At(steps, m).approved
    requires IsConsentOf(At(steps, m), At(steps, m).approved[hash].consent, a)
    ensures hash in At(steps, n).approved && At(steps, n).approved[hash] == At(steps, m).approved[hash]
    ensures IsConsentOf(At(steps, n), At(steps, n).approved[hash].consent, a)
  {
    hide Next, Admissible, Run, ValidRun, Authorised, FamiliesSpent, FamiliesUniform, Chained, LogKept, History;
    hide TablesKeyed, Reachable, IsConsentOf;
    if m < n {
      Beginning(steps, n - 1);
      ApprovalStays(steps, m, n - 1, hash, a);
      ApprovedStays(At(steps, n - 1), steps[n - 1], hash);
      ConsentStays(At(steps, n - 1), steps[n - 1], At(steps, m).approved[hash].consent, a);
    }
  }

  /** Every stored token goes back to the step that minted it, and further to an approval before that: of its client and
      resource, by the operator of its consent, with all its scopes ticked. */
  lemma TokenTracesBack(steps: seq<Step>, id: Id) returns (i: nat, j: nat)
    requires ValidRun(Empty, steps) && id in Run(Empty, steps).db.tokens
    ensures i < j < |steps| && steps[i].Approval?
    ensures var (t, a) := (Run(Empty, steps).db.tokens[id], steps[i].approval);
            && IsMintedBy(t, steps[j]) && t.family == Sha256(a.code)
            && t.client == a.client && t.resource == a.resource && (forall s | s in t.scopes :: s in a.ticked)
            && IsConsentOf(Run(Empty, steps), t.consent, a)
  {
    hide At, Run, ValidRun, Birth, Inv, IsMintedBy, IsCodeOf, IsConsentOf, Reachable, Next, Admissible;
    var n := |steps|;
    Beginning(steps, n);
    j := TokenWasMinted(steps, n, id);
    Beginning(steps, j + 1);
    i := FamilyWasApproved(steps, j + 1, id);
    SameBirth(At(steps, j + 1).db.tokens[id], At(steps, n).db.tokens[id]);
    ApprovalStays(steps, j + 1, n, At(steps, n).db.tokens[id].family, steps[i].approval);
    assert i < j by { assert !EnvOf(steps[i]).Some?; MintersMint(At(steps, n).db.tokens[id], steps[j]); }
    TokenOfApproval(At(steps, j + 1).db.tokens[id], At(steps, j + 1).approved, steps[i].approval);
  }

  lemma MintersMint(t: Token, step: Step)
    requires IsMintedBy(t, step)
    ensures EnvOf(step).Some?
  {
  }

  lemma SameBirth(s: Token, t: Token)
    requires Birth(s) == Birth(t)
    ensures s.family == t.family && s.client == t.client && s.resource == t.resource && s.scopes == t.scopes
    ensures s.consent == t.consent && s.kind == t.kind && s.expiresAt == t.expiresAt
  {
    assert Birth(s).family == Birth(t).family;
  }

  lemma TokenOfApproval(t: Token, approved: map<Hash, Code>, a: Approval)
    requires ComesFrom(t, approved) && IsCodeOf(approved[t.family], a)
    ensures t.family == Sha256(a.code) || approved[t.family].hash != t.family
    ensures t.client == a.client && t.resource == a.resource && forall s | s in t.scopes :: s in a.ticked
  {
  }

  lemma FamilyWasApproved(steps: seq<Step>, m: nat, id: Id) returns (i: nat)
    requires ValidRun(Empty, steps) && m <= |steps| && id in At(steps, m).db.tokens
    ensures var w := At(steps, m);
            var t := w.db.tokens[id];
            && i < m && ComesFrom(t, w.approved) && w.approved[t.family].hash == t.family
            && ApprovesCode(w, steps[i], w.approved[t.family]) && w.approved[t.family].consent == t.consent
  {
    Beginning(steps, m);
    var w := At(steps, m);
    assert ComesFrom(w.db.tokens[id], w.approved);
    hide At, Run, ValidRun, Authorised, FamiliesSpent, FamiliesUniform, Chained, LogKept, History, Reachable;
    hide Next, Admissible, UniqueHashes, UniqueActive;
    i := CodeWasApproved(steps, m, w.db.tokens[id].family);
  }

  /** Whatever bearer token is accepted was minted by an earlier step, not yet its lifetime ago, from an approval of
      this deployment's resource whose consent still stands; it carries no scope that was not ticked there. */
  lemma BearerTracesBack(steps: seq<Step>, token: string, env: Env) returns (i: nat, j: nat)
    requires ValidRun(Empty, steps) && VerifySpec(Run(Empty, steps).db, token, env).1.Verified?
    ensures i < j < |steps| && steps[i].Approval? && EnvOf(steps[j]).Some?
    ensures var (a, minted, w) := (steps[i].approval, EnvOf(steps[j]).value, Run(Empty, steps));
            var e := VerifySpec(w.db, token, env).1;
            && minted.access == token && env.at < minted.at + minted.accessTtl
            && a.resource == env.resource && (forall s | s in e.scopes :: s in a.ticked)
            && IsConsentOf(w, e.consent, a) && IsUnrevoked(w.db, e.consent)
  {
    var w := Run(Empty, steps);
    Beginning(steps, |steps|);
    VerifiedTellsTheRow(w, token, env);
    var e := VerifySpec(w.db, token, env).1;
    hide Run, ValidRun, VerifySpec, Inv, Reachable;
    i, j := TokenTracesBack(steps, e.token);
  }

  // ---------- the end of a family ----------

  /** The redemption that began a family, and when it is to end. */
  predicate SetsEnd(step: Step, t: Token) {
    && step.Redemption? && "code" in step.form && t.family == Sha256(step.form["code"])
    && t.expiresAt == step.env.at + step.env.refreshTtl
  }

  lemma RedemptionSetsEnd(w: World, form: Form, env: Env, id: Id)
    requires id in RedeemSpec(w.db, form, env).0.tokens
    ensures var t := RedeemSpec(w.db, form, env).0.tokens[id];
            t.kind == RefreshToken ==>
              || (id in w.db.tokens && Birth(t) == Birth(w.db.tokens[id]))
              || (TablesKeyed(w) ==> SetsEnd(Redemption(form, env), t))
  {
  }

  lemma RotationCarriesEnd(w: World, form: Form, scope: ScopeParameter, env: Env, id: Id) returns (source: Id)
    requires TablesKeyed(w) && IsFreshPair(w, env) && id in RefreshSpec(w.db, form, scope, env).0.tokens
    requires RefreshSpec(w.db, form, scope, env).0.tokens[id].kind == RefreshToken
    ensures var t := RefreshSpec(w.db, form, scope, env).0.tokens[id];
            && source in w.db.tokens && w.db.tokens[source].kind == RefreshToken
            && w.db.tokens[source].family == t.family && w.db.tokens[source].expiresAt == t.expiresAt
  {
    hide FindByHash, IsScopeSubset, RefreshFound;
    source := id;
    if id !in w.db.tokens {
      FoundByHash(w, Sha256(form["refresh_token"]));
      var row := FindByHash(w.db.tokens, Sha256(form["refresh_token"])).value;
      FoundCarriesEnd(w.db, row, form, scope, env, id);
      source := row.id;
    } else {
      assert id != env.accessId && id != env.refreshId;
      hide UniqueHashes, UniqueActive;
      if Given(form, "refresh_token") && Given(form, "client_id") {
        var found := FindByHash(w.db.tokens, Sha256(form["refresh_token"]));
        if found.Some? {
          OldRowCarries(w.db, found.value, form, scope, env, id);
        }
      }
    }
  }

  lemma FoundCarriesEnd(db: Db, row: Token, form: Form, scope: ScopeParameter, env: Env, id: Id)
    requires Given(form, "client_id") && id !in db.tokens
    ensures var tokens := RefreshFound(db, row, form, scope, env).0.tokens;
            id in tokens && tokens[id].kind == RefreshToken ==>
              tokens[id].family == row.family && tokens[id].expiresAt == row.expiresAt
  {
    hide IsScopeSubset;
  }

  lemma OldRowCarries(db: Db, row: Token, form: Form, scope: ScopeParameter, env: Env, id: Id)
    requires Given(form, "client_id") && id in db.tokens && id != env.accessId && id != env.refreshId
    ensures var tokens := RefreshFound(db, row, form, scope, env).0.tokens;
            id in tokens && Birth(tokens[id]) == Birth(db.tokens[id])
  {
    hide IsScopeSubset;
  }

  /** However often it was rotated, a refresh token expires when the redemption of its code said. */
  lemma {:induction false} EndWasSetAtRedemption(steps: seq<Step>, n: nat, id: Id) returns (j: nat)
    requires ValidRun(Empty, steps) && n <= |steps| && id in At(steps, n).db.tokens
    requires At(steps, n).db.tokens[id].kind == RefreshToken
    ensures j < n && SetsEnd(steps[j], At(steps, n).db.tokens[id])
  {
    hide Run, ValidRun, Reachable, RedeemSpec, RefreshSpec, TablesKeyed, Authorised, FamiliesSpent;
    hide FamiliesUniform, Chained, LogKept, History;
    NothingRun(steps);
    if n > 0 {
      Beginning(steps, n - 1);
      var w, step := At(steps, n - 1), steps[n - 1];
      NewTokenIsMinted(w, step, id);
      if id in w.db.tokens && Birth(At(steps, n).db.tokens[id]) == Birth(w.db.tokens[id]) {
        j := EndWasSetAtRedemption(steps, n - 1, id);
      } else if step.Redemption? {
        RedemptionSetsEnd(w, step.form, step.env, id);
        j := n - 1;
      } else {
        var source := RotationCarriesEnd(w, step.form, step.scope, step.env, id);
        j := EndWasSetAtRedemption(steps, n - 1, source);
      }
    }
  }

  // ---------- what a consent records ----------

  predicate Ticks(step: Step, c: Consent, scope: string) {
    && step.Approval? && step.approval.operator == c.operator && step.approval.client == c.client
    && scope in step.approval.ticked
  }

  lemma ApprovalTicks(db: Db, a: Approval, id: Id, scope: string)
    requires id in ApproveSpec(db, a).0.consents && scope in ApproveSpec(db, a).0.consents[id].scopes
    ensures (id in db.consents && scope in db.consents[id].scopes
             && db.consents[id].operator == ApproveSpec(db, a).0.consents[id].operator
             && db.consents[id].client == ApproveSpec(db, a).0.consents[id].client)
            || Ticks(Step.Approval(a), ApproveSpec(db, a).0.consents[id], scope)
  {
  }

  /** A consent records no scope its operator did not tick for its client. */
  lemma {:induction false} ConsentScopesWereTicked(steps: seq<Step>, n: nat, id: Id, scope: string) returns (i: nat)
    requires ValidRun(Empty, steps) && n <= |steps| && id in At(steps, n).db.consents
    requires scope in At(steps, n).db.consents[id].scopes
    ensures i < n && Ticks(steps[i], At(steps, n).db.consents[id], scope)
  {
    hide Admissible, Run, ValidRun, Reachable, Inv, ApproveSpec, FindActive;
    NothingRun(steps);
    if n > 0 {
      Beginning(steps, n - 1);
      var w, step := At(steps, n - 1), steps[n - 1];
      if step.Approval? {
        ApprovalTicks(w.db, step.approval, id, scope);
      } else if !step.Disconnect? {
        OthersKeepConsents(w.db, step);
      }
      if Ticks(step, At(steps, n).db.consents[id], scope) {
        i := n - 1;
      } else {
        i := ConsentScopesWereTicked(steps, n - 1, id, scope);
      }
    }
  }

  /** An approval goes to the one active consent of its operator and client, begun now if there was none, and touches no
      other. */
  lemma ApprovalChoosesConsent(db: Db, a: Approval)
    requires UniqueActive(db.consents) && a.ticked != [] && a.newId !in db.consents
    ensures var (db', e) := ApproveSpec(db, a);
            && e == Approved(Sha256(a.code), e.consent) && IsActiveFor(db'.consents, e.consent, a.operator, a.client)
            && (forall id | IsActiveFor(db.consents, id, a.operator, a.client) :: e.consent == id)
            && (e.consent !in db.consents ==> e.consent == a.newId && db'.consents[a.newId].grantedAt == a.at)
            && (forall id | id in db.consents && id != e.consent ::
                  id in db'.consents && db'.consents[id] == db.consents[id])
            && (forall s :: s in db'.consents[e.consent].scopes <==>
                  s in a.ticked || (e.consent in db.consents && s in db.consents[e.consent].scopes))
            && db'.tokens == db.tokens && Sha256(a.code) in db'.codes && IsCodeOf(db'.codes[Sha256(a.code)], a)
            && db'.codes[Sha256(a.code)].usedAt == None && db'.codes[Sha256(a.code)].consent == e.consent
  {
    forall id | IsActiveFor(db.consents, id, a.operator, a.client)
      ensures ApproveSpec(db, a).1.consent == id
    {
      assert AreRivals(db.consents, id, FindActive(db.consents, a.operator, a.client).value);
    }
  }

  /** The operator who ticks nothing denies. */
  lemma NothingTickedIsDenied(db: Db, a: Approval)
    ensures ApproveSpec(db, a).1 == Denied <==> a.ticked == []
    ensures a.ticked == [] ==> ApproveSpec(db, a).0 == db
  {
  }

  // ---------- an approved code can be redeemed ----------

  /** The step neither presents the code, nor ends its consent, nor sweeps it away. */
  predicate Spares(step: Step, a: Approval, consent: Id) {
    match step
    case Redemption(form, _) => "code" in form ==> form["code"] != a.code
    case Disconnect(_, ended, _) => ended != consent
    case Maintenance(at) => at < a.at + 300_000
    case _ => true
  }

  predicate IsWaiting(db: Db, a: Approval, consent: Id) {
    && Sha256(a.code) in db.codes && IsCodeOf(db.codes[Sha256(a.code)], a) && db.codes[Sha256(a.code)].usedAt == None
    && db.codes[Sha256(a.code)].consent == consent && IsUnrevoked(db, consent)
  }

  lemma OthersKeepCodes(db: Db, step: Step)
    requires step.Rotation? || step.Bearer? || step.Revocation?
    ensures Answer(db, step).0.codes == db.codes && Answer(db, step).0.consents == db.consents
  {
    hide WithPair, RevokeFamily, RevokeById, FindByHash, MarkReplaced, IsScopeSubset;
  }

  lemma StepSpares(w: World, step: Step, a: Approval, consent: Id)
    requires TablesKeyed(w) && Admissible(w, step) && Spares(step, a, consent) && IsWaiting(w.db, a, consent)
    ensures IsWaiting(Next(w, step).db, a, consent)
  {
    assert a.code in w.secrets;
    hide UniqueHashes, UniqueActive, RefreshSpec, VerifySpec, RevokeTokenSpec, WithPair, RevokeFamily, FindActive;
    match step {
      case Rotation(_, _, _) => OthersKeepCodes(w.db, step);
      case Bearer(_, _) => OthersKeepCodes(w.db, step);
      case Revocation(_, _) => OthersKeepCodes(w.db, step);
      case _ =>
    }
  }

  lemma {:induction false} RunSpares(w: World, steps: seq<Step>, a: Approval, consent: Id)
    requires Inv(w) && ValidRun(w, steps) && IsWaiting(w.db, a, consent)
    requires forall i | 0 <= i < |steps| :: Spares(steps[i], a, consent)
    ensures IsWaiting(Run(w, steps).db, a, consent)
    decreases |steps|
  {
    hide History, LogKept, Chained, FamiliesUniform, FamiliesSpent, Authorised, Next, TablesKeyed, Admissible;
    if steps != [] {
      StepSpares(w, steps[0], a, consent);
      StepKeeps(w, steps[0]);
      RunSpares(Next(w, steps[0]), steps[1..], a, consent);
    }
  }

  /** An approved code can be redeemed within five minutes, whatever else happens, unless it is presented first or its
      consent is ended. */
  lemma ApprovedIsRedeemable(w: World, a: Approval, steps: seq<Step>, form: Form, env: Env)
    requires Reachable(w) && Admissible(w, Step.Approval(a)) && a.ticked != []
    requires var (w', consent) := (Next(w, Step.Approval(a)), ApproveSpec(w.db, a).1.consent);
             ValidRun(w', steps) && forall i | 0 <= i < |steps| :: Spares(steps[i], a, consent)
    requires HasCodeFields(form) && form["code"] == a.code && IsCredential(a.code, "vg_ac_")
    requires form["client_id"] == a.client && form["redirect_uri"] == a.redirectUri
    requires form["resource"] == a.resource == env.resource && S256(form["code_verifier"]) == a.challenge
    requires env.at < a.at + 300_000
    ensures RedeemSpec(Run(Next(w, Step.Approval(a)), steps).db, form, env).1
            == Issued(Sha256(a.code), ApproveSpec(w.db, a).1.consent, env.accessId, env.refreshId)
  {
    var w' := Next(w, Step.Approval(a));
    var consent := ApproveSpec(w.db, a).1.consent;
    assert IsWaiting(w'.db, a, consent) by {
      ReachableHolds(w);
      ApprovalChoosesConsent(w.db, a);
    }
    assert Inv(w') by {
      ReachableHolds(w);
      StepKeeps(w, Step.Approval(a));
    }
    hide Inv, Next, ApproveSpec, ValidRun, Reachable, Spares;
    RunSpares(w', steps, a, consent);
    var db := Run(w', steps).db;
    assert db.codes[Sha256(a.code)].challenge.verifier == form["code_verifier"];
    RedeemedExactly(db, form, env);
    IssuedNames(db, form, env);
  }

  lemma IssuedNames(db: Db, form: Form, env: Env)
    requires RedeemSpec(db, form, env).1.Issued?
    ensures PresentsCode(db, form, env.resource)
    ensures RedeemSpec(db, form, env).1
            == var code := db.codes[Sha256(form["code"])]; Issued(code.hash, code.consent, env.accessId, env.refreshId)
  {
    hide WithPair, RevokeFamily;
  }
}
