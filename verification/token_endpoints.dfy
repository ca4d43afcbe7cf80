/** What each OAuth request does to the tables: one specification function per request, and the handlers that
    update a `Store` in place, statement by statement, proved against them. */
module TokenEndpoints {
  import opened Wrappers
  import opened TokenTables

  datatype OAuthError = InvalidRequest | InvalidTarget | InvalidScope | InvalidGrant

  /** What a verifier rejection carries. */
  datatype Rejection = Malformed | UnknownToken | IsRevoked | IsExpired

  /** The outcome of one request, as the caller learns it. */
  datatype Event =
    | Approved(code: Hash, consent: Id)
    | Denied
    | Issued(code: Hash, consent: Id, access: Id, refresh: Id)
    | Rotated(family: Hash, consent: Id, source: Id, refresh: Id)
    | CodeReplayed(family: Hash)
    | RefreshReplayed(family: Hash)
    | Verified(token: Id, family: Hash, consent: Id, scopes: seq<string>)
    | Rejected(reason: Rejection)
    | TokenRevoked(token: Id, kind: Kind, family: Hash)
    | ConsentRevoked(consent: Id)
    | Ignored
    | Swept
    | Refused(error: OAuthError)

  /** The clock reading, the minted names and the deployment's settings one request sees. */
  datatype Env = Env(
    at: int, access: string, refresh: string, accessId: Id, refreshId: Id,
    accessTtl: int, refreshTtl: int, resource: string)

  datatype Grant = Grant(
    client: string, consent: Id, family: Hash, parent: Option<Id>, scopes: seq<string>, resource: string,
    refreshExpiresAt: Option<int>)

  datatype Approval = Approval(
    operator: string, client: string, ticked: seq<string>, redirectUri: string, challenge: Challenge,
    resource: string, code: string, newId: Id, at: int)

  /** The parsed `scope` parameter of a refresh: absent, unparsable or a list of enabled scopes. */
  datatype ScopeParameter = Absent | Unparsable | Requested(scopes: seq<string>)

  type Form = map<string, string>

  const CODE_PREFIX := "vg_ac_"
  const ACCESS_PREFIX := "vg_at_"
  const REFRESH_PREFIX := "vg_rt_"

  predicate HasPrefix(value: string, prefix: string) {
    prefix <= value && |value| > |prefix|
  }

  predicate Given(form: Form, name: string) {
    name in form && |form[name]| > 0
  }

  predicate IsScopeSubset(requested: seq<string>, granted: seq<string>) {
    forall s | s in requested :: s in granted
  }

  // ---------- specification ----------

  function AccessRow(grant: Grant, env: Env): Token {
    Token(env.accessId, Sha256(env.access), AccessToken, grant.family, grant.parent, None, grant.client, grant.consent,
          grant.scopes, grant.resource, env.at, env.at + env.accessTtl, None, None)
  }

  function RefreshRow(grant: Grant, env: Env): Token {
    Token(env.refreshId, Sha256(env.refresh), RefreshToken, grant.family, grant.parent, None, grant.client,
          grant.consent, grant.scopes, grant.resource, env.at,
          if grant.refreshExpiresAt.Some? then grant.refreshExpiresAt.value else env.at + env.refreshTtl, None, None)
  }

  function WithPair(tokens: map<Id, Token>, grant: Grant, env: Env): map<Id, Token> {
    tokens[env.accessId := AccessRow(grant, env)][env.refreshId := RefreshRow(grant, env)]
  }

  function CodeGrant(code: Code, resource: string): Grant {
    Grant(code.client, code.consent, code.hash, None, code.scopes, resource, None)
  }

  function RefreshGrant(token: Token, scopes: seq<string>): Grant {
    Grant(token.client, token.consent, token.family, Some(token.id), scopes, token.resource, Some(token.expiresAt))
  }

  /** `POST /oauth/authorize` with the operator's decision. */
  ghost function ApproveSpec(db: Db, a: Approval): (Db, Event) {
    if a.ticked == [] then (db, Denied)
    else
      var existing := FindActive(db.consents, a.operator, a.client);
      var consent := if existing.Some? then existing.value else a.newId;
      var consents :=
        if existing.Some? then WidenScopes(db.consents, consent, a.ticked)
        else db.consents[consent := Consent(consent, a.operator, a.client, a.ticked, a.at, None)];
      var hash := Sha256(a.code);
      var code := Code(hash, a.client, consent, a.redirectUri, a.challenge, a.resource, a.ticked,
                       a.at + CODE_TTL_MS, None);
      (db.(consents := consents, codes := db.codes[hash := code]), Approved(hash, consent))
  }

  predicate IsCodeForm(form: Form) {
    && Given(form, "code") && Given(form, "client_id") && Given(form, "redirect_uri")
    && Given(form, "code_verifier") && Given(form, "resource")
  }

  predicate IsBound(db: Db, code: Code, form: Form, at: int)
    requires IsCodeForm(form)
  {
    && code.expiresAt > at
    && code.client == form["client_id"]
    && code.redirectUri == form["redirect_uri"]
    && code.resource == form["resource"]
    && IsActive(db.consents, code.consent)
    && code.challenge == S256(form["code_verifier"])
  }

  /** `POST /oauth/token` with an authorization code. */
  function RedeemSpec(db: Db, form: Form, env: Env): (Db, Event) {
    if !IsCodeForm(form) then (db, Refused(InvalidRequest))
    else if form["resource"] != env.resource then (db, Refused(InvalidTarget))
    else if !HasPrefix(form["code"], CODE_PREFIX) then (db, Refused(InvalidGrant))
    else
      var hash := Sha256(form["code"]);
      var claimed := db.(codes := ClaimCode(db.codes, hash, env.at));
      match ClaimOf(db.codes, hash, env.at)
      case Unknown => (db, Refused(InvalidGrant))
      case Reused(code) => (db.(tokens := RevokeFamily(db.tokens, hash, env.at)), CodeReplayed(hash))
      case Claimed(code) =>
        if !IsBound(db, code, form, env.at) then (claimed, Refused(InvalidGrant))
        else
          (claimed.(tokens := WithPair(db.tokens, CodeGrant(code, form["resource"]), env)),
           Issued(code.hash, code.consent, env.accessId, env.refreshId))
  }

  /** `POST /oauth/token` with a refresh token. */
  ghost function RefreshSpec(db: Db, form: Form, scope: ScopeParameter, env: Env): (Db, Event) {
    if !Given(form, "refresh_token") || !Given(form, "client_id") then (db, Refused(InvalidRequest))
    else
      var found := if HasPrefix(form["refresh_token"], REFRESH_PREFIX)
                   then FindByHash(db.tokens, Sha256(form["refresh_token"])) else None;
      if found.None? || found.value.kind != RefreshToken || found.value.revokedAt.Some? then
        (db, Refused(InvalidGrant))
      else
        RefreshFound(db, found.value, form, scope, env)
  }

  function RefreshFound(db: Db, token: Token, form: Form, scope: ScopeParameter, env: Env): (Db, Event)
    requires Given(form, "client_id")
  {
    if token.replacedBy.Some? then
      (db.(tokens := RevokeFamily(db.tokens, token.family, env.at)), RefreshReplayed(token.family))
    else if token.expiresAt <= env.at || form["client_id"] != token.client || !IsActive(db.consents, token.consent) then
      (db, Refused(InvalidGrant))
    else if "resource" in form && form["resource"] != token.resource then
      (db, Refused(InvalidTarget))
    else if scope.Unparsable? then
      (db, Refused(InvalidScope))
    else
      var requested := if scope.Absent? then token.scopes else scope.scopes;
      if !IsScopeSubset(requested, token.scopes) then (db, Refused(InvalidScope))
      else
        var tokens := WithPair(db.tokens, RefreshGrant(token, requested), env);
        if CanReplace(tokens, token.id) then
          (db.(tokens := MarkReplaced(tokens, token.id, env.refreshId)),
           Rotated(token.family, token.consent, token.id, env.refreshId))
        else
          (db.(tokens := RevokeFamily(tokens, token.family, env.at)), Refused(InvalidGrant))
  }

  /** A bearer token presented to the MCP endpoint. */
  ghost function VerifySpec(db: Db, token: string, env: Env): (Db, Event) {
    if !HasPrefix(token, ACCESS_PREFIX) then (db, Rejected(Malformed))
    else
      var found := FindByHash(db.tokens, Sha256(token));
      if found.None? || found.value.kind != AccessToken then (db, Rejected(UnknownToken))
      else VerifyFound(db, found.value, env)
  }

  predicate IsTouchDue(row: Token, at: int) {
    row.lastUsedAt.None? || at - row.lastUsedAt.value >= LAST_USED_GRANULARITY_MS
  }

  function Touched(tokens: map<Id, Token>, row: Token, at: int): map<Id, Token> {
    if row.id in tokens && IsTouchDue(row, at)
    then tokens[row.id := tokens[row.id].(lastUsedAt := Some(at))] else tokens
  }

  function VerifyFound(db: Db, row: Token, env: Env): (Db, Event) {
    if row.revokedAt.Some? then (db, Rejected(IsRevoked))
    else if row.expiresAt <= env.at then (db, Rejected(IsExpired))
    else if row.resource != env.resource then (db, Rejected(UnknownToken))
    else if !IsActive(db.consents, row.consent) then (db, Rejected(IsRevoked))
    else
      (db.(tokens := Touched(db.tokens, row, env.at)), Verified(row.id, row.family, row.consent, row.scopes))
  }

  /** `POST /oauth/revoke`. */
  ghost function RevokeTokenSpec(db: Db, token: string, at: int): (Db, Event) {
    if !HasPrefix(token, ACCESS_PREFIX) && !HasPrefix(token, REFRESH_PREFIX) then (db, Ignored)
    else
      var found := FindByHash(db.tokens, Sha256(token));
      if found.None? then (db, Ignored)
      else
        var row := found.value;
        (db.(tokens := if row.kind == RefreshToken then RevokeFamily(db.tokens, row.family, at)
                       else RevokeById(db.tokens, row.id, at)),
         TokenRevoked(row.id, row.kind, row.family))
  }

  /** The account page's "Disconnect". */
  function RevokeConsentSpec(db: Db, operator: string, consent: Id, at: int): (Db, Event) {
    if consent !in db.consents || db.consents[consent].operator != operator || !IsActive(db.consents, consent) then
      (db, Ignored)
    else
      (db.(consents := RevokeConsentRow(db.consents, consent, at),
           tokens := RevokeByConsent(db.tokens, consent, at)),
       ConsentRevoked(consent))
  }

  /** One maintenance run, restricted to the two OAuth tables it touches. */
  function SweepSpec(db: Db, now: int): (Db, Event) {
    (db.(codes := DeleteCodes(db.codes, now), tokens := DeleteTokens(db.tokens, now - TOKEN_GRACE_MS)), Swept)
  }

  // ---------- the handlers ----------

  class Store {
    var codes: map<Hash, Code>
    var consents: map<Id, Consent>
    var tokens: map<Id, Token>

    function State(): Db
      reads this
    {
      Db(codes, consents, tokens)
    }

    /** The constraints the schema declares: primary keys and the unique hash column. */
    ghost predicate Valid()
      reads this
    {
      && UniqueHashes(tokens)
      && UniqueActive(consents)
      && (forall id | id in tokens :: tokens[id].id == id)
      && (forall h | h in codes :: codes[h].hash == h)
    }

    constructor ()
      ensures State() == Db(map[], map[], map[]) && Valid()
    {
      codes, consents, tokens := map[], map[], map[];
    }

    method Find(hash: Hash) returns (row: Option<Token>)
      requires Valid()
      ensures row == FindByHash(tokens, hash)
    {
      row := None;
      if id :| id in tokens && tokens[id].hash == hash {
        assert forall i | i in tokens && tokens[i].hash == hash :: ShareHash(tokens, i, id);
        row := Some(tokens[id]);
      }
    }

    method IssuePair(grant: Grant, env: Env)
      modifies this`tokens
      ensures tokens == WithPair(old(tokens), grant, env)
    {
      var accessExpiresAt := env.at + env.accessTtl;
      tokens := tokens[env.accessId := Token(
        env.accessId, Sha256(env.access), AccessToken, grant.family, grant.parent, None, grant.client, grant.consent,
        grant.scopes, grant.resource, env.at, accessExpiresAt, None, None)];
      var refreshExpiresAt := env.at + env.refreshTtl;
      if grant.refreshExpiresAt.Some? {
        refreshExpiresAt := grant.refreshExpiresAt.value;
      }
      tokens := tokens[env.refreshId := Token(
        env.refreshId, Sha256(env.refresh), RefreshToken, grant.family, grant.parent, None, grant.client, grant.consent,
        grant.scopes, grant.resource, env.at, refreshExpiresAt, None, None)];
    }

    method HandleApproval(a: Approval) returns (event: Event)
      requires Valid()
      modifies this`codes, this`consents
      ensures (State(), event) == ApproveSpec(old(State()), a)
    {
      if a.ticked == [] {
        return Denied;
      }
      var consentId := a.newId;
      if id :| id in consents && IsActiveFor(consents, id, a.operator, a.client) {
        assert forall i | IsActiveFor(consents, i, a.operator, a.client) :: AreRivals(consents, i, id);
        consentId := id;
        consents := consents[id := consents[id].(scopes := Distinct(consents[id].scopes + a.ticked))];
      } else {
        consents := consents[consentId := Consent(consentId, a.operator, a.client, a.ticked, a.at, None)];
      }
      var hash := Sha256(a.code);
      codes := codes[hash := Code(hash, a.client, consentId, a.redirectUri, a.challenge, a.resource, a.ticked,
                                  a.at + CODE_TTL_MS, None)];
      event := Approved(hash, consentId);
    }

    method Claim(hash: Hash, at: int) returns (claim: Claim)
      modifies this`codes
      ensures claim == ClaimOf(old(codes), hash, at)
      ensures codes == ClaimCode(old(codes), hash, at)
    {
      var changed := false;
      if hash in codes && codes[hash].usedAt.None? {
        codes := codes[hash := codes[hash].(usedAt := Some(at))];
        changed := true;
      }
      if hash !in codes {
        return Unknown;
      }
      claim := if changed then Claimed(codes[hash]) else Reused(codes[hash]);
    }

    method HandleCode(form: Form, env: Env) returns (event: Event)
      requires Valid()
      modifies this`codes, this`tokens
      ensures (State(), event) == RedeemSpec(old(State()), form, env)
    {
      if !IsCodeForm(form) {
        return Refused(InvalidRequest);
      }
      if form["resource"] != env.resource {
        return Refused(InvalidTarget);
      }
      if !HasPrefix(form["code"], CODE_PREFIX) {
        return Refused(InvalidGrant);
      }
      var hash := Sha256(form["code"]);
      var claim := Claim(hash, env.at);
      if claim.Unknown? {
        return Refused(InvalidGrant);
      }
      if claim.Reused? {
        tokens := RevokeFamily(tokens, hash, env.at);
        return CodeReplayed(hash);
      }
      var stored := claim.code;
      var isBound :=
        && stored.expiresAt > env.at
        && stored.client == form["client_id"]
        && stored.redirectUri == form["redirect_uri"]
        && stored.resource == form["resource"]
        && IsActive(consents, stored.consent);
      if !isBound {
        return Refused(InvalidGrant);
      }
      if stored.challenge != S256(form["code_verifier"]) {
        return Refused(InvalidGrant);
      }
      IssuePair(CodeGrant(stored, form["resource"]), env);
      event := Issued(stored.hash, stored.consent, env.accessId, env.refreshId);
    }

    method HandleRefresh(form: Form, scope: ScopeParameter, env: Env) returns (event: Event)
      requires Valid()
      modifies this`tokens
      ensures (State(), event) == RefreshSpec(old(State()), form, scope, env)
    {
      if !Given(form, "refresh_token") || !Given(form, "client_id") {
        return Refused(InvalidRequest);
      }
      var found := None;
      if HasPrefix(form["refresh_token"], REFRESH_PREFIX) {
        found := Find(Sha256(form["refresh_token"]));
      }
      if found.None? || found.value.kind != RefreshToken || found.value.revokedAt.Some? {
        return Refused(InvalidGrant);
      }
      var record := found.value;
      if record.replacedBy.Some? {
        tokens := RevokeFamily(tokens, record.family, env.at);
        return RefreshReplayed(record.family);
      }
      if !(record.expiresAt > env.at && form["client_id"] == record.client) {
        return Refused(InvalidGrant);
      }
      if !IsActive(consents, record.consent) {
        return Refused(InvalidGrant);
      }
      if "resource" in form && form["resource"] != record.resource {
        return Refused(InvalidTarget);
      }
      if scope.Unparsable? {
        return Refused(InvalidScope);
      }
      var requested := if scope.Requested? then scope.scopes else record.scopes;
      if !IsScopeSubset(requested, record.scopes) {
        return Refused(InvalidScope);
      }
      IssuePair(RefreshGrant(record, requested), env);
      if !CanReplace(tokens, record.id) {
        tokens := RevokeFamily(tokens, record.family, env.at);
        return Refused(InvalidGrant);
      }
      tokens := tokens[record.id := tokens[record.id].(replacedBy := Some(env.refreshId))];
      event := Rotated(record.family, record.consent, record.id, env.refreshId);
    }

    method HandleBearer(token: string, env: Env) returns (event: Event)
      requires Valid()
      modifies this`tokens
      ensures (State(), event) == VerifySpec(old(State()), token, env)
    {
      if !HasPrefix(token, ACCESS_PREFIX) {
        return Rejected(Malformed);
      }
      var found := Find(Sha256(token));
      if found.None? || found.value.kind != AccessToken {
        return Rejected(UnknownToken);
      }
      var row := found.value;
      if row.revokedAt.Some? {
        return Rejected(IsRevoked);
      }
      if row.expiresAt <= env.at {
        return Rejected(IsExpired);
      }
      if row.resource != env.resource {
        return Rejected(UnknownToken);
      }
      if !IsActive(consents, row.consent) {
        return Rejected(IsRevoked);
      }
      if IsTouchDue(row, env.at) {
        tokens := tokens[row.id := row.(lastUsedAt := Some(env.at))];
      }
      event := Verified(row.id, row.family, row.consent, row.scopes);
    }

    method HandleTokenRevocation(token: string, at: int) returns (event: Event)
      requires Valid()
      modifies this`tokens
      ensures (State(), event) == RevokeTokenSpec(old(State()), token, at)
    {
      var isAccess := HasPrefix(token, ACCESS_PREFIX);
      var isRefresh := HasPrefix(token, REFRESH_PREFIX);
      if !isAccess && !isRefresh {
        return Ignored;
      }
      var found := Find(Sha256(token));
      if found.None? {
        return Ignored;
      }
      var record := found.value;
      if record.kind == RefreshToken {
        tokens := RevokeFamily(tokens, record.family, at);
      } else {
        tokens := RevokeById(tokens, record.id, at);
      }
      event := TokenRevoked(record.id, record.kind, record.family);
    }

    method HandleConsentRevocation(operator: string, consent: Id, at: int) returns (event: Event)
      modifies this`consents, this`tokens
      ensures (State(), event) == RevokeConsentSpec(old(State()), operator, consent, at)
    {
      if consent !in consents || consents[consent].operator != operator {
        return Ignored;
      }
      if consents[consent].revokedAt.Some? {
        return Ignored;
      }
      consents := consents[consent := consents[consent].(revokedAt := Some(at))];
      tokens := RevokeByConsent(tokens, consent, at);
      event := ConsentRevoked(consent);
    }

    /** One row deleted: every link to it becomes NULL. */
    method DeleteToken(id: Id)
      modifies this`tokens
      ensures tokens == WithoutRows(old(tokens), {id})
    {
      var rest := tokens - {id};
      tokens := map i | i in rest ::
        rest[i].(parent := if rest[i].parent == Some(id) then None else rest[i].parent,
                 replacedBy := if rest[i].replacedBy == Some(id) then None else rest[i].replacedBy);
    }

    /** The rows the condition selects, deleted one at a time in any order, leave what deleting them together leaves:
        each row that stays keeps everything but its links to rows that went. */
    method DeleteSweptTokens(threshold: int)
      modifies this`tokens
      ensures tokens == DeleteTokens(old(tokens), threshold)
    {
      hide WithoutRows, DeleteTokens, IsSwept;
      var selected := SweptIds(tokens, threshold);
      var pending := selected;
      NoRowGone(tokens);
      assert selected - pending == {};
      while pending != {}
        invariant pending <= selected && tokens == WithoutRows(old(tokens), selected - pending)
        decreases |pending|
      {
        var id :| id in pending;
        OneRowMore(old(tokens), selected - pending, id);
        OneFewerPending(selected, pending, id);
        DeleteToken(id);
        pending := pending - {id};
      }
      assert selected - pending == selected;
      SweptRowsGone(old(tokens), threshold);
    }

    method DeleteExpiredCodes(now: int)
      modifies this`codes
      ensures codes == DeleteCodes(old(codes), now)
    {
      hide DeleteCodes, ExpiredCodes;
      var selected := ExpiredCodes(codes, now);
      var pending := selected;
      NoCodeGone(codes);
      assert selected - pending == {};
      while pending != {}
        invariant pending <= selected && codes == old(codes) - (selected - pending)
        decreases |pending|
      {
        var hash :| hash in pending;
        OneFewerPending(selected, pending, hash);
        OneCodeMore(old(codes), selected - pending, hash);
        codes := codes - {hash};
        pending := pending - {hash};
      }
      assert selected - pending == selected;
      ExpiredCodesGone(old(codes), now);
    }

    /** The rules that touch codes and tokens, in the order they are listed. */
    method RunMaintenance(now: int) returns (event: Event)
      modifies this`codes, this`tokens
      ensures (State(), event) == SweepSpec(old(State()), now)
    {
      DeleteExpiredCodes(now);
      DeleteSweptTokens(now - TOKEN_GRACE_MS);
      event := Swept;
    }
  }
}
