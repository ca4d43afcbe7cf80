/** The three OAuth tables and the statements the repositories run on them.
    A row is a value; a table maps the primary key to the row. */
module TokenTables {
  import opened Wrappers

  type Id = string

  /** SHA-256 and the PKCE S256 transform are modelled as injective constructors. */
  datatype Hash = Sha256(of: string)
  datatype Challenge = S256(verifier: string)

  datatype Kind = AccessToken | RefreshToken

  datatype Token = Token(
    id: Id, hash: Hash, kind: Kind, family: Hash, parent: Option<Id>, replacedBy: Option<Id>,
    client: string, consent: Id, scopes: seq<string>, resource: string,
    issuedAt: int, expiresAt: int, revokedAt: Option<int>, lastUsedAt: Option<int>)

  datatype Code = Code(
    hash: Hash, client: string, consent: Id, redirectUri: string, challenge: Challenge,
    resource: string, scopes: seq<string>, expiresAt: int, usedAt: Option<int>)

  datatype Consent = Consent(
    id: Id, operator: string, client: string, scopes: seq<string>, grantedAt: int, revokedAt: Option<int>)

  datatype Db = Db(codes: map<Hash, Code>, consents: map<Id, Consent>, tokens: map<Id, Token>)

  datatype Claim = Unknown | Reused(code: Code) | Claimed(code: Code)

  const SECOND_MS := 1000
  const MINUTE_MS := 60 * SECOND_MS
  const DAY_MS := 24 * 60 * MINUTE_MS
  const CODE_TTL_MS := 5 * MINUTE_MS
  const TOKEN_GRACE_MS := 7 * DAY_MS
  const LAST_USED_GRANULARITY_MS := MINUTE_MS

  // ---------- tokens ----------

  predicate ShareHash(tokens: map<Id, Token>, i: Id, j: Id) {
    i in tokens && j in tokens && tokens[i].hash == tokens[j].hash
  }

  ghost predicate UniqueHashes(tokens: map<Id, Token>) {
    forall i, j | ShareHash(tokens, i, j) :: i == j
  }

  /** SELECT ... WHERE token_hash = ?; the column is UNIQUE. */
  ghost function FindByHash(tokens: map<Id, Token>, hash: Hash): (r: Option<Token>)
    ensures r.Some? ==> exists id :: id in tokens && tokens[id] == r.value && r.value.hash == hash
    ensures r.None? ==> forall id | id in tokens :: tokens[id].hash != hash
  {
    if exists id :: id in tokens && tokens[id].hash == hash then
      var id :| id in tokens && tokens[id].hash == hash;
      Some(tokens[id])
    else
      None
  }

  function Revoked(token: Token, at: int): Token {
    if token.revokedAt.None? then token.(revokedAt := Some(at)) else token
  }

  function RevokeById(tokens: map<Id, Token>, id: Id, at: int): map<Id, Token> {
    map i | i in tokens :: if i == id then Revoked(tokens[i], at) else tokens[i]
  }

  function RevokeFamily(tokens: map<Id, Token>, family: Hash, at: int): map<Id, Token> {
    map i | i in tokens :: if tokens[i].family == family then Revoked(tokens[i], at) else tokens[i]
  }

  function RevokeByConsent(tokens: map<Id, Token>, consent: Id, at: int): map<Id, Token> {
    map i | i in tokens :: if tokens[i].consent == consent then Revoked(tokens[i], at) else tokens[i]
  }

  predicate CanReplace(tokens: map<Id, Token>, id: Id) {
    id in tokens && tokens[id].replacedBy.None?
  }

  function MarkReplaced(tokens: map<Id, Token>, id: Id, successor: Id): map<Id, Token> {
    if CanReplace(tokens, id) then tokens[id := tokens[id].(replacedBy := Some(successor))] else tokens
  }

  predicate IsSwept(token: Token, threshold: int) {
    (token.revokedAt.Some? && token.revokedAt.value <= threshold) || token.expiresAt <= threshold
  }

  /** A foreign key declared ON DELETE SET NULL, after the rows in `gone` are deleted. */
  function Unlinked(link: Option<Id>, tokens: map<Id, Token>, threshold: int): Option<Id> {
    if link.Some? && link.value in tokens && IsSwept(tokens[link.value], threshold) then None else link
  }

  function DeleteTokens(tokens: map<Id, Token>, threshold: int): map<Id, Token> {
    map i | i in tokens && !IsSwept(tokens[i], threshold) ::
      tokens[i].(parent := Unlinked(tokens[i].parent, tokens, threshold),
                 replacedBy := Unlinked(tokens[i].replacedBy, tokens, threshold))
  }

  function SweptIds(tokens: map<Id, Token>, threshold: int): set<Id> {
    set i | i in tokens && IsSwept(tokens[i], threshold)
  }

  function Detached(link: Option<Id>, gone: set<Id>): Option<Id> {
    if link.Some? && link.value in gone then None else link
  }

  /** The rows left when those of `gone` are deleted, one by one or together. */
  function WithoutRows(tokens: map<Id, Token>, gone: set<Id>): map<Id, Token> {
    map i | i in tokens && i !in gone ::
      tokens[i].(parent := Detached(tokens[i].parent, gone), replacedBy := Detached(tokens[i].replacedBy, gone))
  }

  lemma OneRowMore(tokens: map<Id, Token>, gone: set<Id>, id: Id)
    ensures WithoutRows(WithoutRows(tokens, gone), {id}) == WithoutRows(tokens, gone + {id})
  {
  }

  lemma NoRowGone(tokens: map<Id, Token>)
    ensures WithoutRows(tokens, {}) == tokens
  {
    assert WithoutRows(tokens, {}).Keys == tokens.Keys;
  }

  lemma SweptRowsGone(tokens: map<Id, Token>, threshold: int)
    ensures WithoutRows(tokens, SweptIds(tokens, threshold)) == DeleteTokens(tokens, threshold)
  {
  }

  // ---------- authorization codes ----------

  function ClaimOf(codes: map<Hash, Code>, hash: Hash, at: int): Claim {
    if hash !in codes then Unknown
    else if codes[hash].usedAt.Some? then Reused(codes[hash])
    else Claimed(codes[hash].(usedAt := Some(at)))
  }

  function ClaimCode(codes: map<Hash, Code>, hash: Hash, at: int): map<Hash, Code> {
    if hash in codes && codes[hash].usedAt.None? then codes[hash := codes[hash].(usedAt := Some(at))] else codes
  }

  function DeleteCodes(codes: map<Hash, Code>, now: int): map<Hash, Code> {
    map h | h in codes && codes[h].expiresAt > now :: codes[h]
  }

  function ExpiredCodes(codes: map<Hash, Code>, now: int): set<Hash> {
    set h | h in codes && codes[h].expiresAt <= now
  }

  lemma OneCodeMore(codes: map<Hash, Code>, gone: set<Hash>, hash: Hash)
    ensures codes - gone - {hash} == codes - (gone + {hash})
  {
    assert (codes - gone - {hash}).Keys == (codes - (gone + {hash})).Keys;
  }

  lemma NoCodeGone(codes: map<Hash, Code>)
    ensures codes - {} == codes
  {
    assert (codes - {}).Keys == codes.Keys;
  }

  lemma OneFewerPending<T>(selected: set<T>, pending: set<T>, taken: T)
    requires pending <= selected && taken in pending
    ensures selected - (pending - {taken}) == selected - pending + {taken}
  {
  }

  lemma ExpiredCodesGone(codes: map<Hash, Code>, now: int)
    ensures codes - ExpiredCodes(codes, now) == DeleteCodes(codes, now)
  {
    assert (codes - ExpiredCodes(codes, now)).Keys == DeleteCodes(codes, now).Keys;
  }

  // ---------- consents ----------

  predicate IsActive(consents: map<Id, Consent>, id: Id) {
    id in consents && consents[id].revokedAt.None?
  }

  predicate IsActiveFor(consents: map<Id, Consent>, id: Id, operator: string, client: string) {
    IsActive(consents, id) && consents[id].operator == operator && consents[id].client == client
  }

  predicate AreRivals(consents: map<Id, Consent>, i: Id, j: Id) {
    && IsActive(consents, i) && IsActive(consents, j)
    && consents[i].operator == consents[j].operator && consents[i].client == consents[j].client
  }

  ghost predicate UniqueActive(consents: map<Id, Consent>) {
    forall i, j | AreRivals(consents, i, j) :: i == j
  }

  /** SELECT ... AND revoked_at IS NULL ORDER BY granted_at DESC LIMIT 1; `UniqueActive` makes the order moot. */
  ghost function FindActive(consents: map<Id, Consent>, operator: string, client: string): (r: Option<Id>)
    ensures r.Some? ==> IsActiveFor(consents, r.value, operator, client)
    ensures r.None? ==> forall id :: !IsActiveFor(consents, id, operator, client)
  {
    if exists id :: IsActiveFor(consents, id, operator, client) then
      var id :| IsActiveFor(consents, id, operator, client);
      Some(id)
    else
      None
  }

  /** A JavaScript Set spread back into an array: first occurrences, in order. */
  function Distinct(scopes: seq<string>): (r: seq<string>)
    ensures forall s :: s in r <==> s in scopes
    ensures forall i, j | 0 <= i < j < |r| :: r[i] != r[j]
  {
    if scopes == [] then []
    else
      var front := Distinct(scopes[..|scopes| - 1]);
      var last := scopes[|scopes| - 1];
      assert forall s :: s in scopes <==> s in scopes[..|scopes| - 1] || s == last;
      if last in front then front else front + [last]
  }

  function WidenScopes(consents: map<Id, Consent>, id: Id, scopes: seq<string>): map<Id, Consent>
    requires id in consents
  {
    consents[id := consents[id].(scopes := Distinct(consents[id].scopes + scopes))]
  }

  function RevokeConsentRow(consents: map<Id, Consent>, id: Id, at: int): map<Id, Consent> {
    if IsActive(consents, id) then consents[id := consents[id].(revokedAt := Some(at))] else consents
  }
}
