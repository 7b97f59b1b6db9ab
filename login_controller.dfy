/**
 * Login and token issuance: check the credentials, choose the expiry, evict
 * the user's token under the configured name and issue exactly one new one.
 */
module LoginController {
  import opened Wrappers
  import opened Hashing
  import opened Clock
  import opened Store

  const DefaultTokenName: string := "auth_token"
  const DefaultExpiryHours: int := 2
  const DefaultRememberDays: int := 30
  const BearerType: string := "Bearer"
  /** Every login token carries the unrestricted ability list. */
  const AllAbilities: seq<string> := ["*"]
  const FailedStatus: nat := 422
  /** The translation key of the one failure message; its translated text is not modelled. */
  const FailedMessage: string := "auth.failed"

  /** The three login settings; None is a setting absent from the configuration. */
  datatype LoginConfig = LoginConfig(tokenName: Option<string>, defaultHours: Option<int>, rememberDays: Option<int>)

  /** The validated request body: email, password and the optional remember-me flag. */
  datatype Credentials = Credentials(email: string, password: string, rememberMe: Option<bool>)

  /** The success body. `token` stands for the plain-text token, whose secret part is not modelled. */
  datatype LoginResponse = LoginResponse(token: nat, tokenType: string, expiresAt: int, user: PublicUser)

  datatype LoginResult = Failed(status: nat, message: string) | Issued(response: LoginResponse)

  /** What a login returns and the token table and id counter it leaves behind. */
  datatype LoginOutcome = LoginOutcome(result: LoginResult, tokens: map<nat, Token>, nextTokenId: nat)

  /** The user whose email matches exactly and whose stored digest accepts the password, if any. */
  function Authenticate(users: seq<User>, email: string, password: string): (r: Option<User>)
    ensures r.Some? ==> r.value in users && r.value.email == email && Check(password, r.value.password)
  {
    match FindByEmail(users, email)
    case None => None
    case Some(u) => if Check(password, u.password) then Some(u) else None
  }

  /** In a well-formed table, login accepts the credentials exactly when some row has that email and a digest that accepts the password. */
  lemma AuthenticateIff(users: seq<User>, nextId: nat, email: string, password: string)
    requires UsersWellFormed(users, nextId)
    ensures Authenticate(users, email, password).Some? <==>
            exists i :: 0 <= i < |users| && users[i].email == email && Check(password, users[i].password)
  {
  }

  /** The expiry of a new token: `defaultHours` hours after `now`, or `rememberDays` days with remember-me. */
  function ExpiresAt(now: int, rememberMe: bool, defaultHours: int, rememberDays: int): (t: int)
    ensures rememberMe ==> t == now + rememberDays * 86400
    ensures !rememberMe ==> t == now + defaultHours * 3600
  {
    if rememberMe then AddDays(now, rememberDays) else AddHours(now, defaultHours)
  }

  /** Remember-me yields the later expiry exactly when the remembered days outlast the default hours. */
  lemma RememberOutlastsDefaultIff(now: int, defaultHours: int, rememberDays: int)
    ensures ExpiresAt(now, true, defaultHours, rememberDays) > ExpiresAt(now, false, defaultHours, rememberDays)
            <==> rememberDays * 24 > defaultHours
  {
  }

  /** With the default settings, remember-me always expires later, by 30 days less 2 hours. */
  lemma DefaultRememberIsLater(now: int)
    ensures ExpiresAt(now, true, DefaultExpiryHours, DefaultRememberDays)
            == ExpiresAt(now, false, DefaultExpiryHours, DefaultRememberDays) + 30 * 86400 - 2 * 3600
    ensures ExpiresAt(now, true, DefaultExpiryHours, DefaultRememberDays)
            > ExpiresAt(now, false, DefaultExpiryHours, DefaultRememberDays)
  {
  }

  /** `$user->tokens()->where('name', $name)->delete()`: drop every token in the slot, keep all others. */
  function EvictSlot(tokens: map<nat, Token>, owner: nat, name: string): (r: map<nat, Token>)
    ensures forall k :: k in r ==> k in tokens && r[k] == tokens[k] && !InSlot(tokens[k], owner, name)
    ensures forall k :: k in tokens && !InSlot(tokens[k], owner, name) ==> k in r
  {
    map k | k in tokens && !InSlot(tokens[k], owner, name) :: tokens[k]
  }

  /**
   * Slot eviction followed by `createToken`: afterwards the slot holds exactly the
   * new row, every token outside the slot is untouched and nothing else appears.
   */
  function IssueToken(tokens: map<nat, Token>, id: nat, owner: nat, name: string, expiresAt: int): (r: map<nat, Token>)
    requires id !in tokens
    ensures id in r && r[id] == Token(id, owner, name, AllAbilities, expiresAt)
    ensures forall k :: k in r && InSlot(r[k], owner, name) ==> k == id
    ensures forall k :: k in tokens && !InSlot(tokens[k], owner, name) ==> k in r && r[k] == tokens[k]
    ensures forall k :: k in r && k != id ==> k in tokens && r[k] == tokens[k]
  {
    EvictSlot(tokens, owner, name)[id := Token(id, owner, name, AllAbilities, expiresAt)]
  }

  /** The slot a login fills: the configured token name, or "auth_token". */
  function SlotName(config: LoginConfig): string
  {
    GetOr(config.tokenName, DefaultTokenName)
  }

  /** The expiry a login uses: the flag defaults to false, the settings to 2 hours and 30 days. */
  function LoginExpiry(config: LoginConfig, request: Credentials, now: int): int
  {
    ExpiresAt(now, GetOr(request.rememberMe, false),
              GetOr(config.defaultHours, DefaultExpiryHours), GetOr(config.rememberDays, DefaultRememberDays))
  }

  /** One login against the tables, as a state transition on the token table. */
  function LoginStep(users: seq<User>, tokens: map<nat, Token>, nextTokenId: nat,
                     config: LoginConfig, request: Credentials, now: int): (o: LoginOutcome)
    requires nextTokenId !in tokens
    ensures o.result.Failed? ==> o == LoginOutcome(Failed(422, "auth.failed"), tokens, nextTokenId)
    ensures o.result.Issued? ==>
              && o.result.response.tokenType == "Bearer"
              && o.result.response.token == nextTokenId
              && o.nextTokenId == nextTokenId + 1
              && nextTokenId in o.tokens
              && o.tokens[nextTokenId].expiresAt == o.result.response.expiresAt
              && o.tokens[nextTokenId].owner == o.result.response.user.id
  {
    match Authenticate(users, request.email, request.password)
    case None =>
      LoginOutcome(Failed(FailedStatus, FailedMessage), tokens, nextTokenId)
    case Some(user) =>
      var expiresAt := LoginExpiry(config, request, now);
      LoginOutcome(Issued(LoginResponse(nextTokenId, BearerType, expiresAt, Public(user))),
                   IssueToken(tokens, nextTokenId, user.id, SlotName(config), expiresAt),
                   nextTokenId + 1)
  }

  /**
   * A login fails exactly when no row has the email or its digest rejects the
   * password; both causes give the same status and message, and a failed login
   * leaves the token table and the id counter as they were.
   */
  lemma LoginFailsUniformly(users: seq<User>, nextUserId: nat, tokens: map<nat, Token>, nextTokenId: nat,
                            config: LoginConfig, request: Credentials, now: int)
    requires UsersWellFormed(users, nextUserId) && TokensWellFormed(tokens, nextTokenId)
    ensures var o := LoginStep(users, tokens, nextTokenId, config, request, now);
            && (o.result.Failed? <==>
                  !exists i :: 0 <= i < |users| && users[i].email == request.email && Check(request.password, users[i].password))
            && (o.result.Failed? ==> o == LoginOutcome(Failed(422, "auth.failed"), tokens, nextTokenId))
  {
  }

  /**
   * A successful login answers with a Bearer token for the matched user, stores
   * exactly one token in the (user, name) slot with the expiry it reports, and
   * leaves every other slot alone; no other row appears. The slot name falls
   * back to "auth_token".
   */
  lemma LoginIssuesOneToken(users: seq<User>, nextUserId: nat, tokens: map<nat, Token>, nextTokenId: nat,
                            config: LoginConfig, request: Credentials, now: int, user: User)
    requires UsersWellFormed(users, nextUserId) && TokensWellFormed(tokens, nextTokenId)
    requires user in users && user.email == request.email && Check(request.password, user.password)
    ensures var o := LoginStep(users, tokens, nextTokenId, config, request, now);
            var name := if config.tokenName.Some? then config.tokenName.value else "auth_token";
            && o.result.Issued?
            && o.result.response.tokenType == "Bearer"
            && o.result.response.user == Public(user)
            && o.nextTokenId == nextTokenId + 1
            && o.result.response.expiresAt == LoginExpiry(config, request, now)
            && o.result.response.token in o.tokens
            && o.tokens[o.result.response.token] == Token(nextTokenId, user.id, name, ["*"], o.result.response.expiresAt)
            && (forall k :: k in o.tokens && InSlot(o.tokens[k], user.id, name) ==> k == nextTokenId)
            && (forall k :: k in tokens && InSlot(tokens[k], user.id, name) ==> k !in o.tokens)
            && (forall k :: k in tokens && !InSlot(tokens[k], user.id, name) ==> k in o.tokens && o.tokens[k] == tokens[k])
            && (forall k :: k in o.tokens ==> k == nextTokenId || k in tokens)
  {
  }

  /** The expiry a login stores and reports follows the remember-me flag, with the defaults 2 hours and 30 days. */
  lemma LoginExpiryFollowsFlag(config: LoginConfig, request: Credentials, now: int)
    ensures var hours := if config.defaultHours.Some? then config.defaultHours.value else 2;
            var days := if config.rememberDays.Some? then config.rememberDays.value else 30;
            && (request.rememberMe == Some(true) ==> LoginExpiry(config, request, now) == now + days * 86400)
            && (request.rememberMe != Some(true) ==> LoginExpiry(config, request, now) == now + hours * 3600)
  {
  }

  /** Logins keep the token table well formed: at most one token per (user, name) slot. */
  lemma LoginKeepsTokensWellFormed(users: seq<User>, tokens: map<nat, Token>, nextTokenId: nat,
                                   config: LoginConfig, request: Credentials, now: int)
    requires TokensWellFormed(tokens, nextTokenId)
    ensures var o := LoginStep(users, tokens, nextTokenId, config, request, now);
            TokensWellFormed(o.tokens, o.nextTokenId)
  {
  }

  /** The login endpoint: runs one login step on the database. */
  method Login(db: Database, config: LoginConfig, request: Credentials, now: int) returns (result: LoginResult)
    requires db.Valid()
    modifies db
    ensures db.Valid()
    ensures var o := LoginStep(old(db.users), old(db.tokens), old(db.nextTokenId), config, request, now);
            result == o.result && db.tokens == o.tokens && db.nextTokenId == o.nextTokenId
    ensures db.users == old(db.users) && db.nextUserId == old(db.nextUserId)
  {
    LoginKeepsTokensWellFormed(db.users, db.tokens, db.nextTokenId, config, request, now);
    var found := Authenticate(db.users, request.email, request.password);
    if found.None? {
      return Failed(FailedStatus, FailedMessage);
    }
    var user := found.value;
    var name := GetOr(config.tokenName, DefaultTokenName);
    var rememberMe := GetOr(request.rememberMe, false);
    var defaultHours := GetOr(config.defaultHours, DefaultExpiryHours);
    var rememberDays := GetOr(config.rememberDays, DefaultRememberDays);
    var expiresAt := ExpiresAt(now, rememberMe, defaultHours, rememberDays);
    db.tokens := EvictSlot(db.tokens, user.id, name);
    var id := db.nextTokenId;
    db.tokens := db.tokens[id := Token(id, user.id, name, AllAbilities, expiresAt)];
    db.nextTokenId := id + 1;
    result := Issued(LoginResponse(id, BearerType, expiresAt, Public(user)));
  }
}
