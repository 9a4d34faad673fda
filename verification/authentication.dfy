/** The per-request gate, `authenticate(req, res, next)`: read the four
    credential headers, check the timestamp's freshness, look the user up by
    email, refuse a locked account, recompute the token and compare. */
module Authentication {

  import opened Wrappers
  import opened Values
  import opened Dates
  import opened Freshness
  import opened Users
  import opened Token

  /** `req.headers`: lower-cased header names to their string values. */
  type Headers = map<string, string>

  const UsernameHeader: string := "auth-username"
  const TimestampHeader: string := "auth-ts"
  const SaltHeader: string := "auth-salt"
  const TokenHeader: string := "auth-token"

  const CredentialHeaders: seq<string> := [UsernameHeader, TimestampHeader, SaltHeader, TokenHeader]

  /** `req.headers[name]` used as a condition: `undefined` and `""` are falsy. */
  predicate HeaderGiven(headers: Headers, name: string)
  {
    name in headers && headers[name] != ""
  }

  /** The four credential header values of one request. */
  datatype Claim = Claim(email: string, authTS: string, authSalt: string, authToken: string)

  /** Reads the credential headers; `None` when any of them is missing or
      empty, whatever the other three hold. */
  function ReadClaim(headers: Headers): (claim: Option<Claim>)
    ensures claim.Some? <==> (forall name :: name in CredentialHeaders ==> HeaderGiven(headers, name))
    ensures claim.Some? ==>
              && UsernameHeader in headers && TimestampHeader in headers
              && SaltHeader in headers && TokenHeader in headers
              && claim.value.email == headers[UsernameHeader]
              && claim.value.authTS == headers[TimestampHeader]
              && claim.value.authSalt == headers[SaltHeader]
              && claim.value.authToken == headers[TokenHeader]
    ensures claim.Some? ==>
              && claim.value.email != "" && claim.value.authTS != ""
              && claim.value.authSalt != "" && claim.value.authToken != ""
  {
    if HeaderGiven(headers, UsernameHeader) && HeaderGiven(headers, TimestampHeader)
       && HeaderGiven(headers, SaltHeader) && HeaderGiven(headers, TokenHeader)
    then
      Some(Claim(headers[UsernameHeader], headers[TimestampHeader], headers[SaltHeader], headers[TokenHeader]))
    else
      None
  }

  /** The answer of `db.collection('user').findOne({ email })`. */
  datatype FindResult = QueryError | NotFound | Found(user: User)

  /** The user store: `mongo.getDB` either fails, or yields a collection
      whose `findOne` answers a query by email. */
  datatype Store = Unreachable | Connected(findOne: string -> FindResult)

  /** The calls the gate makes on the store, in order. */
  datatype StoreCall = GetDb | FindOne(email: string)

  /** Which check denied the request. Only the log line tells them apart. */
  datatype DenialReason = MissingHeaders | Expired | UnknownUser | LockedUser | WrongToken

  datatype Outcome =
    | Denied(reason: DenialReason)   // 401, login 'Unauthorized'
    | ServerError                    // 500, internal server error
    | Allowed(user: User)            // `res.locals.authenticatedUser = user; next()`
    | Uncaught                       // `hash.update` threw inside the lookup callback

  /** What one request did: its outcome and the store calls made on the way. */
  datatype Decision = Decision(outcome: Outcome, storeCalls: seq<StoreCall>)

  /** The response bodies the gate sends, by the outcome tag they carry. */
  datatype Body =
    | LoginUnauthorized     // operation outcome ('information', 'login', 'Unauthorized')
    | InternalServerError   // the internal server error operation outcome

  /** The observable interactions with `res` and `next`. */
  datatype Effect = Respond(status: int, body: Body) | AttachUser(user: User) | CallNext

  /** The effects each outcome has on the response and the pipeline: the
      `res.status(..).send(..)` of a denial or a store failure, or the
      attach-then-`next()` of an admission. */
  function Effects(o: Outcome): (effects: seq<Effect>)
    // `next` is called iff the request is let through, and then last
    ensures CallNext in effects <==> o.Allowed?
    ensures CallNext in effects ==> effects[|effects| - 1] == CallNext
    // an admission attaches the outcome's user, and nothing else is ever attached
    ensures o.Allowed? ==> AttachUser(o.user) in effects
    ensures forall i :: 0 <= i < |effects| && effects[i].AttachUser? ==>
              o.Allowed? && effects[i].user == o.user && i < |effects| - 1
    // a denial or a store failure sends exactly one response and does nothing else
    ensures o.Denied? || o.ServerError? ==> |effects| == 1 && effects[0].Respond?
    // every response is the login 401 of a denial or the 500 of a store failure
    ensures forall i :: 0 <= i < |effects| && effects[i].Respond? ==>
              || (o.Denied? && effects[i] == Respond(401, LoginUnauthorized))
              || (o.ServerError? && effects[i] == Respond(500, InternalServerError))
  {
    match o
    case Denied(_) => [Respond(401, LoginUnauthorized)]
    case ServerError => [Respond(500, InternalServerError)]
    case Allowed(user) => [AttachUser(user), CallNext]
    case Uncaught => []
  }

  /** The decision once the user lookup has answered: `!user`, then
      `user.locked`, then the token comparison. */
  function Verify(sha512Hex: Digester, claim: Claim, found: FindResult): (o: Outcome)
    ensures o.ServerError? <==> found.QueryError?
    ensures found.NotFound? ==> o == Denied(UnknownUser)
    ensures found.Found? && IsLocked(found.user) ==> o == Denied(LockedUser)
    ensures o.Allowed? <==> (&& found.Found? && !IsLocked(found.user)
                             && UserHash(sha512Hex, found.user, claim.authSalt, claim.authTS) == Some(claim.authToken))
    ensures o.Allowed? ==> o.user == Sanitize(found.user)
    ensures o.Uncaught? <==> (&& found.Found? && !IsLocked(found.user)
                              && UserHash(sha512Hex, found.user, claim.authSalt, claim.authTS).None?)
  {
    match found
    case QueryError => ServerError
    case NotFound => Denied(UnknownUser)
    case Found(user) =>
      if IsLocked(user) then Denied(LockedUser)
      else
        match UserHash(sha512Hex, user, claim.authSalt, claim.authTS)
        case None => Uncaught
        case Some(expected) =>
          if claim.authToken == expected then Allowed(Sanitize(user)) else Denied(WrongToken)
  }

  /** `authenticate(req, res, next)` for one request, with the clock reading,
      the configured window, the date parser, the digest and the store as
      inputs. */
  function Authenticate(headers: Headers, now: Instant, windowSeconds: int,
                        parse: Parser, sha512Hex: Digester, store: Store): (d: Decision)
    // the store is consulted at most once for getDB and once for findOne, by the given email
    ensures d.storeCalls == [] || d.storeCalls == [GetDb]
            || (ReadClaim(headers).Some? && d.storeCalls == [GetDb, FindOne(headers[UsernameHeader])])
    // a missing or empty credential header is a denial before anything else
    ensures ReadClaim(headers).None? ==> d.outcome == Denied(MissingHeaders) && d.storeCalls == []
    // a failing store is a server error, never a denial
    ensures d.outcome.ServerError? ==> store.Unreachable? || store.findOne(headers[UsernameHeader]).QueryError?
    // the attached user carries no secret and every other property unchanged
    ensures d.outcome.Allowed? ==> store.Connected? && store.findOne(headers[UsernameHeader]).Found?
    ensures d.outcome.Allowed? ==>
              var stored := store.findOne(headers[UsernameHeader]).user;
              HashField !in d.outcome.user && SaltField !in d.outcome.user
              && (forall k :: k in stored && k != HashField && k != SaltField ==>
                                k in d.outcome.user && d.outcome.user[k] == stored[k])
              && (forall k :: k in d.outcome.user ==> k in stored)
  {
    match ReadClaim(headers)
    case None => Decision(Denied(MissingHeaders), [])
    case Some(claim) =>
      if HasRequestExpired(parse, claim.authTS, now, windowSeconds) then
        Decision(Denied(Expired), [])
      else
        match store
        case Unreachable => Decision(ServerError, [GetDb])
        case Connected(findOne) =>
          Decision(Verify(sha512Hex, claim, findOne(claim.email)), [GetDb, FindOne(claim.email)])
  }

}
