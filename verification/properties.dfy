/** Properties of the authentication gate: the order of its checks, what the
    store can and cannot influence, which token admits a request, and what
    the caller can observe of a denial. */
module AuthenticationProperties {

  import opened Wrappers
  import opened Values
  import opened Dates
  import opened Freshness
  import opened Users
  import opened Token
  import opened Authentication

  /** The request with its `auth-token` header set to `token` is let through. */
  predicate Admits(headers: Headers, token: string, now: Instant, windowSeconds: int,
                   parse: Parser, sha512Hex: Digester, store: Store)
  {
    Authenticate(headers[TokenHeader := token], now, windowSeconds, parse, sha512Hex, store).outcome.Allowed?
  }

  /** The request gets past the header and freshness checks. */
  predicate PassesPreChecks(headers: Headers, now: Instant, windowSeconds: int, parse: Parser)
  {
    && ReadClaim(headers).Some?
    && !HasRequestExpired(parse, headers[TimestampHeader], now, windowSeconds)
  }

  /** A missing or empty credential header is a 401 before the clock, the
      parser, the digest or the store are looked at: no partial credit. */
  lemma MissingHeaderDenied(headers: Headers, name: string, now: Instant, windowSeconds: int,
                            parse: Parser, sha512Hex: Digester, store: Store)
    requires name in CredentialHeaders && !HeaderGiven(headers, name)
    ensures Authenticate(headers, now, windowSeconds, parse, sha512Hex, store) == Decision(Denied(MissingHeaders), [])
  {
  }

  /** A timestamp parsed to an instant outside the window, too old or too far
      in the future, is a 401 and the store is never called. */
  lemma OutOfWindowDenied(headers: Headers, now: Instant, windowSeconds: int,
                          parse: Parser, sha512Hex: Digester, store: Store)
    requires ReadClaim(headers).Some?
    requires windowSeconds >= 0
             || (Representable(now - windowSeconds * 1000) && Representable(now + windowSeconds * 1000))
    requires parse(headers[TimestampHeader]).Some? && Representable(parse(headers[TimestampHeader]).value)
    requires !WithinWindow(parse(headers[TimestampHeader]).value, now, windowSeconds)
    ensures Authenticate(headers, now, windowSeconds, parse, sha512Hex, store) == Decision(Denied(Expired), [])
  {
  }

  /** A timestamp inside the window, bounds included, is never the reason
      for a denial: the request goes on to the store. */
  lemma InWindowReachesStore(headers: Headers, now: Instant, windowSeconds: int,
                             parse: Parser, sha512Hex: Digester, store: Store)
    requires ReadClaim(headers).Some?
    requires windowSeconds >= 0
             || (Representable(now - windowSeconds * 1000) && Representable(now + windowSeconds * 1000))
    requires parse(headers[TimestampHeader]).Some? && Representable(parse(headers[TimestampHeader]).value)
    requires WithinWindow(parse(headers[TimestampHeader]).value, now, windowSeconds)
    ensures Authenticate(headers, now, windowSeconds, parse, sha512Hex, store).storeCalls != []
    ensures Authenticate(headers, now, windowSeconds, parse, sha512Hex, store).outcome != Denied(Expired)
  {
  }

  /** A timestamp that does not parse is not treated as expired: the request
      goes on to the store, at any instant and under any window. */
  lemma UnparseableTimestampReachesStore(headers: Headers, now: Instant, windowSeconds: int,
                                         parse: Parser, sha512Hex: Digester, store: Store)
    requires ReadClaim(headers).Some?
    requires parse(headers[TimestampHeader]).None?
    ensures Authenticate(headers, now, windowSeconds, parse, sha512Hex, store).storeCalls != []
    ensures Authenticate(headers, now, windowSeconds, parse, sha512Hex, store).outcome != Denied(Expired)
  {
  }

  /** The store is called exactly when the request passes the header and
      freshness checks, and getDB always comes first. */
  lemma StoreCalledIffPreChecksPass(headers: Headers, now: Instant, windowSeconds: int,
                                    parse: Parser, sha512Hex: Digester, store: Store)
    ensures Authenticate(headers, now, windowSeconds, parse, sha512Hex, store).storeCalls != []
            <==> PassesPreChecks(headers, now, windowSeconds, parse)
    ensures Authenticate(headers, now, windowSeconds, parse, sha512Hex, store).storeCalls != [] ==>
              Authenticate(headers, now, windowSeconds, parse, sha512Hex, store).storeCalls[0] == GetDb
  {
  }

  /** When the store is not called, its contents cannot matter: any other
      store yields the same decision. */
  lemma UncalledStoreIsIrrelevant(headers: Headers, now: Instant, windowSeconds: int,
                                  parse: Parser, sha512Hex: Digester, store1: Store, store2: Store)
    requires Authenticate(headers, now, windowSeconds, parse, sha512Hex, store1).storeCalls == []
    ensures Authenticate(headers, now, windowSeconds, parse, sha512Hex, store1)
            == Authenticate(headers, now, windowSeconds, parse, sha512Hex, store2)
  {
  }

  /** The store is asked about the request's own email only: two stores that
      agree on reachability and on that one query yield the same decision. */
  lemma OnlyTheQueriedEmailMatters(headers: Headers, now: Instant, windowSeconds: int,
                                   parse: Parser, sha512Hex: Digester, store1: Store, store2: Store)
    requires UsernameHeader in headers
    requires store1.Connected? == store2.Connected?
    requires store1.Connected? ==> store1.findOne(headers[UsernameHeader]) == store2.findOne(headers[UsernameHeader])
    ensures Authenticate(headers, now, windowSeconds, parse, sha512Hex, store1)
            == Authenticate(headers, now, windowSeconds, parse, sha512Hex, store2)
  {
  }

  /** A 500 happens exactly when getDB or findOne fails after the pre-checks;
      a store failure is never reported as a 401 and never calls `next`. */
  lemma ServerErrorExactlyOnStoreFailure(headers: Headers, now: Instant, windowSeconds: int,
                                         parse: Parser, sha512Hex: Digester, store: Store)
    ensures Authenticate(headers, now, windowSeconds, parse, sha512Hex, store).outcome.ServerError?
            <==> (&& PassesPreChecks(headers, now, windowSeconds, parse)
                  && (store.Unreachable? || store.findOne(headers[UsernameHeader]).QueryError?))
    ensures Authenticate(headers, now, windowSeconds, parse, sha512Hex, store).outcome.ServerError? ==>
              Effects(Authenticate(headers, now, windowSeconds, parse, sha512Hex, store).outcome)
              == [Respond(500, InternalServerError)]
  {
  }

  /** An unknown user, or a locked one, is a 401 whatever token is sent, and
      whatever the stored hash holds: the lock is checked before the token is
      computed. */
  lemma UnknownOrLockedDeniedWhateverToken(headers: Headers, token1: string, token2: string, now: Instant,
                                           windowSeconds: int, parse: Parser, sha512Hex: Digester, store: Store)
    requires HeaderGiven(headers, UsernameHeader) && HeaderGiven(headers, TimestampHeader)
    requires HeaderGiven(headers, SaltHeader)
    requires token1 != "" && token2 != ""
    requires !HasRequestExpired(parse, headers[TimestampHeader], now, windowSeconds)
    requires store.Connected?
    requires store.findOne(headers[UsernameHeader]).NotFound?
             || (store.findOne(headers[UsernameHeader]).Found? && IsLocked(store.findOne(headers[UsernameHeader]).user))
    ensures Authenticate(headers[TokenHeader := token1], now, windowSeconds, parse, sha512Hex, store).outcome.Denied?
    ensures Authenticate(headers[TokenHeader := token1], now, windowSeconds, parse, sha512Hex, store)
            == Authenticate(headers[TokenHeader := token2], now, windowSeconds, parse, sha512Hex, store)
  {
  }

  /** A found, unlocked user whose stored hash is not a string makes
      `hash.update` throw: no response is sent and `next` is not called. */
  lemma MalformedStoredHashThrows(headers: Headers, now: Instant, windowSeconds: int,
                                  parse: Parser, sha512Hex: Digester, store: Store)
    requires PassesPreChecks(headers, now, windowSeconds, parse)
    requires store.Connected? && store.findOne(headers[UsernameHeader]).Found?
    requires !IsLocked(store.findOne(headers[UsernameHeader]).user)
    requires HashField !in store.findOne(headers[UsernameHeader]).user
             || !store.findOne(headers[UsernameHeader]).user[HashField].Str?
    ensures Authenticate(headers, now, windowSeconds, parse, sha512Hex, store).outcome == Uncaught
    ensures Effects(Authenticate(headers, now, windowSeconds, parse, sha512Hex, store).outcome) == []
  {
  }

  /** Admission, both directions: a request is let through exactly when its
      headers are given, it is fresh, the user is found and unlocked, and its
      token equals the digest of the stored hash, the salt and the timestamp,
      in that order. The user attached is the stored one, sanitized. */
  lemma AllowedExactly(headers: Headers, now: Instant, windowSeconds: int,
                       parse: Parser, sha512Hex: Digester, store: Store)
    ensures Authenticate(headers, now, windowSeconds, parse, sha512Hex, store).outcome.Allowed?
            <==> (&& PassesPreChecks(headers, now, windowSeconds, parse)
                  && store.Connected?
                  && store.findOne(headers[UsernameHeader]).Found?
                  && !IsLocked(store.findOne(headers[UsernameHeader]).user)
                  && HashField in store.findOne(headers[UsernameHeader]).user
                  && store.findOne(headers[UsernameHeader]).user[HashField].Str?
                  && headers[TokenHeader]
                     == sha512Hex(store.findOne(headers[UsernameHeader]).user[HashField].s
                                  + headers[SaltHeader] + headers[TimestampHeader]))
    ensures Authenticate(headers, now, windowSeconds, parse, sha512Hex, store).outcome.Allowed? ==>
              Authenticate(headers, now, windowSeconds, parse, sha512Hex, store).outcome.user
              == Sanitize(store.findOne(headers[UsernameHeader]).user)
  {
  }

  /** For a found, unlocked user with a string hash and a fresh request, one
      and only one token is let through: a client that knows the stored hash
      can always authenticate, and nobody can with any other token. */
  lemma ExactlyOneTokenAdmits(headers: Headers, now: Instant, windowSeconds: int,
                              parse: Parser, sha512Hex: Digester, store: Store)
    requires HeaderGiven(headers, UsernameHeader) && HeaderGiven(headers, TimestampHeader)
    requires HeaderGiven(headers, SaltHeader)
    requires !HasRequestExpired(parse, headers[TimestampHeader], now, windowSeconds)
    requires store.Connected? && store.findOne(headers[UsernameHeader]).Found?
    requires !IsLocked(store.findOne(headers[UsernameHeader]).user)
    requires HashField in store.findOne(headers[UsernameHeader]).user
    requires store.findOne(headers[UsernameHeader]).user[HashField].Str?
    requires sha512Hex(store.findOne(headers[UsernameHeader]).user[HashField].s
                       + headers[SaltHeader] + headers[TimestampHeader]) != ""
    ensures exists token :: Admits(headers, token, now, windowSeconds, parse, sha512Hex, store)
    ensures forall token :: Admits(headers, token, now, windowSeconds, parse, sha512Hex, store) ==> token == sha512Hex(store.findOne(headers[UsernameHeader]).user[HashField].s
                                                   + headers[SaltHeader] + headers[TimestampHeader])
  {
    var user := store.findOne(headers[UsernameHeader]).user;
    var expected := sha512Hex(user[HashField].s + headers[SaltHeader] + headers[TimestampHeader]);
    var admitted := headers[TokenHeader := expected];
    assert ReadClaim(admitted) == Some(Claim(headers[UsernameHeader], headers[TimestampHeader],
                                             headers[SaltHeader], expected));
    assert Authenticate(admitted, now, windowSeconds, parse, sha512Hex, store).outcome == Allowed(Sanitize(user));
    assert Admits(headers, expected, now, windowSeconds, parse, sha512Hex, store);
  }

  /** A credential let through once is let through again at any instant
      whose window still holds its timestamp: freshness is the only replay
      defence. */
  lemma ReplayWithinWindowAdmitted(headers: Headers, now1: Instant, now2: Instant, windowSeconds: int,
                                   parse: Parser, sha512Hex: Digester, store: Store)
    requires Authenticate(headers, now1, windowSeconds, parse, sha512Hex, store).outcome.Allowed?
    requires windowSeconds >= 0
             || (Representable(now2 - windowSeconds * 1000) && Representable(now2 + windowSeconds * 1000))
    requires parse(headers[TimestampHeader]).Some? && Representable(parse(headers[TimestampHeader]).value)
    requires WithinWindow(parse(headers[TimestampHeader]).value, now2, windowSeconds)
    ensures Authenticate(headers, now2, windowSeconds, parse, sha512Hex, store)
            == Authenticate(headers, now1, windowSeconds, parse, sha512Hex, store)
  {
  }

  /** A credential with an unparseable timestamp that is let through once is
      let through at every later instant and under every window: it never
      expires. */
  lemma UnparseableCredentialNeverExpires(headers: Headers, now1: Instant, window1: int,
                                          now2: Instant, window2: int,
                                          parse: Parser, sha512Hex: Digester, store: Store)
    requires Authenticate(headers, now1, window1, parse, sha512Hex, store).outcome.Allowed?
    requires parse(headers[TimestampHeader]).None?
    ensures Authenticate(headers, now2, window2, parse, sha512Hex, store)
            == Authenticate(headers, now1, window1, parse, sha512Hex, store)
  {
  }

  /** Every denial looks the same to the caller: one 401 with the login
      'Unauthorized' outcome, whichever check failed. */
  lemma DenialsAreIndistinguishable(headers1: Headers, now1: Instant, window1: int, parse1: Parser,
                                    sha1: Digester, store1: Store,
                                    headers2: Headers, now2: Instant, window2: int, parse2: Parser,
                                    sha2: Digester, store2: Store)
    requires Authenticate(headers1, now1, window1, parse1, sha1, store1).outcome.Denied?
    requires Authenticate(headers2, now2, window2, parse2, sha2, store2).outcome.Denied?
    ensures Effects(Authenticate(headers1, now1, window1, parse1, sha1, store1).outcome)
            == Effects(Authenticate(headers2, now2, window2, parse2, sha2, store2).outcome)
            == [Respond(401, LoginUnauthorized)]
  {
  }

  /** `next` is called exactly once when the request is let through and
      never otherwise; a request let through gets no response from the gate,
      and every other request gets at most one. */
  lemma NextCalledOnceOnlyWhenAllowed(o: Outcome)
    ensures multiset(Effects(o))[CallNext] == (if o.Allowed? then 1 else 0)
    ensures o.Allowed? ==> forall e :: e in Effects(o) ==> !e.Respond?
    ensures !o.Allowed? ==> |Effects(o)| <= 1
  {
  }

}
