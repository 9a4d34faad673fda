/** The freshness check, `hasRequestExpired`: the claimed timestamp must lie
    within a window of `windowSeconds` seconds either side of now. */
module Freshness {

  import opened Wrappers
  import opened Dates

  /** The date parser, `Date.parse`: a time value, or `None` for NaN. */
  type Parser = string -> Option<int>

  /** `new Date(Date.parse(authTS))`: the parsed time value, clipped to the
      range of valid dates. */
  function RequestDate(parse: Parser, authTS: string): Option<Instant>
  {
    match parse(authTS)
    case None => None
    case Some(t) => TimeClip(t)
  }

  /** The reference reading of the window: `t` is at most `windowSeconds`
      seconds before or after `now`, both bounds included. */
  predicate WithinWindow(t: int, now: int, windowSeconds: int)
  {
    now - windowSeconds * 1000 <= t <= now + windowSeconds * 1000
  }

  /** `hasRequestExpired(authTS)`, with the clock read once as `now` and the
      configured window passed in. The request is expired when its date is
      before `from` or after `to`; a NaN on either side of a comparison
      makes that comparison false. */
  function HasRequestExpired(parse: Parser, authTS: string, now: Instant, windowSeconds: int): (expired: bool)
    // an unparseable timestamp never expires: the check fails open
    ensures RequestDate(parse, authTS).None? ==> !expired
    // with both bounds valid dates, expired exactly when outside the inclusive window
    ensures Representable(now - windowSeconds * 1000) && Representable(now + windowSeconds * 1000) ==>
              (expired <==> RequestDate(parse, authTS).Some?
                            && !WithinWindow(RequestDate(parse, authTS).value, now, windowSeconds))
    // with a non-negative window the same holds on every input, even when a bound leaves the range
    ensures windowSeconds >= 0 ==>
              (expired <==> RequestDate(parse, authTS).Some?
                            && !WithinWindow(RequestDate(parse, authTS).value, now, windowSeconds))
    // a window so large that both bounds are invalid dates never expires anything
    ensures !Representable(now - windowSeconds * 1000) && !Representable(now + windowSeconds * 1000) ==> !expired
  {
    var requestDate := RequestDate(parse, authTS);
    // the server's UTC offset is taken as fixed; by `Dates.AddSecondsIgnoresOffset`
    // any fixed offset gives the same bounds, so they are computed at offset 0
    var to := AddSeconds(now, windowSeconds, 0);
    var from := AddSeconds(now, -windowSeconds, 0);
    assert Representable(now);
    assert windowSeconds >= 0 ==> now - windowSeconds * 1000 <= now <= now + windowSeconds * 1000;
    // an out-of-range bound of a non-negative window lies beyond every valid date on its own side
    assert windowSeconds >= 0 && !Representable(now - windowSeconds * 1000) ==> now - windowSeconds * 1000 < -MaxTimeValue;
    assert windowSeconds >= 0 && !Representable(now + windowSeconds * 1000) ==> now + windowSeconds * 1000 > MaxTimeValue;
    Before(requestDate, from) || Before(to, requestDate)
  }

  /** A request whose timestamp does not parse is fresh at every instant and
      under every window: nothing about the clock can expire it. */
  lemma UnparseableNeverExpires(parse: Parser, authTS: string, now: Instant, windowSeconds: int)
    requires parse(authTS).None?
    ensures !HasRequestExpired(parse, authTS, now, windowSeconds)
  {
  }

  /** A negative window has `from` after `to`: every parseable, valid
      timestamp is expired. */
  lemma NegativeWindowExpiresEveryDate(parse: Parser, authTS: string, now: Instant, windowSeconds: int)
    requires windowSeconds < 0
    requires Representable(now - windowSeconds * 1000) && Representable(now + windowSeconds * 1000)
    requires RequestDate(parse, authTS).Some?
    ensures HasRequestExpired(parse, authTS, now, windowSeconds)
  {
  }

  /** Whether a valid request date is fresh depends only on how far it lies
      from now: shifting the clock and the request date together keeps the
      verdict, while the bounds stay valid dates. */
  lemma FreshnessIsRelative(parse1: Parser, ts1: string, now1: Instant,
                            parse2: Parser, ts2: string, now2: Instant, windowSeconds: int)
    requires RequestDate(parse1, ts1).Some? && RequestDate(parse2, ts2).Some?
    requires RequestDate(parse1, ts1).value - now1 == RequestDate(parse2, ts2).value - now2
    requires Representable(now1 - windowSeconds * 1000) && Representable(now1 + windowSeconds * 1000)
    requires Representable(now2 - windowSeconds * 1000) && Representable(now2 + windowSeconds * 1000)
    ensures HasRequestExpired(parse1, ts1, now1, windowSeconds) == HasRequestExpired(parse2, ts2, now2, windowSeconds)
  {
  }

}
