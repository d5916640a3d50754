/**
 * The standard claims of a token and their temporal acceptance check
 * (`validateClaims` in claims.go).
 *
 * Time is an integer count of nanoseconds since the Unix epoch, which is
 * what the check reads from a Go `time.Time`; the caller supplies it.
 */
module JwtClaims {

  /** Go's `int64`, the type of the three timestamp claims. */
  newtype int64 = x: int | -0x8000_0000_0000_0000 <= x < 0x8000_0000_0000_0000

  const NanosPerSecond: int := 1_000_000_000
  const HalfSecond: int := 500_000_000

  /**
   * The standard claims. A timestamp of zero or less means "not asserted";
   * the string claims are carried but never inspected by the check.
   */
  datatype Claims = Claims(
    notBefore: int64,
    issuedAt: int64,
    expiry: int64,
    id: string,
    issuer: string,
    subject: string,
    audience: seq<string>)

  /** `nil` or one of the three sentinel errors of claims.go. */
  datatype ValidationResult = Ok | NotValidYet | IssuedInTheFuture | Expired

  /**
   * `t.Round(time.Second).Unix()`: the whole second nearest to `t`, a
   * remainder of exactly half a second rounding up (towards the future).
   */
  function UnixSeconds(t: int): (now: int)
    ensures now * NanosPerSecond - HalfSecond <= t < now * NanosPerSecond + HalfSecond
  {
    (t + HalfSecond) / NanosPerSecond
  }

  /** The three checks, in the order and with the guards the source applies them. */
  function ValidateClaims(t: int, c: Claims): (r: ValidationResult)
    ensures r == Ok <==> Admits(c, UnixSeconds(t))
  {
    var now := UnixSeconds(t);
    if c.notBefore > 0 && now < c.notBefore as int then NotValidYet
    else if c.issuedAt > 0 && now < c.issuedAt as int then IssuedInTheFuture
    else if c.expiry > 0 && now > c.expiry as int then Expired
    else Ok
  }

  /**
   * Order-free description of the accepted instants: every asserted lower
   * bound (nbf, iat) is at or before `now`, and an asserted expiry is at or
   * after it.
   */
  predicate Admits(c: Claims, now: int) {
    && (c.notBefore > 0 ==> c.notBefore as int <= now)
    && (c.issuedAt > 0 ==> c.issuedAt as int <= now)
    && (c.expiry > 0 ==> now <= c.expiry as int)
  }

  // ---------------------------------------------------------------------
  // A reference definition: an ordered list of rules, the first violated
  // rule deciding the result.

  /** A lower bound (`now` must not be before it) or an upper bound (`now` must not be after it). */
  datatype Rule = Lower(bound: int, err: ValidationResult) | Upper(bound: int, err: ValidationResult)

  /** A rule is violated only when its bound is asserted (positive). */
  predicate Violated(rule: Rule, now: int) {
    rule.bound > 0 &&
    match rule
    case Lower(b, _) => now < b
    case Upper(b, _) => now > b
  }

  /** The error of the first violated rule, or `Ok` when none is violated. */
  function FirstViolation(rules: seq<Rule>, now: int): ValidationResult {
    if rules == [] then Ok
    else if Violated(rules[0], now) then rules[0].err
    else FirstViolation(rules[1..], now)
  }

  /** The rules of claims.go, in source order. */
  function StandardRules(c: Claims): seq<Rule> {
    [Lower(c.notBefore as int, NotValidYet),
     Lower(c.issuedAt as int, IssuedInTheFuture),
     Upper(c.expiry as int, Expired)]
  }

  /** The first violation is the earliest violated rule, and `Ok` means no rule is violated. */
  lemma {:induction false} FirstViolationIsEarliest(rules: seq<Rule>, now: int)
    requires forall i :: 0 <= i < |rules| ==> rules[i].err != Ok
    ensures FirstViolation(rules, now) == Ok <==> forall i :: 0 <= i < |rules| ==> !Violated(rules[i], now)
    ensures FirstViolation(rules, now) != Ok ==>
      exists i :: 0 <= i < |rules| && Violated(rules[i], now) && FirstViolation(rules, now) == rules[i].err &&
        forall j :: 0 <= j < i ==> !Violated(rules[j], now)
  {
    if rules != [] {
      FirstViolationIsEarliest(rules[1..], now);
      if !Violated(rules[0], now) {
        assert forall i :: 1 <= i < |rules| ==> rules[i] == rules[1..][i - 1];
        if FirstViolation(rules, now) != Ok {
          var k :| 0 <= k < |rules[1..]| && Violated(rules[1..][k], now) &&
            FirstViolation(rules[1..], now) == rules[1..][k].err &&
            forall j :: 0 <= j < k ==> !Violated(rules[1..][j], now);
          assert Violated(rules[k + 1], now);
        }
      }
    }
  }

  /** validateClaims is exactly the first-violation rule over nbf, iat, exp in that order. */
  lemma ValidateClaimsIsFirstViolation(t: int, c: Claims)
    ensures ValidateClaims(t, c) == FirstViolation(StandardRules(c), UnixSeconds(t))
  {
    var rules := StandardRules(c);
    assert rules[1..] == [rules[1], rules[2]];
    assert rules[2..] == [rules[2]];
    assert rules[1..][1..] == rules[2..];
    assert rules[2..][1..] == [];
    var now := UnixSeconds(t);
    assert FirstViolation(rules[2..], now) == if Violated(rules[2], now) then Expired else Ok;
    assert FirstViolation(rules[1..], now) ==
      if Violated(rules[1], now) then IssuedInTheFuture else FirstViolation(rules[2..], now);
  }

  // ---------------------------------------------------------------------
  // Properties of the check.

  /** With no timestamp asserted, every instant is accepted. */
  lemma NoTimestampsAlwaysOk(t: int, c: Claims)
    requires c.notBefore <= 0 && c.issuedAt <= 0 && c.expiry <= 0
    ensures ValidateClaims(t, c) == Ok
  {
  }

  /** A violated nbf check decides the result, whatever iat and exp hold. */
  lemma NotBeforeComesFirst(t: int, c: Claims)
    ensures ValidateClaims(t, c) == NotValidYet <==> c.notBefore > 0 && UnixSeconds(t) < c.notBefore as int
  {
  }

  /** IssuedInTheFuture is reported exactly when nbf passed and iat failed. */
  lemma IssuedInTheFutureOnlyAfterNotBefore(t: int, c: Claims)
    ensures ValidateClaims(t, c) == IssuedInTheFuture <==>
      && !(c.notBefore > 0 && UnixSeconds(t) < c.notBefore as int)
      && c.issuedAt > 0 && UnixSeconds(t) < c.issuedAt as int
  {
  }

  /** Expired is reported exactly when nbf and iat passed and exp failed. */
  lemma ExpiredOnlyAfterEarlierChecks(t: int, c: Claims)
    ensures ValidateClaims(t, c) == Expired <==>
      && !(c.notBefore > 0 && UnixSeconds(t) < c.notBefore as int)
      && !(c.issuedAt > 0 && UnixSeconds(t) < c.issuedAt as int)
      && c.expiry > 0 && UnixSeconds(t) > c.expiry as int
  {
  }

  /** The string claims never affect the result. */
  lemma StringClaimsIgnored(t: int, c: Claims, id: string, issuer: string, subject: string, audience: seq<string>)
    ensures ValidateClaims(t, c) == ValidateClaims(t, c.(id := id, issuer := issuer, subject := subject, audience := audience))
  {
  }

  /** `now` is the nearest whole second: s seconds and f nanoseconds is judged as s+1 exactly when f is at least half a second. */
  lemma UnixSecondsOfParts(s: int, f: int)
    requires 0 <= f < NanosPerSecond
    ensures UnixSeconds(s * NanosPerSecond + f) == if f >= HalfSecond then s + 1 else s
  {
  }

  /** Rounding never reorders instants. */
  lemma UnixSecondsMonotonic(t1: int, t2: int)
    requires t1 <= t2
    ensures UnixSeconds(t1) <= UnixSeconds(t2)
  {
  }

  /** Boundaries at whole seconds: nbf and iat are inclusive lower bounds, and the instant of expiry still passes. */
  lemma InclusiveBoundaries(c: Claims)
    ensures c.notBefore > 0 ==> ValidateClaims(c.notBefore as int * NanosPerSecond, c) != NotValidYet
    ensures c.notBefore > 0 ==> ValidateClaims((c.notBefore as int - 1) * NanosPerSecond, c) == NotValidYet
    ensures c.issuedAt > 0 ==> ValidateClaims(c.issuedAt as int * NanosPerSecond, c) != IssuedInTheFuture
    ensures c.issuedAt > 0 && c.notBefore as int <= c.issuedAt as int - 1 ==>
      ValidateClaims((c.issuedAt as int - 1) * NanosPerSecond, c) == IssuedInTheFuture
    ensures c.expiry > 0 ==> ValidateClaims(c.expiry as int * NanosPerSecond, c) != Expired
  {
    if c.notBefore > 0 {
      UnixSecondsOfParts(c.notBefore as int, 0);
      UnixSecondsOfParts(c.notBefore as int - 1, 0);
    }
    if c.issuedAt > 0 {
      UnixSecondsOfParts(c.issuedAt as int, 0);
      UnixSecondsOfParts(c.issuedAt as int - 1, 0);
    }
    if c.expiry > 0 {
      UnixSecondsOfParts(c.expiry as int, 0);
    }
  }

  /** One whole second after expiry the token is Expired, once nbf and iat pass at that second. */
  lemma ExpiredOneSecondAfter(c: Claims)
    requires c.expiry > 0
    requires c.notBefore as int <= c.expiry as int + 1 && c.issuedAt as int <= c.expiry as int + 1
    ensures ValidateClaims((c.expiry as int + 1) * NanosPerSecond, c) == Expired
  {
    UnixSecondsOfParts(c.expiry as int + 1, 0);
  }

  /**
   * Because `now` is rounded, a token is already Expired half a second after
   * its expiry second, and still accepted 499,999,999 ns after it.
   */
  lemma ExpiryHalfSecondRounding(c: Claims)
    requires c.expiry > 0
    requires c.notBefore as int <= c.expiry as int && c.issuedAt as int <= c.expiry as int
    ensures ValidateClaims(c.expiry as int * NanosPerSecond + HalfSecond, c) == Expired
    ensures ValidateClaims(c.expiry as int * NanosPerSecond + HalfSecond - 1, c) == Ok
  {
    UnixSecondsOfParts(c.expiry as int, HalfSecond);
    UnixSecondsOfParts(c.expiry as int, HalfSecond - 1);
  }

  /** Half a second before its nbf second a token already passes the nbf check. */
  lemma NotBeforeHalfSecondRounding(c: Claims)
    requires c.notBefore > 0
    ensures ValidateClaims(c.notBefore as int * NanosPerSecond - HalfSecond, c) != NotValidYet
    ensures ValidateClaims(c.notBefore as int * NanosPerSecond - HalfSecond - 1, c) == NotValidYet
  {
    UnixSecondsOfParts(c.notBefore as int - 1, HalfSecond);
    UnixSecondsOfParts(c.notBefore as int - 1, HalfSecond - 1);
  }

  /** The accepted instants form an interval: between two accepted instants every instant is accepted. */
  lemma AcceptedInstantsAreConvex(t1: int, t: int, t2: int, c: Claims)
    requires t1 <= t <= t2
    requires ValidateClaims(t1, c) == Ok && ValidateClaims(t2, c) == Ok
    ensures ValidateClaims(t, c) == Ok
  {
    UnixSecondsMonotonic(t1, t);
    UnixSecondsMonotonic(t, t2);
  }

  /** Once Expired, a token stays Expired at every later instant. */
  lemma ExpiredPersists(t1: int, t2: int, c: Claims)
    requires t1 <= t2
    requires ValidateClaims(t1, c) == Expired
    ensures ValidateClaims(t2, c) == Expired
  {
    UnixSecondsMonotonic(t1, t2);
  }

  /** A token NotValidYet at some instant is NotValidYet at every earlier instant. */
  lemma NotValidYetPersistsBackwards(t1: int, t2: int, c: Claims)
    requires t1 <= t2
    requires ValidateClaims(t2, c) == NotValidYet
    ensures ValidateClaims(t1, c) == NotValidYet
  {
    UnixSecondsMonotonic(t1, t2);
  }
}
