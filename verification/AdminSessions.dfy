/**
The admin authority: one token, rate-limited logins and in-memory sessions. The
random session and CSRF values are arguments; SHA-256 is a function, and what is
proved about a session value assumes that no other value of the run collides with it.
*/
module AdminSessions {
  import opened Common
  import opened Base64Url
  import opened RateLimits
  import opened RateLimitRuns
  import opened RegistryRoom

  const MAX_SESSIONS := 64
  const DEFAULT_TTL := 8 * 60 * MINUTE
  const TOKEN_PREFIX := "up_a1_"

  /** Five logins at once for each address, then one every twelve seconds. */
  const LOGIN_POLICY := Policy([Limit(12 * SECOND, 5)], None, 600 * SECOND, 600 * SECOND, 4096, false)

  type Digest = seq<Byte>

  datatype Record = Record(csrf: string, expiresAt: Time)

  datatype Config = Config(digest: string -> Digest, verifier: Digest, ttl: int)

  type Sessions = map<Digest, Record>

  datatype LoginError = Unauthorized | RateLimited | NoRandomness

  predicate ValidToken(value: string) {
    |value| == 49 && TOKEN_PREFIX <= value && GoValidate(value[6..], 43, 32)
  }

  predicate VerifyToken(config: Config, candidate: string) {
    ValidToken(candidate) && config.digest(candidate) == config.verifier
  }

  ghost predicate AdminToken(value: string) {
    exists bytes: seq<Byte> :: |bytes| == 32 && value == "up_a1_" + Encode(bytes)
  }

  lemma AdminTokensInPlainTerms(value: string)
    ensures ValidToken(value) <==> AdminToken(value)
  {
    hide GoValidate, Encode;
    if |value| >= 6 {
      GoValidateAccepts(value[6..], 32);
    }
    assert EncodedLen(32) == 43;
    if ValidToken(value) {
      var bytes: seq<Byte> :| |bytes| == 32 && Encode(bytes) == value[6..];
      assert value == "up_a1_" + Encode(bytes);
    }
    if AdminToken(value) {
      var bytes: seq<Byte> :| |bytes| == 32 && value == "up_a1_" + Encode(bytes);
      assert value[6..] == Encode(bytes);
    }
  }

  /** With the verifier of a token, and no collision with it, that token is the only candidate that is taken. */
  lemma OnlyTheTokenLogsIn(config: Config, token: string, candidate: string)
    requires AdminToken(token) && config.verifier == config.digest(token)
    requires config.digest(candidate) == config.digest(token) ==> candidate == token
    ensures VerifyToken(config, candidate) <==> candidate == token
  {
    AdminTokensInPlainTerms(token);
    AdminTokensInPlainTerms(candidate);
    hide ValidToken, AdminToken;
  }

  // ----- what each locked section does to the sessions ----------------------------

  function Swept(s: Sessions, now: Time): Sessions {
    map k | k in s && now < s[k].expiresAt :: s[k]
  }

  function Granted(config: Config, s: Sessions, now: Time, raw: string, csrf: string): (Sessions, bool) {
    var kept := Swept(s, now);
    if |kept| >= MAX_SESSIONS then (kept, false)
    else (kept[config.digest(raw) := Record(csrf, now + config.ttl)], true)
  }

  function LookedUp(config: Config, s: Sessions, now: Time, raw: string): Option<Record> {
    var kept := Swept(s, now);
    if config.digest(raw) in kept then Some(kept[config.digest(raw)]) else None
  }

  predicate CsrfAccepted(config: Config, s: Sessions, now: Time, raw: string, csrf: string) {
    LookedUp(config, s, now, raw).Some? && LookedUp(config, s, now, raw).value.csrf == csrf
  }

  class Manager {
    const config: Config
    var sessions: Sessions
    var loginLimits: map<string, Client>
    var lastSweep: Option<Time>

    ghost function Limits(): Registry
      reads this
    {
      Registry(loginLimits, Full, lastSweep)
    }

    ghost predicate WellFormed()
      reads this
    {
      Sized(LOGIN_POLICY, Limits())
    }

    /** A lifetime that is not positive becomes eight hours. */
    constructor (config: Config)
      ensures WellFormed() && sessions == map[] && Limits() == EMPTY && this.config.ttl > 0
      ensures this.config == if config.ttl > 0 then config else config.(ttl := 28_800_000_000_000)
    {
      this.config := if config.ttl <= 0 then config.(ttl := DEFAULT_TTL) else config;
      sessions, loginLimits, lastSweep := map[], map[], None;
    }

    /**
    Refused logins leave the sessions alone; an admitted one adds its session after a
    sweep. `drawn` is what the random generator gives, or None when it fails.
    */
    method Login(now: Time, candidate: string, clientIP: string, drawn: Option<(string, string)>)
      returns (r: Result<(string, string), LoginError>)
      requires WellFormed()
      modifies this
      ensures WellFormed()
      ensures var (limits, answer) := Serve(LOGIN_POLICY, old(Limits()), Request(now, clientIP, 0));
        && Limits() == limits
        && (answer != Allowed ==> r == Err(RateLimited) && sessions == old(sessions))
        && (answer == Allowed && !VerifyToken(config, candidate) ==>
              r == Err(Unauthorized) && sessions == old(sessions))
        && (answer == Allowed && VerifyToken(config, candidate) && drawn.None? ==>
              r == Err(NoRandomness) && sessions == old(sessions))
        && (answer == Allowed && VerifyToken(config, candidate) && drawn.Some? ==>
              var (raw, csrf) := drawn.value;
              var (s, room) := Granted(config, old(sessions), now, raw, csrf);
              sessions == s && r == if room then Ok((raw, csrf)) else Err(RateLimited))
      ensures r.Ok? || r == Err(NoRandomness) ==> AdminToken(candidate) && config.digest(candidate) == config.verifier
      ensures r == Err(Unauthorized) ==> !(AdminToken(candidate) && config.digest(candidate) == config.verifier)
    {
      AdminTokensInPlainTerms(candidate);
      hide ValidToken, AdminToken;
      var allowed := AllowLogin(clientIP, now);
      if !allowed {
        return Err(RateLimited);
      }
      if !VerifyToken(config, candidate) {
        return Err(Unauthorized);
      }
      if drawn.None? {
        return Err(NoRandomness);
      }
      var (raw, csrf) := drawn.value;
      var record := Record(csrf, now + config.ttl);
      var key := config.digest(raw);
      SweepLocked(now);
      if |sessions| >= MAX_SESSIONS {
        return Err(RateLimited);
      }
      sessions := sessions[key := record];
      r := Ok((raw, csrf));
    }

    /** The expiry test that follows the sweep in the source can no longer fail, and is left out. */
    method Lookup(now: Time, raw: string) returns (r: Option<Record>)
      modifies this`sessions
      ensures sessions == Swept(old(sessions), now)
      ensures r == LookedUp(config, old(sessions), now, raw)
    {
      SweepLocked(now);
      var key := config.digest(raw);
      r := if key in sessions then Some(sessions[key]) else None;
    }

    method CsrfMatches(now: Time, raw: string, csrf: string) returns (ok: bool)
      modifies this`sessions
      ensures sessions == Swept(old(sessions), now)
      ensures ok <==> CsrfAccepted(config, old(sessions), now, raw, csrf)
    {
      SweepLocked(now);
      var key := config.digest(raw);
      ok := key in sessions && |csrf| == |sessions[key].csrf| && csrf == sessions[key].csrf;
    }

    method Logout(raw: string)
      modifies this`sessions
      ensures sessions == old(sessions) - {config.digest(raw)}
    {
      sessions := sessions - {config.digest(raw)};
    }

    method ActiveSessions(now: Time) returns (n: nat)
      modifies this`sessions
      ensures sessions == Swept(old(sessions), now) && n == |sessions|
    {
      SweepLocked(now);
      n := |sessions|;
    }

    method SweepLocked(now: Time)
      modifies this`sessions
      ensures sessions == Swept(old(sessions), now)
    {
      var todo := sessions.Keys;
      while todo != {}
        invariant todo <= sessions.Keys <= old(sessions).Keys
        invariant forall k :: k in sessions ==> sessions[k] == old(sessions)[k]
        invariant forall k :: k in old(sessions) ==>
          (k in sessions <==> k in todo || now < old(sessions)[k].expiresAt)
      {
        var key :| key in todo;
        todo := todo - {key};
        if !(now < sessions[key].expiresAt) {
          sessions := sessions - {key};
        }
      }
    }

    /** One request against the login registry, which is swept only every ten minutes, full or not. */
    method AllowLogin(clientIP: string, now: Time) returns (ok: bool)
      requires WellFormed()
      modifies this`loginLimits, this`lastSweep
      ensures WellFormed()
      ensures var (limits, answer) := Serve(LOGIN_POLICY, old(Limits()), Request(now, clientIP, 0));
        Limits() == limits && (ok <==> answer == Allowed)
    {
      ServeKeepsSizes(LOGIN_POLICY, Limits(), Request(now, clientIP, 0));
      if lastSweep.None? || now - lastSweep.value >= LOGIN_POLICY.idle {
        SweepLimits(now);
      }
      if clientIP !in loginLimits {
        if |loginLimits| >= LOGIN_POLICY.max {
          return false;
        }
        loginLimits := loginLimits[clientIP := NewClient(LOGIN_POLICY, now)];
        assert loginLimits[clientIP := loginLimits[clientIP].(last := now)] == loginLimits;
      }
      loginLimits := loginLimits[clientIP := loginLimits[clientIP].(last := now)];
      var c := loginLimits[clientIP];
      var (b, own) := Take(LOGIN_POLICY.limits[0], c.buckets[0], now);
      loginLimits := loginLimits[clientIP := c.(buckets := c.buckets[0 := b])];
      ok := own;
    }

    method SweepLimits(now: Time)
      modifies this`loginLimits, this`lastSweep
      ensures Limits() == Sweep(LOGIN_POLICY, old(Limits()), now)
    {
      var todo := loginLimits.Keys;
      while todo != {}
        invariant todo <= loginLimits.Keys <= old(loginLimits).Keys
        invariant forall k :: k in loginLimits ==> loginLimits[k] == old(loginLimits)[k]
        invariant forall k :: k in old(loginLimits) ==>
          (k in loginLimits <==> k in todo || !IsIdle(LOGIN_POLICY, old(loginLimits)[k], now))
      {
        var key :| key in todo;
        todo := todo - {key};
        if IsIdle(LOGIN_POLICY, loginLimits[key], now) {
          loginLimits := loginLimits - {key};
        }
      }
      lastSweep := Some(now);
    }
  }

  /** A session is granted exactly while fewer than 64 others have not expired, and lasts for the lifetime. */
  lemma GrantedIff(config: Config, s: Sessions, now: Time, raw: string, csrf: string)
    ensures var live := set k | k in s && now < s[k].expiresAt;
      var (s', room) := Granted(config, s, now, raw, csrf);
      && (room <==> |live| < 64)
      && s'.Keys == (if room then live + {config.digest(raw)} else live)
      && (room ==> s'[config.digest(raw)] == Record(csrf, now + config.ttl))
      && (forall k :: k in s' && !(room && k == config.digest(raw)) ==> k in s && s'[k] == s[k])
  {
    var live := set k | k in s && now < s[k].expiresAt;
    assert Swept(s, now).Keys == live;
    assert |Swept(s, now)| == |Swept(s, now).Keys|;
  }

  // ----- whole runs ---------------------------------------------------------------

  /**
  One locked section. A login takes its reading before it waits for the lock, so a
  grant may act on a reading older than the sections before it.
  */
  datatype Event =
    | GrantEvent(now: Time, raw: string, csrf: string)
    | LookupEvent(now: Time, raw: string)
    | CsrfEvent(now: Time, raw: string)
    | LogoutEvent(raw: string)
    | CountEvent(now: Time)

  function After(config: Config, s: Sessions, e: Event): Sessions {
    match e
    case GrantEvent(now, raw, csrf) => Granted(config, s, now, raw, csrf).0
    case LookupEvent(now, _) => Swept(s, now)
    case CsrfEvent(now, _) => Swept(s, now)
    case LogoutEvent(raw) => s - {config.digest(raw)}
    case CountEvent(now) => Swept(s, now)
  }

  /** The sessions after the events, the last of which is the last element. */
  function Run(config: Config, es: seq<Event>): Sessions {
    if es == [] then map[] else After(config, Run(config, es[..|es| - 1]), es[|es| - 1])
  }

  predicate NotAfter(e: Event, t: Time) {
    e.LogoutEvent? || e.now <= t
  }

  /**
  What the history says of a session value: the record of the last login that
  returned it, unless a logout of it came later.
  */
  function Standing(config: Config, es: seq<Event>, raw: string): Option<Record> {
    if es == [] then None
    else
      var before, e := es[..|es| - 1], es[|es| - 1];
      if e.GrantEvent? && e.raw == raw && Granted(config, Run(config, before), e.now, raw, e.csrf).1
      then Some(Record(e.csrf, e.now + config.ttl))
      else if e.LogoutEvent? && e.raw == raw then None
      else Standing(config, before, raw)
  }

  ghost predicate NoCollision(config: Config, es: seq<Event>, raw: string) {
    forall e :: e in es && (e.GrantEvent? || e.LogoutEvent?) && config.digest(e.raw) == config.digest(raw) ==>
      e.raw == raw
  }

  /** Some section since the standing login swept with a reading at or past the end of that session. */
  predicate Outlived(config: Config, es: seq<Event>, raw: string) {
    if es == [] then false
    else
      var before, e := es[..|es| - 1], es[|es| - 1];
      if e.GrantEvent? && e.raw == raw && Granted(config, Run(config, before), e.now, raw, e.csrf).1 then false
      else if e.LogoutEvent? then e.raw != raw && Outlived(config, before, raw)
      else
        var standing := Standing(config, before, raw);
        Outlived(config, before, raw) || (standing.Some? && standing.value.expiresAt <= e.now)
  }

  /** The sessions hold exactly what stands and has not been outlived. */
  lemma {:induction false} RunFollowsHistory(config: Config, es: seq<Event>, raw: string)
    requires NoCollision(config, es, raw)
    ensures config.digest(raw) in Run(config, es) <==>
      Standing(config, es, raw).Some? && !Outlived(config, es, raw)
    ensures config.digest(raw) in Run(config, es) ==>
      Standing(config, es, raw) == Some(Run(config, es)[config.digest(raw)])
    decreases |es|
  {
    if es != [] {
      var before, e := es[..|es| - 1], es[|es| - 1];
      assert e in es && forall x :: x in before ==> x in es;
      RunFollowsHistory(config, before, raw);
    }
  }

  /**
  In every run, whatever the order of the readings: a lookup finds a session exactly
  when some login returned the value, no logout of it followed, the reading is before
  that login's reading plus the session lifetime, and so was the reading of every
  section in between; what it finds is that login's record.
  */
  lemma LookupFollowsHistory(config: Config, es: seq<Event>, raw: string, t: Time)
    requires NoCollision(config, es, raw)
    ensures LookedUp(config, Run(config, es), t, raw)
         == match Standing(config, es, raw)
            case None => None
            case Some(record) => if t < record.expiresAt && !Outlived(config, es, raw) then Some(record) else None
  {
    RunFollowsHistory(config, es, raw);
  }

  /** A CSRF value is accepted exactly when it is the one of the session that the lookup finds. */
  lemma CsrfBelongsToItsSession(config: Config, es: seq<Event>, raw: string, csrf: string, t: Time)
    requires NoCollision(config, es, raw)
    ensures CsrfAccepted(config, Run(config, es), t, raw, csrf) <==>
      exists record ::
        Standing(config, es, raw) == Some(record) && t < record.expiresAt && !Outlived(config, es, raw)
        && record.csrf == csrf
  {
    LookupFollowsHistory(config, es, raw, t);
  }

  /** When a session is outlived, some reading was at or past its end. */
  lemma {:induction false} OutlivedByAReading(config: Config, es: seq<Event>, raw: string, t: Time)
    requires Outlived(config, es, raw) && forall e :: e in es ==> NotAfter(e, t)
    ensures Standing(config, es, raw).Some? && Standing(config, es, raw).value.expiresAt <= t
    decreases |es|
  {
    var before, e := es[..|es| - 1], es[|es| - 1];
    assert e in es && forall x :: x in before ==> x in es;
    if Outlived(config, before, raw) {
      OutlivedByAReading(config, before, raw, t);
    }
  }

  /** With a reading no earlier than those before it, no section can have swept a session that it should find. */
  lemma LookupInOrder(config: Config, es: seq<Event>, raw: string, t: Time)
    requires NoCollision(config, es, raw) && forall e :: e in es ==> NotAfter(e, t)
    ensures LookedUp(config, Run(config, es), t, raw)
         == match Standing(config, es, raw)
            case None => None
            case Some(record) => if t < record.expiresAt then Some(record) else None
  {
    LookupFollowsHistory(config, es, raw, t);
    if Outlived(config, es, raw) {
      OutlivedByAReading(config, es, raw, t);
    }
  }

  lemma SweepShrinks(s: Sessions, now: Time)
    ensures |Swept(s, now)| <= |s|
  {
    var kept := Swept(s, now);
    assert kept.Keys <= s.Keys;
    SubsetSize(kept.Keys, s.Keys);
    assert |kept| == |kept.Keys| && |s| == |s.Keys|;
  }

  lemma SubsetSize<T>(a: set<T>, b: set<T>)
    requires a <= b
    ensures |a| <= |b|
  {
    assert b == a + (b - a);
  }

  lemma {:induction false} SessionsAreBounded(config: Config, es: seq<Event>)
    ensures |Run(config, es)| <= 64
    decreases |es|
  {
    if es != [] {
      var before, e := es[..|es| - 1], es[|es| - 1];
      SessionsAreBounded(config, before);
      var s := Run(config, before);
      match e
      case GrantEvent(now, raw, csrf) =>
        SweepShrinks(s, now);
        assert |Granted(config, s, now, raw, csrf).0.Keys| <= |Swept(s, now).Keys| + 1;
      case LookupEvent(now, _) => SweepShrinks(s, now);
      case CsrfEvent(now, _) => SweepShrinks(s, now);
      case LogoutEvent(raw) =>
        SubsetSize((s - {config.digest(raw)}).Keys, s.Keys);
      case CountEvent(now) => SweepShrinks(s, now);
    }
  }

  /** One nanosecond is enough: a lookup just before the end of a session misses it after a sweep at its end. */
  lemma EarlierReadingMissesASession(config: Config, raw: string, csrf: string)
    requires 0 < config.ttl
    ensures var es := [GrantEvent(0, raw, csrf), CountEvent(config.ttl)];
      && Standing(config, es, raw) == Some(Record(csrf, config.ttl)) && Outlived(config, es, raw)
      && LookedUp(config, Run(config, es), config.ttl - 1, raw) == None
      && LookedUp(config, Run(config, es[..1]), config.ttl - 1, raw) == Some(Record(csrf, config.ttl))
  {
    var es := [GrantEvent(0, raw, csrf), CountEvent(config.ttl)];
    assert es[..1] == [GrantEvent(0, raw, csrf)] && es[..1][..0] == [];
    assert Swept(map[], 0) == map[];
    assert Run(config, es[..1]) == map[config.digest(raw) := Record(csrf, config.ttl)];
    assert Run(config, es) == Swept(Run(config, es[..1]), config.ttl);
  }

  lemma LoginLimitsRefill()
    ensures RefillsWhenIdle(LOGIN_POLICY)
  {
  }

  /**
  Over any stretch of attempts, whatever the order of their readings, at most 5 of an
  address reach the token check, and one more for every 12 s the readings move forwards.
  */
  lemma LoginStretch(r: Registry, qs: seq<Request>, clientIP: string)
    requires KindsKnown(LOGIN_POLICY, qs) && Sized(LOGIN_POLICY, r) && qs != []
    ensures Drawn(LOGIN_POLICY, r, qs, Own(clientIP, 0)) <= 5 + Forward(qs[0].now, qs) / (12 * SECOND)
  {
    LoginLimitsRefill();
    StretchBound(LOGIN_POLICY, r, qs, Own(clientIP, 0));
  }

  /** For readings in order that is at most 5 + w / 12 s in any window of w nanoseconds. */
  lemma LoginWindow(r: Registry, t: Time, qs: seq<Request>, clientIP: string, from: Time, w: nat)
    requires KindsKnown(LOGIN_POLICY, qs) && Sized(LOGIN_POLICY, r) && Ordered(t, qs)
    ensures Admitted(LOGIN_POLICY, r, qs, Own(clientIP, 0), from, from + w) <= 5 + w / (12 * SECOND)
  {
    LoginLimitsRefill();
    WindowBound(LOGIN_POLICY, r, t, qs, Own(clientIP, 0), from, w);
  }

  /** Readings that go back and forth let 9 attempts through in 12 s, where the window allows 6. */
  lemma LoginWindowNeedsOrder(clientIP: string)
    ensures var qs := [Request(12 * SECOND, clientIP, 0)] + BackAndForth(12 * SECOND, clientIP, 4);
      && KindsKnown(LOGIN_POLICY, qs) && Sized(LOGIN_POLICY, EMPTY)
      && Admitted(LOGIN_POLICY, EMPTY, qs, Own(clientIP, 0), 0, 12 * SECOND) == 9
      && 9 > 5 + 12 * SECOND / (12 * SECOND)
  {
    BackwardReadingsBreakTheWindow(LOGIN_POLICY, LOGIN_POLICY.limits[0], clientIP);
  }

  /** Dropping idle addresses is invisible to logins, as long as there is room for a new address. */
  lemma LoginForgetsNothingThatMatters(t: Time, qs: seq<Request>)
    requires KindsKnown(LOGIN_POLICY, qs) && Ordered(t, qs)
    requires NoRoom !in Answers(LOGIN_POLICY, EMPTY, qs)
    ensures |ReferenceAnswers(LOGIN_POLICY, UNTOUCHED, qs)| == |qs|
    ensures forall i :: 0 <= i < |qs| ==>
      (Answers(LOGIN_POLICY, EMPTY, qs)[i] == Allowed <==> ReferenceAnswers(LOGIN_POLICY, UNTOUCHED, qs)[i])
  {
    LoginLimitsRefill();
    FreshRegistriesAgree(LOGIN_POLICY, t);
    EvictionIsTransparent(LOGIN_POLICY, EMPTY, UNTOUCHED, t, qs);
  }

  /**
  Exactly when there is no room for an address: a sweep is due every ten minutes and
  drops those silent for ten minutes; the address is not known after it; and 4096 are.
  */
  lemma LoginNoRoomIff(r: Registry, q: Request)
    requires q.kind == 0 && Sized(LOGIN_POLICY, r)
    ensures var recent := set k | k in r.clients && q.now - r.clients[k].last < 600_000_000_000;
      var due := r.lastSweep.None? || q.now - r.lastSweep.value >= 600_000_000_000;
      var known := if due then recent else r.clients.Keys;
      Serve(LOGIN_POLICY, r, q).1 == NoRoom <==> q.key !in known && |known| >= 4096
  {
    NoRoomIff(LOGIN_POLICY, r, q);
    assert SeenWithin(LOGIN_POLICY, r, q.now)
        == set k | k in r.clients && q.now - r.clients[k].last < 600_000_000_000;
    hide Serve;
  }

  /** With readings in order, fewer than 4096 other addresses in any twenty minutes leave room for every attempt. */
  lemma LoginHasRoom(t: Time, qs: seq<Request>)
    requires KindsKnown(LOGIN_POLICY, qs) && Ordered(t, qs) && Uncrowded(qs, 4096, 1_200_000_000_000)
    ensures NoRoom !in Answers(LOGIN_POLICY, EMPTY, qs)
  {
    UncrowdedRunsHaveRoom(LOGIN_POLICY, qs);
  }
}
