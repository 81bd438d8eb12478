/**
Bounded registries of token buckets, shared by the request limiter and the admin
login limiter. One token is `interval` nanoseconds of credit, and a bucket holds at
most `burst` tokens; credit is an exact integer here, where the library uses floats.
*/
module RateLimits {
  import opened Common

  type Time = int

  datatype Limit = Limit(interval: nat, burst: nat)

  function Capacity(l: Limit): nat {
    l.interval * l.burst
  }

  /** Full from its creation, or with a credit as of the last request it admitted. */
  datatype Bucket = Full | Used(last: Time, credit: nat)

  /** The credit at a reading; a reading before the last admission earns nothing. */
  function Level(l: Limit, b: Bucket, now: Time): int {
    match b
    case Full => Capacity(l)
    case Used(last, credit) => Min(Capacity(l), credit + if now < last then 0 else now - last)
  }

  /** AllowN(now, 1): an admission moves the last reading, forwards or backwards; a refusal changes nothing. */
  function Take(l: Limit, b: Bucket, now: Time): (Bucket, bool) {
    var level := Level(l, b, now);
    if level >= l.interval then (Used(now, level - l.interval), true) else (b, false)
  }

  /**
  `idle` is how long a client must be silent to be dropped, `sweepEvery` the time
  between sweeps, and `sweepWhenFull` whether a full registry is swept once more.
  */
  datatype Policy = Policy(
    limits: seq<Limit>, global: Option<Limit>,
    idle: nat, sweepEvery: nat, max: nat, sweepWhenFull: bool)

  /** Every bucket refills completely in the time it takes to be dropped. */
  ghost predicate RefillsWhenIdle(policy: Policy) {
    && (forall i :: 0 <= i < |policy.limits| ==>
          0 < policy.limits[i].interval && Capacity(policy.limits[i]) <= policy.idle)
    && (policy.global.Some? ==> 0 < policy.global.value.interval)
  }

  datatype Client = Client(last: Time, buckets: seq<Bucket>)

  datatype Registry = Registry(clients: map<string, Client>, global: Bucket, lastSweep: Option<Time>)

  const EMPTY := Registry(map[], Full, None)

  datatype Request = Request(now: Time, key: string, kind: nat)

  /** NoRoom: the client is unknown and the registry is full, so no bucket is asked. */
  datatype Answer = NoRoom | Allowed | Limited

  predicate IsIdle(policy: Policy, c: Client, now: Time) {
    now - c.last >= policy.idle
  }

  function Sweep(policy: Policy, r: Registry, now: Time): Registry {
    r.(clients := map k | k in r.clients && !IsIdle(policy, r.clients[k], now) :: r.clients[k], lastSweep := Some(now))
  }

  predicate SweepDue(policy: Policy, r: Registry, now: Time) {
    r.lastSweep.None? || now - r.lastSweep.value >= policy.sweepEvery
  }

  function NewClient(policy: Policy, now: Time): Client {
    Client(now, seq(|policy.limits|, _ => Full))
  }

  /** The client's entry, made or refreshed, or None when there is no room for it. */
  function Enter(policy: Policy, r: Registry, now: Time, key: string): (Registry, bool) {
    var r1 := if SweepDue(policy, r, now) then Sweep(policy, r, now) else r;
    if key in r1.clients then (r1.(clients := r1.clients[key := r1.clients[key].(last := now)]), true)
    else
      var r2 := if |r1.clients| >= policy.max && policy.sweepWhenFull then Sweep(policy, r1, now) else r1;
      if |r2.clients| >= policy.max then (r2, false)
      else (r2.(clients := r2.clients[key := NewClient(policy, now)]), true)
  }

  /** The global bucket is asked first; only if it admits is the client's own bucket asked. */
  function Draw(policy: Policy, r: Registry, q: Request): (Registry, Answer)
    requires q.kind < |policy.limits|
    requires q.key in r.clients && |r.clients[q.key].buckets| == |policy.limits|
  {
    var (global, passed) := match policy.global case None => (r.global, true) case Some(l) => Take(l, r.global, q.now);
    if !passed then (r, Limited)
    else
      var c := r.clients[q.key];
      var (b, ok) := Take(policy.limits[q.kind], c.buckets[q.kind], q.now);
      (r.(clients := r.clients[q.key := c.(buckets := c.buckets[q.kind := b])], global := global),
       if ok then Allowed else Limited)
  }

  ghost predicate Sized(policy: Policy, r: Registry) {
    forall k :: k in r.clients ==> |r.clients[k].buckets| == |policy.limits|
  }

  function Serve(policy: Policy, r: Registry, q: Request): (Registry, Answer)
    requires q.kind < |policy.limits| && Sized(policy, r)
  {
    var (r1, entered) := Enter(policy, r, q.now, q.key);
    if entered then Draw(policy, r1, q) else (r1, NoRoom)
  }

  // ----- levels -----------------------------------------------------------------

  ghost predicate ValidBucket(l: Limit, b: Bucket, now: Time) {
    b.Used? ==> b.last <= now && b.credit <= Capacity(l)
  }

  /** No client was last seen, and no bucket last drawn on, after `now` or after its client. */
  ghost predicate Valid(policy: Policy, r: Registry, now: Time) {
    && Sized(policy, r)
    && (forall k :: k in r.clients ==> r.clients[k].last <= now)
    && (forall k, i :: k in r.clients && 0 <= i < |policy.limits| ==>
          ValidBucket(policy.limits[i], r.clients[k].buckets[i], r.clients[k].last))
    && (policy.global.Some? ==> ValidBucket(policy.global.value, r.global, now))
  }

  function BucketOf(r: Registry, key: string, kind: nat): Bucket {
    if key in r.clients && kind < |r.clients[key].buckets| then r.clients[key].buckets[kind] else Full
  }

  function LevelOf(policy: Policy, r: Registry, key: string, kind: nat, now: Time): int
    requires kind < |policy.limits|
  {
    Level(policy.limits[kind], BucketOf(r, key, kind), now)
  }

  lemma LevelAdvances(l: Limit, b: Bucket, t: Time, now: Time)
    requires ValidBucket(l, b, t) && t <= now
    ensures 0 <= Level(l, b, now) == Min(Capacity(l), Level(l, b, t) + (now - t))
  {
  }

  /** A client idle long enough to be dropped has only full buckets. */
  lemma IdleIsFull(policy: Policy, c: Client, i: nat, now: Time)
    requires RefillsWhenIdle(policy) && i < |policy.limits| == |c.buckets|
    requires ValidBucket(policy.limits[i], c.buckets[i], c.last) && IsIdle(policy, c, now)
    ensures Level(policy.limits[i], c.buckets[i], now) == Capacity(policy.limits[i])
  {
  }

  lemma SweepKeepsLevels(policy: Policy, r: Registry, t: Time, now: Time)
    requires RefillsWhenIdle(policy) && Valid(policy, r, t) && t <= now
    ensures Valid(policy, Sweep(policy, r, now), now)
    ensures forall key, kind: nat :: kind < |policy.limits| ==>
      LevelOf(policy, Sweep(policy, r, now), key, kind, now) == LevelOf(policy, r, key, kind, now)
  {
    forall key, kind: nat | kind < |policy.limits|
      ensures LevelOf(policy, Sweep(policy, r, now), key, kind, now) == LevelOf(policy, r, key, kind, now)
    {
      if key in r.clients && IsIdle(policy, r.clients[key], now) {
        IdleIsFull(policy, r.clients[key], kind, now);
      }
    }
  }

  ghost predicate SameLevels(policy: Policy, r: Registry, r': Registry, now: Time) {
    r'.global == r.global
    && forall key, kind: nat :: kind < |policy.limits| ==>
         LevelOf(policy, r', key, kind, now) == LevelOf(policy, r, key, kind, now)
  }

  lemma RefreshKeepsLevels(policy: Policy, r: Registry, now: Time, key: string)
    requires Valid(policy, r, now)
    ensures var c := if key in r.clients then r.clients[key].(last := now) else NewClient(policy, now);
      var r' := r.(clients := r.clients[key := c]);
      Valid(policy, r', now) && SameLevels(policy, r, r', now)
  {
  }

  /** Entering a client, with all the dropping of others that goes with it, moves no level. */
  lemma EnterKeepsLevels(policy: Policy, r: Registry, t: Time, now: Time, key: string)
    requires RefillsWhenIdle(policy) && Valid(policy, r, t) && t <= now
    ensures var (r', entered) := Enter(policy, r, now, key);
      && Valid(policy, r', now) && SameLevels(policy, r, r', now)
      && (entered ==> key in r'.clients && r'.clients[key].last == now)
  {
    SweepKeepsLevels(policy, r, t, now);
    assert Valid(policy, r, now);
    hide Sweep, RefillsWhenIdle, Valid, LevelOf;
    var r1 := if SweepDue(policy, r, now) then Sweep(policy, r, now) else r;
    assert Valid(policy, r1, now) && SameLevels(policy, r, r1, now) by {
      SweepKeepsGlobal(policy, r, now);
    }
    if key in r1.clients {
      RefreshKeepsLevels(policy, r1, now, key);
    } else {
      SweepKeepsLevels(policy, r1, now, now);
      SweepKeepsGlobal(policy, r1, now);
      var r2 := if |r1.clients| >= policy.max && policy.sweepWhenFull then Sweep(policy, r1, now) else r1;
      RefreshKeepsLevels(policy, r2, now, key);
    }
  }

  lemma SweepKeepsGlobal(policy: Policy, r: Registry, now: Time)
    ensures Sweep(policy, r, now).global == r.global
    ensures Sweep(policy, r, now).clients.Keys <= r.clients.Keys
  {
  }

  lemma DrawLevels(policy: Policy, r: Registry, q: Request)
    requires RefillsWhenIdle(policy) && q.kind < |policy.limits| && Valid(policy, r, q.now)
    requires q.key in r.clients && r.clients[q.key].last == q.now
    ensures var (r', answer) := Draw(policy, r, q);
      && Valid(policy, r', q.now)
      && (forall key, kind: nat :: kind < |policy.limits| ==>
            LevelOf(policy, r', key, kind, q.now) == LevelOf(policy, r, key, kind, q.now)
              - (if answer == Allowed && key == q.key && kind == q.kind then policy.limits[kind].interval else 0))
      && (answer == Allowed <==>
            && (policy.global.Some? ==> Level(policy.global.value, r.global, q.now) >= policy.global.value.interval)
            && LevelOf(policy, r, q.key, q.kind, q.now) >= policy.limits[q.kind].interval)
  {
  }

  /**
  One request, whatever is swept for it: every level is the one the passing of time
  gives, less one token exactly where a request was admitted.
  */
  lemma ServeLevels(policy: Policy, r: Registry, t: Time, q: Request, key: string, kind: nat)
    requires RefillsWhenIdle(policy) && q.kind < |policy.limits| && kind < |policy.limits|
    requires Valid(policy, r, t) && t <= q.now
    ensures var (r', answer) := Serve(policy, r, q);
      && Valid(policy, r', q.now)
      && LevelOf(policy, r', key, kind, q.now)
         == Min(Capacity(policy.limits[kind]), LevelOf(policy, r, key, kind, t) + (q.now - t))
            - (if answer == Allowed && key == q.key && kind == q.kind then policy.limits[kind].interval else 0)
      && 0 <= LevelOf(policy, r', key, kind, q.now)
      && (answer != NoRoom ==> (answer == Allowed <==>
            && (policy.global.Some? ==> Level(policy.global.value, r.global, q.now) >= policy.global.value.interval)
            && LevelOf(policy, r, q.key, q.kind, q.now) >= policy.limits[q.kind].interval))
  {
    EnterKeepsLevels(policy, r, t, q.now, q.key);
    var (r1, entered) := Enter(policy, r, q.now, q.key);
    if entered {
      DrawLevels(policy, r1, q);
    }
    LevelAdvances(policy.limits[kind], BucketOf(r, key, kind), t, q.now);
  }
}
