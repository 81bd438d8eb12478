/** The request limiter: per-client buckets for creating, mutating and reading, and one global bucket. */
module AbuseControl {
  import opened Common
  import opened RateLimits
  import opened RateLimitRuns
  import opened RegistryRoom

  const CREATE: nat := 0
  const MUTATION: nat := 1
  const READ: nat := 2

  const MAX_CLIENTS: nat := 16384

  /** 10, 30 and 120 requests a minute for each client, 1000 a minute for all, ten minutes of idleness. */
  function ControlPolicy(max: nat): Policy {
    Policy(
      [Limit(MINUTE / 10, 5), Limit(MINUTE / 30, 10), Limit(MINUTE / 120, 60)],
      Some(Limit(MINUTE / 1000, 200)),
      10 * MINUTE, MINUTE, max, true)
  }

  class Control {
    const max: nat
    const disabled: bool
    var clients: map<string, Client>
    var global: Bucket
    var lastSweep: Option<Time>

    ghost function Contents(): Registry
      reads this
    {
      Registry(clients, global, lastSweep)
    }

    ghost predicate WellFormed()
      reads this
    {
      Sized(ControlPolicy(max), Contents())
    }

    constructor (max: nat, disabled: bool)
      ensures WellFormed() && Contents() == EMPTY
      ensures this.max == (if max == 0 then 16384 else max) && this.disabled == disabled
    {
      this.max := if max == 0 then MAX_CLIENTS else max;
      this.disabled := disabled;
      clients, global, lastSweep := map[], Full, None;
    }

    /** A disabled control admits everything and records nothing; otherwise this is one request served. */
    method Allow(now: Time, key: string, kind: nat) returns (ok: bool)
      requires WellFormed() && kind <= READ
      modifies this
      ensures WellFormed()
      ensures disabled ==> ok && Contents() == old(Contents())
      ensures !disabled ==>
        var (r, answer) := Serve(ControlPolicy(max), old(Contents()), Request(now, key, kind));
        Contents() == r && (ok <==> answer == Allowed)
    {
      var policy := ControlPolicy(max);
      if disabled {
        return true;
      }
      ServeKeepsSizes(policy, Contents(), Request(now, key, kind));
      var entered := Enter(now, key);
      if !entered {
        return false;
      }
      var (g, passed) := Take(policy.global.value, global, now);
      if !passed {
        return false;
      }
      global := g;
      var c := clients[key];
      var (b, own) := Take(policy.limits[kind], c.buckets[kind], now);
      clients := clients[key := c.(buckets := c.buckets[kind := b])];
      ok := own;
    }

    /** Finds or makes the client's entry, sweeping when a sweep is due and again when there is no room. */
    method Enter(now: Time, key: string) returns (entered: bool)
      requires WellFormed()
      modifies this`clients, this`lastSweep
      ensures WellFormed()
      ensures (Contents(), entered) == RateLimits.Enter(ControlPolicy(max), old(Contents()), now, key)
      ensures entered ==> key in clients
    {
      var policy := ControlPolicy(max);
      if lastSweep.None? || now - lastSweep.value >= policy.sweepEvery {
        Sweep(now);
      }
      if key !in clients {
        if |clients| >= max {
          Sweep(now);
          if |clients| >= max {
            return false;
          }
        }
        clients := clients[key := NewClient(policy, now)];
        assert clients[key := clients[key].(last := now)] == clients;
      }
      clients := clients[key := clients[key].(last := now)];
      entered := true;
    }

    /** Drops every client idle for ten minutes, one at a time, in no particular order. */
    method Sweep(now: Time)
      requires WellFormed()
      modifies this`clients, this`lastSweep
      ensures WellFormed()
      ensures Contents() == RateLimits.Sweep(ControlPolicy(max), old(Contents()), now)
    {
      var policy := ControlPolicy(max);
      var todo := clients.Keys;
      while todo != {}
        invariant todo <= clients.Keys <= old(clients).Keys
        invariant forall k :: k in clients ==> clients[k] == old(clients)[k]
        invariant forall k :: k in old(clients) ==>
          (k in clients <==> k in todo || !IsIdle(policy, old(clients)[k], now))
      {
        var key :| key in todo;
        todo := todo - {key};
        if IsIdle(policy, clients[key], now) {
          clients := clients - {key};
        }
      }
      lastSweep := Some(now);
    }
  }

  lemma ControlRefillsWhenIdle(max: nat)
    ensures RefillsWhenIdle(ControlPolicy(max))
  {
  }

  lemma ControlLimits(max: nat)
    ensures var policy := ControlPolicy(max);
      && |policy.limits| == 3 && policy.global == Some(Limit(60 * SECOND / 1000, 200))
      && policy.limits[CREATE] == Limit(6 * SECOND, 5)
      && policy.limits[MUTATION] == Limit(2 * SECOND, 10)
      && policy.limits[READ] == Limit(SECOND / 2, 60)
  {
  }

  /**
  The limits of the control over any stretch of requests, whatever the order of their
  readings: `f` is how far the readings of the stretch move forwards.
  */
  lemma ControlStretches(max: nat, r: Registry, qs: seq<Request>, key: string)
    requires KindsKnown(ControlPolicy(max), qs) && Sized(ControlPolicy(max), r) && qs != []
    ensures var policy := ControlPolicy(max);
      var f := Forward(qs[0].now, qs);
      && Drawn(policy, r, qs, Own(key, CREATE)) <= 5 + f / (6 * SECOND)
      && Drawn(policy, r, qs, Own(key, MUTATION)) <= 10 + f / (2 * SECOND)
      && Drawn(policy, r, qs, Own(key, READ)) <= 60 + f / (SECOND / 2)
      && Drawn(policy, r, qs, Everyone) <= 200 + f / (60 * SECOND / 1000)
  {
    var policy := ControlPolicy(max);
    ControlRefillsWhenIdle(max);
    ControlLimits(max);
    hide ControlPolicy, RefillsWhenIdle, Sized, Drawn, KindsKnown, Forward;
    StretchBound(policy, r, qs, Own(key, CREATE));
    StretchBound(policy, r, qs, Own(key, MUTATION));
    StretchBound(policy, r, qs, Own(key, READ));
    StretchBound(policy, r, qs, Everyone);
  }

  /** The limits the control promises for readings in order, in any window of w nanoseconds of any run. */
  lemma ControlWindows(max: nat, r: Registry, t: Time, qs: seq<Request>, key: string, from: Time, w: nat)
    requires KindsKnown(ControlPolicy(max), qs) && Sized(ControlPolicy(max), r) && Ordered(t, qs)
    ensures var policy := ControlPolicy(max);
      && Admitted(policy, r, qs, Own(key, CREATE), from, from + w) <= 5 + w / (6 * SECOND)
      && Admitted(policy, r, qs, Own(key, MUTATION), from, from + w) <= 10 + w / (2 * SECOND)
      && Admitted(policy, r, qs, Own(key, READ), from, from + w) <= 60 + w / (SECOND / 2)
      && Admitted(policy, r, qs, Everyone, from, from + w) <= 200 + w / (60 * SECOND / 1000)
  {
    var policy := ControlPolicy(max);
    ControlRefillsWhenIdle(max);
    ControlLimits(max);
    hide ControlPolicy, RefillsWhenIdle, Sized, Admitted, KindsKnown, Ordered;
    WindowBound(policy, r, t, qs, Own(key, CREATE), from, w);
    WindowBound(policy, r, t, qs, Own(key, MUTATION), from, w);
    WindowBound(policy, r, t, qs, Own(key, READ), from, w);
    WindowBound(policy, r, t, qs, Everyone, from, w);
  }

  /** While the control has room, dropping clients is invisible in its answers. */
  lemma ControlForgetsNothingThatMatters(max: nat, t: Time, qs: seq<Request>)
    requires KindsKnown(ControlPolicy(max), qs) && Ordered(t, qs)
    requires NoRoom !in Answers(ControlPolicy(max), EMPTY, qs)
    ensures |ReferenceAnswers(ControlPolicy(max), UNTOUCHED, qs)| == |qs|
    ensures forall i :: 0 <= i < |qs| ==>
      (Answers(ControlPolicy(max), EMPTY, qs)[i] == Allowed
       <==> ReferenceAnswers(ControlPolicy(max), UNTOUCHED, qs)[i])
  {
    ControlRefillsWhenIdle(max);
    FreshRegistriesAgree(ControlPolicy(max), t);
    EvictionIsTransparent(ControlPolicy(max), EMPTY, UNTOUCHED, t, qs);
  }

  /**
  Exactly when the control has no room for a client: a sweep is due every minute and
  drops those silent for ten minutes; the client is not known after it; and `max`
  clients have been seen in the last ten minutes.
  */
  lemma ControlNoRoomIff(max: nat, r: Registry, q: Request)
    requires q.kind <= READ && Sized(ControlPolicy(max), r)
    ensures var recent := set k | k in r.clients && q.now - r.clients[k].last < 600_000_000_000;
      var due := r.lastSweep.None? || q.now - r.lastSweep.value >= 60_000_000_000;
      Serve(ControlPolicy(max), r, q).1 == NoRoom <==>
        q.key !in (if due then recent else r.clients.Keys) && |recent| >= max
  {
    NoRoomIff(ControlPolicy(max), r, q);
    assert SeenWithin(ControlPolicy(max), r, q.now)
        == set k | k in r.clients && q.now - r.clients[k].last < 600_000_000_000;
    hide Serve;
  }

  /** While fewer than `max` other clients have been there in the ten minutes before each request, there is room. */
  lemma ControlHasRoom(max: nat, qs: seq<Request>)
    requires KindsKnown(ControlPolicy(max), qs) && Uncrowded(qs, max, 600_000_000_000)
    ensures NoRoom !in Answers(ControlPolicy(max), EMPTY, qs)
  {
    UncrowdedRunsHaveRoom(ControlPolicy(max), qs);
  }

  /** Such a run, with its readings in order, is answered as by a control that never forgets a client. */
  lemma ControlIsTransparent(max: nat, t: Time, qs: seq<Request>)
    requires KindsKnown(ControlPolicy(max), qs) && Ordered(t, qs) && Uncrowded(qs, max, 600_000_000_000)
    ensures |ReferenceAnswers(ControlPolicy(max), UNTOUCHED, qs)| == |qs|
    ensures forall i :: 0 <= i < |qs| ==>
      (Answers(ControlPolicy(max), EMPTY, qs)[i] == Allowed
       <==> ReferenceAnswers(ControlPolicy(max), UNTOUCHED, qs)[i])
  {
    ControlHasRoom(max, qs);
    ControlForgetsNothingThatMatters(max, t, qs);
  }
}
