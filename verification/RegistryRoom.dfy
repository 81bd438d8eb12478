/** When a bounded registry has no room: by counting the clients it has seen, and by counting requests. */
module RegistryRoom {
  import opened Common
  import opened RateLimits
  import opened RateLimitRuns

  /** The clients seen more recently than the idle period. */
  ghost function SeenWithin(policy: Policy, r: Registry, now: Time): set<string> {
    set k | k in r.clients && now - r.clients[k].last < policy.idle
  }

  /** The clients that are known once a sweep has been made, if one is due. */
  ghost function Known(policy: Policy, r: Registry, now: Time): set<string> {
    if r.lastSweep.None? || now - r.lastSweep.value >= policy.sweepEvery then SeenWithin(policy, r, now)
    else r.clients.Keys
  }

  lemma SweptClients(policy: Policy, r: Registry, now: Time)
    ensures Sweep(policy, r, now).clients.Keys == SeenWithin(policy, r, now)
    ensures |Sweep(policy, r, now).clients| == |SeenWithin(policy, r, now)|
  {
    assert |Sweep(policy, r, now).clients| == |Sweep(policy, r, now).clients.Keys|;
  }

  lemma SweptTwice(policy: Policy, r: Registry, now: Time)
    ensures SeenWithin(policy, Sweep(policy, r, now), now) == SeenWithin(policy, r, now)
  {
  }

  lemma SmallerSet<T>(a: set<T>, b: set<T>)
    requires a <= b
    ensures |a| <= |b|
  {
    assert b == a + (b - a);
  }

  /**
  Exactly when there is no room. With a second sweep when full: the client is not known
  after a due sweep, and `max` clients have been seen within the idle period. Without:
  the client is not known after a due sweep, and `max` clients are.
  */
  lemma NoRoomIff(policy: Policy, r: Registry, q: Request)
    requires q.kind < |policy.limits| && Sized(policy, r)
    ensures Serve(policy, r, q).1 == NoRoom <==>
      && q.key !in Known(policy, r, q.now)
      && |if policy.sweepWhenFull then SeenWithin(policy, r, q.now) else Known(policy, r, q.now)| >= policy.max
  {
    EnteredIff(policy, r, q.now, q.key);
    hide Enter, Known, SeenWithin;
  }

  lemma EnteredIff(policy: Policy, r: Registry, now: Time, key: string)
    ensures !Enter(policy, r, now, key).1 <==>
      && key !in Known(policy, r, now)
      && |if policy.sweepWhenFull then SeenWithin(policy, r, now) else Known(policy, r, now)| >= policy.max
  {
    SweptClients(policy, r, now);
    var r1 := if SweepDue(policy, r, now) then Sweep(policy, r, now) else r;
    assert r1.clients.Keys == Known(policy, r, now);
    assert |r1.clients| == |r1.clients.Keys|;
    SweptClients(policy, r1, now);
    SweptTwice(policy, r, now);
    SmallerSet(SeenWithin(policy, r1, now), r1.clients.Keys);
    assert SeenWithin(policy, r1, now) == SeenWithin(policy, r, now);
    hide Sweep, SeenWithin, Known;
  }

  // ----- over runs ------------------------------------------------------------------

  /** How far back a client can be and still take up room. */
  function Memory(policy: Policy): nat {
    policy.idle + if policy.sweepWhenFull then 0 else policy.sweepEvery
  }

  /** The other clients among the requests before number `j`, less than `period` before it. */
  ghost function OthersBefore(qs: seq<Request>, j: nat, period: nat): set<string>
    requires j < |qs|
  {
    set i | 0 <= i < j && qs[j].now - qs[i].now < period && qs[i].key != qs[j].key :: qs[i].key
  }

  /** At every request, fewer than `max` other clients have been there within the period. */
  ghost predicate Uncrowded(qs: seq<Request>, max: nat, period: nat) {
    forall j :: 0 <= j < |qs| ==> |OthersBefore(qs, j, period)| < max
  }

  /** What the registry knows comes from the requests so far, and nothing idle survives a sweep. */
  ghost predicate Remembers(policy: Policy, r: Registry, past: seq<Request>) {
    && (forall k :: k in r.clients ==>
          exists i :: 0 <= i < |past| && past[i].key == k && past[i].now == r.clients[k].last)
    && (r.clients != map[] ==> r.lastSweep.Some?)
    && (!policy.sweepWhenFull ==>
          forall k :: k in r.clients ==> r.lastSweep.value < r.clients[k].last + policy.idle)
  }

  lemma SweepRemembers(policy: Policy, r: Registry, past: seq<Request>, now: Time)
    requires Remembers(policy, r, past)
    ensures Remembers(policy, Sweep(policy, r, now), past)
  {
    assert r.clients == map[] ==> Sweep(policy, r, now).clients == map[];
  }

  lemma ServeRemembers(policy: Policy, r: Registry, past: seq<Request>, q: Request)
    requires q.kind < |policy.limits| && Sized(policy, r) && Remembers(policy, r, past)
    requires 0 < policy.idle && (!policy.sweepWhenFull ==> r.lastSweep.Some? ==> r.lastSweep.value <= q.now)
    ensures Remembers(policy, Serve(policy, r, q).0, past + [q])
    ensures !policy.sweepWhenFull && Serve(policy, r, q).0.lastSweep.Some? ==>
      Serve(policy, r, q).0.lastSweep.value <= q.now
  {
    EnterRemembers(policy, r, past, q.now, q.key);
    var (r1, entered) := Enter(policy, r, q.now, q.key);
    assert (past + [q])[|past|] == q;
    assert forall i :: 0 <= i < |past| ==> (past + [q])[i] == past[i];
    hide Enter;
    assert Serve(policy, r, q).0.lastSweep == r1.lastSweep;
    forall k | k in Serve(policy, r, q).0.clients
      ensures k in r1.clients && Serve(policy, r, q).0.clients[k].last == r1.clients[k].last
    {
    }
  }

  /** The same for a registry that one client has entered at `now`. */
  ghost predicate RemembersEntered(policy: Policy, r: Registry, past: seq<Request>, now: Time, key: string) {
    && (forall k :: k in r.clients ==>
          || (k == key && r.clients[k].last == now)
          || (exists i :: 0 <= i < |past| && past[i].key == k && past[i].now == r.clients[k].last))
    && r.lastSweep.Some?
    && (!policy.sweepWhenFull ==>
          && r.lastSweep.value <= now
          && forall k :: k in r.clients ==> r.lastSweep.value < r.clients[k].last + policy.idle)
  }

  lemma RefreshRemembers(policy: Policy, r: Registry, past: seq<Request>, now: Time, key: string, c: Client)
    requires Remembers(policy, r, past) && 0 < policy.idle && c.last == now
    requires r.lastSweep.Some? && (!policy.sweepWhenFull ==> r.lastSweep.value <= now)
    ensures RemembersEntered(policy, r.(clients := r.clients[key := c]), past, now, key)
    ensures RemembersEntered(policy, r, past, now, key)
  {
  }

  lemma EnterRemembers(policy: Policy, r: Registry, past: seq<Request>, now: Time, key: string)
    requires Remembers(policy, r, past) && 0 < policy.idle
    requires !policy.sweepWhenFull ==> r.lastSweep.Some? ==> r.lastSweep.value <= now
    ensures RemembersEntered(policy, Enter(policy, r, now, key).0, past, now, key)
  {
    SweepRemembers(policy, r, past, now);
    var r1 := if SweepDue(policy, r, now) then Sweep(policy, r, now) else r;
    SweepRemembers(policy, r1, past, now);
    var r2 := if |r1.clients| >= policy.max && policy.sweepWhenFull then Sweep(policy, r1, now) else r1;
    assert r1.lastSweep.Some? && r2.lastSweep.Some?;
    hide Remembers, RemembersEntered;
    RefreshRemembers(policy, r2, past, now, key, NewClient(policy, now));
    if key in r1.clients {
      RefreshRemembers(policy, r1, past, now, key, r1.clients[key].(last := now));
    }
  }

  /** What takes up room at a request are other clients that were there within the memory. */
  lemma RoomIsTakenByOthers(policy: Policy, r: Registry, past: seq<Request>, q: Request)
    requires Remembers(policy, r, past) && q.key !in Known(policy, r, q.now)
    ensures (if policy.sweepWhenFull then SeenWithin(policy, r, q.now) else Known(policy, r, q.now))
         <= OthersBefore(past + [q], |past|, Memory(policy))
  {
    var all := past + [q];
    assert all[|past|] == q && forall i :: 0 <= i < |past| ==> all[i] == past[i];
    var taken := if policy.sweepWhenFull then SeenWithin(policy, r, q.now) else Known(policy, r, q.now);
    forall k | k in taken ensures k in OthersBefore(all, |past|, Memory(policy)) {
      assert k in r.clients && k != q.key;
      var i :| 0 <= i < |past| && past[i].key == k && past[i].now == r.clients[k].last;
      assert all[i].key == k;
    }
  }

  lemma HasRoom(policy: Policy, r: Registry, past: seq<Request>, q: Request, rest: seq<Request>)
    requires q.kind < |policy.limits| && Sized(policy, r) && Remembers(policy, r, past)
    requires Uncrowded(past + [q] + rest, policy.max, Memory(policy))
    ensures Serve(policy, r, q).1 != NoRoom
  {
    NoRoomIff(policy, r, q);
    hide Serve, Known, SeenWithin, OthersBefore, Sized, Remembers, Memory;
    if q.key !in Known(policy, r, q.now) {
      RoomIsTakenByOthers(policy, r, past, q);
      PrefixOthers(past + [q], rest, |past|, Memory(policy));
      SmallerSet(if policy.sweepWhenFull then SeenWithin(policy, r, q.now) else Known(policy, r, q.now),
        OthersBefore(past + [q], |past|, Memory(policy)));
    }
  }

  lemma {:induction false} NoRequestWithoutRoom(policy: Policy, r: Registry, past: seq<Request>, qs: seq<Request>)
    requires KindsKnown(policy, qs) && Sized(policy, r) && Remembers(policy, r, past) && 0 < policy.idle
    requires Uncrowded(past + qs, policy.max, Memory(policy))
    requires !policy.sweepWhenFull && qs != [] ==>
      Ordered(qs[0].now, qs) && (r.lastSweep.Some? ==> r.lastSweep.value <= qs[0].now)
    ensures NoRoom !in Answers(policy, r, qs)
    decreases |qs|
  {
    if qs != [] {
      var q := qs[0];
      UnrollAnswers(policy, r, UNTOUCHED, qs);
      ServeRemembers(policy, r, past, q);
      assert past + [q] + qs[1..] == past + qs;
      hide Serve, Known, SeenWithin, OthersBefore, Sized, KindsKnown, Remembers, Answers, Uncrowded;
      HasRoom(policy, r, past, q, qs[1..]);
      NoRequestWithoutRoom(policy, Serve(policy, r, q).0, past + [q], qs[1..]);
    }
  }

  lemma PrefixOthers(front: seq<Request>, back: seq<Request>, j: nat, period: nat)
    requires j < |front|
    ensures OthersBefore(front + back, j, period) == OthersBefore(front, j, period)
  {
    assert forall i :: 0 <= i < |front| ==> (front + back)[i] == front[i];
  }

  /**
  From the empty registry, a run in which at every request fewer than `max` other
  clients have been there within the memory of the registry never lacks room. With a
  second sweep the readings may come in any order.
  */
  lemma UncrowdedRunsHaveRoom(policy: Policy, qs: seq<Request>)
    requires KindsKnown(policy, qs) && 0 < policy.idle
    requires Uncrowded(qs, policy.max, Memory(policy))
    requires !policy.sweepWhenFull && qs != [] ==> Ordered(qs[0].now, qs)
    ensures NoRoom !in Answers(policy, EMPTY, qs)
  {
    assert [] + qs == qs;
    NoRequestWithoutRoom(policy, EMPTY, [], qs);
  }
}
