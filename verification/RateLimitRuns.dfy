/**
What the bounded registries guarantee over whole runs: dropping idle clients never
changes an answer, and no client, kind or process is admitted more often than its
bucket allows in any window of time.
*/
module RateLimitRuns {
  import opened Common
  import opened RateLimits

  predicate KindsKnown(policy: Policy, qs: seq<Request>) {
    forall q :: q in qs ==> q.kind < |policy.limits|
  }

  /** Clock readings in the order the requests are served, none before `start`. */
  predicate Ordered(start: Time, qs: seq<Request>)
    decreases |qs|
  {
    qs == [] || (start <= qs[0].now && Ordered(qs[0].now, qs[1..]))
  }

  ghost function Answers(policy: Policy, r: Registry, qs: seq<Request>): (answers: seq<Answer>)
    requires KindsKnown(policy, qs) && Sized(policy, r)
    ensures |answers| == |qs|
    decreases |qs|
  {
    if qs == [] then []
    else
      assert qs[0] in qs;
      var (r', answer) := Serve(policy, r, qs[0]);
      ServeKeepsSizes(policy, r, qs[0]);
      [answer] + Answers(policy, r', qs[1..])
  }

  lemma ServeKeepsSizes(policy: Policy, r: Registry, q: Request)
    requires q.kind < |policy.limits| && Sized(policy, r)
    ensures Sized(policy, Serve(policy, r, q).0)
  {
  }

  // ----- a registry that never forgets ----------------------------------------

  datatype Reference = Reference(buckets: map<(string, nat), Bucket>, global: Bucket)

  const UNTOUCHED := Reference(map[], Full)

  function ReferenceBucket(ref: Reference, key: string, kind: nat): Bucket {
    if (key, kind) in ref.buckets then ref.buckets[(key, kind)] else Full
  }

  function ReferenceServe(policy: Policy, ref: Reference, q: Request): (Reference, bool)
    requires q.kind < |policy.limits|
  {
    var (global, passed) :=
      match policy.global case None => (ref.global, true) case Some(l) => Take(l, ref.global, q.now);
    if !passed then (ref, false)
    else
      var (b, ok) := Take(policy.limits[q.kind], ReferenceBucket(ref, q.key, q.kind), q.now);
      (Reference(ref.buckets[(q.key, q.kind) := b], global), ok)
  }

  function ReferenceAnswers(policy: Policy, ref: Reference, qs: seq<Request>): seq<bool>
    requires KindsKnown(policy, qs)
    decreases |qs|
  {
    if qs == [] then []
    else
      assert qs[0] in qs;
      var (ref', ok) := ReferenceServe(policy, ref, qs[0]);
      [ok] + ReferenceAnswers(policy, ref', qs[1..])
  }

  /** The same global bucket, and the same credit for every client and kind, known or dropped. */
  ghost predicate Agree(policy: Policy, r: Registry, ref: Reference, now: Time) {
    && Valid(policy, r, now)
    && r.global == ref.global
    && (forall key, kind: nat :: kind < |policy.limits| ==>
          && ValidBucket(policy.limits[kind], ReferenceBucket(ref, key, kind), now)
          && Level(policy.limits[kind], ReferenceBucket(ref, key, kind), now) == LevelOf(policy, r, key, kind, now))
  }

  lemma ReferenceLevels(policy: Policy, ref: Reference, t: Time, q: Request, key: string, kind: nat)
    requires RefillsWhenIdle(policy) && q.kind < |policy.limits| && kind < |policy.limits| && t <= q.now
    requires ValidBucket(policy.limits[kind], ReferenceBucket(ref, key, kind), t)
    ensures var (ref', ok) := ReferenceServe(policy, ref, q);
      && ValidBucket(policy.limits[kind], ReferenceBucket(ref', key, kind), q.now)
      && Level(policy.limits[kind], ReferenceBucket(ref', key, kind), q.now)
         == Min(Capacity(policy.limits[kind]),
                Level(policy.limits[kind], ReferenceBucket(ref, key, kind), t) + (q.now - t))
            - (if ok && key == q.key && kind == q.kind then policy.limits[kind].interval else 0)
  {
    LevelAdvances(policy.limits[kind], ReferenceBucket(ref, key, kind), t, q.now);
  }

  lemma ServeAgrees(policy: Policy, r: Registry, ref: Reference, t: Time, q: Request)
    requires RefillsWhenIdle(policy) && q.kind < |policy.limits|
    requires Agree(policy, r, ref, t) && t <= q.now
    requires Serve(policy, r, q).1 != NoRoom
    ensures ReferenceServe(policy, ref, q).1 <==> Serve(policy, r, q).1 == Allowed
    ensures Agree(policy, Serve(policy, r, q).0, ReferenceServe(policy, ref, q).0, q.now)
  {
    ServeLevels(policy, r, t, q, q.key, q.kind);
    LevelAdvances(policy.limits[q.kind], ReferenceBucket(ref, q.key, q.kind), t, q.now);
    LevelAdvances(policy.limits[q.kind], BucketOf(r, q.key, q.kind), t, q.now);
    ServeKeepsGlobal(policy, r, q);
    forall key, kind: nat | kind < |policy.limits|
      ensures var b := ReferenceBucket(ReferenceServe(policy, ref, q).0, key, kind);
        ValidBucket(policy.limits[kind], b, q.now)
        && Level(policy.limits[kind], b, q.now) == LevelOf(policy, Serve(policy, r, q).0, key, kind, q.now)
    {
      ServeLevels(policy, r, t, q, key, kind);
      ReferenceLevels(policy, ref, t, q, key, kind);
    }
  }

  /** The global bucket sees every request that found room, dropped clients or not. */
  lemma ServeKeepsGlobal(policy: Policy, r: Registry, q: Request)
    requires q.kind < |policy.limits| && Sized(policy, r)
    ensures Serve(policy, r, q).0.global
         == if policy.global.None? || Serve(policy, r, q).1 == NoRoom then r.global
            else Take(policy.global.value, r.global, q.now).0
  {
  }

  lemma UnrollAnswers(policy: Policy, r: Registry, ref: Reference, qs: seq<Request>)
    requires qs != [] && KindsKnown(policy, qs) && Sized(policy, r)
    ensures qs[0].kind < |policy.limits| && KindsKnown(policy, qs[1..]) && Sized(policy, Serve(policy, r, qs[0]).0)
    ensures Answers(policy, r, qs)
         == [Serve(policy, r, qs[0]).1] + Answers(policy, Serve(policy, r, qs[0]).0, qs[1..])
    ensures ReferenceAnswers(policy, ref, qs)
         == [ReferenceServe(policy, ref, qs[0]).1]
            + ReferenceAnswers(policy, ReferenceServe(policy, ref, qs[0]).0, qs[1..])
  {
    assert qs[0] in qs;
    hide Serve, ReferenceServe;
    ServeKeepsSizes(policy, r, qs[0]);
  }

  ghost predicate SameAnswers(answers: seq<Answer>, reference: seq<bool>) {
    |answers| == |reference| && forall i :: 0 <= i < |answers| ==> (answers[i] == Allowed <==> reference[i])
  }

  lemma SameAnswersCons(answer: Answer, ok: bool, answers: seq<Answer>, reference: seq<bool>)
    requires SameAnswers(answers, reference) && (answer == Allowed <==> ok)
    ensures SameAnswers([answer] + answers, [ok] + reference)
  {
  }

  lemma FoundRoom(answer: Answer, answers: seq<Answer>)
    requires NoRoom !in [answer] + answers
    ensures answer != NoRoom && NoRoom !in answers
  {
    assert ([answer] + answers)[0] in [answer] + answers;
    assert forall a :: a in answers ==> a in [answer] + answers;
  }

  lemma {:induction false} AnswersAgree(policy: Policy, r: Registry, ref: Reference, t: Time, qs: seq<Request>)
    requires RefillsWhenIdle(policy) && KindsKnown(policy, qs) && Ordered(t, qs)
    requires Agree(policy, r, ref, t)
    requires NoRoom !in Answers(policy, r, qs)
    ensures SameAnswers(Answers(policy, r, qs), ReferenceAnswers(policy, ref, qs))
    decreases |qs|
  {
    assert Sized(policy, r);
    if qs != [] {
      hide Serve, ReferenceServe, Agree, RefillsWhenIdle, Sized, KindsKnown, Answers, ReferenceAnswers, SameAnswers;
      UnrollAnswers(policy, r, ref, qs);
      var (r', answer) := Serve(policy, r, qs[0]);
      var (ref', ok) := ReferenceServe(policy, ref, qs[0]);
      FoundRoom(answer, Answers(policy, r', qs[1..]));
      ServeAgrees(policy, r, ref, t, qs[0]);
      AnswersAgree(policy, r', ref', qs[0].now, qs[1..]);
      SameAnswersCons(answer, ok, Answers(policy, r', qs[1..]), ReferenceAnswers(policy, ref', qs[1..]));
    }
  }

  /**
  Eviction is transparent: on requests served in the order of their clock readings,
  as long as the registry has room, each answer is the answer of a registry that
  never forgets a client.
  */
  lemma EvictionIsTransparent(policy: Policy, r: Registry, ref: Reference, t: Time, qs: seq<Request>)
    requires RefillsWhenIdle(policy) && KindsKnown(policy, qs) && Ordered(t, qs)
    requires Agree(policy, r, ref, t)
    requires NoRoom !in Answers(policy, r, qs)
    ensures |ReferenceAnswers(policy, ref, qs)| == |qs|
    ensures forall i :: 0 <= i < |qs| ==>
      (Answers(policy, r, qs)[i] == Allowed <==> ReferenceAnswers(policy, ref, qs)[i])
  {
    assert Sized(policy, r);
    hide Serve, ReferenceServe, Agree, RefillsWhenIdle, KindsKnown, Ordered, ReferenceAnswers;
    AnswersAgree(policy, r, ref, t, qs);
  }

  lemma FreshRegistriesAgree(policy: Policy, t: Time)
    ensures Agree(policy, EMPTY, UNTOUCHED, t)
  {
  }

  // ----- what is admitted is paid for -------------------------------------------

  /** Whose admissions are counted: those of one client and kind, or everyone's. */
  datatype Account = Own(key: string, kind: nat) | Everyone

  predicate HasAccount(policy: Policy, account: Account) {
    match account
    case Own(_, kind) => kind < |policy.limits|
    case Everyone => policy.global.Some?
  }

  function LimitOf(policy: Policy, account: Account): Limit
    requires HasAccount(policy, account)
  {
    match account
    case Own(_, kind) => policy.limits[kind]
    case Everyone => policy.global.value
  }

  predicate CountsOn(account: Account, q: Request) {
    account == Everyone || account == Own(q.key, q.kind)
  }

  /** How many requests of an account a run admits. */
  ghost function Drawn(policy: Policy, r: Registry, qs: seq<Request>, account: Account): nat
    requires KindsKnown(policy, qs) && Sized(policy, r)
    decreases |qs|
  {
    if qs == [] then 0
    else
      assert qs[0] in qs;
      var (r', answer) := Serve(policy, r, qs[0]);
      ServeKeepsSizes(policy, r, qs[0]);
      (if answer == Allowed && CountsOn(account, qs[0]) then 1 else 0) + Drawn(policy, r', qs[1..], account)
  }

  /** How far the clock readings move forwards, from `t` on; what they move backwards does not count against it. */
  function Forward(t: Time, qs: seq<Request>): nat
    decreases |qs|
  {
    if qs == [] then 0 else Max(0, qs[0].now - t) + Forward(qs[0].now, qs[1..])
  }

  function Max(a: int, b: int): int {
    if a >= b then a else b
  }

  /**
  The most credit an account can have at a reading: what its bucket holds, what an
  eviction would give it, or everything when the client is unknown.
  */
  function Owed(policy: Policy, r: Registry, account: Account, t: Time): int
    requires HasAccount(policy, account)
  {
    var l := LimitOf(policy, account);
    match account
    case Everyone => Level(l, r.global, t)
    case Own(key, kind) =>
      if key in r.clients
      then Max(LevelOf(policy, r, key, kind, t), Min(Capacity(l), t - r.clients[key].last))
      else Capacity(l)
  }

  lemma OwedBounds(policy: Policy, r: Registry, account: Account, t: Time)
    requires HasAccount(policy, account)
    ensures 0 <= Owed(policy, r, account, t) <= Capacity(LimitOf(policy, account))
  {
  }

  lemma OwedLater(policy: Policy, r: Registry, account: Account, t: Time, now: Time)
    requires HasAccount(policy, account)
    ensures Owed(policy, r, account, now) <= Owed(policy, r, account, t) + Max(0, now - t)
  {
  }

  lemma SweepOwesNoMore(policy: Policy, r: Registry, account: Account, now: Time)
    requires RefillsWhenIdle(policy) && HasAccount(policy, account)
    ensures Owed(policy, Sweep(policy, r, now), account, now) <= Owed(policy, r, account, now)
  {
  }

  lemma RefreshOwesNoMore(policy: Policy, r: Registry, account: Account, now: Time, key: string)
    requires HasAccount(policy, account)
    ensures var c := if key in r.clients then r.clients[key].(last := now) else NewClient(policy, now);
      Owed(policy, r.(clients := r.clients[key := c]), account, now) <= Owed(policy, r, account, now)
  {
  }

  lemma EnterOwesNoMore(policy: Policy, r: Registry, account: Account, now: Time, key: string)
    requires RefillsWhenIdle(policy) && Sized(policy, r) && HasAccount(policy, account)
    ensures var (r', entered) := Enter(policy, r, now, key);
      && Sized(policy, r') && Owed(policy, r', account, now) <= Owed(policy, r, account, now)
      && (entered ==> key in r'.clients && r'.clients[key].last == now)
  {
    SweepOwesNoMore(policy, r, account, now);
    var r1 := if SweepDue(policy, r, now) then Sweep(policy, r, now) else r;
    SweepOwesNoMore(policy, r1, account, now);
    var r2 := if |r1.clients| >= policy.max && policy.sweepWhenFull then Sweep(policy, r1, now) else r1;
    RefreshOwesNoMore(policy, r1, account, now, key);
    RefreshOwesNoMore(policy, r2, account, now, key);
    hide Owed, RefillsWhenIdle, HasAccount;
  }

  lemma DrawOwesLess(policy: Policy, r: Registry, account: Account, q: Request)
    requires q.kind < |policy.limits| && Sized(policy, r) && HasAccount(policy, account)
    requires q.key in r.clients && r.clients[q.key].last == q.now
    ensures var (r', answer) := Draw(policy, r, q);
      Owed(policy, r', account, q.now) <= Owed(policy, r, account, q.now)
        - (if answer == Allowed && CountsOn(account, q) then LimitOf(policy, account).interval else 0)
  {
  }

  /** One request, at any reading: an account earns at most the forward movement, and pays for what it is admitted. */
  lemma ServeOwes(policy: Policy, r: Registry, account: Account, t: Time, q: Request)
    requires RefillsWhenIdle(policy) && q.kind < |policy.limits| && Sized(policy, r) && HasAccount(policy, account)
    ensures var (r', answer) := Serve(policy, r, q);
      Owed(policy, r', account, q.now) <= Owed(policy, r, account, t) + Max(0, q.now - t)
        - (if answer == Allowed && CountsOn(account, q) then LimitOf(policy, account).interval else 0)
  {
    OwedLater(policy, r, account, t, q.now);
    EnterOwesNoMore(policy, r, account, q.now, q.key);
    var (r1, entered) := Enter(policy, r, q.now, q.key);
    if entered {
      DrawOwesLess(policy, r1, account, q);
    }
    hide Owed, Enter, Draw, RefillsWhenIdle, HasAccount;
  }

  lemma UnrollDrawn(policy: Policy, r: Registry, qs: seq<Request>, account: Account)
    requires qs != [] && KindsKnown(policy, qs) && Sized(policy, r)
    ensures qs[0].kind < |policy.limits| && KindsKnown(policy, qs[1..]) && Sized(policy, Serve(policy, r, qs[0]).0)
    ensures var (r', answer) := Serve(policy, r, qs[0]);
      Drawn(policy, r, qs, account)
      == (if answer == Allowed && CountsOn(account, qs[0]) then 1 else 0) + Drawn(policy, r', qs[1..], account)
  {
    assert qs[0] in qs;
    hide Serve;
    ServeKeepsSizes(policy, r, qs[0]);
  }

  /** The credit that `n` admissions take. */
  function Cost(n: nat, l: Limit): nat {
    n * l.interval
  }

  lemma OneMoreCosts(n: nat, l: Limit)
    ensures Cost(1 + n, l) == l.interval + Cost(n, l)
  {
  }

  lemma {:induction false} DrawnIsPaidFor(policy: Policy, r: Registry, t: Time, qs: seq<Request>, account: Account)
    requires RefillsWhenIdle(policy) && KindsKnown(policy, qs) && Sized(policy, r) && HasAccount(policy, account)
    ensures Cost(Drawn(policy, r, qs, account), LimitOf(policy, account))
         <= Owed(policy, r, account, t) + Forward(t, qs)
    decreases |qs|
  {
    OwedBounds(policy, r, account, t);
    if qs != [] {
      var q := qs[0];
      UnrollDrawn(policy, r, qs, account);
      assert Forward(t, qs) == Max(0, q.now - t) + Forward(q.now, qs[1..]);
      hide Serve, Owed, RefillsWhenIdle, KindsKnown, Sized, Drawn, LimitOf, HasAccount, Forward, Max, CountsOn, Cost;
      var (r', answer) := Serve(policy, r, q);
      ServeOwes(policy, r, account, t, q);
      DrawnIsPaidFor(policy, r', q.now, qs[1..], account);
      OneMoreCosts(Drawn(policy, r', qs[1..], account), LimitOf(policy, account));
    }
  }

  lemma TooManyCostTooMuch(n: nat, l: Limit, w: nat)
    requires 0 < l.interval && n > l.burst + w / l.interval
    ensures n * l.interval > Capacity(l) + w
  {
    var whole := l.burst + w / l.interval;
    assert n * l.interval >= (whole + 1) * l.interval;
    assert (whole + 1) * l.interval == l.interval * l.burst + (w / l.interval) * l.interval + l.interval;
  }

  lemma PaidWithin(n: nat, l: Limit, w: nat)
    requires 0 < l.interval && Cost(n, l) <= Capacity(l) + w
    ensures n <= l.burst + w / l.interval
  {
    if n > l.burst + w / l.interval {
      TooManyCostTooMuch(n, l, w);
    }
  }

  /**
  For readings in any order: over any consecutive stretch of requests, from any
  registry and through any evictions, refusals and re-creations, an account is
  admitted at most burst times, and once more for every interval that the readings
  move forwards in that stretch.
  */
  lemma StretchBound(policy: Policy, r: Registry, qs: seq<Request>, account: Account)
    requires RefillsWhenIdle(policy) && KindsKnown(policy, qs) && Sized(policy, r) && HasAccount(policy, account)
    requires qs != []
    ensures Drawn(policy, r, qs, account) * LimitOf(policy, account).interval
         <= Capacity(LimitOf(policy, account)) + Forward(qs[0].now, qs)
    ensures Drawn(policy, r, qs, account)
         <= LimitOf(policy, account).burst + Forward(qs[0].now, qs) / LimitOf(policy, account).interval
  {
    DrawnIsPaidFor(policy, r, qs[0].now, qs, account);
    OwedBounds(policy, r, account, qs[0].now);
    PaidWithin(Drawn(policy, r, qs, account), LimitOf(policy, account), Forward(qs[0].now, qs));
  }

  // ----- sliding windows, for readings in order -----------------------------------

  /** How many requests of an account, with readings in [from, to], a run admits. */
  ghost function Admitted(policy: Policy, r: Registry, qs: seq<Request>, account: Account, from: Time, to: Time): nat
    requires KindsKnown(policy, qs) && Sized(policy, r)
    decreases |qs|
  {
    if qs == [] then 0
    else
      assert qs[0] in qs;
      var (r', answer) := Serve(policy, r, qs[0]);
      ServeKeepsSizes(policy, r, qs[0]);
      (if answer == Allowed && CountsOn(account, qs[0]) && from <= qs[0].now <= to then 1 else 0)
      + Admitted(policy, r', qs[1..], account, from, to)
  }

  lemma UnrollAdmitted(policy: Policy, r: Registry, qs: seq<Request>, account: Account, from: Time, to: Time)
    requires qs != [] && KindsKnown(policy, qs) && Sized(policy, r)
    ensures qs[0].kind < |policy.limits| && KindsKnown(policy, qs[1..]) && Sized(policy, Serve(policy, r, qs[0]).0)
    ensures var (r', answer) := Serve(policy, r, qs[0]);
      Admitted(policy, r, qs, account, from, to)
      == (if answer == Allowed && CountsOn(account, qs[0]) && from <= qs[0].now <= to then 1 else 0)
         + Admitted(policy, r', qs[1..], account, from, to)
  {
    assert qs[0] in qs;
    hide Serve;
    ServeKeepsSizes(policy, r, qs[0]);
  }

  /** The first requests of an ordered run, with readings up to `to`. */
  function Until(qs: seq<Request>, to: Time): (head: seq<Request>)
    ensures head <= qs
  {
    if qs == [] || qs[0].now > to then [] else [qs[0]] + Until(qs[1..], to)
  }

  lemma {:induction false} NothingAfter(
    policy: Policy, r: Registry, t: Time, qs: seq<Request>, account: Account, from: Time, to: Time)
    requires KindsKnown(policy, qs) && Sized(policy, r) && Ordered(t, qs) && to < t
    ensures Admitted(policy, r, qs, account, from, to) == 0
    decreases |qs|
  {
    if qs != [] {
      UnrollAdmitted(policy, r, qs, account, from, to);
      hide Serve, Sized, KindsKnown, Admitted;
      NothingAfter(policy, Serve(policy, r, qs[0]).0, qs[0].now, qs[1..], account, from, to);
    }
  }

  /** The window is a stretch, once it has begun, and its readings move forwards no further than to its end. */
  lemma {:induction false} WindowIsAStretch(
    policy: Policy, r: Registry, t: Time, qs: seq<Request>, account: Account, from: Time, to: Time)
    requires KindsKnown(policy, qs) && Sized(policy, r) && Ordered(t, qs) && from <= t
    ensures KindsKnown(policy, Until(qs, to))
    ensures Admitted(policy, r, qs, account, from, to) == Drawn(policy, r, Until(qs, to), account)
    ensures Forward(t, Until(qs, to)) <= Max(0, to - t)
    decreases |qs|
  {
    if qs != [] {
      if qs[0].now > to {
        UnrollAdmitted(policy, r, qs, account, from, to);
        NothingAfter(policy, Serve(policy, r, qs[0]).0, qs[0].now, qs[1..], account, from, to);
      } else {
        UnrollAdmitted(policy, r, qs, account, from, to);
        assert t <= qs[0].now && Ordered(qs[0].now, qs[1..]);
        var head := Until(qs, to);
        assert head[0] == qs[0] && head[1..] == Until(qs[1..], to);
        assert KindsKnown(policy, head);
        UnrollDrawn(policy, r, head, account);
        hide Serve, Sized, KindsKnown, Admitted, Drawn, Ordered, Until;
        WindowIsAStretch(policy, Serve(policy, r, qs[0]).0, qs[0].now, qs[1..], account, from, to);
      }
    }
  }

  /**
  For readings in order, in every window of length W an account is admitted at most
  burst + W / interval times, through any evictions, refusals and re-creations.
  */
  lemma {:induction false} WindowBound(
    policy: Policy, r: Registry, t: Time, qs: seq<Request>, account: Account, from: Time, w: nat)
    requires RefillsWhenIdle(policy) && KindsKnown(policy, qs) && Sized(policy, r) && HasAccount(policy, account)
    requires Ordered(t, qs)
    ensures Admitted(policy, r, qs, account, from, from + w)
         <= LimitOf(policy, account).burst + w / LimitOf(policy, account).interval
    decreases |qs|
  {
    var l := LimitOf(policy, account);
    if qs != [] {
      var q := qs[0];
      UnrollAdmitted(policy, r, qs, account, from, from + w);
      hide Serve, Sized, KindsKnown, Admitted, Drawn, Until, Owed;
      if q.now < from {
        WindowBound(policy, Serve(policy, r, q).0, q.now, qs[1..], account, from, w);
      } else {
        WindowIsAStretch(policy, r, q.now, qs, account, from, from + w);
        DrawnIsPaidFor(policy, r, q.now, Until(qs, from + w), account);
        OwedBounds(policy, r, account, q.now);
        PaidWithin(Admitted(policy, r, qs, account, from, from + w), l, w);
      }
    }
  }

  // ----- readings out of order ------------------------------------------------------

  /** A policy of one limit, and no global one. */
  ghost predicate Single(policy: Policy, l: Limit) {
    && policy.limits == [l] && policy.global == None
    && 0 < l.interval && 0 < l.burst && Capacity(l) <= policy.idle
    && 0 < policy.sweepEvery && 0 < policy.max
  }

  /** One interval back and one interval forth again, `n` times. */
  function BackAndForth(i: nat, key: string, n: nat): seq<Request> {
    if n == 0 then [] else [Request(0, key, 0), Request(i, key, 0)] + BackAndForth(i, key, n - 1)
  }

  /** One client is known, the registry has been swept at the reading `swept`. */
  function OneClient(key: string, last: Time, credit: nat, swept: Time): Registry {
    Registry(map[key := Client(last, [Used(last, credit)])], Full, Some(swept))
  }

  lemma ServedFirst(policy: Policy, l: Limit, key: string, now: Time)
    requires Single(policy, l) && l.interval <= Capacity(l)
    ensures Sized(policy, EMPTY)
    ensures Serve(policy, EMPTY, Request(now, key, 0)) == (OneClient(key, now, Capacity(l) - l.interval, now), Allowed)
  {
    var served := Serve(policy, EMPTY, Request(now, key, 0)).0;
    assert Sweep(policy, EMPTY, now).clients == map[];
    assert NewClient(policy, now).buckets == [Full];
    assert served.clients[key].buckets == [Used(now, Capacity(l) - l.interval)];
    assert served.clients == OneClient(key, now, Capacity(l) - l.interval, now).clients;
  }

  lemma ServedAgain(policy: Policy, l: Limit, key: string, last: Time, credit: nat, swept: Time, now: Time)
    requires Single(policy, l) && now <= swept
    requires l.interval <= Min(Capacity(l), credit + Max(0, now - last))
    ensures Sized(policy, OneClient(key, last, credit, swept))
    ensures Serve(policy, OneClient(key, last, credit, swept), Request(now, key, 0))
         == (OneClient(key, now, Min(Capacity(l), credit + Max(0, now - last)) - l.interval, swept), Allowed)
  {
    var r := OneClient(key, last, credit, swept);
    var left := Min(Capacity(l), credit + Max(0, now - last)) - l.interval;
    var served := Serve(policy, r, Request(now, key, 0)).0;
    assert !SweepDue(policy, r, now);
    assert served.clients[key].buckets == [Used(now, left)];
    assert served.clients == OneClient(key, now, left, swept).clients;
  }

  /** What is counted of a run whose first request is admitted to the account. */
  lemma CountFirst(policy: Policy, r: Registry, qs: seq<Request>, r': Registry, key: string, to: Time)
    requires qs != [] && KindsKnown(policy, qs) && Sized(policy, r)
    requires qs[0].key == key && qs[0].kind == 0 && 0 <= qs[0].now <= to
    requires qs[0].kind < |policy.limits| && Serve(policy, r, qs[0]) == (r', Allowed)
    ensures KindsKnown(policy, qs[1..]) && Sized(policy, r')
    ensures Admitted(policy, r, qs, Own(key, 0), 0, to) == 1 + Admitted(policy, r', qs[1..], Own(key, 0), 0, to)
    ensures Drawn(policy, r, qs, Own(key, 0)) == 1 + Drawn(policy, r', qs[1..], Own(key, 0))
  {
    UnrollAdmitted(policy, r, qs, Own(key, 0), 0, to);
    UnrollDrawn(policy, r, qs, Own(key, 0));
  }

  lemma CostWithin(n: nat, l: Limit)
    requires n <= l.burst
    ensures Cost(n, l) <= Capacity(l) == Cost(l.burst, l)
  {
    assert n * l.interval <= l.burst * l.interval;
  }

  lemma BackAndForthUnrolls(i: nat, key: string, n: nat)
    requires n > 0
    ensures var qs := BackAndForth(i, key, n);
      && |qs| > 1 && qs[0] == Request(0, key, 0)
      && qs[1..][0] == Request(i, key, 0) && qs[1..][1..] == BackAndForth(i, key, n - 1)
      && Forward(i, qs) == i + Forward(i, BackAndForth(i, key, n - 1))
      && (forall q :: q in qs ==> q.kind == 0)
    decreases n
  {
    if n > 1 {
      BackAndForthUnrolls(i, key, n - 1);
    }
    var qs, rest := BackAndForth(i, key, n), BackAndForth(i, key, n - 1);
    assert qs[1..] == [Request(i, key, 0)] + rest && qs[1..][1..] == rest;
    assert Forward(i, qs) == Forward(0, qs[1..]) == i + Forward(i, rest);
    assert forall q :: q in qs ==> q == qs[0] || q == qs[1] || q in rest;
  }

  lemma ServedBack(policy: Policy, l: Limit, key: string, n: nat)
    requires Single(policy, l) && 0 < n < l.burst
    ensures var i := l.interval;
      var full, back, again := OneClient(key, i, Cost(n, l), i), OneClient(key, 0, Cost(n - 1, l), i),
                               OneClient(key, i, Cost(n - 1, l), i);
      && Sized(policy, full) && Serve(policy, full, Request(0, key, 0)) == (back, Allowed)
      && Sized(policy, back) && Serve(policy, back, Request(i, key, 0)) == (again, Allowed)
  {
    OneMoreCosts(n - 1, l);
    CostWithin(n, l);
    hide Serve, OneClient, Cost, Capacity, Single, Sized;
    ServedAgain(policy, l, key, l.interval, Cost(n, l), l.interval, 0);
    ServedAgain(policy, l, key, 0, Cost(n - 1, l), l.interval, l.interval);
  }

  lemma {:induction false} BackAndForthIsAdmitted(policy: Policy, l: Limit, key: string, n: nat)
    requires Single(policy, l) && n < l.burst
    ensures var i := l.interval;
      var r, qs := OneClient(key, i, Cost(n, l), i), BackAndForth(i, key, n);
      && KindsKnown(policy, qs) && Sized(policy, r)
      && Admitted(policy, r, qs, Own(key, 0), 0, i) == Drawn(policy, r, qs, Own(key, 0)) == 2 * n
      && Forward(i, qs) == Cost(n, l)
    decreases n
  {
    if n > 0 {
      var i := l.interval;
      var qs := BackAndForth(i, key, n);
      BackAndForthIsAdmitted(policy, l, key, n - 1);
      OneMoreCosts(n - 1, l);
      BackAndForthUnrolls(i, key, n);
      ServedBack(policy, l, key, n);
      assert KindsKnown(policy, qs);
      hide Serve, OneClient, Admitted, Drawn, KindsKnown, Sized, BackAndForth, Single, Cost, Forward;
      var full, back, again :=
        OneClient(key, i, Cost(n, l), i), OneClient(key, 0, Cost(n - 1, l), i), OneClient(key, i, Cost(n - 1, l), i);
      CountFirst(policy, full, qs, back, key, i);
      CountFirst(policy, back, qs[1..], again, key, i);
    }
  }

  /**
  The order of the readings matters to the window. Under any single limit, requests
  whose readings go back and forth within one interval are admitted 2 * burst - 1
  times: more than a window of that length allows exactly when the burst is above 2.
  And the bound for readings in any order is met to the last nanosecond.
  */
  lemma BackwardReadingsBreakTheWindow(policy: Policy, l: Limit, key: string)
    requires Single(policy, l)
    ensures var i := l.interval;
      var qs := [Request(i, key, 0)] + BackAndForth(i, key, l.burst - 1);
      && KindsKnown(policy, qs) && Sized(policy, EMPTY)
      && Admitted(policy, EMPTY, qs, Own(key, 0), 0, i) == 2 * l.burst - 1
      && (l.burst > 2 <==> 2 * l.burst - 1 > l.burst + i / i)
      && Cost(Drawn(policy, EMPTY, qs, Own(key, 0)), l) == Capacity(l) + Forward(qs[0].now, qs)
  {
    var i, n := l.interval, l.burst - 1;
    var rest := BackAndForth(i, key, n);
    var qs := [Request(i, key, 0)] + rest;
    BackAndForthIsAdmitted(policy, l, key, n);
    CostWithin(l.burst, l);
    OneMoreCosts(n, l);
    CostOfBoth(l.burst, n, l);
    ServedFirst(policy, l, key, i);
    assert qs[1..] == rest && KindsKnown(policy, qs) && Forward(i, qs) == Forward(i, rest);
    hide Serve, Admitted, Drawn, BackAndForth, OneClient, Cost, Capacity, KindsKnown, Sized, Single, Forward;
    CountFirst(policy, EMPTY, qs, OneClient(key, i, Cost(n, l), i), key, i);
  }

  lemma CostOfBoth(m: nat, n: nat, l: Limit)
    ensures Cost(m + n, l) == Cost(m, l) + Cost(n, l)
  {
  }
}
