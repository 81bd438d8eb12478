/** Invariants of the share tables over whole runs, and what each operation means. */
module ShareProperties {
  import opened Common
  import opened EncryptedText
  import opened Shares

  // ----- the shape of the tables ----------------------------------------------

  /** Every row has exactly one payload, of its kind and privacy, and no payload lacks a row. */
  ghost predicate Shape(t: Tables) {
    && (forall id :: id in t.shares ==> RowShape(t, id))
    && t.texts.Keys <= t.shares.Keys
    && t.encrypted.Keys <= t.shares.Keys
    && t.files.Keys <= t.shares.Keys
    && (forall a, b :: a in t.files && b in t.files && t.files[a].key == t.files[b].key ==> a == b)
  }

  ghost predicate RowShape(t: Tables, id: string)
    requires id in t.shares
  {
    var m := t.shares[id];
    && ValidShareId(id)
    && (id in t.texts <==> m.kind == TextKind && m.privacy == Standard)
    && (id in t.encrypted <==> m.kind == TextKind && m.privacy == Encrypted)
    && (id in t.files <==> m.kind == FileKind)
    && !(m.kind == FileKind && m.privacy == Encrypted)
    && (id in t.texts ==> ValidText(t.texts[id]))
    && (id in t.encrypted ==> ValidCiphertext(t.encrypted[id]))
    && (id in t.files ==> ValidFile(t.files[id]))
  }

  /** A created row is new, of its payload's kind, and adds that one payload. */
  lemma CreatedRowShape(
    env: Env, t: Tables, now: Instant, id: string, token: string, payload: Payload, expiration: Option<Instant>)
    requires Shape(t) && ValidShareId(id)
    requires Create(env, t, now, id, token, payload, expiration).Ok?
    ensures id !in t.shares && RowShape(Create(env, t, now, id, token, payload, expiration).value.0, id)
  {
    hide ValidShareId, ValidText, ValidFile, ValidCiphertext, NormalizeExpiration;
  }

  lemma CreateTouchesOneRow(
    env: Env, t: Tables, now: Instant, id: string, token: string, payload: Payload, expiration: Option<Instant>)
    requires Create(env, t, now, id, token, payload, expiration).Ok?
    ensures var t2 := Create(env, t, now, id, token, payload, expiration).value.0;
      && id in t2.shares && t2.shares == t.shares[id := t2.shares[id]]
      && (t2.texts == t.texts || (id in t2.texts && t2.texts == t.texts[id := t2.texts[id]]))
      && (t2.encrypted == t.encrypted || (id in t2.encrypted && t2.encrypted == t.encrypted[id := t2.encrypted[id]]))
      && (t2.files == t.files || (id in t2.files && t2.files == t.files[id := t2.files[id]]
                                  && !KeyUsed(t, t2.files[id].key)))
  {
    hide ValidText, ValidFile, ValidCiphertext, NormalizeExpiration;
  }

  lemma SameRowSameShape(t: Tables, t2: Tables, id: string)
    requires id in t.shares && id in t2.shares && t2.shares[id] == t.shares[id] && RowShape(t, id)
    requires id in t.texts <==> id in t2.texts
    requires id in t.texts ==> t.texts[id] == t2.texts[id]
    requires id in t.encrypted <==> id in t2.encrypted
    requires id in t.encrypted ==> t.encrypted[id] == t2.encrypted[id]
    requires id in t.files <==> id in t2.files
    requires id in t.files ==> t.files[id] == t2.files[id]
    ensures RowShape(t2, id)
  {
    hide ValidShareId, ValidText, ValidCiphertext, ValidFile;
  }

  lemma CreateKeepsShape(
    env: Env, t: Tables, now: Instant, id: string, token: string, payload: Payload, expiration: Option<Instant>)
    requires Shape(t) && ValidShareId(id)
    requires Create(env, t, now, id, token, payload, expiration).Ok?
    ensures Shape(Create(env, t, now, id, token, payload, expiration).value.0)
  {
    hide RowShape, ValidShareId, Create;
    CreatedRowShape(env, t, now, id, token, payload, expiration);
    var t2 := Create(env, t, now, id, token, payload, expiration).value.0;
    CreateTouchesOneRow(env, t, now, id, token, payload, expiration);
    forall other | other in t2.shares && other != id ensures RowShape(t2, other) {
      assert RowShape(t, other);
      SameRowSameShape(t, t2, other);
    }
  }

  /** What stays of a row under any patch of its metadata. */
  lemma PatchMetaKeeps(env: Env, m: Meta, patch: Patch, now: Instant)
    requires PatchMeta(env, m, patch, now).Ok?
    ensures var m2 := PatchMeta(env, m, patch, now).value;
      m2 == m.(updatedAt := UnixMilli(now), expiresAt := m2.expiresAt)
  {
  }

  lemma UpdateParts(env: Env, t: Tables, now: Instant, id: string, candidate: string, patch: Patch)
    requires Update(env, t, now, id, candidate, patch).Ok?
    ensures Authorize(env, t, id, candidate, now).Ok? && id in t.shares
    ensures PatchPayload(t, t.shares[id], id, patch).Ok?
    ensures PatchMeta(env, t.shares[id], patch, now).Ok?
    ensures var (t2, share) := Update(env, t, now, id, candidate, patch).value;
      var t1 := PatchPayload(t, t.shares[id], id, patch).value;
      && t2 == t1.(shares := t1.shares[id := PatchMeta(env, t.shares[id], patch, now).value])
      && LoadActive(t2, id, now) == Ok(share)
  {
    hide PatchPayload, PatchMeta, LoadActive, VerifyOwnerToken;
  }

  lemma PatchPayloadParts(t: Tables, id: string, patch: Patch)
    requires Shape(t) && id in t.shares
    ensures PatchPayload(t, t.shares[id], id, patch).Ok? <==> PatchFits(t.shares[id], patch)
    ensures PatchFits(t.shares[id], patch) ==>
      var t1 := PatchPayload(t, t.shares[id], id, patch).value;
      && t1.shares == t.shares && t1.files == t.files
      && t1.texts == (if patch.text.Some? then t.texts[id := patch.text.value] else t.texts)
      && t1.encrypted == (if patch.encrypted.Some? then t.encrypted[id := patch.encrypted.value] else t.encrypted)
  {
    hide ValidShareId, ValidText, ValidCiphertext, ValidFile;
    assert RowShape(t, id);
  }

  lemma PatchedShape(t: Tables, id: string, patch: Patch, m2: Meta)
    requires Shape(t) && id in t.shares && PatchFits(t.shares[id], patch)
    requires m2.kind == t.shares[id].kind && m2.privacy == t.shares[id].privacy
    ensures Shape(Tables(
      t.shares[id := m2],
      if patch.text.Some? then t.texts[id := patch.text.value] else t.texts,
      if patch.encrypted.Some? then t.encrypted[id := patch.encrypted.value] else t.encrypted,
      t.files))
  {
    hide ValidShareId, ValidText, ValidCiphertext, ValidFile;
    assert RowShape(t, id);
    forall other | other in t.shares && other != id
      ensures RowShape(t, other)
    {
    }
  }

  lemma UpdateKeepsShape(env: Env, t: Tables, now: Instant, id: string, candidate: string, patch: Patch)
    requires Shape(t) && Update(env, t, now, id, candidate, patch).Ok?
    ensures Shape(Update(env, t, now, id, candidate, patch).value.0)
  {
    hide PatchPayload, PatchMeta, Shape, PatchFits, Update, Authorize;
    UpdateParts(env, t, now, id, candidate, patch);
    PatchPayloadParts(t, id, patch);
    PatchMetaKeeps(env, t.shares[id], patch, now);
    PatchedShape(t, id, patch, PatchMeta(env, t.shares[id], patch, now).value);
    var t1 := PatchPayload(t, t.shares[id], id, patch).value;
    var m2 := PatchMeta(env, t.shares[id], patch, now).value;
    assert Update(env, t, now, id, candidate, patch).value.0
        == Tables(t.shares[id := m2], t1.texts, t1.encrypted, t.files);
  }

  lemma RemovalKeepsShape(t: Tables, gone: set<string>)
    requires Shape(t)
    ensures Shape(Tables(t.shares - gone, t.texts - gone, t.encrypted - gone, t.files - gone))
  {
    forall id | id in t.shares && id !in gone
      ensures RowShape(Tables(t.shares - gone, t.texts - gone, t.encrypted - gone, t.files - gone), id)
    {
      assert RowShape(t, id);
    }
  }

  lemma ApplyKeepsShape(env: Env, t: Tables, op: Op)
    requires Shape(t) && (op.CreateOp? ==> ValidShareId(op.id))
    ensures Shape(Apply(env, t, op))
  {
    match op
    case CreateOp(now, id, token, payload, expiration) =>
      if Create(env, t, now, id, token, payload, expiration).Ok? {
        CreateKeepsShape(env, t, now, id, token, payload, expiration);
      }
    case UpdateOp(now, id, candidate, patch) =>
      if Update(env, t, now, id, candidate, patch).Ok? {
        UpdateKeepsShape(env, t, now, id, candidate, patch);
      }
    case DeleteOp(_, id, _) => RemovalKeepsShape(t, {id});
    case AdminDeleteOp(id) => RemovalKeepsShape(t, {id});
    case PurgeOp(now, selected) =>
      RemovalKeepsShape(t, set id | id in selected && id in t.shares && SqlExpired(t.shares[id].expiresAt, now));
  }

  lemma {:induction false} RunKeepsShape(env: Env, t: Tables, ops: seq<Op>)
    requires Shape(t) && GeneratedIds(ops)
    ensures Shape(Run(env, t, ops))
    decreases |ops|
  {
    hide ValidShareId, Shape, Apply;
    if ops != [] {
      assert ops[0] in ops;
      ApplyKeepsShape(env, t, ops[0]);
      RunKeepsShape(env, Apply(env, t, ops[0]), ops[1..]);
    }
  }

  /** Reading never meets a payload that does not fit its row, in any run from the empty tables. */
  lemma ReadsNeverMismatch(env: Env, ops: seq<Op>, id: string, now: Instant)
    requires GeneratedIds(ops)
    ensures var t := Run(env, EMPTY, ops);
      && Shape(t)
      && (LoadActive(t, id, now).Err? ==> LoadActive(t, id, now).error in {NotFound, Expired})
  {
    RunKeepsShape(env, EMPTY, ops);
    var t := Run(env, EMPTY, ops);
    assert id in t.shares ==> RowShape(t, id);
  }

  // ----- public retention -----------------------------------------------------

  ghost predicate Retained(policy: Retention, m: Meta) {
    m.expiresAt.Some? && m.expiresAt.value * MS <= m.createdAt * MS + policy.maxTTL
  }

  ghost predicate AllRetained(policy: Retention, t: Tables) {
    forall id :: id in t.shares ==> Retained(policy, t.shares[id])
  }

  lemma NewRowRetained(env: Env, payload: Payload, token: string, clock: Instant, expiration: Option<Instant>)
    requires env.retention.public && ValidRetention(env.retention)
    requires NormalizeExpiration(env.retention, expiration, ServerNow(clock)).Ok?
    ensures Retained(env.retention,
      NewMeta(env, payload, token, ServerNow(clock),
        NormalizeExpiration(env.retention, expiration, ServerNow(clock)).value))
  {
  }

  lemma PatchedRowRetained(env: Env, m: Meta, patch: Patch, now: Instant)
    requires env.retention.public && Retained(env.retention, m)
    requires PatchMeta(env, m, patch, now).Ok?
    ensures Retained(env.retention, PatchMeta(env, m, patch, now).value)
  {
  }

  /** Clock readings are truncated; nothing else is asked of them. */
  predicate TruncatedReadings(ops: seq<Op>) {
    forall op :: op in ops && op.CreateOp? ==> op.now == ServerNow(op.now)
  }

  lemma ApplyKeepsRetention(env: Env, t: Tables, op: Op)
    requires env.retention.public && ValidRetention(env.retention) && AllRetained(env.retention, t)
    requires op.CreateOp? ==> op.now == ServerNow(op.now)
    ensures AllRetained(env.retention, Apply(env, t, op))
  {
    hide LoadActive, Authorize, ValidatePayload, NormalizeExpiration, ValidText, ValidCiphertext, ValidFile;
    match op
    case CreateOp(now, id, token, payload, expiration) =>
      if Create(env, t, now, id, token, payload, expiration).Ok? {
        NewRowRetained(env, payload, token, now, expiration);
      }
    case UpdateOp(now, id, candidate, patch) =>
      if Update(env, t, now, id, candidate, patch).Ok? {
        UpdateParts(env, t, now, id, candidate, patch);
        PatchedRowRetained(env, t.shares[id], patch, now);
      }
    case _ =>
  }

  /**
  Under a fixed public policy every row of every run expires no later than its
  creation plus the maximum, whatever order the clock readings come in.
  */
  lemma {:induction false} RunKeepsRetention(env: Env, t: Tables, ops: seq<Op>)
    requires env.retention.public && ValidRetention(env.retention) && AllRetained(env.retention, t)
    requires TruncatedReadings(ops)
    ensures AllRetained(env.retention, Run(env, t, ops))
    decreases |ops|
  {
    if ops != [] {
      assert ops[0] in ops;
      ApplyKeepsRetention(env, t, ops[0]);
      RunKeepsRetention(env, Apply(env, t, ops[0]), ops[1..]);
    }
  }

  /** So past the horizon of a share every owner and public operation refuses it. */
  lemma NoReadPastTheHorizon(env: Env, ops: seq<Op>, id: string, clock: Instant, candidate: string, patch: Patch)
    requires env.retention.public && ValidRetention(env.retention) && TruncatedReadings(ops)
    requires id in Run(env, EMPTY, ops).shares
    requires clock >= Run(env, EMPTY, ops).shares[id].createdAt * MS + env.retention.maxTTL
    ensures var t := Run(env, EMPTY, ops);
      && LoadActive(t, id, ServerNow(clock)) == Err(Expired)
      && Authorize(env, t, id, candidate, ServerNow(clock)) == Err(Expired)
      && Update(env, t, ServerNow(clock), id, candidate, patch).Err?
      && Delete(env, t, ServerNow(clock), id, candidate) == Err(Expired)
  {
    var t := Run(env, EMPTY, ops);
    RunKeepsRetention(env, EMPTY, ops);
    ExpiryTestsAgree(t.shares[id].expiresAt, clock);
  }

  // ----- create, then read ----------------------------------------------------

  /**
  The share that a creation returns is the share that a read finds, exactly when no
  default lifetime with a fraction of a millisecond was used: the answer carries the
  fraction and the table does not.
  */
  lemma CreateThenGet(
    env: Env, t: Tables, clock: Instant, id: string, token: string, payload: Payload, expiration: Option<Instant>)
    requires Shape(t) && ValidShareId(id) && ValidRetention(env.retention)
    requires Create(env, t, ServerNow(clock), id, token, payload, expiration).Ok?
    ensures var (t', share) := Create(env, t, ServerNow(clock), id, token, payload, expiration).value;
      LoadActive(t', id, ServerNow(clock)) == Ok(share)
      <==> (env.retention.public && expiration.None? ==> env.retention.defaultTTL % MS == 0)
  {
    hide Shape, Create, LoadActive, IsExpired, NormalizeExpiration;
    var now := ServerNow(clock);
    var (t', share) := Create(env, t, now, id, token, payload, expiration).value;
    CreateKeepsShape(env, t, now, id, token, payload, expiration);
    CreateParts(env, t, now, id, token, payload, expiration);
    WellShapedRowLoads(t', id, now);
    NewExpiry(env.retention, expiration, clock);
  }

  lemma CreateParts(
    env: Env, t: Tables, now: Instant, id: string, token: string, payload: Payload, expiration: Option<Instant>)
    requires Shape(t) && ValidShareId(id)
    requires Create(env, t, now, id, token, payload, expiration).Ok?
    ensures NormalizeExpiration(env.retention, expiration, now).Ok?
    ensures var (t', share) := Create(env, t, now, id, token, payload, expiration).value;
      var expiresAt := NormalizeExpiration(env.retention, expiration, now).value;
      && id !in t.shares
      && t'.shares == t.shares[id := NewMeta(env, payload, token, now, expiresAt)]
      && share == Share(id, KindOf(payload), PrivacyOf(payload), payload, now, now, expiresAt)
      && (LoadActive(t', id, now).Ok? ==>
            LoadActive(t', id, now).value == share.(
              createdAt := UnixMilli(now) * MS, updatedAt := UnixMilli(now) * MS,
              expiresAt := FromMillis(NullableMillis(expiresAt))))
  {
    hide ValidShareId, ValidText, ValidCiphertext, ValidFile, NormalizeExpiration, IsExpired;
  }

  lemma NewExpiry(policy: Retention, expiration: Option<Instant>, clock: Instant)
    requires ValidRetention(policy) && NormalizeExpiration(policy, expiration, ServerNow(clock)).Ok?
    ensures var expiresAt := NormalizeExpiration(policy, expiration, ServerNow(clock)).value;
      && UnixMilli(ServerNow(clock)) * MS == ServerNow(clock)
      && (!IsExpired(FromMillis(NullableMillis(expiresAt)), ServerNow(clock))
          && FromMillis(NullableMillis(expiresAt)) == expiresAt
          <==> (policy.public && expiration.None? ==> policy.defaultTTL % MS == 0))
  {
    var expiresAt := NormalizeExpiration(policy, expiration, ServerNow(clock)).value;
    StoredExpiry(expiresAt, clock);
  }

  lemma StoredExpiry(expiresAt: Option<Instant>, now: Instant)
    ensures FromMillis(NullableMillis(expiresAt)) == expiresAt <==> (expiresAt.Some? ==> expiresAt.value % MS == 0)
    ensures UnixMilli(ServerNow(now)) * MS == ServerNow(now)
  {
  }

  // ----- update ---------------------------------------------------------------

  /** Which patches a live row of the given kind and privacy takes. */
  ghost predicate PatchFits(m: Meta, patch: Patch) {
    && (patch.text.Some? ==> m.kind == TextKind && m.privacy == Standard && ValidText(patch.text.value))
    && (patch.encrypted.Some? ==>
          m.kind == TextKind && m.privacy == Encrypted && ValidCiphertext(patch.encrypted.value))
  }

  ghost predicate ExpirationFits(policy: Retention, m: Meta, patch: Patch, now: Instant) {
    patch.expirationSet ==>
      match patch.expiresAt
      case None => !policy.public
      case Some(e) =>
        UnixMilli(e) * MS > now && (policy.public ==> UnixMilli(e) * MS <= m.createdAt * MS + policy.maxTTL)
  }

  lemma PatchMetaOkIff(env: Env, m: Meta, patch: Patch, now: Instant)
    ensures PatchMeta(env, m, patch, now).Ok? <==> ExpirationFits(env.retention, m, patch, now)
    ensures PatchMeta(env, m, patch, now).Ok? && patch.expirationSet
      ==> PatchMeta(env, m, patch, now).value.expiresAt == NullableMillis(patch.expiresAt)
    ensures PatchMeta(env, m, patch, now).Ok? && !IsExpired(FromMillis(m.expiresAt), now)
      ==> !IsExpired(FromMillis(PatchMeta(env, m, patch, now).value.expiresAt), now)
  {
    if patch.expirationSet && patch.expiresAt.Some? {
      StoredMillis(patch.expiresAt.value);
    }
  }

  lemma WellShapedRowLoads(t: Tables, id: string, now: Instant)
    requires Shape(t) && id in t.shares
    ensures LoadActive(t, id, now).Ok? <==> !IsExpired(FromMillis(t.shares[id].expiresAt), now)
  {
    hide ValidShareId, ValidText, ValidCiphertext, ValidFile, IsExpired;
    assert RowShape(t, id);
    assert id in t.files ==> ValidFile(t.files[id]);
    FileHasDigest(t, id);
  }

  /** The share that a row and its one payload hold. */
  function StoredShare(t: Tables, id: string): Share
    requires id in t.shares && (id in t.files || id in t.texts || id in t.encrypted)
  {
    var m := t.shares[id];
    var payload :=
      if id in t.files then FilePayload(t.files[id])
      else if id in t.texts then TextPayload(t.texts[id])
      else EncryptedPayload(t.encrypted[id]);
    Share(id, m.kind, m.privacy, payload, m.createdAt * MS, m.updatedAt * MS, FromMillis(m.expiresAt))
  }

  lemma ActiveShareIsStored(t: Tables, id: string, now: Instant)
    requires Shape(t) && id in t.shares
    ensures id in t.files || id in t.texts || id in t.encrypted
    ensures LoadActive(t, id, now).Ok? ==> LoadActive(t, id, now) == Ok(StoredShare(t, id))
    ensures LoadActive(t, id, now).Ok? <==> !IsExpired(FromMillis(t.shares[id].expiresAt), now)
  {
    WellShapedRowLoads(t, id, now);
    hide ValidShareId, ValidText, ValidCiphertext, ValidFile, IsExpired;
    assert RowShape(t, id);
  }

  lemma FileHasDigest(t: Tables, id: string)
    requires Shape(t) && id in t.shares
    ensures id in t.files ==> |t.files[id].sha256| == 32
  {
    hide ValidShareId, ValidText, ValidCiphertext;
    assert RowShape(t, id);
  }

  /** On well-shaped tables an update succeeds exactly on these conditions, and never half-way. */
  lemma UpdateSucceedsIff(env: Env, t: Tables, now: Instant, id: string, candidate: string, patch: Patch)
    requires Shape(t)
    ensures Update(env, t, now, id, candidate, patch).Ok? <==>
      && id in t.shares
      && !IsExpired(FromMillis(t.shares[id].expiresAt), now)
      && VerifyOwnerToken(env, candidate, t.shares[id].verifier)
      && (patch.text.Some? || patch.encrypted.Some? || patch.expirationSet)
      && PatchFits(t.shares[id], patch)
      && ExpirationFits(env.retention, t.shares[id], patch, now)
  {
    hide PatchPayload, PatchMeta, Shape, PatchFits, ExpirationFits, LoadActive, VerifyOwnerToken, IsExpired;
    if id in t.shares {
      var m := t.shares[id];
      PatchPayloadParts(t, id, patch);
      PatchMetaOkIff(env, m, patch, now);
      if !IsExpired(FromMillis(m.expiresAt), now) && PatchFits(m, patch)
         && ExpirationFits(env.retention, m, patch, now)
      {
        var t1 := PatchPayload(t, m, id, patch).value;
        var m2 := PatchMeta(env, m, patch, now).value;
        PatchMetaKeeps(env, m, patch, now);
        PatchedShape(t, id, patch, m2);
        var t2 := t1.(shares := t1.shares[id := m2]);
        assert t2 == Tables(t.shares[id := m2], t1.texts, t1.encrypted, t.files);
        WellShapedRowLoads(t2, id, now);
      }
    }
  }

  /** A successful update changes the patched parts of one share and its update time, and nothing else. */
  lemma UpdateChangesOnlyThePatch(env: Env, t: Tables, now: Instant, id: string, candidate: string, patch: Patch)
    requires Shape(t) && Update(env, t, now, id, candidate, patch).Ok?
    ensures var (t', share) := Update(env, t, now, id, candidate, patch).value;
      && id in t.shares
      && t'.shares == t.shares[id := t.shares[id].(
           updatedAt := UnixMilli(now),
           expiresAt := if patch.expirationSet then NullableMillis(patch.expiresAt) else t.shares[id].expiresAt)]
      && t'.texts == (if patch.text.Some? then t.texts[id := patch.text.value] else t.texts)
      && t'.encrypted == (if patch.encrypted.Some? then t.encrypted[id := patch.encrypted.value] else t.encrypted)
      && t'.files == t.files
      && LoadActive(t', id, now) == Ok(share)
  {
    hide PatchPayload, Shape, PatchFits, ExpirationFits, LoadActive, Update, Authorize, IsExpired;
    UpdateParts(env, t, now, id, candidate, patch);
    PatchPayloadParts(t, id, patch);
    PatchMetaOkIff(env, t.shares[id], patch, now);
  }

  lemma StoredMillis(e: Instant)
    ensures UnixMilli(e / MS * MS) == UnixMilli(e)
  {
  }

  // ----- no revival -----------------------------------------------------------

  ghost predicate Dead(t: Tables, id: string, now: Instant) {
    id in t.shares ==> IsExpired(FromMillis(t.shares[id].expiresAt), now)
  }

  /** The clock readings of the operations that have one, from `start` on. */
  ghost predicate NotBefore(op: Op, start: Instant) {
    match op
    case CreateOp(now, _, _, _, _) => start <= now
    case UpdateOp(now, _, _, _) => start <= now
    case DeleteOp(now, _, _) => start <= now
    case AdminDeleteOp(_) => true
    case PurgeOp(now, _) => start <= now
  }

  lemma ApplyKeepsDead(env: Env, t: Tables, op: Op, id: string, start: Instant)
    requires Dead(t, id, start) && NotBefore(op, start) && !(op.CreateOp? && op.id == id)
    ensures Dead(Apply(env, t, op), id, start)
  {
    hide ValidShareId, ValidText, ValidFile, ValidCiphertext, VerifyOwnerToken;
  }

  /**
  When no operation acts on a reading older than `start`, a share dead at `start`
  stays dead: unless its identifier is issued again, each later operation by its
  owner or by a reader answers that it is expired or not found.
  */
  lemma {:induction false} NoRevival(
    env: Env, t: Tables, ops: seq<Op>, id: string, start: Instant, now: Instant, candidate: string, patch: Patch)
    requires Dead(t, id, start) && start <= now
    requires forall op :: op in ops ==> NotBefore(op, start) && !(op.CreateOp? && op.id == id)
    ensures var t' := Run(env, t, ops);
      && LoadActive(t', id, now) in {Err(Expired), Err(NotFound)}
      && Authorize(env, t', id, candidate, now) in {Err(Expired), Err(NotFound)}
      && Delete(env, t', now, id, candidate) in {Err(Expired), Err(NotFound)}
      && Update(env, t', now, id, candidate, patch) in {Err(Expired), Err(NotFound), Err(EmptyPatch)}
    decreases |ops|
  {
    if ops != [] {
      assert ops[0] in ops;
      ApplyKeepsDead(env, t, ops[0], id, start);
      NoRevival(env, Apply(env, t, ops[0]), ops[1..], id, start, now, candidate, patch);
    }
  }

  /** The operation is an update of the share that goes through and sets an expiry after `later`, or none. */
  ghost predicate Revives(env: Env, t: Tables, op: Op, id: string, later: Instant) {
    && op.UpdateOp? && op.id == id && id in t.shares
    && !IsExpired(FromMillis(t.shares[id].expiresAt), op.now)
    && VerifyOwnerToken(env, op.candidate, t.shares[id].verifier)
    && PatchFits(t.shares[id], op.patch)
    && ExpirationFits(env.retention, t.shares[id], op.patch, op.now)
    && op.patch.expirationSet
    && (op.patch.expiresAt.Some? ==> later < UnixMilli(op.patch.expiresAt.value) * MS)
  }

  /**
  Exactly when a share that is dead at `later` lives again, under either policy: an
  update with a reading from before the share's expiry, with everything in order,
  moves the expiry past `later` or takes it away. So its reading is older than `later`.
  */
  lemma RevivedIff(env: Env, t: Tables, op: Op, id: string, later: Instant)
    requires Shape(t) && id in t.shares && Dead(t, id, later)
    ensures !Dead(Apply(env, t, op), id, later) <==> Revives(env, t, op, id, later)
    ensures Revives(env, t, op, id, later) ==> op.now < later
    ensures Revives(env, t, op, id, later) ==> LoadActive(Apply(env, t, op), id, later).Ok?
  {
    hide Shape, PatchFits, ExpirationFits, LoadActive, VerifyOwnerToken, Apply;
    if op.UpdateOp? {
      UpdateRevivesIff(env, t, op, id, later);
      if Revives(env, t, op, id, later) {
        ApplyKeepsShapeOfUpdate(env, t, op);
        WellShapedRowLoads(Apply(env, t, op), id, later);
      }
    } else {
      OnlyUpdatesRevive(env, t, op, id, later);
    }
  }

  lemma ApplyKeepsShapeOfUpdate(env: Env, t: Tables, op: Op)
    requires Shape(t) && op.UpdateOp?
    ensures Shape(Apply(env, t, op))
  {
    hide Shape, Update;
    if Update(env, t, op.now, op.id, op.candidate, op.patch).Ok? {
      UpdateKeepsShape(env, t, op.now, op.id, op.candidate, op.patch);
    }
  }

  lemma UpdatedExpiry(env: Env, t: Tables, op: Op, id: string)
    requires op.UpdateOp? && Shape(t) && id in t.shares
    ensures id in Apply(env, t, op).shares
    ensures Apply(env, t, op).shares[id].expiresAt
         == if op.id == id && op.patch.expirationSet && Update(env, t, op.now, id, op.candidate, op.patch).Ok?
            then NullableMillis(op.patch.expiresAt) else t.shares[id].expiresAt
  {
    hide Shape, Update, LoadActive, UnixMilli;
    if Update(env, t, op.now, op.id, op.candidate, op.patch).Ok? {
      UpdateChangesOnlyThePatch(env, t, op.now, op.id, op.candidate, op.patch);
    }
  }

  lemma UpdateRevivesIff(env: Env, t: Tables, op: Op, id: string, later: Instant)
    requires op.UpdateOp? && Shape(t) && id in t.shares && Dead(t, id, later)
    ensures id in Apply(env, t, op).shares
    ensures !Dead(Apply(env, t, op), id, later) <==> Revives(env, t, op, id, later)
  {
    hide Shape, Update, Apply, PatchFits, ExpirationFits, LoadActive, VerifyOwnerToken, UnixMilli;
    UpdatedExpiry(env, t, op, id);
    UpdateSucceedsIff(env, t, op.now, id, op.candidate, op.patch);
  }

  lemma OnlyUpdatesRevive(env: Env, t: Tables, op: Op, id: string, later: Instant)
    requires !op.UpdateOp? && id in t.shares && Dead(t, id, later)
    ensures Dead(Apply(env, t, op), id, later)
  {
    hide ValidText, ValidFile, ValidCiphertext, VerifyOwnerToken, NormalizeExpiration, IsExpired;
  }

  /**
  Over whole runs: a share dead at `later`, its identifier not issued again, is alive
  at `later` afterwards only if some operation of the run revived it, acting on a
  reading from before `later`.
  */
  lemma {:induction false} RevivalHasACause(env: Env, t: Tables, ops: seq<Op>, id: string, later: Instant)
    returns (k: nat)
    requires Shape(t) && GeneratedIds(ops) && Dead(t, id, later)
    requires forall op :: op in ops ==> !(op.CreateOp? && op.id == id)
    requires !Dead(Run(env, t, ops), id, later)
    ensures k < |ops|
    ensures var before := Run(env, t, ops[..k]);
      Dead(before, id, later) && Revives(env, before, ops[k], id, later) && ops[k].now < later
    decreases |ops|
  {
    assert ops != [] && ops[0] in ops;
    var t' := Apply(env, t, ops[0]);
    ApplyKeepsShape(env, t, ops[0]);
    assert Run(env, t, ops[..0]) == t;
    if Dead(t', id, later) {
      assert forall op :: op in ops[1..] ==> op in ops;
      hide Revives, Dead, Apply, Shape;
      var j := RevivalHasACause(env, t', ops[1..], id, later);
      k := j + 1;
      assert ops[..k][1..] == ops[1..][..j] && ops[..k][0] == ops[0];
    } else {
      k := 0;
      if id in t.shares {
        RevivedIff(env, t, ops[0], id, later);
      } else {
        AbsentStaysAbsent(env, t, ops[0], id);
      }
    }
  }

  lemma AbsentStaysAbsent(env: Env, t: Tables, op: Op, id: string)
    requires id !in t.shares && !(op.CreateOp? && op.id == id)
    ensures id !in Apply(env, t, op).shares
  {
  }

  /**
  A case of it: an update whose reading precedes the expiry brings back a share that
  has expired by the time its transaction runs, and makes it readable again.
  */
  lemma StaleUpdateRevives(
    env: Env, t: Tables, id: string, candidate: string, stale: Instant, later: Instant, e: Instant)
    requires Shape(t) && id in t.shares && VerifyOwnerToken(env, candidate, t.shares[id].verifier)
    requires Dead(t, id, later) && !Dead(t, id, stale)
    requires UnixMilli(e) * MS > later
    requires env.retention.public ==> UnixMilli(e) * MS <= t.shares[id].createdAt * MS + env.retention.maxTTL
    ensures var op := UpdateOp(stale, id, candidate, Patch(None, None, true, Some(e)));
      stale < later && !Dead(Apply(env, t, op), id, later) && LoadActive(Apply(env, t, op), id, later).Ok?
  {
    hide Shape, Apply, LoadActive;
    RevivedIff(env, t, UpdateOp(stale, id, candidate, Patch(None, None, true, Some(e))), id, later);
  }

  /** A purge removes expired rows only: at most it turns the answer expired into not found. */
  lemma PurgeIsInvisible(env: Env, t: Tables, clock: Instant, selected: set<string>, id: string, later: Instant)
    requires clock <= later
    ensures var t' := Purge(t, clock, selected);
      || LoadActive(t', id, later) == LoadActive(t, id, later)
      || (LoadActive(t, id, later) == Err(Expired) && LoadActive(t', id, later) == Err(NotFound))
  {
    var gone := set row | row in selected && row in t.shares && SqlExpired(t.shares[row].expiresAt, clock);
    if id in t.shares {
      ExpiryTestsAgree(t.shares[id].expiresAt, clock);
      if id !in gone {
        OtherPayloadsStay(t, gone, id, t.shares[id]);
      }
    }
    hide LoadPayload, ValidShareId;
  }

  lemma OtherPayloadsStay(t: Tables, gone: set<string>, id: string, m: Meta)
    requires id !in gone
    ensures LoadPayload(Without(t, gone), id, m) == LoadPayload(t, id, m)
  {
  }
}
