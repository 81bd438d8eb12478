/**
Who may change a share. Whoever holds the token that its creation returned, and nobody
else, however many operations have come in between.
*/
module Ownership {
  import opened Common
  import opened Base64Url
  import opened EncryptedText
  import opened Shares
  import opened ShareProperties
  import opened Creation

  ghost predicate OwnerToken(value: string) {
    exists bytes: seq<Byte> :: |bytes| == 32 && value == "up_o1_" + Encode(bytes)
  }

  lemma OwnerTokensInPlainTerms(value: string)
    ensures ValidOwnerToken(value) <==> OwnerToken(value)
  {
    hide GoValidate, Encode;
    if |value| >= 6 {
      GoValidateAccepts(value[6..], 32);
    }
    assert EncodedLen(32) == 43;
    if ValidOwnerToken(value) {
      var bytes: seq<Byte> :| |bytes| == 32 && Encode(bytes) == value[6..];
      assert value == "up_o1_" + Encode(bytes);
    }
    if OwnerToken(value) {
      var bytes: seq<Byte> :| |bytes| == 32 && value == "up_o1_" + Encode(bytes);
      assert value[6..] == Encode(bytes);
    }
  }

  /** Share identifiers are the encodings of 16 bytes. */
  lemma ShareIdsInPlainTerms(id: string)
    ensures ValidShareId(id) <==> exists bytes: seq<Byte> :: |bytes| == 16 && Encode(bytes) == id
  {
    hide GoValidate, Encode;
    assert EncodedLen(16) == 22;
    GoValidateAccepts(id, 16);
  }

  /** The row is there and has not expired. */
  predicate Live(t: Tables, id: string, now: Instant) {
    id in t.shares && (t.shares[id].expiresAt.Some? ==> now < t.shares[id].expiresAt.value * 1_000_000)
  }

  /** What a patch may do to a row. */
  predicate PatchAllowed(policy: Retention, m: Meta, patch: Patch, now: Instant) {
    && (patch.text.Some? || patch.encrypted.Some? || patch.expirationSet)
    && (patch.text.Some? ==>
          m.kind == TextKind && m.privacy == Standard && WithinLimits(TextPayload(patch.text.value)))
    && (patch.encrypted.Some? ==>
          m.kind == TextKind && m.privacy == Encrypted && WithinLimits(EncryptedPayload(patch.encrypted.value)))
    && (patch.expirationSet && patch.expiresAt.None? ==> !policy.public)
    && (patch.expirationSet && patch.expiresAt.Some? ==>
          var at := patch.expiresAt.value / 1_000_000 * 1_000_000;
          now < at && (policy.public ==> at <= m.createdAt * 1_000_000 + policy.maxTTL))
  }

  lemma PatchesInPlainTerms(policy: Retention, m: Meta, patch: Patch, now: Instant)
    ensures PatchAllowed(policy, m, patch, now) <==>
      && (patch.text.Some? || patch.encrypted.Some? || patch.expirationSet)
      && PatchFits(m, patch) && ExpirationFits(policy, m, patch, now)
  {
    if patch.text.Some? {
      LimitsInPlainTerms(TextPayload(patch.text.value));
    }
    if patch.encrypted.Some? {
      LimitsInPlainTerms(EncryptedPayload(patch.encrypted.value));
    }
    hide WithinLimits, ValidText, ValidCiphertext;
  }

  /** Exactly when an update succeeds, on well-shaped tables. */
  lemma UpdateSucceedsInPlainTerms(env: Env, t: Tables, now: Instant, id: string, candidate: string, patch: Patch)
    requires Shape(t)
    ensures Update(env, t, now, id, candidate, patch).Ok? <==>
      && Live(t, id, now) && OwnerToken(candidate) && env.digest(candidate) == t.shares[id].verifier
      && PatchAllowed(env.retention, t.shares[id], patch, now)
  {
    UpdateSucceedsIff(env, t, now, id, candidate, patch);
    OwnerTokensInPlainTerms(candidate);
    if id in t.shares {
      PatchesInPlainTerms(env.retention, t.shares[id], patch, now);
    }
    hide Shape, Update, OwnerToken, ValidOwnerToken, PatchAllowed, PatchFits, ExpirationFits;
  }

  /** The share is live and the candidate is a token with the digest that its row holds. */
  ghost predicate MayChange(env: Env, t: Tables, id: string, candidate: string, now: Instant) {
    Live(t, id, now) && OwnerToken(candidate) && env.digest(candidate) == t.shares[id].verifier
  }

  /** How everyone else is refused. */
  function RefusalOf(t: Tables, id: string, now: Instant): ShareError {
    if id !in t.shares then NotFound else if !Live(t, id, now) then Expired else Unauthorized
  }

  /** Reading, checking and refusing the caller, for updates and deletions alike. */
  lemma AuthorizedInPlainTerms(env: Env, t: Tables, now: Instant, id: string, candidate: string)
    ensures MayChange(env, t, id, candidate, now) ==> id in t.shares
    ensures Authorize(env, t, id, candidate, now) ==
      if MayChange(env, t, id, candidate, now) then Ok(t.shares[id]) else Err(RefusalOf(t, id, now))
  {
    OwnerTokensInPlainTerms(candidate);
    hide OwnerToken, ValidOwnerToken;
  }

  /** An update goes no further than the patch allows, whatever the shape of the tables. */
  lemma UpdatedWithinLimits(env: Env, t: Tables, now: Instant, id: string, candidate: string, patch: Patch)
    requires Update(env, t, now, id, candidate, patch).Ok?
    ensures id in t.shares && PatchAllowed(env.retention, t.shares[id], patch, now)
  {
    UpdateParts(env, t, now, id, candidate, patch);
    PatchMetaOkIff(env, t.shares[id], patch, now);
    PatchPayloadFits(t, id, patch);
    PatchesInPlainTerms(env.retention, t.shares[id], patch, now);
    hide PatchPayload, PatchMeta, PatchFits, ExpirationFits, PatchAllowed, Authorize, LoadActive;
  }

  lemma UpdateInPlainTerms(env: Env, t: Tables, now: Instant, id: string, candidate: string, patch: Patch)
    ensures Update(env, t, now, id, candidate, patch).Ok? ==>
      && MayChange(env, t, id, candidate, now) && id in t.shares
      && PatchAllowed(env.retention, t.shares[id], patch, now)
    ensures patch != Patch(None, None, false, patch.expiresAt) && !MayChange(env, t, id, candidate, now) ==>
      Update(env, t, now, id, candidate, patch) == Err(RefusalOf(t, id, now))
  {
    AuthorizedInPlainTerms(env, t, now, id, candidate);
    if Update(env, t, now, id, candidate, patch).Ok? {
      UpdatedWithinLimits(env, t, now, id, candidate, patch);
    }
    hide Authorize, PatchPayload, PatchMeta, LoadActive, MayChange, PatchAllowed, RefusalOf;
  }

  lemma PatchPayloadFits(t: Tables, id: string, patch: Patch)
    requires id in t.shares && PatchPayload(t, t.shares[id], id, patch).Ok?
    ensures PatchFits(t.shares[id], patch)
  {
    hide ValidText, ValidCiphertext;
  }

  /** No operation changes what a row was created with. */
  lemma OperationsKeepOrigins(env: Env, t: Tables, op: Op, id: string)
    requires id in t.shares && id in Apply(env, t, op).shares
    ensures var m, m' := t.shares[id], Apply(env, t, op).shares[id];
      m'.verifier == m.verifier && m'.kind == m.kind && m'.privacy == m.privacy && m'.createdAt == m.createdAt
  {
    hide ValidShareId, ValidText, ValidFile, ValidCiphertext, VerifyOwnerToken, NormalizeExpiration, IsExpired;
    hide ValidateUpdatedExpiration;
  }

  lemma {:induction false} AbsentOverRuns(env: Env, t: Tables, ops: seq<Op>, id: string)
    requires id !in t.shares && forall op :: op in ops ==> !(op.CreateOp? && op.id == id)
    ensures id !in Run(env, t, ops).shares
    decreases |ops|
  {
    if ops != [] {
      assert ops[0] in ops && forall op :: op in ops[1..] ==> op in ops;
      AbsentStaysAbsent(env, t, ops[0], id);
      hide Apply;
      AbsentOverRuns(env, Apply(env, t, ops[0]), ops[1..], id);
    }
  }

  /** Nor does any run, as long as the identifier is not issued again. */
  lemma {:induction false} RunsKeepOrigins(env: Env, t: Tables, ops: seq<Op>, id: string)
    requires id in t.shares && id in Run(env, t, ops).shares
    requires forall op :: op in ops ==> !(op.CreateOp? && op.id == id)
    ensures var m, m' := t.shares[id], Run(env, t, ops).shares[id];
      m'.verifier == m.verifier && m'.kind == m.kind && m'.privacy == m.privacy && m'.createdAt == m.createdAt
    decreases |ops|
  {
    if ops != [] {
      assert ops[0] in ops && forall op :: op in ops[1..] ==> op in ops;
      var t' := Apply(env, t, ops[0]);
      hide Apply;
      if id in t'.shares {
        OperationsKeepOrigins(env, t, ops[0], id);
        RunsKeepOrigins(env, t', ops[1..], id);
      } else {
        AbsentOverRuns(env, t', ops[1..], id);
      }
    }
  }

  /**
  Ownership over runs. A share is created with a token; any operations follow, by
  anyone; the share is still there and has not expired. Then a deletion goes through
  exactly for that token, an allowed update goes through exactly for that token, and
  every other candidate is refused as unauthorized.
  */
  lemma OnlyTheCreatorMayChange(
    env: Env, t: Tables, created: Instant, id: string, token: string, payload: Payload, expiration: Option<Instant>,
    ops: seq<Op>, now: Instant, candidate: string, patch: Patch)
    requires Shape(t) && ValidShareId(id) && Create(env, t, created, id, token, payload, expiration).Ok?
    requires OwnerToken(token) && (env.digest(candidate) == env.digest(token) ==> candidate == token)
    requires GeneratedIds(ops) && forall op :: op in ops ==> !(op.CreateOp? && op.id == id)
    requires Live(Run(env, Create(env, t, created, id, token, payload, expiration).value.0, ops), id, now)
    ensures var t' := Run(env, Create(env, t, created, id, token, payload, expiration).value.0, ops);
      && Delete(env, t', now, id, candidate) ==
           (if candidate != token then Err(Unauthorized)
            else Ok((DeleteShare(t', id), if id in t'.files then Some(t'.files[id].key) else None)))
      && (patch != Patch(None, None, false, patch.expiresAt) && candidate != token ==>
            Update(env, t', now, id, candidate, patch) == Err(Unauthorized))
      && (candidate == token ==>
            (Update(env, t', now, id, candidate, patch).Ok? <==>
             PatchAllowed(env.retention, t'.shares[id], patch, now)))
  {
    var t1 := Create(env, t, created, id, token, payload, expiration).value.0;
    var t' := Run(env, t1, ops);
    CreateStores(env, t, created, id, token, payload, expiration);
    CreateKeepsShape(env, t, created, id, token, payload, expiration);
    assert t1.shares[id].verifier == env.digest(token);
    hide Create, Run, Shape, OwnerToken, PatchAllowed, ValidShareId, GeneratedIds;
    RunKeepsShape(env, t1, ops);
    RunsKeepOrigins(env, t1, ops, id);
    AuthorizedInPlainTerms(env, t', now, id, candidate);
    UpdateSucceedsInPlainTerms(env, t', now, id, candidate, patch);
    FilesOfShape(t', id);
    hide Authorize, PatchPayload, PatchMeta, LoadActive;
  }

  lemma FilesOfShape(t: Tables, id: string)
    requires Shape(t) && id in t.shares
    ensures id in t.files <==> t.shares[id].kind == FileKind
  {
    assert RowShape(t, id);
    hide ValidShareId, ValidText, ValidFile, ValidCiphertext;
  }

  // ----- what leaves a share alone ------------------------------------------------

  /** The row and its payload, as they were. */
  predicate SameShare(t: Tables, t': Tables, id: string) {
    && (id in t.shares <==> id in t'.shares) && (id in t.shares ==> t'.shares[id] == t.shares[id])
    && (id in t.texts <==> id in t'.texts) && (id in t.texts ==> t'.texts[id] == t.texts[id])
    && (id in t.encrypted <==> id in t'.encrypted) && (id in t.encrypted ==> t'.encrypted[id] == t.encrypted[id])
    && (id in t.files <==> id in t'.files) && (id in t.files ==> t'.files[id] == t.files[id])
  }

  predicate Gone(t: Tables, id: string) {
    id !in t.shares && id !in t.texts && id !in t.encrypted && id !in t.files
  }

  /** A deletion leaves nothing of its share and everything of all others, the administrator's likewise. */
  lemma DeletionsInPlainTerms(env: Env, t: Tables, now: Instant, id: string, candidate: string)
    ensures Delete(env, t, now, id, candidate).Ok? ==>
      var t' := Delete(env, t, now, id, candidate).value.0;
      Gone(t', id) && forall other :: other != id ==> SameShare(t, t', other)
    ensures AdminDelete(t, id).Ok? <==> id in t.shares
    ensures AdminDelete(t, id).Ok? ==>
      var (t', key) := AdminDelete(t, id).value;
      && Gone(t', id) && (forall other :: other != id ==> SameShare(t, t', other))
      && key == if id in t.files then Some(t.files[id].key) else None
  {
    hide Authorize;
  }

  /**
  An operation that has no hold on the share: a creation, an update or a deletion of
  another one, an update or a deletion with a candidate that its row does not know, or
  a purge before its expiry.
  */
  predicate WithoutHold(env: Env, op: Op, id: string, m: Meta) {
    match op
    case CreateOp(_, _, _, _, _) => true
    case UpdateOp(_, other, candidate, _) => other == id ==> env.digest(candidate) != m.verifier
    case DeleteOp(_, other, candidate) => other == id ==> env.digest(candidate) != m.verifier
    case AdminDeleteOp(other) => other != id
    case PurgeOp(now, selected) =>
      id in selected && m.expiresAt.Some? ==> now < m.expiresAt.value * 1_000_000
  }

  lemma CreationsSpareOthers(
    env: Env, t: Tables, now: Instant, id: string, token: string, payload: Payload, expiration: Option<Instant>,
    other: string)
    requires other in t.shares && Create(env, t, now, id, token, payload, expiration).Ok?
    ensures SameShare(t, Create(env, t, now, id, token, payload, expiration).value.0, other)
  {
    CreateSucceedsIff(env, t, now, id, token, payload, expiration);
    CreateStores(env, t, now, id, token, payload, expiration);
    hide Create, WithinLimits, InTime;
  }

  lemma UpdatesSpareOthers(
    env: Env, t: Tables, now: Instant, id: string, candidate: string, patch: Patch, other: string)
    requires other != id && Update(env, t, now, id, candidate, patch).Ok?
    ensures SameShare(t, Update(env, t, now, id, candidate, patch).value.0, other)
  {
    hide Authorize, LoadActive, PatchMeta, ValidText, ValidCiphertext;
  }

  lemma PurgesSpareTheLive(t: Tables, now: Instant, selected: set<string>, id: string)
    requires id in t.shares
    requires id in selected && t.shares[id].expiresAt.Some? ==> now < t.shares[id].expiresAt.value * 1_000_000
    ensures SameShare(t, Purge(t, now, selected), id)
  {
  }

  lemma OperationsSpareOthers(env: Env, t: Tables, op: Op, id: string)
    requires id in t.shares && WithoutHold(env, op, id, t.shares[id])
    ensures SameShare(t, Apply(env, t, op), id)
  {
    match op {
      case CreateOp(now, other, token, payload, expiration) =>
        if Create(env, t, now, other, token, payload, expiration).Ok? {
          CreationsSpareOthers(env, t, now, other, token, payload, expiration, id);
        }
      case UpdateOp(now, other, candidate, patch) =>
        UpdateInPlainTerms(env, t, now, other, candidate, patch);
        if Update(env, t, now, other, candidate, patch).Ok? {
          UpdatesSpareOthers(env, t, now, other, candidate, patch, id);
        }
      case DeleteOp(now, other, candidate) =>
        AuthorizedInPlainTerms(env, t, now, other, candidate);
        DeletionsInPlainTerms(env, t, now, other, candidate);
      case AdminDeleteOp(other) =>
        DeletionsInPlainTerms(env, t, 0, other, "");
      case PurgeOp(now, selected) =>
        PurgesSpareTheLive(t, now, selected, id);
    }
    hide Create, Update, Authorize, Purge, AdminDelete;
  }

  /** In any run of such operations the share stays exactly as it was. */
  lemma {:induction false} RunsSpareOthers(env: Env, t: Tables, ops: seq<Op>, id: string)
    requires id in t.shares && forall op :: op in ops ==> WithoutHold(env, op, id, t.shares[id])
    ensures SameShare(t, Run(env, t, ops), id)
    decreases |ops|
  {
    if ops != [] {
      assert ops[0] in ops && forall op :: op in ops[1..] ==> op in ops;
      hide Apply, WithoutHold;
      OperationsSpareOthers(env, t, ops[0], id);
      RunsSpareOthers(env, Apply(env, t, ops[0]), ops[1..], id);
    }
  }
}
