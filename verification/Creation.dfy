/**
What a creation asks for, what it stores and what it answers, in the terms of the
request: sizes in bytes, times in nanoseconds, and expiries in whole milliseconds.
*/
module Creation {
  import opened Common
  import opened EncryptedText
  import opened Shares
  import opened ShareProperties

  predicate LowerHexDigits(s: string) {
    forall i :: 0 <= i < |s| ==> s[i] in "0123456789abcdef"
  }

  predicate WithinLimits(payload: Payload) {
    match payload
    case TextPayload(text) => 1 <= |text.content| <= 1_048_576
    case EncryptedPayload(value) =>
      value.protocol == "UPASTE_AES_GCM_V1" && |value.nonce| == 12 && 19 <= |value.ciphertext| <= 1_048_594
    case FilePayload(file) =>
      && |file.key| == 32 && LowerHexDigits(file.key)
      && 1 <= |file.filename| <= 255 && 1 <= |file.mediaType| <= 255
      && 1 <= file.size <= 67_108_864 && |file.sha256| == 32
  }

  /** The identifier and the storage key are not in use. */
  predicate Unused(t: Tables, id: string, payload: Payload) {
    && |id| == 22 && id !in t.shares
    && (payload.TextPayload? ==> id !in t.texts)
    && (payload.EncryptedPayload? ==> id !in t.encrypted)
    && (payload.FilePayload? ==>
          id !in t.files && forall other :: other in t.files ==> t.files[other].key != payload.file.key)
  }

  /** A requested expiry, as the whole millisecond it falls in, is after the reading and within the public maximum. */
  predicate InTime(policy: Retention, now: Instant, expiration: Option<Instant>) {
    expiration.Some? ==>
      var at := expiration.value / 1_000_000 * 1_000_000;
      now < at && (policy.public ==> at <= now + policy.maxTTL)
  }

  /** The expiry of the new row: as requested, by default under a public policy, and never otherwise. */
  function RowExpiry(policy: Retention, now: Instant, expiration: Option<Instant>): Option<Millis> {
    match expiration
    case Some(e) => Some(e / 1_000_000)
    case None => if policy.public then Some((now + policy.defaultTTL) / 1_000_000) else None
  }

  /** The expiry in the answer: the same, but for the fraction of a millisecond of the default. */
  function AnsweredExpiry(policy: Retention, now: Instant, expiration: Option<Instant>): Option<Instant> {
    match expiration
    case Some(e) => Some(e / 1_000_000 * 1_000_000)
    case None => if policy.public then Some(now + policy.defaultTTL) else None
  }

  function NewRow(env: Env, now: Instant, token: string, payload: Payload, expiration: Option<Instant>): Meta {
    Meta(
      if payload.FilePayload? then FileKind else TextKind,
      if payload.EncryptedPayload? then Encrypted else Standard,
      env.digest(token), now / 1_000_000, now / 1_000_000, RowExpiry(env.retention, now, expiration))
  }

  /** The new row with its payload, and the answer. */
  ghost predicate Stores(
    env: Env, t: Tables, now: Instant, id: string, token: string, payload: Payload, expiration: Option<Instant>,
    t': Tables, share: Share)
  {
    && t'.shares == t.shares[id := NewRow(env, now, token, payload, expiration)]
    && t'.texts == (if payload.TextPayload? then t.texts[id := payload.text] else t.texts)
    && t'.encrypted == (if payload.EncryptedPayload? then t.encrypted[id := payload.encrypted] else t.encrypted)
    && t'.files == (if payload.FilePayload? then t.files[id := payload.file] else t.files)
    && share.id == id && share.payload == payload && share.createdAt == now && share.updatedAt == now
    && share.kind == NewRow(env, now, token, payload, expiration).kind
    && share.privacy == NewRow(env, now, token, payload, expiration).privacy
    && share.expiresAt == AnsweredExpiry(env.retention, now, expiration)
  }

  lemma LimitsInPlainTerms(payload: Payload)
    ensures payload.TextPayload? ==> (ValidText(payload.text) <==> WithinLimits(payload))
    ensures payload.EncryptedPayload? ==> (ValidCiphertext(payload.encrypted) <==> WithinLimits(payload))
    ensures payload.FilePayload? ==> (ValidFile(payload.file) <==> WithinLimits(payload))
  {
    if payload.FilePayload? {
      HexInPlainTerms(payload.file.key);
    }
  }

  lemma HexInPlainTerms(s: string)
    ensures LowerHex(s) <==> LowerHexDigits(s)
  {
    forall c: char ensures ('0' <= c <= '9' || 'a' <= c <= 'f') <==> c in "0123456789abcdef" {
      HexDigit(c);
    }
    if LowerHex(s) {
      forall i | 0 <= i < |s| ensures s[i] in "0123456789abcdef" {
        assert s[i] in s;
      }
    }
  }

  lemma HexDigit(c: char)
    ensures ('0' <= c <= '9' || 'a' <= c <= 'f') <==> c in "0123456789abcdef"
  {
    var digits := "0123456789abcdef";
    if '0' <= c <= '9' {
      assert digits[c as int - '0' as int] == c;
    } else if 'a' <= c <= 'f' {
      assert digits[c as int - 'a' as int + 10] == c;
    }
  }

  lemma ExpiryInPlainTerms(policy: Retention, now: Instant, expiration: Option<Instant>)
    ensures NormalizeExpiration(policy, expiration, now).Ok? <==> InTime(policy, now, expiration)
    ensures NormalizeExpiration(policy, expiration, now).Ok? ==>
      var normalized := NormalizeExpiration(policy, expiration, now).value;
      && normalized == AnsweredExpiry(policy, now, expiration)
      && NullableMillis(normalized) == RowExpiry(policy, now, expiration)
    ensures NormalizeExpiration(policy, expiration, now) == Err(ExpirationPast) <==>
      expiration.Some? && expiration.value / 1_000_000 * 1_000_000 <= now
  {
    if expiration.Some? {
      WholeMillisecond(expiration.value);
    }
  }

  lemma WholeMillisecond(e: Instant)
    ensures e / 1_000_000 * 1_000_000 / 1_000_000 == e / 1_000_000
  {
  }

  /**
  Exactly when a creation succeeds: the payload within its limits, the identifier and
  the storage key unused, a digest of 32 bytes, and a requested expiry in time.
  */
  lemma CreateSucceedsIff(
    env: Env, t: Tables, now: Instant, id: string, token: string, payload: Payload, expiration: Option<Instant>)
    ensures Create(env, t, now, id, token, payload, expiration).Ok? <==>
      && WithinLimits(payload) && Unused(t, id, payload) && |env.digest(token)| == 32
      && InTime(env.retention, now, expiration)
  {
    LimitsInPlainTerms(payload);
    ExpiryInPlainTerms(env.retention, now, expiration);
    hide ValidText, ValidFile, ValidCiphertext, WithinLimits, NormalizeExpiration, InTime, NullableMillis, UnixMilli;
  }

  /** And what it stores and answers: the request, with the expiry that was asked for or that the policy gives. */
  lemma CreateStores(
    env: Env, t: Tables, now: Instant, id: string, token: string, payload: Payload, expiration: Option<Instant>)
    requires Create(env, t, now, id, token, payload, expiration).Ok?
    ensures var (t', share) := Create(env, t, now, id, token, payload, expiration).value;
      Stores(env, t, now, id, token, payload, expiration, t', share)
  {
    ExpiryInPlainTerms(env.retention, now, expiration);
    assert UnixMilli(now) == now / 1_000_000;
    hide ValidText, ValidFile, ValidCiphertext, NormalizeExpiration, NullableMillis, UnixMilli;
    hide RowExpiry, AnsweredExpiry;
  }

  /** Which error: a payload out of bounds, then an expiry that is past, then one beyond the maximum. */
  lemma CreateRefusals(
    env: Env, t: Tables, now: Instant, id: string, token: string, payload: Payload, expiration: Option<Instant>)
    requires Create(env, t, now, id, token, payload, expiration).Err?
    ensures Create(env, t, now, id, token, payload, expiration).error
         == if payload.TextPayload? && !WithinLimits(payload) then InvalidText
            else if payload.EncryptedPayload? && !WithinLimits(payload) then InvalidEncryptedText
            else if expiration.Some? && expiration.value / 1_000_000 * 1_000_000 <= now then ExpirationPast
            else if !InTime(env.retention, now, expiration) then RetentionExceeded
            else StorageFailure
  {
    LimitsInPlainTerms(payload);
    hide ValidText, ValidFile, ValidCiphertext, WithinLimits;
  }
}
