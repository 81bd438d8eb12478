/**
The share tables and the operations on them: what one transaction of the share
service does to the tables, as functions. Instants are nanoseconds since the Unix
epoch; the tables store whole milliseconds. Random identifiers and tokens are
arguments, and so is every clock reading: an operation uses the reading it took
before its transaction began, however old it is when the transaction runs.
*/
module Shares {
  import opened Common
  import opened Base64Url
  import opened EncryptedText

  type Instant = int
  type Millis = int

  const MS := 1_000_000
  const MAX_TEXT_BYTES := 1_048_576
  const MAX_FILE_BYTES := 67_108_864

  // ----- entities -------------------------------------------------------------

  datatype Kind = TextKind | FileKind
  datatype Privacy = Standard | Encrypted

  datatype Text = Text(format: TextFormat, content: seq<Byte>)

  datatype File = File(key: string, filename: seq<Byte>, size: nat, mediaType: seq<Byte>, sha256: seq<Byte>)

  /** A row of the shares table. */
  datatype Meta = Meta(
    kind: Kind, privacy: Privacy, verifier: seq<Byte>,
    createdAt: Millis, updatedAt: Millis, expiresAt: Option<Millis>)

  datatype Tables = Tables(
    shares: map<string, Meta>,
    texts: map<string, Text>,
    encrypted: map<string, StoredCiphertext>,
    files: map<string, File>)

  const EMPTY := Tables(map[], map[], map[], map[])

  datatype Payload = TextPayload(text: Text) | EncryptedPayload(encrypted: StoredCiphertext) | FilePayload(file: File)

  datatype Share = Share(
    id: string, kind: Kind, privacy: Privacy, payload: Payload,
    createdAt: Instant, updatedAt: Instant, expiresAt: Option<Instant>)

  datatype ShareError =
    | NotFound | Expired | Unauthorized | InvalidText | InvalidEncryptedText
    | PayloadMismatch | ExpirationPast | RetentionExceeded | EmptyPatch | StorageFailure

  datatype Retention = Retention(public: bool, defaultTTL: int, maxTTL: int)

  /** The public policy that the configuration lets through. */
  predicate ValidRetention(policy: Retention) {
    policy.public ==> 0 < policy.defaultTTL <= policy.maxTTL
  }

  /** The policy, and SHA-256 as a function to 32 bytes. */
  datatype Env = Env(retention: Retention, digest: string -> seq<Byte>)

  datatype Patch = Patch(
    text: Option<Text>, encrypted: Option<StoredCiphertext>,
    expirationSet: bool, expiresAt: Option<Instant>)

  // ----- time -----------------------------------------------------------------

  function UnixMilli(t: Instant): Millis {
    t / MS
  }

  /** A clock reading truncated to the millisecond. */
  function ServerNow(clock: Instant): Instant {
    clock / MS * MS
  }

  function FromMillis(value: Option<Millis>): Option<Instant> {
    match value
    case None => None
    case Some(ms) => Some(ms * MS)
  }

  function NullableMillis(value: Option<Instant>): Option<Millis> {
    match value
    case None => None
    case Some(t) => Some(UnixMilli(t))
  }

  predicate IsExpired(expiresAt: Option<Instant>, now: Instant) {
    expiresAt.Some? && !(now < expiresAt.value)
  }

  /** The test of the purge query: expires_at IS NOT NULL AND expires_at <= now. */
  predicate SqlExpired(expiresAt: Option<Millis>, now: Instant) {
    expiresAt.Some? && expiresAt.value <= UnixMilli(now)
  }

  /** The purge query, the truncated service clock and the exact clock never disagree. */
  lemma ExpiryTestsAgree(expiresAt: Option<Millis>, clock: Instant)
    ensures SqlExpired(expiresAt, clock) <==> IsExpired(FromMillis(expiresAt), ServerNow(clock))
    ensures SqlExpired(expiresAt, clock) <==> IsExpired(FromMillis(expiresAt), clock)
  {
  }

  // ----- expiration rules -----------------------------------------------------

  function ValidateUpdatedExpiration(policy: Retention, value: Option<Instant>, createdAt: Instant, now: Instant)
    : Result<Option<Instant>, ShareError>
  {
    match value
    case None => if policy.public then Err(RetentionExceeded) else Ok(None)
    case Some(t) =>
      var normalized := t / MS * MS;
      if normalized <= now then Err(ExpirationPast)
      else if policy.public && normalized > createdAt + policy.maxTTL then Err(RetentionExceeded)
      else Ok(Some(normalized))
  }

  function NormalizeExpiration(policy: Retention, value: Option<Instant>, now: Instant)
    : Result<Option<Instant>, ShareError>
  {
    if policy.public then
      if value.None? then Ok(Some(now + policy.defaultTTL))
      else ValidateUpdatedExpiration(policy, value, now, now)
    else
      match value
      case None => Ok(None)
      case Some(t) =>
        var normalized := t / MS * MS;
        if normalized <= now then Err(ExpirationPast) else Ok(Some(normalized))
  }

  // ----- the tables: statements with their constraints ------------------------

  predicate LowerHex(s: string) {
    forall c :: c in s ==> '0' <= c <= '9' || 'a' <= c <= 'f'
  }

  predicate ValidKey(key: string) {
    |key| == 32 && LowerHex(key)
  }

  predicate ValidText(text: Text) {
    1 <= |text.content| <= MAX_TEXT_BYTES
  }

  predicate ValidFile(file: File) {
    && ValidKey(file.key)
    && 1 <= |file.filename| <= 255
    && 1 <= file.size <= MAX_FILE_BYTES
    && 1 <= |file.mediaType| <= 255
    && |file.sha256| == 32
  }

  predicate KeyUsed(t: Tables, key: string) {
    exists id :: id in t.files && t.files[id].key == key
  }

  function InsertShare(t: Tables, id: string, meta: Meta): Option<Tables> {
    if id in t.shares || |id| != 22 || |meta.verifier| != 32 || (meta.kind == FileKind && meta.privacy == Encrypted)
    then None
    else Some(t.(shares := t.shares[id := meta]))
  }

  predicate ShareIs(t: Tables, id: string, kind: Kind, privacy: Privacy) {
    id in t.shares && t.shares[id].kind == kind && t.shares[id].privacy == privacy
  }

  function InsertText(t: Tables, id: string, text: Text): Option<Tables> {
    if id in t.texts || !ShareIs(t, id, TextKind, Standard) || !ValidText(text) then None
    else Some(t.(texts := t.texts[id := text]))
  }

  function InsertEncrypted(t: Tables, id: string, value: StoredCiphertext): Option<Tables> {
    if id in t.encrypted || !ShareIs(t, id, TextKind, Encrypted) || !ValidCiphertext(value) then None
    else Some(t.(encrypted := t.encrypted[id := value]))
  }

  function InsertFile(t: Tables, id: string, file: File): Option<Tables> {
    if id in t.files || !ShareIs(t, id, FileKind, Standard) || !ValidFile(file) || KeyUsed(t, file.key) then None
    else Some(t.(files := t.files[id := file]))
  }

  /** DELETE FROM shares WHERE id = ?, with ON DELETE CASCADE. */
  function DeleteShare(t: Tables, id: string): Tables {
    Tables(t.shares - {id}, t.texts - {id}, t.encrypted - {id}, t.files - {id})
  }

  // ----- reading --------------------------------------------------------------

  const OWNER_TOKEN_PREFIX := "up_o1_"

  predicate ValidShareId(id: string) {
    GoValidate(id, 22, 16)
  }

  predicate ValidOwnerToken(value: string) {
    |value| == 49 && OWNER_TOKEN_PREFIX <= value && GoValidate(value[6..], 43, 32)
  }

  predicate VerifyOwnerToken(env: Env, candidate: string, expected: seq<Byte>) {
    ValidOwnerToken(candidate) && env.digest(candidate) == expected
  }

  function LoadAuthorization(t: Tables, id: string, now: Instant): Result<Meta, ShareError> {
    if id !in t.shares then Err(NotFound)
    else if IsExpired(FromMillis(t.shares[id].expiresAt), now) then Err(Expired)
    else Ok(t.shares[id])
  }

  /** The four-way join, and the checks that the payload matches the kind and the privacy. */
  function LoadActive(t: Tables, id: string, now: Instant): Result<Share, ShareError> {
    if id !in t.shares then Err(NotFound)
    else
      var m := t.shares[id];
      if IsExpired(FromMillis(m.expiresAt), now) then Err(Expired)
      else if !ValidShareId(id) then Err(StorageFailure)
      else
        match LoadPayload(t, id, m)
        case Err(e) => Err(e)
        case Ok(payload) =>
          Ok(Share(id, m.kind, m.privacy, payload, m.createdAt * MS, m.updatedAt * MS, FromMillis(m.expiresAt)))
  }

  function LoadPayload(t: Tables, id: string, m: Meta): Result<Payload, ShareError> {
    if m.kind == TextKind then
      if id in t.files then Err(PayloadMismatch)
      else if m.privacy == Standard then
        if id !in t.texts || id in t.encrypted then Err(PayloadMismatch) else Ok(TextPayload(t.texts[id]))
      else
        if id in t.texts || id !in t.encrypted then Err(PayloadMismatch)
        else if !ValidCiphertext(t.encrypted[id]) then Err(StorageFailure)
        else Ok(EncryptedPayload(t.encrypted[id]))
    else
      if m.privacy != Standard || id in t.texts || id in t.encrypted || id !in t.files || |t.files[id].sha256| != 32
      then Err(PayloadMismatch)
      else Ok(FilePayload(t.files[id]))
  }

  function Authorize(env: Env, t: Tables, id: string, candidate: string, now: Instant): Result<Meta, ShareError> {
    match LoadAuthorization(t, id, now)
    case Err(e) => Err(e)
    case Ok(m) => if VerifyOwnerToken(env, candidate, m.verifier) then Ok(m) else Err(Unauthorized)
  }

  // ----- creating -------------------------------------------------------------

  function KindOf(payload: Payload): Kind {
    if payload.FilePayload? then FileKind else TextKind
  }

  function PrivacyOf(payload: Payload): Privacy {
    if payload.EncryptedPayload? then Encrypted else Standard
  }

  function ValidatePayload(payload: Payload): Result<(), ShareError> {
    match payload
    case TextPayload(text) => if ValidText(text) then Ok(()) else Err(InvalidText)
    case EncryptedPayload(value) => if ValidCiphertext(value) then Ok(()) else Err(InvalidEncryptedText)
    case FilePayload(_) => Ok(())
  }

  function InsertPayload(t: Tables, id: string, payload: Payload): Option<Tables> {
    match payload
    case TextPayload(text) => InsertText(t, id, text)
    case EncryptedPayload(value) => InsertEncrypted(t, id, value)
    case FilePayload(file) => InsertFile(t, id, file)
  }

  function NewMeta(env: Env, payload: Payload, token: string, now: Instant, expiresAt: Option<Instant>): Meta {
    Meta(KindOf(payload), PrivacyOf(payload), env.digest(token),
         UnixMilli(now), UnixMilli(now), NullableMillis(expiresAt))
  }

  /** The transaction of Create, CreateEncrypted and, as far as the tables go, CreateFile. */
  function Create(
    env: Env, t: Tables, now: Instant, id: string, token: string, payload: Payload, expiration: Option<Instant>)
    : Result<(Tables, Share), ShareError>
  {
    match ValidatePayload(payload)
    case Err(e) => Err(e)
    case Ok(_) =>
      match NormalizeExpiration(env.retention, expiration, now)
      case Err(e) => Err(e)
      case Ok(expiresAt) =>
        match InsertShare(t, id, NewMeta(env, payload, token, now, expiresAt))
        case None => Err(StorageFailure)
        case Some(t1) =>
          match InsertPayload(t1, id, payload)
          case None => Err(StorageFailure)
          case Some(t2) => Ok((t2, Share(id, KindOf(payload), PrivacyOf(payload), payload, now, now, expiresAt)))
  }

  // ----- updating and deleting ------------------------------------------------

  /** The payload part of an update, on a row that has already been authorized. */
  function PatchPayload(t: Tables, m: Meta, id: string, patch: Patch): Result<Tables, ShareError> {
    if m.kind == FileKind then
      if patch.text.Some? || patch.encrypted.Some? then Err(PayloadMismatch) else Ok(t)
    else if m.privacy == Standard then
      if patch.encrypted.Some? then Err(PayloadMismatch)
      else
        match patch.text
        case None => Ok(t)
        case Some(text) =>
          if !ValidText(text) then Err(InvalidText)
          else if id !in t.texts then Err(StorageFailure)
          else Ok(t.(texts := t.texts[id := text]))
    else
      if patch.text.Some? then Err(PayloadMismatch)
      else
        match patch.encrypted
        case None => Ok(t)
        case Some(value) =>
          if !ValidCiphertext(value) then Err(InvalidEncryptedText)
          else if id !in t.encrypted then Err(StorageFailure)
          else Ok(t.(encrypted := t.encrypted[id := value]))
  }

  function PatchMeta(env: Env, m: Meta, patch: Patch, now: Instant): Result<Meta, ShareError> {
    if !patch.expirationSet then Ok(m.(updatedAt := UnixMilli(now)))
    else
      match ValidateUpdatedExpiration(env.retention, patch.expiresAt, m.createdAt * MS, now)
      case Err(e) => Err(e)
      case Ok(expiresAt) => Ok(m.(updatedAt := UnixMilli(now), expiresAt := NullableMillis(expiresAt)))
  }

  function Update(env: Env, t: Tables, now: Instant, id: string, candidate: string, patch: Patch)
    : Result<(Tables, Share), ShareError>
  {
    if patch.text.None? && patch.encrypted.None? && !patch.expirationSet then Err(EmptyPatch)
    else
      match Authorize(env, t, id, candidate, now)
      case Err(e) => Err(e)
      case Ok(m) =>
        match PatchPayload(t, m, id, patch)
        case Err(e) => Err(e)
        case Ok(t1) =>
          match PatchMeta(env, m, patch, now)
          case Err(e) => Err(e)
          case Ok(m2) =>
            var t2 := t1.(shares := t1.shares[id := m2]);
            match LoadActive(t2, id, now)
            case Err(e) => Err(e)
            case Ok(share) => Ok((t2, share))
  }

  /** The row goes, with its payload; the key of a file is what the store must then drop. */
  function Delete(env: Env, t: Tables, now: Instant, id: string, candidate: string)
    : Result<(Tables, Option<string>), ShareError>
  {
    match Authorize(env, t, id, candidate, now)
    case Err(e) => Err(e)
    case Ok(m) =>
      if m.kind == FileKind && id !in t.files then Err(StorageFailure)
      else Ok((DeleteShare(t, id), if m.kind == FileKind then Some(t.files[id].key) else None))
  }

  function AdminDelete(t: Tables, id: string): Result<(Tables, Option<string>), ShareError> {
    if id !in t.shares then Err(NotFound)
    else Ok((DeleteShare(t, id), if id in t.files then Some(t.files[id].key) else None))
  }

  /** The tables without these rows and their payloads. */
  function Without(t: Tables, ids: set<string>): Tables {
    Tables(t.shares - ids, t.texts - ids, t.encrypted - ids, t.files - ids)
  }

  /** One purge transaction on the rows it selected: each is deleted if it is still expired. */
  function Purge(t: Tables, now: Instant, selected: set<string>): Tables {
    Without(t, set id | id in selected && id in t.shares && SqlExpired(t.shares[id].expiresAt, now))
  }

  // ----- whole runs -----------------------------------------------------------

  datatype Op =
    | CreateOp(now: Instant, id: string, token: string, payload: Payload, expiration: Option<Instant>)
    | UpdateOp(now: Instant, id: string, candidate: string, patch: Patch)
    | DeleteOp(now: Instant, id: string, candidate: string)
    | AdminDeleteOp(id: string)
    | PurgeOp(now: Instant, selected: set<string>)

  function Apply(env: Env, t: Tables, op: Op): Tables {
    match op
    case CreateOp(now, id, token, payload, expiration) =>
      (match Create(env, t, now, id, token, payload, expiration) case Ok((t', _)) => t' case Err(_) => t)
    case UpdateOp(now, id, candidate, patch) =>
      (match Update(env, t, now, id, candidate, patch) case Ok((t', _)) => t' case Err(_) => t)
    case DeleteOp(now, id, candidate) =>
      (match Delete(env, t, now, id, candidate) case Ok((t', _)) => t' case Err(_) => t)
    case AdminDeleteOp(id) =>
      (match AdminDelete(t, id) case Ok((t', _)) => t' case Err(_) => t)
    case PurgeOp(now, selected) => Purge(t, now, selected)
  }

  function Run(env: Env, t: Tables, ops: seq<Op>): Tables
    decreases |ops|
  {
    if ops == [] then t else Run(env, Apply(env, t, ops[0]), ops[1..])
  }

  /** Identifiers come from GenerateShareID. */
  predicate GeneratedIds(ops: seq<Op>) {
    forall op :: op in ops && op.CreateOp? ==> ValidShareId(op.id)
  }
}
