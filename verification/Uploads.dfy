/**
The multipart upload request: the loop over the parts, who owns the stage file on
every way out, and what the two stores look like afterwards. The parsed parts and
the decoder of the metadata are arguments.
*/
module Uploads {
  import opened Common
  import opened Faults
  import opened Shares
  import opened Creation
  import opened ObjectStore
  import opened ShareService

  const MAX_METADATA_BYTES := 65536

  /** One step of the multipart reader. A name that does not survive sanitizing is None. */
  datatype Part =
    | ReadFails(tooLarge: bool)
    | BadDisposition
    | MetadataPart(hasFilename: bool, isJson: bool, data: Option<seq<Byte>>)
    | FilePart(named: bool, filename: Option<seq<Byte>>, incoming: Incoming)
    | OtherPart

  datatype MetadataRequest = MetadataRequest(
    kind: Option<string>, privacy: Option<string>, expirationSet: bool, expiresAt: Option<Instant>)

  const MAX_WIRE_BYTES := 69_206_016

  /** What is settled before the parts are read: the upload slot, the two deadlines, the length and the media type. */
  datatype Head = Head(slotFree: bool, readDeadlineSet: bool, writeDeadlineSet: bool, length: int, multipart: bool)

  datatype Outcome =
    | Created(share: Share)
    | RateLimited | BadRequest | RequestTooLarge | UnsupportedType | ServerError
    | Refused(error: ShareError)

  /** The names and readings that the request draws, and what the store detects in the content. */
  datatype Draws = Draws(
    key: string, temps: seq<string>, uploadedAt: Instant, now: Instant, id: string, token: string,
    mediaType: seq<Byte>, sha256: seq<Byte>)

  /** What the parts have led to: metadata and a staged file, or an answer already given. */
  datatype Received = Received(
    answer: Option<Outcome>, metadata: Option<seq<Byte>>, filename: seq<Byte>, size: nat, staged: Option<Staged>)

  function HeadAnswer(head: Head): Option<Outcome> {
    if !head.slotFree then Some(RateLimited)
    else if !head.readDeadlineSet || !head.writeDeadlineSet then Some(ServerError)
    else if head.length > MAX_WIRE_BYTES then Some(RequestTooLarge)
    else if !head.multipart then Some(BadRequest)
    else None
  }

  function StageAnswer(error: StageError): Outcome {
    match error
    case StageTooLarge => RequestTooLarge
    case StageEmpty => BadRequest
    case StageFailed => ServerError
  }

  /** The answer that a part brings about, after parts with or without metadata and a file. */
  function PartAnswer(
    root: Root, draws: Draws, part: Part, hasMetadata: bool, hasFile: bool, fails: set<Call>): Option<Outcome>
  {
    match part
    case ReadFails(tooLarge) => Some(if tooLarge then RequestTooLarge else ServerError)
    case BadDisposition => Some(BadRequest)
    case MetadataPart(hasFilename, isJson, data) =>
      if hasMetadata || hasFilename || !isJson then Some(BadRequest)
      else if data.None? then Some(ServerError)
      else if |data.value| > MAX_METADATA_BYTES then Some(RequestTooLarge)
      else None
    case FilePart(named, filename, incoming) =>
      if hasFile || !named || filename.None? then Some(BadRequest)
      else if Stageable(root, draws.temps, incoming, MAX_FILE_BYTES, fails) then None
      else Some(StageAnswer(StageErrorOf(root, draws.temps, incoming, MAX_FILE_BYTES, fails)))
    case OtherPart => Some(BadRequest)
  }

  /** The first part that is refused decides, and at the end both parts have to be there. */
  function PartsAnswer(
    root: Root, draws: Draws, parts: seq<Part>, hasMetadata: bool, hasFile: bool, fails: set<Call>): Option<Outcome>
    decreases |parts|
  {
    if parts == [] then (if hasMetadata && hasFile then None else Some(BadRequest))
    else
      var answer := PartAnswer(root, draws, parts[0], hasMetadata, hasFile, fails);
      if answer.Some? then answer
      else
        PartsAnswer(root, draws, parts[1..],
          hasMetadata || parts[0].MetadataPart?, hasFile || parts[0].FilePart?, fails)
  }

  class Handler {
    const service: Service
    const decode: seq<Byte> -> Option<MetadataRequest>

    constructor (service: Service, decode: seq<Byte> -> Option<MetadataRequest>)
      ensures this.service == service && this.decode == decode
    {
      this.service, this.decode := service, decode;
    }

    /**
    The loop over the parts: at most one metadata part and one file part, in either
    order. The stage file, once there is one, belongs to the request.
    */
    method ReceiveParts(parts: seq<Part>, draws: Draws, fails: set<Call>) returns (r: Received)
      requires DrawnNames(draws.temps)
      modifies service.store
      ensures var temp := FirstFree(old(service.store.root), draws.temps);
        && OnlyTouches(old(service.store.root), service.store.root, "", temp)
        && (r.staged.None? && AbortStage !in fails ==> StageAt(service.store.root, temp) == None)
        && StageAt(service.store.root, temp) in {None, Some(draws.uploadedAt)}
      ensures forall k :: ObjectAt(service.store.root, k) == ObjectAt(old(service.store.root), k)
      ensures r.staged.Some? ==>
        && fresh(r.staged.value)
        && OwnsStage(r.staged.value, draws, FirstFree(old(service.store.root), draws.temps))
        && service.store.root
           == old(service.store.root)[FirstFree(old(service.store.root), draws.temps) := Regular(draws.uploadedAt)]
      ensures r.answer == PartsAnswer(old(service.store.root), draws, parts, false, false, fails)
      ensures r.answer.None? ==>
        && r.metadata == Some(LastMetadata(parts)) && r.staged.Some?
        && (r.filename, r.size) == LastFile(parts) && 0 < r.size <= MAX_FILE_BYTES
      ensures r.answer.None? <==> Acceptable(old(service.store.root), draws, parts, fails)
    {
      ghost var before := service.store.root;
      ghost var temp := FirstFree(before, draws.temps);
      FirstFreeIsFree(before, draws.temps);
      AnswerIffUnacceptable(before, draws, parts, fails);
      assert OnlyTouches(before, before, "", temp);
      hide ObjectAt, StageAt, OnlyTouches, IsStageName, FirstFree, Acceptable, Stageable, StageErrorOf;
      hide LastFile, LastMetadata, AllAcceptable, Count;
      var metadata: Option<seq<Byte>> := None;
      var filename: seq<Byte> := [];
      var size: nat := 0;
      var staged: Option<Staged> := None;
      var i := 0;
      while i < |parts|
        invariant 0 <= i <= |parts|
        invariant OnlyTouches(before, service.store.root, "", temp)
        invariant forall k :: ObjectAt(service.store.root, k) == ObjectAt(before, k)
        invariant staged.Some? ==>
          && fresh(staged.value) && OwnsStage(staged.value, draws, temp)
          && 0 < size <= MAX_FILE_BYTES
          && service.store.root == before[temp := Regular(draws.uploadedAt)]
          && LastFile(parts[..i]) == (filename, size)
        invariant metadata.Some? ==> LastMetadata(parts[..i]) == metadata.value
        invariant staged.None? ==> service.store.root == before
        invariant PartsAnswer(before, draws, parts, false, false, fails)
               == PartsAnswer(before, draws, parts[i..], metadata.Some?, staged.Some?, fails)
      {
        var part := parts[i];
        LastOf(parts[..i + 1]);
        assert parts[..i + 1][..i] == parts[..i];
        assert parts[i..][0] == part && parts[i..][1..] == parts[i + 1..];
        match part {
          case ReadFails(tooLarge) =>
            return Received(Some(if tooLarge then RequestTooLarge else ServerError), metadata, filename, size, staged);
          case BadDisposition =>
            return Received(Some(BadRequest), metadata, filename, size, staged);
          case MetadataPart(hasFilename, isJson, data) =>
            if metadata.Some? || hasFilename || !isJson {
              return Received(Some(BadRequest), metadata, filename, size, staged);
            }
            if data.None? {
              return Received(Some(ServerError), metadata, filename, size, staged);
            }
            if |data.value| > MAX_METADATA_BYTES {
              return Received(Some(RequestTooLarge), metadata, filename, size, staged);
            }
            metadata := data;
          case FilePart(named, name, incoming) =>
            if staged.Some? || !named || name.None? {
              return Received(Some(BadRequest), metadata, filename, size, staged);
            }
            filename := name.value;
            var stored :=
              service.store.Stage(draws.key, draws.temps, draws.uploadedAt, incoming, MAX_FILE_BYTES, fails);
            if stored.Err? {
              return Received(Some(StageAnswer(stored.error)), metadata, filename, size, None);
            }
            StagedSize(before, draws.temps, incoming, fails);
            staged := Some(stored.value);
            size := incoming.size;
          case OtherPart =>
            return Received(Some(BadRequest), metadata, filename, size, staged);
        }
        i := i + 1;
      }
      assert parts[..|parts|] == parts && parts[|parts|..] == [];
      if metadata.None? || staged.None? {
        return Received(Some(BadRequest), metadata, filename, size, staged);
      }
      r := Received(None, metadata, filename, size, staged);
    }

    ghost predicate OwnsStage(s: Staged, draws: Draws, temp: string)
      reads s, service.store
    {
      && s.WellFormed() && !s.committed && s.store == service.store
      && s.key == draws.key && s.temp == temp && temp != ""
      && StageAt(service.store.root, temp) == Some(draws.uploadedAt)
    }

    /** The checks on the decoded metadata, in the order they are made. */
    function CheckMetadata(metadata: seq<Byte>): (r: Result<Option<Instant>, Outcome>)
      ensures r.Ok? ==> decode(metadata) == Some(MetadataRequest(Some("FILE"), Some("STANDARD"), true, r.value))
      ensures r == Err(UnsupportedType) <==>
        exists e :: decode(metadata) == Some(MetadataRequest(Some("FILE"), Some("ENCRYPTED"), true, e))
      ensures r.Err? && r.error != UnsupportedType ==>
        r.error == BadRequest
        && forall e :: decode(metadata) != Some(MetadataRequest(Some("FILE"), Some("STANDARD"), true, e))
    {
      match decode(metadata)
      case None => Err(BadRequest)
      case Some(request) =>
        if request.kind.None? || request.privacy.None? || !request.expirationSet then Err(BadRequest)
        else if request.kind.value !in {"TEXT", "FILE"} || request.privacy.value !in {"STANDARD", "ENCRYPTED"} then
          Err(BadRequest)
        else if request.kind.value == "FILE" && request.privacy.value == "ENCRYPTED" then Err(UnsupportedType)
        else if request.kind.value != "FILE" then Err(BadRequest)
        else Ok(request.expiresAt)
    }

    /** The creation that acceptable parts ask of the service, on the tables as they are. */
    function Asked(t: Tables, parts: seq<Part>, draws: Draws): Result<(Tables, Share), ShareError>
      requires CheckMetadata(LastMetadata(parts)).Ok?
    {
      Create(service.env, t, draws.now, draws.id, draws.token, AskedPayload(parts, draws),
        CheckMetadata(LastMetadata(parts)).value)
    }

    function AskedPayload(parts: seq<Part>, draws: Draws): Payload {
      var (filename, size) := LastFile(parts);
      FilePayload(File(draws.key, filename, size, draws.mediaType, draws.sha256))
    }

    /** Exactly when a share is created. */
    ghost predicate Creates(t: Tables, root: Root, head: Head, parts: seq<Part>, draws: Draws, fails: set<Call>) {
      var temp := FirstFree(root, draws.temps);
      && HeadAnswer(head).None?
      && Acceptable(root, draws, parts, fails)
      && CheckMetadata(LastMetadata(parts)).Ok?
      && WithinLimits(AskedPayload(parts, draws)) && Unused(t, draws.id, AskedPayload(parts, draws))
      && |service.env.digest(draws.token)| == 32
      && InTime(service.env.retention, draws.now, CheckMetadata(LastMetadata(parts)).value)
      && CommitSucceeds(root[temp := Regular(draws.uploadedAt)], draws.key, temp, fails)
      && fails !! {GenerateIds, BeginTx, InsertMetadata, Call.InsertPayload, CommitTx}
    }

    /** What is answered when no share is created: the first thing that is wrong, in the order of the request. */
    function Refusal(root: Root, head: Head, parts: seq<Part>, draws: Draws, fails: set<Call>): Outcome {
      if HeadAnswer(head).Some? then HeadAnswer(head).value
      else if PartsAnswer(root, draws, parts, false, false, fails).Some? then
        PartsAnswer(root, draws, parts, false, false, fails).value
      else
        var checked := CheckMetadata(LastMetadata(parts));
        if checked.Err? then checked.error
        else Outcome.Refused(service.CreateFileError(checked.value, draws.now))
    }

    /**
    All or nothing, for every request and every set of failing calls: a created share
    has its row and its object and no stage file; otherwise the tables are as they were
    and, unless a removal failed, there is neither object nor stage file. Nothing else
    in the directory is touched, it is settled in advance which of the two it will be,
    and what is answered. The deferred abort comes last.
    */
    method CreateFile(head: Head, parts: seq<Part>, draws: Draws, fails: set<Call>) returns (outcome: Outcome)
      requires DrawnNames(draws.temps)
      requires ObjectAt(service.store.root, draws.key) == None
      modifies service.db, service.store
      ensures outcome.Created? <==> Creates(old(service.db.tables), old(service.store.root), head, parts, draws, fails)
      ensures outcome.Created? ==>
        && Asked(old(service.db.tables), parts, draws) == Ok((service.db.tables, outcome.share))
        && Stores(service.env, old(service.db.tables), draws.now, draws.id, draws.token, AskedPayload(parts, draws),
             CheckMetadata(LastMetadata(parts)).value, service.db.tables, outcome.share)
        && CreatedTables(old(service.db.tables), service.db.tables, draws.id, draws.key)
      ensures !outcome.Created? ==>
        && service.db.tables == old(service.db.tables)
        && outcome == Refusal(old(service.store.root), head, parts, draws, fails)
      ensures UploadedFiles(old(service.store.root), service.store.root, draws, fails, outcome.Created?)
    {
      hide OnlyTouches, ObjectAt, StageAt, FirstFree, PartsAnswer, Acceptable, CommitSucceeds, CheckMetadata;
      hide WithinLimits, Unused, InTime, Stores, LowerHexDigits;
      ghost var t0, root0 := service.db.tables, service.store.root;
      FirstFreeIsFree(root0, draws.temps);
      NothingUploaded(root0, draws, fails);
      var refused := HeadAnswer(head);
      if refused.Some? {
        return refused.value;
      }
      var received := ReceiveParts(parts, draws, fails);
      ghost var root1 := service.store.root;
      var staged := received.staged;
      outcome := BadRequest;
      if received.answer.Some? {
        outcome := received.answer.value;
        PartsAnswerIsNotCreated(root0, draws, parts, false, false, fails);
      } else {
        var checked := CheckMetadata(received.metadata.value);
        if checked.Err? {
          outcome := checked.error;
          assert !outcome.Created?;
        } else {
          var file := File(draws.key, received.filename, received.size, draws.mediaType, draws.sha256);
          var made := service.CreateFile(draws.now, draws.id, draws.token, staged.value, file, checked.value, fails);
          match made
          case Ok(share) =>
            CreatedRow(service.env, t0, draws, file, checked.value);
            outcome, staged := Created(share), None;
          case Err(e) =>
            outcome := Outcome.Refused(e);
        }
      }
      ghost var root2 := service.store.root;
      ghost var temp2 := if staged.Some? then staged.value.temp else "";
      if staged.Some? {
        var aborted := staged.value.Abort(fails);
      }
      TouchedInTurn(root0, root1, root2, service.store.root, draws.key, FirstFree(root0, draws.temps), temp2);
    }
  }

  /** What an upload leaves in the directory: its object, its stage file or neither, each with its time. */
  ghost predicate UploadedFiles(before: Root, after: Root, draws: Draws, fails: set<Call>, created: bool) {
    var temp := FirstFree(before, draws.temps);
    && OnlyTouches(before, after, draws.key, temp)
    && ObjectAt(after, draws.key) in {None, Some(draws.uploadedAt)}
    && StageAt(after, temp) in {None, Some(draws.uploadedAt)}
    && (created ==> ObjectAt(after, draws.key) == Some(draws.uploadedAt) && StageAt(after, temp) == None)
    && (!created && DeleteObject !in fails ==> ObjectAt(after, draws.key) == None)
    && (!created && AbortStage !in fails ==> StageAt(after, temp) == None)
  }

  /** One new row with its file payload, and nothing else. */
  ghost predicate CreatedTables(before: Tables, after: Tables, id: string, key: string) {
    && id !in before.shares && id in after.shares && id in after.files && after.files[id].key == key
    && id !in before.files
    && after == before.(shares := before.shares[id := after.shares[id]], files := before.files[id := after.files[id]])
  }

  lemma NothingUploaded(root: Root, draws: Draws, fails: set<Call>)
    requires ObjectAt(root, draws.key) == None && StageAt(root, FirstFree(root, draws.temps)) == None
    ensures UploadedFiles(root, root, draws, fails, false)
  {
    hide ObjectAt, StageAt, FirstFree;
  }

  lemma TouchedInTurn(r0: Root, r1: Root, r2: Root, r3: Root, key: string, temp: string, temp2: string)
    requires OnlyTouches(r0, r1, "", temp)
    requires r1 == r2 || OnlyTouches(r1, r2, key, temp)
    requires r2 == r3 || (OnlyTouches(r2, r3, "", temp2) && temp2 in {"", temp})
    ensures OnlyTouches(r0, r3, key, temp)
  {
    hide ObjectAt;
    assert StageAt(r2, "") == StageAt(r3, "") == None;
    assert ObjectAt(r0, "") == ObjectAt(r1, "") && ObjectAt(r2, "") == ObjectAt(r3, "") by {
      NoObjectAtEmptyKey(r0);
      NoObjectAtEmptyKey(r1);
      NoObjectAtEmptyKey(r2);
      NoObjectAtEmptyKey(r3);
    }
  }

  lemma NoObjectAtEmptyKey(root: Root)
    ensures ObjectAt(root, "") == None
  {
  }

  lemma StagedSize(root: Root, temps: seq<string>, incoming: Incoming, fails: set<Call>)
    requires Stageable(root, temps, incoming, MAX_FILE_BYTES, fails)
    ensures incoming.Content? && 0 < incoming.size <= MAX_FILE_BYTES && FirstFree(root, temps) != ""
  {
  }

  lemma {:induction false} PartsAnswerIsNotCreated(
    root: Root, draws: Draws, parts: seq<Part>, hasMetadata: bool, hasFile: bool, fails: set<Call>)
    ensures PartsAnswer(root, draws, parts, hasMetadata, hasFile, fails).Some? ==>
      !PartsAnswer(root, draws, parts, hasMetadata, hasFile, fails).value.Created?
    decreases |parts|
  {
    hide Stageable, StageErrorOf;
    if parts != [] {
      PartsAnswerIsNotCreated(root, draws, parts[1..],
        hasMetadata || parts[0].MetadataPart?, hasFile || parts[0].FilePart?, fails);
    }
  }

  /** Parts of the wanted kind: metadata parts, or file parts. */
  function Count(parts: seq<Part>, metadata: bool): nat {
    if parts == [] then 0
    else
      (if (metadata && parts[0].MetadataPart?) || (!metadata && parts[0].FilePart?) then 1 else 0)
      + Count(parts[1..], metadata)
  }

  /** What the last metadata part carries, and the name and size of the last file part. */
  function LastMetadata(parts: seq<Part>): seq<Byte>
    decreases |parts|
  {
    if parts == [] then []
    else
      var last := parts[|parts| - 1];
      if last.MetadataPart? && last.data.Some? then last.data.value else LastMetadata(parts[..|parts| - 1])
  }

  function LastFile(parts: seq<Part>): (seq<Byte>, nat)
    decreases |parts|
  {
    if parts == [] then ([], 0)
    else
      var last := parts[|parts| - 1];
      if last.FilePart? && last.filename.Some? && last.incoming.Content? then (last.filename.value, last.incoming.size)
      else LastFile(parts[..|parts| - 1])
  }

  lemma LastOf(parts: seq<Part>)
    requires parts != []
    ensures var last, before := parts[|parts| - 1], parts[..|parts| - 1];
      && (last.FilePart? && last.filename.Some? && last.incoming.Content? ==>
            LastFile(parts) == (last.filename.value, last.incoming.size))
      && (!last.FilePart? ==> LastFile(parts) == LastFile(before))
      && (last.MetadataPart? && last.data.Some? ==> LastMetadata(parts) == last.data.value)
      && (!last.MetadataPart? ==> LastMetadata(parts) == LastMetadata(before))
  {
  }

  predicate AcceptablePart(root: Root, draws: Draws, part: Part, fails: set<Call>) {
    match part
    case ReadFails(_) => false
    case BadDisposition => false
    case MetadataPart(hasFilename, isJson, data) =>
      !hasFilename && isJson && data.Some? && |data.value| <= MAX_METADATA_BYTES
    case FilePart(named, filename, incoming) =>
      named && filename.Some? && Stageable(root, draws.temps, incoming, MAX_FILE_BYTES, fails)
    case OtherPart => false
  }

  predicate AllAcceptable(root: Root, draws: Draws, parts: seq<Part>, fails: set<Call>) {
    forall i :: 0 <= i < |parts| ==> AcceptablePart(root, draws, parts[i], fails)
  }

  /** One good metadata part and one good file part, in either order, and nothing else. */
  predicate Acceptable(root: Root, draws: Draws, parts: seq<Part>, fails: set<Call>) {
    AllAcceptable(root, draws, parts, fails) && Count(parts, true) == 1 && Count(parts, false) == 1
  }

  lemma {:induction false} AnswerIffUnacceptableFrom(
    root: Root, draws: Draws, parts: seq<Part>, hasMetadata: bool, hasFile: bool, fails: set<Call>)
    ensures PartsAnswer(root, draws, parts, hasMetadata, hasFile, fails).None? <==>
      && AllAcceptable(root, draws, parts, fails)
      && Count(parts, true) == (if hasMetadata then 0 else 1)
      && Count(parts, false) == (if hasFile then 0 else 1)
    decreases |parts|
  {
    hide Stageable, StageErrorOf;
    if parts != [] {
      assert AllAcceptable(root, draws, parts, fails) <==>
        AcceptablePart(root, draws, parts[0], fails) && AllAcceptable(root, draws, parts[1..], fails)
      by {
        assert forall i :: 1 <= i < |parts| ==> parts[i] == parts[1..][i - 1];
        assert forall i :: 0 <= i < |parts[1..]| ==> parts[1..][i] == parts[i + 1];
      }
      hide AllAcceptable;
      AnswerIffUnacceptableFrom(root, draws, parts[1..],
        hasMetadata || parts[0].MetadataPart?, hasFile || parts[0].FilePart?, fails);
    }
  }

  lemma AnswerIffUnacceptable(root: Root, draws: Draws, parts: seq<Part>, fails: set<Call>)
    ensures PartsAnswer(root, draws, parts, false, false, fails).None? <==> Acceptable(root, draws, parts, fails)
  {
    AnswerIffUnacceptableFrom(root, draws, parts, false, false, fails);
  }

  lemma CreatedRow(env: Env, t: Tables, draws: Draws, file: File, expiration: Option<Instant>)
    requires Create(env, t, draws.now, draws.id, draws.token, FilePayload(file), expiration).Ok?
    ensures CreatedTables(t, Create(env, t, draws.now, draws.id, draws.token, FilePayload(file), expiration).value.0,
              draws.id, file.key)
  {
    hide ValidFile, NormalizeExpiration;
  }

  // ----- the answers and limits in the terms of the request ------------------------------

  /** Before the parts: a free slot, both deadlines, at most 66 MiB, and a multipart body, in this order. */
  lemma HeadsInPlainTerms(head: Head)
    ensures HeadAnswer(head) == None <==>
      head.slotFree && head.readDeadlineSet && head.writeDeadlineSet && head.length <= 69_206_016 && head.multipart
    ensures !head.slotFree <==> HeadAnswer(head) == Some(RateLimited)
    ensures head.slotFree && !(head.readDeadlineSet && head.writeDeadlineSet) <==> HeadAnswer(head) == Some(ServerError)
    ensures head.slotFree && head.readDeadlineSet && head.writeDeadlineSet && head.length > 69_206_016 <==>
      HeadAnswer(head) == Some(RequestTooLarge)
  {
  }

  /** A part that is taken: metadata of at most 64 KiB, or a named file of 1 byte to 64 MiB that can be staged. */
  lemma PartsInPlainTerms(root: Root, draws: Draws, part: Part, fails: set<Call>)
    ensures AcceptablePart(root, draws, part, fails) <==>
      || (part.MetadataPart? && !part.hasFilename && part.isJson && part.data.Some? && |part.data.value| <= 65_536)
      || (part.FilePart? && part.named && part.filename.Some?
          && part.incoming.Content? && 1 <= part.incoming.size <= 67_108_864
          && FirstFree(root, draws.temps) != "" && fails !! {GenerateKey, CreateStage, SyncStage})
  {
  }

  /** What a part that is not taken is answered: too large, a bad request, or a failure of the server. */
  lemma PartAnswersInPlainTerms(
    root: Root, draws: Draws, part: Part, hasMetadata: bool, hasFile: bool, fails: set<Call>)
    ensures var answer := PartAnswer(root, draws, part, hasMetadata, hasFile, fails);
      && (part.ReadFails? ==> answer == Some(if part.tooLarge then RequestTooLarge else ServerError))
      && (part.BadDisposition? || part.OtherPart? ==> answer == Some(BadRequest))
      && (part.MetadataPart? && (hasMetadata || part.hasFilename || !part.isJson) ==> answer == Some(BadRequest))
      && (part.MetadataPart? && answer == Some(RequestTooLarge) ==> part.data.Some? && |part.data.value| > 65_536)
      && (part.FilePart? && (hasFile || !part.named || part.filename.None?) ==> answer == Some(BadRequest))
      && (part.FilePart? && !hasFile && part.named && part.filename.Some?
          && FirstFree(root, draws.temps) != "" && fails !! {GenerateKey, CreateStage} ==>
            && (part.incoming.Broken? ==> answer == Some(ServerError))
            && (part.incoming.Content? && part.incoming.size > 67_108_864 ==> answer == Some(RequestTooLarge))
            && (part.incoming == Content(0) ==> answer == Some(BadRequest)))
  {
  }
}
