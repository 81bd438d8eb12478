/**
The share service: each method runs one transaction on the tables, statement by
statement on a working copy that only a successful commit makes the tables' value,
and keeps the object directory in step with it.
*/
module ShareService {
  import opened Common
  import opened Faults
  import opened Shares
  import opened ShareProperties
  import opened Creation
  import opened Ownership
  import opened ObjectStore

  class Database {
    var tables: Tables

    constructor ()
      ensures tables == EMPTY
    {
      tables := EMPTY;
    }
  }

  /** A refused deletion changes nothing; a failed cleanup has deleted the row and left the object. */
  datatype DeleteError = Refused(error: ShareError) | CleanupFailed(key: string)

  class Service {
    const env: Env
    const db: Database
    const store: Local

    constructor (env: Env, db: Database, store: Local)
      ensures this.env == env && this.db == db && this.store == store
    {
      this.env, this.db, this.store := env, db, store;
    }

    /** Create and CreateEncrypted. */
    method CreateText(
      now: Instant, id: string, token: string, payload: Payload, expiration: Option<Instant>, fails: set<Call>)
      returns (r: Result<Share, ShareError>)
      requires !payload.FilePayload?
      modifies db
      ensures r.Ok? ==> Create(env, old(db.tables), now, id, token, payload, expiration) == Ok((db.tables, r.value))
      ensures r.Ok? ==> Stores(env, old(db.tables), now, id, token, payload, expiration, db.tables, r.value)
      ensures r.Err? ==> db.tables == old(db.tables)
      ensures r.Ok? <==>
        && WithinLimits(payload) && Unused(old(db.tables), id, payload) && |env.digest(token)| == 32
        && InTime(env.retention, now, expiration)
        && fails !! {GenerateIds, BeginTx, InsertMetadata, InsertPayload, CommitTx}
      ensures r.Err? ==>
        || Create(env, old(db.tables), now, id, token, payload, expiration) == Err(r.error)
        || (r.error == StorageFailure && fails != {})
    {
      CreateSucceedsIff(env, db.tables, now, id, token, payload, expiration);
      if Create(env, db.tables, now, id, token, payload, expiration).Ok? {
        CreateStores(env, db.tables, now, id, token, payload, expiration);
      }
      hide WithinLimits, Unused, InTime, Stores, LowerHexDigits;
      var valid := ValidatePayload(payload);
      if valid.Err? {
        return Err(valid.error);
      }
      var normalized := NormalizeExpiration(env.retention, expiration, now);
      if normalized.Err? {
        return Err(normalized.error);
      }
      if GenerateIds in fails || BeginTx in fails {
        return Err(StorageFailure);
      }
      var tx := db.tables;
      var withRow := InsertShare(tx, id, NewMeta(env, payload, token, now, normalized.value));
      if InsertMetadata in fails || withRow.None? {
        return Err(StorageFailure);
      }
      tx := withRow.value;
      var withPayload := Shares.InsertPayload(tx, id, payload);
      if Call.InsertPayload in fails || withPayload.None? {
        return Err(StorageFailure);
      }
      tx := withPayload.value;
      if CommitTx in fails {
        return Err(StorageFailure);
      }
      db.tables := tx;
      r := Ok(Share(id, KindOf(payload), PrivacyOf(payload), payload, now, now, normalized.value));
    }

    /** On well-shaped tables: the row with its one payload, unless it has expired or is not there. */
    method Get(now: Instant, id: string) returns (r: Result<Share, ShareError>)
      ensures r == LoadActive(db.tables, id, now)
      ensures id !in db.tables.shares ==> r == Err(NotFound)
      ensures id in db.tables.shares && SqlExpired(db.tables.shares[id].expiresAt, now) ==> r == Err(Expired)
      ensures Shape(db.tables) && id in db.tables.shares && !SqlExpired(db.tables.shares[id].expiresAt, now) ==>
        (id in db.tables.files || id in db.tables.texts || id in db.tables.encrypted)
        && r == Ok(StoredShare(db.tables, id))
    {
      r := LoadActive(db.tables, id, now);
      if id in db.tables.shares {
        ExpiryTestsAgree(db.tables.shares[id].expiresAt, now);
        if Shape(db.tables) {
          ActiveShareIsStored(db.tables, id, now);
        }
      }
    }

    /** The payload part of an update, inside its transaction. */
    method WritePayload(t: Tables, m: Meta, id: string, patch: Patch, fails: set<Call>)
      returns (r: Result<Tables, ShareError>)
      ensures r.Ok? <==>
        && PatchPayload(t, m, id, patch).Ok?
        && (patch.text.Some? || patch.encrypted.Some? ==> UpdatePayload !in fails)
      ensures r.Ok? ==> r == PatchPayload(t, m, id, patch)
      ensures r.Err? ==>
        (r.error == StorageFailure && fails != {}) || PatchPayload(t, m, id, patch) == Err(r.error)
    {
      var tx := t;
      if m.kind == FileKind {
        if patch.text.Some? || patch.encrypted.Some? {
          return Err(PayloadMismatch);
        }
      } else if m.privacy == Standard {
        if patch.encrypted.Some? {
          return Err(PayloadMismatch);
        }
        if patch.text.Some? {
          if !ValidText(patch.text.value) {
            return Err(InvalidText);
          }
          if UpdatePayload in fails || id !in tx.texts {
            return Err(StorageFailure);
          }
          tx := tx.(texts := tx.texts[id := patch.text.value]);
        }
      } else {
        if patch.text.Some? {
          return Err(PayloadMismatch);
        }
        if patch.encrypted.Some? {
          if !EncryptedText.ValidCiphertext(patch.encrypted.value) {
            return Err(InvalidEncryptedText);
          }
          if UpdatePayload in fails || id !in tx.encrypted {
            return Err(StorageFailure);
          }
          tx := tx.(encrypted := tx.encrypted[id := patch.encrypted.value]);
        }
      }
      r := Ok(tx);
    }

    /**
    All or nothing: the tables change exactly when the update succeeds, even when the
    text was already written in the transaction before the expiration was refused.
    */
    method Update(now: Instant, id: string, candidate: string, patch: Patch, fails: set<Call>)
      returns (r: Result<Share, ShareError>)
      modifies db
      ensures r.Ok? ==> Shares.Update(env, old(db.tables), now, id, candidate, patch) == Ok((db.tables, r.value))
      ensures r.Err? ==> db.tables == old(db.tables)
      ensures r.Err? ==>
        || Shares.Update(env, old(db.tables), now, id, candidate, patch) == Err(r.error)
        || (r.error == StorageFailure && fails != {})
      ensures r.Ok? <==>
        && Shares.Update(env, old(db.tables), now, id, candidate, patch).Ok?
        && fails !! {BeginTx, QueryRow, UpdateMetadata, CommitTx}
        && (patch.text.Some? || patch.encrypted.Some? ==> UpdatePayload !in fails)
      ensures r.Ok? ==>
        && MayChange(env, old(db.tables), id, candidate, now) && id in old(db.tables).shares
        && PatchAllowed(env.retention, old(db.tables).shares[id], patch, now)
      ensures r.Err? && fails == {} && patch != Patch(None, None, false, patch.expiresAt)
              && !MayChange(env, old(db.tables), id, candidate, now) ==>
        r.error == RefusalOf(old(db.tables), id, now)
    {
      hide Live, OwnerToken, ValidOwnerToken;
      UpdateInPlainTerms(env, db.tables, now, id, candidate, patch);
      hide MayChange, PatchAllowed, RefusalOf;
      hide LoadActive, VerifyOwnerToken, PatchPayload, ValidateUpdatedExpiration, NullableMillis, UnixMilli;
      hide LoadAuthorization;
      if patch.text.None? && patch.encrypted.None? && !patch.expirationSet {
        return Err(EmptyPatch);
      }
      if BeginTx in fails || QueryRow in fails {
        return Err(StorageFailure);
      }
      var tx := db.tables;
      var authorization := LoadAuthorization(tx, id, now);
      if authorization.Err? {
        return Err(authorization.error);
      }
      var m := authorization.value;
      if !VerifyOwnerToken(env, candidate, m.verifier) {
        return Err(Unauthorized);
      }
      assert Authorize(env, tx, id, candidate, now) == Ok(m);
      hide Authorize;
      var written := WritePayload(tx, m, id, patch, fails);
      if written.Err? {
        return Err(written.error);
      }
      tx := written.value;
      var m2 := m.(updatedAt := UnixMilli(now));
      if patch.expirationSet {
        var expiresAt := ValidateUpdatedExpiration(env.retention, patch.expiresAt, m.createdAt * MS, now);
        if expiresAt.Err? {
          return Err(expiresAt.error);
        }
        m2 := m2.(expiresAt := NullableMillis(expiresAt.value));
      }
      assert PatchMeta(env, m, patch, now) == Ok(m2);
      hide PatchMeta;
      if UpdateMetadata in fails {
        return Err(StorageFailure);
      }
      tx := tx.(shares := tx.shares[id := m2]);
      var updated := LoadActive(tx, id, now);
      if updated.Err? {
        return Err(updated.error);
      }
      if CommitTx in fails {
        return Err(StorageFailure);
      }
      db.tables := tx;
      r := Ok(updated.value);
    }

    /** The row first, in a transaction; then, with the row gone for good, the object. */
    method Delete(now: Instant, id: string, candidate: string, fails: set<Call>) returns (r: Result<(), DeleteError>)
      modifies db, store
      ensures r.Err? && r.error.Refused? ==> db.tables == old(db.tables) && store.root == old(store.root)
      ensures r.Ok? || r.error.CleanupFailed? ==>
        && Shares.Delete(env, old(db.tables), now, id, candidate).Ok?
        && db.tables == Shares.Delete(env, old(db.tables), now, id, candidate).value.0
      ensures r.Ok? ==>
        ObjectDropped(old(store.root), store.root, Shares.Delete(env, old(db.tables), now, id, candidate).value.1)
      ensures r.Err? && r.error.CleanupFailed? ==>
        && store.root == old(store.root)
        && Some(r.error.key) == Shares.Delete(env, old(db.tables), now, id, candidate).value.1
        && !Removable(old(store.root), r.error.key, fails)
      ensures fails == {} && r.Err? && r.error.Refused? ==>
        Shares.Delete(env, old(db.tables), now, id, candidate) == Err(r.error.error)
      ensures r.Ok? || r.error.CleanupFailed? ==>
        DeletedShare(old(db.tables), old(store.root), db.tables, store.root, id)
      ensures r.Ok? || r.error.CleanupFailed? ==> MayChange(env, old(db.tables), id, candidate, now)
      ensures r.Err? && r.error.Refused? && fails == {} && !MayChange(env, old(db.tables), id, candidate, now) ==>
        r.error.error == RefusalOf(old(db.tables), id, now)
    {
      AuthorizedInPlainTerms(env, db.tables, now, id, candidate);
      hide VerifyOwnerToken, MayChange, RefusalOf;
      if BeginTx in fails || QueryRow in fails {
        return Err(Refused(StorageFailure));
      }
      var tx := db.tables;
      var authorization := LoadAuthorization(tx, id, now);
      if authorization.Err? {
        return Err(Refused(authorization.error));
      }
      if !VerifyOwnerToken(env, candidate, authorization.value.verifier) {
        return Err(Refused(Unauthorized));
      }
      var storageKey := None;
      if authorization.value.kind == FileKind {
        if id !in tx.files {
          return Err(Refused(StorageFailure));
        }
        storageKey := Some(tx.files[id].key);
      }
      if DeleteRow in fails || CommitTx in fails {
        return Err(Refused(StorageFailure));
      }
      db.tables := DeleteShare(tx, id);
      if storageKey.Some? {
        var dropped := store.Delete(storageKey.value, fails);
        if !dropped {
          return Err(CleanupFailed(storageKey.value));
        }
      }
      r := Ok(());
    }

    /** The administrator's deletion asks for no token and takes expired shares too. */
    method AdminDelete(id: string, fails: set<Call>) returns (r: Result<(), DeleteError>)
      modifies db, store
      ensures r.Err? && r.error.Refused? ==> db.tables == old(db.tables) && store.root == old(store.root)
      ensures r.Err? && r.error.Refused? && fails == {} ==> r.error.error == NotFound && id !in old(db.tables).shares
      ensures r.Ok? || r.error.CleanupFailed? ==>
        && id in old(db.tables).shares
        && db.tables == DeleteShare(old(db.tables), id)
      ensures r.Ok? && id in old(db.tables).files && old(db.tables).files[id].key != "" ==>
        ObjectDropped(old(store.root), store.root, Some(old(db.tables).files[id].key))
      ensures r.Ok? && (id !in old(db.tables).files || old(db.tables).files[id].key == "") ==>
        store.root == old(store.root)
      ensures r.Err? && r.error.CleanupFailed? ==>
        && store.root == old(store.root)
        && id in old(db.tables).files && r.error.key == old(db.tables).files[id].key
        && !Removable(old(store.root), r.error.key, fails)
      ensures r.Ok? || r.error.CleanupFailed? ==>
        DeletedShare(old(db.tables), old(store.root), db.tables, store.root, id)
    {
      if BeginTx in fails || QueryRow in fails {
        return Err(Refused(StorageFailure));
      }
      var tx := db.tables;
      if id !in tx.shares {
        return Err(Refused(NotFound));
      }
      var storageKey := if id in tx.files then tx.files[id].key else "";
      if DeleteRow in fails || CommitTx in fails {
        return Err(Refused(StorageFailure));
      }
      db.tables := DeleteShare(tx, id);
      if storageKey != "" {
        var dropped := store.Delete(storageKey, fails);
        if !dropped {
          return Err(CleanupFailed(storageKey));
        }
      }
      r := Ok(());
    }

    /** A download opens the object of a share that a read would show, and of no other. */
    method OpenFile(now: Instant, id: string) returns (r: Result<(Share, Time), ShareError>)
      ensures r.Ok? <==>
        var shown := LoadActive(db.tables, id, now);
        shown.Ok? && shown.value.payload.FilePayload? && ObjectAt(store.root, shown.value.payload.file.key).Some?
      ensures r.Ok? ==>
        && LoadActive(db.tables, id, now) == Ok(r.value.0)
        && ObjectAt(store.root, db.tables.files[id].key) == Some(r.value.1)
      ensures r.Err? && LoadActive(db.tables, id, now).Err? ==> r.error == LoadActive(db.tables, id, now).error
      ensures r == Err(NotFound) && LoadActive(db.tables, id, now).Ok? ==> id !in db.tables.files
    {
      var shown := Get(now, id);
      if shown.Err? {
        return Err(shown.error);
      }
      if !shown.value.payload.FilePayload? {
        return Err(NotFound);
      }
      var file := ObjectAt(store.root, shown.value.payload.file.key);
      if file.None? {
        return Err(StorageFailure);
      }
      r := Ok((shown.value, file.value));
    }

    /** A refused expiration is reported; every other failure of a file creation is a storage failure. */
    function CreateFileError(expiration: Option<Instant>, now: Instant): ShareError {
      var normalized := NormalizeExpiration(env.retention, expiration, now);
      if normalized.Err? then normalized.error else StorageFailure
    }

    /**
    The row and the object of an upload, both or neither. The deferred calls run on
    every way out: after a rollback the object is deleted, and last the stage file.
    */
    method CreateFile(
      now: Instant, id: string, token: string, staged: Staged, file: File, expiration: Option<Instant>,
      fails: set<Call>)
      returns (r: Result<Share, ShareError>)
      requires staged.store == store && staged.WellFormed() && staged.temp != "" && !staged.committed
      requires file.key == staged.key
      modifies db, store, staged
      ensures staged.WellFormed() && staged.temp == ""
      ensures OnlyTouches(old(store.root), store.root, staged.key, old(staged.temp))
      ensures r.Ok? ==>
        && Create(env, old(db.tables), now, id, token, FilePayload(file), expiration) == Ok((db.tables, r.value))
        && Stores(env, old(db.tables), now, id, token, FilePayload(file), expiration, db.tables, r.value)
        && ObjectAt(store.root, staged.key) == StageAt(old(store.root), old(staged.temp)) != None
        && StageAt(store.root, old(staged.temp)) == None
      ensures r.Err? ==>
        && db.tables == old(db.tables)
        && (ObjectAt(old(store.root), staged.key) == None && DeleteObject !in fails ==>
              ObjectAt(store.root, staged.key) == None)
        && (AbortStage !in fails ==> StageAt(store.root, old(staged.temp)) == None)
        && r.error == CreateFileError(expiration, now)
      ensures ObjectAt(store.root, staged.key) in
        {None, ObjectAt(old(store.root), staged.key), StageAt(old(store.root), old(staged.temp))}
      ensures StageAt(store.root, old(staged.temp)) in {None, StageAt(old(store.root), old(staged.temp))}
      ensures r.Ok? <==>
        && WithinLimits(FilePayload(file)) && Unused(old(db.tables), id, FilePayload(file))
        && |env.digest(token)| == 32 && InTime(env.retention, now, expiration)
        && CommitSucceeds(old(store.root), staged.key, old(staged.temp), fails)
        && fails !! {GenerateIds, BeginTx, InsertMetadata, Call.InsertPayload, CommitTx}
    {
      CreateSucceedsIff(env, db.tables, now, id, token, FilePayload(file), expiration);
      if Create(env, db.tables, now, id, token, FilePayload(file), expiration).Ok? {
        CreateStores(env, db.tables, now, id, token, FilePayload(file), expiration);
      }
      hide WithinLimits, Unused, InTime, Stores, LowerHexDigits;
      var normalized := NormalizeExpiration(env.retention, expiration, now);
      if normalized.Err? {
        var aborted := staged.Abort(fails);
        return Err(normalized.error);
      }
      if GenerateIds in fails {
        var aborted := staged.Abort(fails);
        return Err(StorageFailure);
      }
      var committed := InsertFile(now, id, token, staged, file, normalized.value, fails);
      if !committed {
        var dropped := store.Delete(file.key, fails);
      }
      var aborted := staged.Abort(fails);
      if !committed {
        return Err(StorageFailure);
      }
      r := Ok(Share(id, FileKind, Standard, FilePayload(file), now, now, normalized.value));
    }

    /** The transaction of CreateFile, which publishes the object between its two inserts. */
    method InsertFile(
      now: Instant, id: string, token: string, staged: Staged, file: File, expiresAt: Option<Instant>, fails: set<Call>)
      returns (committed: bool)
      requires staged.store == store && staged.WellFormed() && staged.temp != "" && !staged.committed
      requires file.key == staged.key
      modifies db, store, staged
      ensures staged.WellFormed() && (staged.temp == "" || staged.temp == old(staged.temp))
      ensures OnlyTouches(old(store.root), store.root, staged.key, old(staged.temp))
      ensures !committed ==> db.tables == old(db.tables)
      ensures staged.temp == "" ==> StageAt(store.root, old(staged.temp)) == None
      ensures ObjectAt(store.root, staged.key) != ObjectAt(old(store.root), staged.key) ==>
        && ObjectAt(old(store.root), staged.key) == None
        && ObjectAt(store.root, staged.key) == StageAt(old(store.root), old(staged.temp))
      ensures staged.temp != "" ==> StageAt(store.root, staged.temp) == StageAt(old(store.root), staged.temp)
      ensures committed ==>
        && staged.temp == ""
        && ObjectAt(store.root, staged.key) == StageAt(old(store.root), old(staged.temp)) != None
        && StageAt(store.root, old(staged.temp)) == None
      ensures var t1 := InsertShare(old(db.tables), id, NewMeta(env, FilePayload(file), token, now, expiresAt));
        committed <==>
          && t1.Some? && Shares.InsertFile(t1.value, id, file).Some?
          && CommitSucceeds(old(store.root), staged.key, old(staged.temp), fails)
          && fails !! {BeginTx, InsertMetadata, Call.InsertPayload, CommitTx}
      ensures var t1 := InsertShare(old(db.tables), id, NewMeta(env, FilePayload(file), token, now, expiresAt));
        committed ==> Some(db.tables) == Shares.InsertFile(t1.value, id, file)
    {
      if BeginTx in fails {
        return false;
      }
      var tx := db.tables;
      var withRow := InsertShare(tx, id, NewMeta(env, FilePayload(file), token, now, expiresAt));
      if InsertMetadata in fails || withRow.None? {
        return false;
      }
      tx := withRow.value;
      var published := staged.Commit(fails);
      if !published {
        return false;
      }
      var withFile := Shares.InsertFile(tx, id, file);
      if Call.InsertPayload in fails || withFile.None? {
        return false;
      }
      tx := withFile.value;
      if CommitTx in fails {
        return false;
      }
      db.tables := tx;
      committed := true;
    }
  }

  /** What a deletion has done once the row is gone: the object is dropped, or the directory is as it was. */
  ghost predicate DeletedShare(t0: Tables, root0: Root, t: Tables, root: Root, id: string) {
    && id in t0.shares && t == DeleteShare(t0, id)
    && (root == root0 || (id in t0.files && ObjectDropped(root0, root, Some(t0.files[id].key))))
  }

  /** The object of the key, if one was named, is gone and every other file is as it was. */
  ghost predicate ObjectDropped(before: Root, after: Root, key: Option<string>) {
    match key
    case None => after == before
    case Some(k) =>
      ObjectAt(after, k) == None && OnlyTouches(before, after, k, "")
      && forall name :: StageAt(after, name) == StageAt(before, name)
  }
}
