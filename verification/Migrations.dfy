/** The migration runner: scripts applied one transaction at a time, and picked up again after any failure. */
module Migrations {
  import opened Common

  datatype Migration = Migration(version: int, path: string)

  /** PRAGMA user_version, and the scripts whose effects are in the schema, in the order of their application. */
  datatype Schema = Schema(version: int, applied: seq<Migration>)

  /** What can happen to the transaction of one migration. A process can stop on either side of the commit. */
  datatype Turn =
    | Smooth | ReadFails | BeginFails | ScriptFails | PragmaFails | CommitFails | StopsBefore | StopsAfter

  datatype MigrateError =
    | Newer | MissingVersion(version: int) | TransactionFailed(version: int) | Stopped | WrongVersion

  const LATEST_SCHEMA_VERSION := 5
  const MIGRATIONS := [
    Migration(1, "migrations/0001_shares.sql"),
    Migration(2, "migrations/0002_standard_text_payloads.sql"),
    Migration(3, "migrations/0003_encrypted_text_payloads.sql"),
    Migration(4, "migrations/0004_file_payloads.sql"),
    Migration(5, "migrations/0005_admin_listing_indexes.sql")]

  predicate Consecutive(list: seq<Migration>, latest: int) {
    |list| == latest && forall i :: 0 <= i < |list| ==> list[i].version == i + 1
  }

  /** The rest of the list on a schema, `turns(v)` being what happens to the transaction of version `v`. */
  function Upgrade(list: seq<Migration>, latest: int, turns: int -> Turn, s: Schema): (Schema, Result<(), MigrateError>)
    decreases |list|
  {
    if list == [] then (s, if s.version == latest then Ok(()) else Err(WrongVersion))
    else if list[0].version <= s.version then Upgrade(list[1..], latest, turns, s)
    else if list[0].version != s.version + 1 then (s, Err(MissingVersion(s.version + 1)))
    else
      var after := Schema(list[0].version, s.applied + [list[0]]);
      match turns(list[0].version)
      case Smooth => Upgrade(list[1..], latest, turns, after)
      case StopsBefore => (s, Err(Stopped))
      case StopsAfter => (after, Err(Stopped))
      case _ => (s, Err(TransactionFailed(list[0].version)))
  }

  /** One start of the program. */
  function Start(list: seq<Migration>, latest: int, turns: int -> Turn, s: Schema): (Schema, Result<(), MigrateError>) {
    if s.version > latest then (s, Err(Newer)) else Upgrade(list, latest, turns, s)
  }

  class Database {
    var schema: Schema

    constructor (schema: Schema)
      ensures this.schema == schema
    {
      this.schema := schema;
    }

    /** The script and the new version become visible together, or neither does. */
    method Apply(migration: Migration, turn: Turn) returns (committed: bool)
      modifies this
      ensures schema == if turn.Smooth? || turn.StopsAfter?
        then Schema(migration.version, old(schema).applied + [migration]) else old(schema)
      ensures committed <==> turn.Smooth? || turn.StopsAfter?
    {
      if turn.ReadFails? || turn.BeginFails? || turn.StopsBefore? {
        return false;
      }
      var tx := schema;
      if turn.ScriptFails? {
        return false;
      }
      tx := tx.(applied := tx.applied + [migration]);
      if turn.PragmaFails? {
        return false;
      }
      tx := tx.(version := migration.version);
      if turn.CommitFails? {
        return false;
      }
      schema := tx;
      committed := true;
    }

    method Migrate(list: seq<Migration>, latest: int, turns: int -> Turn) returns (r: Result<(), MigrateError>)
      modifies this
      ensures (schema, r) == Start(list, latest, turns, old(schema))
    {
      var current := schema.version;
      if current > latest {
        return Err(Newer);
      }
      for i := 0 to |list|
        invariant current == schema.version
        invariant Upgrade(list[i..], latest, turns, schema) == Start(list, latest, turns, old(schema))
      {
        var migration := list[i];
        assert list[i..][0] == migration && list[i..][1..] == list[i + 1..];
        if migration.version <= current {
          continue;
        }
        if migration.version != current + 1 {
          return Err(MissingVersion(current + 1));
        }
        var committed := Apply(migration, turns(migration.version));
        if turns(migration.version).StopsBefore? || turns(migration.version).StopsAfter? {
          return Err(Stopped);
        }
        if !committed {
          return Err(TransactionFailed(migration.version));
        }
        current := migration.version;
      }
      if current != latest {
        return Err(WrongVersion);
      }
      r := Ok(());
    }
  }

  // ----- any list, any schema -------------------------------------------------------

  /** Scripts whose versions are `from + 1`, `from + 2`, … in this order, all of them from the list. */
  ghost predicate InTurn(extra: seq<Migration>, from: int, list: seq<Migration>) {
    forall i :: 0 <= i < |extra| ==> extra[i].version == from + 1 + i && extra[i] in list
  }

  /** A start adds scripts without a gap and without a repetition, and the version counts them. */
  lemma {:induction false} UpgradeAddsInTurn(list: seq<Migration>, latest: int, turns: int -> Turn, s: Schema)
    returns (extra: seq<Migration>)
    ensures var (s', r) := Upgrade(list, latest, turns, s);
      && s'.applied == s.applied + extra
      && InTurn(extra, s.version, list)
      && s'.version == s.version + |extra|
      && (r.Ok? ==> s'.version == latest)
    decreases |list|
  {
    extra := [];
    if list != [] {
      assert forall m :: m in list[1..] ==> m in list;
      if list[0].version <= s.version {
        extra := UpgradeAddsInTurn(list[1..], latest, turns, s);
      } else if list[0].version == s.version + 1 {
        var after := Schema(list[0].version, s.applied + [list[0]]);
        if turns(list[0].version).Smooth? {
          var more := UpgradeAddsInTurn(list[1..], latest, turns, after);
          extra := [list[0]] + more;
        } else if turns(list[0].version).StopsAfter? {
          extra := [list[0]];
        }
      }
    }
  }

  // ----- consecutive lists ----------------------------------------------------------

  /** The version names the prefix of the migrations whose effects are in the schema. */
  ghost predicate InStep(list: seq<Migration>, s: Schema) {
    0 <= s.version <= |list| && s.applied == list[..s.version]
  }

  lemma {:induction false} UpgradeFrom(list: seq<Migration>, latest: int, turns: int -> Turn, s: Schema, k: nat)
    requires Consecutive(list, latest) && InStep(list, s) && k <= |list|
    requires k <= s.version
    ensures var (s', r) := Upgrade(list[k..], latest, turns, s);
      && InStep(list, s') && s.version <= s'.version
      && (r.Ok? <==> forall v :: s.version < v <= latest ==> turns(v).Smooth?)
      && (r.Ok? ==> s'.version == latest)
    decreases |list| - k
  {
    if k < |list| {
      assert list[k..][0] == list[k] && list[k..][1..] == list[k + 1..];
      if list[k].version <= s.version {
        UpgradeFrom(list, latest, turns, s, k + 1);
      } else {
        var after := Schema(list[k].version, s.applied + [list[k]]);
        assert list[..k + 1] == list[..k] + [list[k]];
        if turns(list[k].version).Smooth? {
          UpgradeFrom(list, latest, turns, after, k + 1);
        }
      }
    }
  }

  /** One start keeps the version in step and succeeds exactly when no remaining migration is disturbed. */
  lemma StartKeepsStep(list: seq<Migration>, latest: int, turns: int -> Turn, s: Schema)
    requires Consecutive(list, latest) && InStep(list, s)
    ensures var (s', r) := Start(list, latest, turns, s);
      && InStep(list, s') && s.version <= s'.version
      && (r.Ok? <==> forall v :: s.version < v <= latest ==> turns(v).Smooth?)
      && (r.Ok? ==> s' == Schema(latest, list))
  {
    assert list[0..] == list;
    UpgradeFrom(list, latest, turns, s, 0);
    assert list[..|list|] == list;
  }

  /**
  A start on any schema at all, in step or not: one newer than the program is refused
  and left as it was; one without a version to count from is refused for the missing
  migration; and a start never goes back and never skips.
  */
  lemma StartOnAnySchema(list: seq<Migration>, latest: int, turns: int -> Turn, s: Schema)
    requires Consecutive(list, latest)
    ensures s.version > latest ==> Start(list, latest, turns, s) == (s, Err(Newer))
    ensures Start(list, latest, turns, s).1 == Err(Newer) ==> s.version > latest
    ensures s.version < 0 && latest > 0 ==> Start(list, latest, turns, s) == (s, Err(MissingVersion(s.version + 1)))
    ensures Start(list, latest, turns, s).1.Ok? ==> 0 <= s.version <= latest || latest == 0
    ensures s.version <= Start(list, latest, turns, s).0.version
  {
    if s.version <= latest {
      var extra := UpgradeAddsInTurn(list, latest, turns, s);
      UpgradeIsNotNewer(list, latest, turns, s);
    }
  }

  lemma {:induction false} UpgradeIsNotNewer(list: seq<Migration>, latest: int, turns: int -> Turn, s: Schema)
    ensures Upgrade(list, latest, turns, s).1 != Err(Newer)
    decreases |list|
  {
    if list != [] {
      UpgradeIsNotNewer(list[1..], latest, turns, s);
      UpgradeIsNotNewer(list[1..], latest, turns, Schema(list[0].version, s.applied + [list[0]]));
    }
  }

  /** The schema after any number of starts, each with its own failures. */
  function Starts(list: seq<Migration>, latest: int, starts: seq<int -> Turn>, s: Schema): Schema
    decreases |starts|
  {
    if starts == [] then s else Starts(list, latest, starts[1..], Start(list, latest, starts[0], s).0)
  }

  /** However many starts fail or are cut off, a start that succeeds has applied every migration once, in order. */
  lemma {:induction false} Resumption(
    list: seq<Migration>, latest: int, starts: seq<int -> Turn>, last: int -> Turn, s: Schema)
    requires Consecutive(list, latest) && InStep(list, s)
    ensures var before := Starts(list, latest, starts, s);
      && InStep(list, before) && s.version <= before.version
      && (Start(list, latest, last, before).1.Ok? ==> Start(list, latest, last, before).0 == Schema(latest, list))
      && (before.version == latest ==>
            Start(list, latest, last, before).1.Ok? && Start(list, latest, last, before).0 == before)
    decreases |starts|
  {
    if starts == [] {
      StartKeepsStep(list, latest, last, s);
      assert list[..|list|] == list;
    } else {
      StartKeepsStep(list, latest, starts[0], s);
      Resumption(list, latest, starts[1..], last, Start(list, latest, starts[0], s).0);
    }
  }

  /** The program's own migrations, from an empty database file. */
  lemma ResumptionOfTheProgram(starts: seq<int -> Turn>, last: int -> Turn)
    ensures var before := Starts(MIGRATIONS, LATEST_SCHEMA_VERSION, starts, Schema(0, []));
      && 0 <= before.version <= 5 && before.applied == MIGRATIONS[..before.version]
      && (Start(MIGRATIONS, LATEST_SCHEMA_VERSION, last, before).1.Ok? ==>
            Start(MIGRATIONS, LATEST_SCHEMA_VERSION, last, before).0 == Schema(5, MIGRATIONS))
  {
    Resumption(MIGRATIONS, LATEST_SCHEMA_VERSION, starts, last, Schema(0, []));
  }
}
