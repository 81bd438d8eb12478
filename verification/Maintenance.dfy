/**
The maintenance pass: expired shares are deleted in batches, their objects removed,
and the object directory is then reconciled with the keys that are still in use.
*/
module Maintenance {
  import opened Common
  import opened Faults
  import opened Shares
  import opened ShareProperties
  import opened ObjectStore
  import opened Ordering
  import opened Reconciling
  import opened ShareService
  import L = Lifecycle

  const MAX_PER_RUN := 2048

  // ----- what is expired, in the order of the purge query ------------------------

  function ExpiredIds(t: Tables, now: Instant): set<string> {
    set id | id in t.shares && SqlExpired(t.shares[id].expiresAt, now)
  }

  ghost predicate Sorted(ids: seq<string>) {
    forall i, j :: 0 <= i < j < |ids| ==> StringLess(ids[i], ids[j])
  }

  function Ids(ids: seq<string>): set<string> {
    set id | id in ids
  }

  function Positions(ids: set<string>): set<Position> {
    set id | id in ids :: Position(0, id)
  }

  /** ORDER BY id: the expired identifiers, each once, in bytewise order. */
  function ExpiredInOrder(t: Tables, now: Instant): (ids: seq<string>)
    ensures Sorted(ids) && Ids(ids) == ExpiredIds(t, now)
  {
    var q := Listing(false, Positions(ExpiredIds(t, now)));
    var ids := seq(|q|, i requires 0 <= i < |q| => q[i].id);
    assert Ids(ids) == ExpiredIds(t, now) by {
      forall id ensures id in Ids(ids) <==> id in ExpiredIds(t, now) {
        if id in ids {
          var i :| 0 <= i < |ids| && ids[i] == id;
          assert q[i] in q;
        }
        if id in ExpiredIds(t, now) {
          assert Position(0, id) in q;
          var i :| 0 <= i < |q| && q[i] == Position(0, id);
          assert ids[i] == id;
        }
      }
    }
    assert Sorted(ids) by {
      forall i, j | 0 <= i < j < |ids| ensures StringLess(ids[i], ids[j]) {
        assert q[i] in q && q[j] in q && Precedes(false, q[i], q[j]);
      }
    }
    ids
  }

  lemma {:induction false} SortedUnique(a: seq<string>, b: seq<string>)
    requires Sorted(a) && Sorted(b) && Ids(a) == Ids(b)
    ensures a == b
  {
    assert forall ids: seq<string> :: ids != [] ==> ids[0] in Ids(ids);
    if a != [] {
      assert a[0] in Ids(b);
      assert b[0] in Ids(a);
      SameHead(a, b);
      forall id ensures id in a[1..] <==> id in b[1..] {
        TailMembers(a, id);
        TailMembers(b, id);
        assert id in Ids(a) <==> id in Ids(b);
      }
      SortedUnique(a[1..], b[1..]);
    }
  }

  lemma SameHead(a: seq<string>, b: seq<string>)
    requires Sorted(a) && Sorted(b) && a != [] && b != [] && a[0] in b && b[0] in a
    ensures a[0] == b[0]
  {
    StringLessTotal(a[0], b[0]);
    StringLessTotal(b[0], b[0]);
    var i :| 0 <= i < |b| && b[i] == a[0];
    var j :| 0 <= j < |a| && a[j] == b[0];
  }

  lemma TailMembers(a: seq<string>, id: string)
    requires Sorted(a) && a != []
    ensures id in a[1..] <==> id in a && id != a[0]
  {
    StringLessTotal(a[0], a[0]);
    if id in a[1..] {
      var i :| 1 <= i < |a| && a[i] == id;
    }
  }

  lemma {:induction false} SortedSize(a: seq<string>)
    requires Sorted(a)
    ensures |Ids(a)| == |a|
  {
    if a != [] {
      SortedSize(a[1..]);
      forall id ensures id in Ids(a) <==> id in Ids(a[1..]) + {a[0]} {
        TailMembers(a, id);
      }
      TailMembers(a, a[0]);
      assert Ids(a) == Ids(a[1..]) + {a[0]};
    }
  }

  /** Once the first `n` expired rows are gone, the query lists the others. */
  lemma ExpiredAfter(t: Tables, now: Instant, n: nat)
    requires n <= |ExpiredInOrder(t, now)|
    ensures ExpiredInOrder(Without(t, Ids(ExpiredInOrder(t, now)[..n])), now) == ExpiredInOrder(t, now)[n..]
  {
    hide ExpiredInOrder, SqlExpired;
    var all := ExpiredInOrder(t, now);
    var rest := Without(t, Ids(all[..n]));
    assert forall i :: 0 <= i < n ==> all[i] in all[..n];
    forall id ensures id in all[n..] <==> id in Ids(all) && id !in Ids(all[..n]) {
      if id in all && id !in all[..n] {
        var i :| 0 <= i < |all| && all[i] == id;
        assert all[n..][i - n] == id;
      }
      if id in all[n..] && id in all[..n] {
        StringLessTotal(id, id);
      }
    }
    assert Ids(all[n..]) == ExpiredIds(rest, now);
    SortedUnique(all[n..], ExpiredInOrder(rest, now));
  }

  // ----- the keys of deleted file rows --------------------------------------------

  /** The storage key that the LEFT JOIN yields, "" standing for NULL. */
  function JoinedKey(t: Tables, id: string): string {
    if id in t.files then t.files[id].key else ""
  }

  function KeysOf(t: Tables, ids: seq<string>): seq<string>
    decreases |ids|
  {
    if ids == [] then []
    else
      var last := JoinedKey(t, ids[|ids| - 1]);
      KeysOf(t, ids[..|ids| - 1]) + if last == "" then [] else [last]
  }

  lemma {:induction false} KeysOfJoin(t: Tables, a: seq<string>, b: seq<string>)
    ensures KeysOf(t, a + b) == KeysOf(t, a) + KeysOf(t, b)
    decreases |b|
  {
    if b == [] {
      assert a + b == a;
    } else {
      assert (a + b)[..|a + b| - 1] == a + b[..|b| - 1];
      KeysOfJoin(t, a, b[..|b| - 1]);
    }
  }

  lemma {:induction false} KeysOfWithout(t: Tables, gone: set<string>, ids: seq<string>)
    requires forall id :: id in ids ==> id !in gone
    ensures KeysOf(Without(t, gone), ids) == KeysOf(t, ids)
    decreases |ids|
  {
    if ids != [] {
      assert ids[|ids| - 1] in ids;
      KeysOfWithout(t, gone, ids[..|ids| - 1]);
    }
  }

  lemma {:induction false} KeysOfMembers(t: Tables, ids: seq<string>, key: string)
    ensures key in KeysOf(t, ids) <==> key != "" && exists id :: id in ids && id in t.files && t.files[id].key == key
    decreases |ids|
  {
    if ids != [] {
      KeysOfMembers(t, ids[..|ids| - 1], key);
      var last := ids[|ids| - 1];
      assert ids == ids[..|ids| - 1] + [last];
    }
  }

  // ----- one batch ----------------------------------------------------------------

  datatype Row = Row(id: string, key: string)

  function Batch(t: Tables, now: Instant): seq<string> {
    var ids := ExpiredInOrder(t, now);
    if |ids| <= L.BATCH_SIZE then ids else ids[..L.BATCH_SIZE]
  }

  /** The loop of DELETE statements, on the transaction's own copy of the tables. */
  method DeleteSelected(before: Tables, now: Instant, fails: set<Call>) returns (r: Option<(Tables, seq<string>, nat)>)
    ensures r.None? <==> DeleteRow in fails && Batch(before, now) != []
    ensures r.Some? ==>
      r.value == (Without(before, Ids(Batch(before, now))), KeysOf(before, Batch(before, now)), |Batch(before, now)|)
  {
    hide *;
    var tx := before;
    var ids := Batch(before, now);
    var items := seq(|ids|, i requires 0 <= i < |ids| => Row(ids[i], JoinedKey(before, ids[i])));
    var keys: seq<string> := [];
    NoneDeleted(before, ids);
    for i := 0 to |items|
      invariant tx == Without(before, Ids(ids[..i]))
      invariant keys == KeysOf(before, ids[..i])
      invariant i > 0 ==> DeleteRow !in fails
    {
      var item := items[i];
      if DeleteRow in fails {
        return None;
      }
      DeleteOneMore(before, now, ids, i);
      if item.id in tx.shares && SqlExpired(tx.shares[item.id].expiresAt, now) {
        tx := DeleteShare(tx, item.id);
        if item.key != "" {
          keys := keys + [item.key];
        }
      }
    }
    assert ids[..|ids|] == ids;
    r := Some((tx, keys, |items|));
  }

  /** The purge transaction: at most a batch of the expired rows in order, or nothing at all. */
  method PurgeBatch(db: Database, now: Instant, fails: set<Call>) returns (r: Option<(seq<string>, nat)>)
    modifies db
    ensures r.None? ==> db.tables == old(db.tables)
    ensures r.Some? ==>
      && db.tables == Without(old(db.tables), Ids(Batch(old(db.tables), now)))
      && r.value == (KeysOf(old(db.tables), Batch(old(db.tables), now)), |Batch(old(db.tables), now)|)
    ensures r.None? <==>
      !(fails !! {BeginTx, QueryRow, CommitTx}) || (DeleteRow in fails && Batch(old(db.tables), now) != [])
  {
    hide *;
    if BeginTx in fails || QueryRow in fails {
      return None;
    }
    var deleted := DeleteSelected(db.tables, now, fails);
    if deleted.None? || CommitTx in fails {
      return None;
    }
    var (tx, keys, count) := deleted.value;
    db.tables := tx;
    r := Some((keys, count));
  }

  /** LIMIT 256. */
  lemma BatchIsTheFirst(t: Tables, now: Instant)
    ensures var ids := ExpiredInOrder(t, now);
      |Batch(t, now)| == Min(|ids|, 256) && Batch(t, now) == ids[..Min(|ids|, 256)]
  {
    hide ExpiredInOrder;
  }

  lemma NoneDeleted(t: Tables, ids: seq<string>)
    ensures Without(t, Ids(ids[..0])) == t && KeysOf(t, ids[..0]) == []
  {
  }

  /** The row is still there when its turn comes, and then it and its key are accounted for. */
  lemma DeleteOneMore(t: Tables, now: Instant, ids: seq<string>, i: nat)
    requires ids == Batch(t, now) && i < |ids|
    ensures var tx := Without(t, Ids(ids[..i]));
      && ids[i] in tx.shares && SqlExpired(tx.shares[ids[i]].expiresAt, now)
      && DeleteShare(tx, ids[i]) == Without(t, Ids(ids[..i + 1]))
    ensures KeysOf(t, ids[..i + 1])
         == KeysOf(t, ids[..i]) + if JoinedKey(t, ids[i]) == "" then [] else [JoinedKey(t, ids[i])]
  {
    hide Batch, SqlExpired, JoinedKey;
    BatchIsExpired(t, now);
    NotYetDeleted(ids, i);
    assert ids[..i + 1][..i] == ids[..i] && ids[..i + 1] == ids[..i] + [ids[i]];
    assert Ids(ids[..i + 1]) == Ids(ids[..i]) + {ids[i]};
  }

  lemma BatchIsExpired(t: Tables, now: Instant)
    ensures Sorted(Batch(t, now))
    ensures forall id :: id in Batch(t, now) ==> id in t.shares && SqlExpired(t.shares[id].expiresAt, now)
  {
    hide ExpiredInOrder, SqlExpired;
    var ids := ExpiredInOrder(t, now);
    assert forall id :: id in Batch(t, now) ==> id in Ids(ids);
  }

  lemma NotYetDeleted(ids: seq<string>, i: nat)
    requires Sorted(ids) && i < |ids|
    ensures ids[i] !in Ids(ids[..i])
  {
    StringLessTotal(ids[i], ids[i]);
  }

  // ----- the objects of deleted rows ----------------------------------------------

  /** The calls that fail while the object of this key is deleted. */
  function DeleteFaults(key: string, deleteFails: set<string>): set<Call> {
    if key in deleteFails then {DeleteObject} else {}
  }

  predicate Deletable(root: Root, key: string, deleteFails: set<string>) {
    Removable(root, key, DeleteFaults(key, deleteFails))
  }

  /** The keys whose deletion is reported as a failure. */
  function Stuck(root: Root, keys: seq<string>, deleteFails: set<string>): nat
    decreases |keys|
  {
    if keys == [] then 0
    else Stuck(root, keys[..|keys| - 1], deleteFails) + if Deletable(root, keys[|keys| - 1], deleteFails) then 0 else 1
  }

  ghost predicate ObjectsDeleted(before: Root, after: Root, keys: seq<string>, deleteFails: set<string>) {
    && (forall key :: ValidKey(key) ==>
          ChildAt(after, key) ==
            if key in keys && Deletable(before, key, deleteFails) then None else ChildAt(before, key))
    && (forall name :: StageAt(after, name) == StageAt(before, name))
  }

  method DeleteObjects(store: Local, keys: seq<string>, deleteFails: set<string>) returns (deleted: nat, failed: nat)
    modifies store
    ensures ObjectsDeleted(old(store.root), store.root, keys, deleteFails)
    ensures failed == Stuck(old(store.root), keys, deleteFails) && deleted + failed == |keys|
  {
    deleted, failed := 0, 0;
    ghost var before := store.root;
    hide ChildAt, ObjectAt, StageAt, OnlyTouches, ValidKey;
    for i := 0 to |keys|
      invariant ObjectsDeleted(before, store.root, keys[..i], deleteFails)
      invariant failed == Stuck(before, keys[..i], deleteFails) && deleted + failed == i
    {
      ghost var was := store.root;
      var key := keys[i];
      var ok := store.Delete(key, DeleteFaults(key, deleteFails));
      if ok {
        deleted := deleted + 1;
      } else {
        failed := failed + 1;
      }
      assert keys[..i + 1][..i] == keys[..i] && keys[..i + 1] == keys[..i] + [key];
      DeletableStays(before, was, keys[..i], deleteFails, key);
    }
    assert keys[..|keys|] == keys;
  }

  /** Deleting objects changes no verdict on a later deletion. */
  lemma DeletableStays(before: Root, after: Root, keys: seq<string>, deleteFails: set<string>, key: string)
    requires ObjectsDeleted(before, after, keys, deleteFails)
    ensures Deletable(after, key, deleteFails) <==> Deletable(before, key, deleteFails)
  {
    hide ChildAt, ValidKey;
  }

  lemma {:induction false} StuckStays(
    before: Root, after: Root, keys: seq<string>, deleteFails: set<string>, more: seq<string>)
    requires ObjectsDeleted(before, after, keys, deleteFails)
    ensures Stuck(after, more, deleteFails) == Stuck(before, more, deleteFails)
    ensures Stuck(before, keys + more, deleteFails)
         == Stuck(before, keys, deleteFails) + Stuck(before, more, deleteFails)
    decreases |more|
  {
    hide ObjectsDeleted, Deletable;
    if more == [] {
      assert keys + more == keys;
    } else {
      StuckStays(before, after, keys, deleteFails, more[..|more| - 1]);
      DeletableStays(before, after, keys, deleteFails, more[|more| - 1]);
      assert (keys + more)[..|keys + more| - 1] == keys + more[..|more| - 1];
    }
  }

  lemma DeletedInTurn(r0: Root, r1: Root, r2: Root, a: seq<string>, b: seq<string>, deleteFails: set<string>)
    requires ObjectsDeleted(r0, r1, a, deleteFails) && ObjectsDeleted(r1, r2, b, deleteFails)
    ensures ObjectsDeleted(r0, r2, a + b, deleteFails)
  {
    hide ChildAt, ObjectAt, StageAt, ValidKey, Deletable;
    forall key | ValidKey(key)
      ensures ChildAt(r2, key) == if key in a + b && Deletable(r0, key, deleteFails) then None else ChildAt(r0, key)
    {
      DeletableStays(r0, r1, a, deleteFails, key);
    }
  }

  // ----- the pass -----------------------------------------------------------------

  datatype RunResult = RunResult(
    purged: nat, fileObjectsDeleted: nat, fileCleanupFailures: nat, backlog: bool, reconciled: Counters)

  /** The keys of the deleted rows, the first `n` of the expired ones. */
  ghost function PurgedKeys(t: Tables, now: Instant, n: nat): seq<string>
    requires n <= |ExpiredInOrder(t, now)|
  {
    KeysOf(t, ExpiredInOrder(t, now)[..n])
  }

  /** The first `n` expired rows are gone, and nothing else has happened than the deletion of their objects. */
  ghost predicate PurgedFirst(
    t0: Tables, root0: Root, now: Instant, deleteFails: set<string>, n: nat,
    t: Tables, root: Root, deleted: nat, failed: nat)
  {
    && n <= |ExpiredInOrder(t0, now)|
    && t == Without(t0, Ids(ExpiredInOrder(t0, now)[..n]))
    && ObjectsDeleted(root0, root, PurgedKeys(t0, now, n), deleteFails)
    && failed == Stuck(root0, PurgedKeys(t0, now, n), deleteFails)
    && deleted + failed == |PurgedKeys(t0, now, n)|
  }

  function ReferencedKeys(t: Tables): set<string> {
    set id | id in t.files :: t.files[id].key
  }

  lemma NothingPurged(t: Tables, root: Root, now: Instant, deleteFails: set<string>)
    ensures PurgedFirst(t, root, now, deleteFails, 0, t, root, 0, 0)
  {
    hide ExpiredInOrder, Deletable, ChildAt;
    assert ExpiredInOrder(t, now)[..0] == [];
  }

  /** The next batch is the next stretch of the expired rows as they were at the start. */
  lemma NextStretch(t0: Tables, now: Instant, n: nat, t: Tables)
    requires n <= |ExpiredInOrder(t0, now)| && t == Without(t0, Ids(ExpiredInOrder(t0, now)[..n]))
    ensures var all := ExpiredInOrder(t0, now);
      && n + |Batch(t, now)| <= |all|
      && (|Batch(t, now)| < L.BATCH_SIZE ==> n + |Batch(t, now)| == |all|) && |Batch(t, now)| <= L.BATCH_SIZE
      && all[..n + |Batch(t, now)|] == all[..n] + Batch(t, now)
      && Ids(all[..n]) !! Ids(Batch(t, now))
  {
    hide ExpiredInOrder, Without;
    var all := ExpiredInOrder(t0, now);
    ExpiredAfter(t0, now, n);
    var batch := Batch(t, now);
    assert batch == all[n..][..|batch|];
    assert all[..n + |batch|] == all[..n] + batch;
    forall i, j | 0 <= i < n && 0 <= j < |batch| ensures all[i] != batch[j] {
      assert batch[j] == all[n + j];
      StringLessTotal(all[i], batch[j]);
    }
  }

  lemma WithoutBoth(t: Tables, a: seq<string>, b: seq<string>)
    ensures Without(Without(t, Ids(a)), Ids(b)) == Without(t, Ids(a + b))
  {
    assert Ids(a + b) == Ids(a) + Ids(b);
  }

  lemma NextBatch(t0: Tables, now: Instant, n: nat, t: Tables)
    requires n <= |ExpiredInOrder(t0, now)| && t == Without(t0, Ids(ExpiredInOrder(t0, now)[..n]))
    ensures var all := ExpiredInOrder(t0, now);
      && n + |Batch(t, now)| <= |all|
      && all[..n + |Batch(t, now)|] == all[..n] + Batch(t, now)
      && Without(t, Ids(Batch(t, now))) == Without(t0, Ids(all[..n + |Batch(t, now)|]))
      && KeysOf(t, Batch(t, now)) == KeysOf(t0, Batch(t, now))
  {
    hide ExpiredInOrder, KeysOf, Without, Batch;
    var all := ExpiredInOrder(t0, now);
    NextStretch(t0, now, n, t);
    WithoutBoth(t0, all[..n], Batch(t, now));
    KeysOfWithout(t0, Ids(all[..n]), Batch(t, now));
  }

  lemma PurgedMore(
    t0: Tables, root0: Root, now: Instant, deleteFails: set<string>, n: nat,
    t: Tables, root: Root, deleted: nat, failed: nat, root': Root, deleted': nat, failed': nat)
    requires PurgedFirst(t0, root0, now, deleteFails, n, t, root, deleted, failed)
    requires ObjectsDeleted(root, root', KeysOf(t, Batch(t, now)), deleteFails)
    requires failed' == Stuck(root, KeysOf(t, Batch(t, now)), deleteFails)
    requires deleted' + failed' == |KeysOf(t, Batch(t, now))|
    ensures PurgedFirst(t0, root0, now, deleteFails, n + |Batch(t, now)|,
              Without(t, Ids(Batch(t, now))), root', deleted + deleted', failed + failed')
  {
    hide ExpiredInOrder, KeysOf, Batch, ObjectsDeleted, Stuck, Ids, Without;
    var batch := Batch(t, now);
    NextBatch(t0, now, n, t);
    KeysOfJoin(t0, ExpiredInOrder(t0, now)[..n], batch);
    DeletedInTurn(root0, root, root', PurgedKeys(t0, now, n), KeysOf(t0, batch), deleteFails);
    StuckStays(root0, root, PurgedKeys(t0, now, n), deleteFails, KeysOf(t0, batch));
  }

  // ----- the whole pass -----------------------------------------------------------

  /** Everything a pass that meets no error has done. */
  ghost predicate PassCompleted(
    t0: Tables, root0: Root, now: Instant, deleteFails: set<string>, t: Tables, root: Root, r: RunResult)
  {
    var all := ExpiredInOrder(t0, now);
    && r.purged == Min(|all|, MAX_PER_RUN)
    && t == Without(t0, Ids(all[..r.purged]))
    && (r.backlog <==> |all| > MAX_PER_RUN)
    && r.fileCleanupFailures == Stuck(root0, PurgedKeys(t0, now, r.purged), deleteFails)
    && r.fileObjectsDeleted + r.fileCleanupFailures == |PurgedKeys(t0, now, r.purged)|
    && FilesReconciled(root0, root, PurgedKeys(t0, now, r.purged), deleteFails, ReferencedKeys(t), now - L.GRACE)
    && r.reconciled.stagesDeleted == |StaleStages(root0, now - L.GRACE)|
    && r.reconciled.orphansDeleted ==
         |LeftOrphans(root0, PurgedKeys(t0, now, r.purged), deleteFails, ReferencedKeys(t), now - L.GRACE)|
    && r.reconciled.missingReferenced == |Missing(root, ReferencedKeys(t))|
    && ReconciledAfterwards(root0, root, PurgedKeys(t0, now, r.purged), deleteFails,
         ReferencedKeys(t), now - L.GRACE, r.reconciled.anomalies)
  }

  /** The deletions come first, and the reconciliation works on, and counts the anomalies of, what they leave. */
  ghost predicate ReconciledAfterwards(
    before: Root, after: Root, purged: seq<string>, deleteFails: set<string>,
    referenced: set<string>, staleBefore: Time, anomalies: nat)
  {
    exists mid ::
      && ObjectsDeleted(before, mid, purged, deleteFails) && after == Reconciled(mid, referenced, staleBefore)
      && anomalies == |AllWork(mid, referenced, staleBefore).anomalies|
  }

  /** What a pass that met an error has done: a first part of the purge, and part of the reconciliation. */
  ghost predicate PassBroken(
    t0: Tables, root0: Root, now: Instant, deleteFails: set<string>, t: Tables, root: Root, r: RunResult)
  {
    exists mid, done ::
      && PurgedFirst(t0, root0, now, deleteFails, r.purged, t, mid, r.fileObjectsDeleted, r.fileCleanupFailures)
      && PartOf(done, AllWork(mid, ReferencedKeys(t), now - L.GRACE))
      && root == Cleared(mid, done.stages, done.orphans)
      && r.reconciled == Counters(|done.stages|, |done.orphans|, 0, |done.anomalies|)
  }

  lemma BrokenBeforeReconciling(
    t0: Tables, root0: Root, now: Instant, deleteFails: set<string>, t: Tables, root: Root, r: RunResult)
    requires PurgedFirst(t0, root0, now, deleteFails, r.purged, t, root, r.fileObjectsDeleted, r.fileCleanupFailures)
    requires r.reconciled == Counters(0, 0, 0, 0)
    ensures PassBroken(t0, root0, now, deleteFails, t, root, r)
  {
    NothingCleared(root);
    hide PurgedFirst, AllWork, Cleared;
    assert PartOf(NO_WORK, AllWork(root, ReferencedKeys(t), now - L.GRACE));
  }

  lemma BrokenPassSparesTheYoung(
    t0: Tables, root0: Root, now: Instant, deleteFails: set<string>, t: Tables, root: Root, r: RunResult)
    requires PassBroken(t0, root0, now, deleteFails, t, root, r)
    ensures forall key :: key !in ReferencedKeys(t0) && ObjectAt(root0, key).Some?
                          && ObjectAt(root0, key).value > now - L.GRACE ==>
              ObjectAt(root, key) == ObjectAt(root0, key)
    ensures forall name :: StageAt(root0, name).Some? && StageAt(root0, name).value > now - L.GRACE ==>
              StageAt(root, name) == StageAt(root0, name)
  {
    hide ExpiredInOrder, Stuck, Deletable, ChildAt, ObjectAt, AllOrphans, Cleared;
    var mid, done := BrokenPass(t0, root0, now, deleteFails, t, root, r);
    KeptObjects(root0, mid, PurgedKeys(t0, now, r.purged), deleteFails);
    forall key ensures key in PurgedKeys(t0, now, r.purged) ==> key in ReferencedKeys(t0) {
      KeysOfMembers(t0, ExpiredInOrder(t0, now)[..r.purged], key);
    }
  }

  /** What a broken pass has removed, file by file. */
  lemma BrokenPass(
    t0: Tables, root0: Root, now: Instant, deleteFails: set<string>, t: Tables, root: Root, r: RunResult)
    returns (mid: Root, done: Work)
    requires PassBroken(t0, root0, now, deleteFails, t, root, r)
    ensures PurgedFirst(t0, root0, now, deleteFails, r.purged, t, mid, r.fileObjectsDeleted, r.fileCleanupFailures)
    ensures forall key :: ObjectAt(root, key) == if key in done.orphans then None else ObjectAt(mid, key)
    ensures forall name :: StageAt(root, name) == if name in done.stages then None else StageAt(mid, name)
    ensures forall key :: key in done.orphans ==>
      ObjectAt(mid, key).Some? && key !in ReferencedKeys(t) && ObjectAt(mid, key).value <= now - L.GRACE
    ensures forall name :: name in done.stages && StageAt(mid, name).Some? ==>
      StageAt(mid, name).value <= now - L.GRACE
  {
    hide PurgedFirst, ObjectAt, AllOrphans, Cleared, ReferencedKeys;
    mid, done :|
      && PurgedFirst(t0, root0, now, deleteFails, r.purged, t, mid, r.fileObjectsDeleted, r.fileCleanupFailures)
      && PartOf(done, AllWork(mid, ReferencedKeys(t), now - L.GRACE))
      && root == Cleared(mid, done.stages, done.orphans)
      && r.reconciled == Counters(|done.stages|, |done.orphans|, 0, |done.anomalies|);
    ClearedFiles(mid, done.stages, done.orphans);
    forall key ensures key in done.orphans ==>
      ObjectAt(mid, key).Some? && key !in ReferencedKeys(t) && ObjectAt(mid, key).value <= now - L.GRACE
    {
      OrphansAreObjects(mid, ReferencedKeys(t), now - L.GRACE, key);
    }
  }

  /**
  However a pass breaks off: the object of every row that is left is left too, and so
  is every object without a row, and every stage file, younger than the grace period.
  */
  lemma BrokenPassIsSafe(
    t0: Tables, root0: Root, now: Instant, deleteFails: set<string>, t: Tables, root: Root, r: RunResult)
    requires PassBroken(t0, root0, now, deleteFails, t, root, r) && Shape(t0)
    ensures forall id :: id in t.files ==> ObjectAt(root, t.files[id].key) == ObjectAt(root0, t.files[id].key)
    ensures forall key :: key !in ReferencedKeys(t0) && ObjectAt(root0, key).Some?
                          && ObjectAt(root0, key).value > now - L.GRACE ==>
              ObjectAt(root, key) == ObjectAt(root0, key)
    ensures forall name :: StageAt(root0, name).Some? && StageAt(root0, name).value > now - L.GRACE ==>
              StageAt(root, name) == StageAt(root0, name)
  {
    BrokenPassSparesTheYoung(t0, root0, now, deleteFails, t, root, r);
    hide PassBroken, ExpiredInOrder, Stuck, Deletable, ChildAt, ObjectAt, AllOrphans, Cleared, RowShape, StageAt;
    var mid, done := BrokenPass(t0, root0, now, deleteFails, t, root, r);
    KeptObjects(root0, mid, PurgedKeys(t0, now, r.purged), deleteFails);
    forall key ensures key in PurgedKeys(t0, now, r.purged) ==> key !in ReferencedKeys(t) {
      PurgedKeysAreGone(t0, now, r.purged, key);
    }
  }

  lemma PurgedKeysAreGone(t0: Tables, now: Instant, n: nat, key: string)
    requires Shape(t0) && n <= |ExpiredInOrder(t0, now)|
    ensures key in PurgedKeys(t0, now, n) ==>
      key in ReferencedKeys(t0) && key !in ReferencedKeys(Without(t0, Ids(ExpiredInOrder(t0, now)[..n])))
  {
    hide ExpiredInOrder, RowShape;
    KeysOfMembers(t0, ExpiredInOrder(t0, now)[..n], key);
  }

  lemma KeptObjects(before: Root, after: Root, keys: seq<string>, deleteFails: set<string>)
    requires ObjectsDeleted(before, after, keys, deleteFails)
    ensures forall key :: key !in keys ==> ObjectAt(after, key) == ObjectAt(before, key)
  {
    hide Deletable, ChildAt;
  }

  ghost predicate FilesReconciled(
    before: Root, after: Root, purged: seq<string>, deleteFails: set<string>,
    referenced: set<string>, staleBefore: Time)
  {
    && (forall key :: ObjectAt(after, key) ==
          match ObjectAt(before, key)
          case None => None
          case Some(mtime) =>
            if (key in purged && key !in deleteFails) || (key !in referenced && mtime <= staleBefore) then None
            else Some(mtime))
    && (forall name :: StageAt(after, name) ==
          match StageAt(before, name)
          case None => None
          case Some(mtime) => if mtime <= staleBefore then None else Some(mtime))
  }

  /** The stale unreferenced objects that the deletions have left for the reconciliation. */
  ghost function LeftOrphans(
    root: Root, purged: seq<string>, deleteFails: set<string>, referenced: set<string>, staleBefore: Time): set<string>
  {
    AllOrphans(root, referenced, staleBefore) - (set key | key in purged && key !in deleteFails)
  }

  lemma OrphansAreObjects(root: Root, referenced: set<string>, staleBefore: Time, key: string)
    ensures key in AllOrphans(root, referenced, staleBefore) <==>
      ObjectAt(root, key).Some? && key !in referenced && ObjectAt(root, key).value <= staleBefore
  {
    if ValidKey(key) {
      KeyParts(key);
      if ObjectAt(root, key).Some? && key !in referenced && ObjectAt(root, key).value <= staleBefore {
        assert key in Orphans(Shard(key), root[Shard(key)], referenced, staleBefore);
      }
    }
    forall shard | shard in root && key in Orphans(shard, root[shard], referenced, staleBefore)
      ensures ObjectAt(root, key).Some? && key !in referenced && ObjectAt(root, key).value <= staleBefore
    {
      var name :| name in root[shard].children && key == shard + name
                  && Orphan(shard, name, root[shard].children[name], referenced, staleBefore);
      assert key[..2] == shard && key[2..] == name;
    }
  }

  /** Seen file by file, deletion and reconciliation compose. */
  lemma DeletedThenReconciled(
    root0: Root, mid: Root, purged: seq<string>, deleteFails: set<string>, referenced: set<string>, staleBefore: Time)
    requires ObjectsDeleted(root0, mid, purged, deleteFails)
    ensures FilesReconciled(root0, Reconciled(mid, referenced, staleBefore),
              purged, deleteFails, referenced, staleBefore)
    ensures StaleStages(mid, staleBefore) == StaleStages(root0, staleBefore)
    ensures AllOrphans(mid, referenced, staleBefore) == LeftOrphans(root0, purged, deleteFails, referenced, staleBefore)
  {
    hide Reconciled, AllOrphans, ValidKey, ChildAt;
    ReconciledFiles(mid, referenced, staleBefore);
    forall name ensures name in StaleStages(mid, staleBefore) <==> name in StaleStages(root0, staleBefore) {
      assert StageAt(mid, name) == StageAt(root0, name);
    }
    forall key ensures key in AllOrphans(mid, referenced, staleBefore)
                  <==> key in LeftOrphans(root0, purged, deleteFails, referenced, staleBefore)
    {
      OrphansAreObjects(mid, referenced, staleBefore, key);
      OrphansAreObjects(root0, referenced, staleBefore, key);
    }
  }

  /** The backlog query counts what the batches have not reached. */
  lemma Remaining(t: Tables, now: Instant, n: nat)
    requires n <= |ExpiredInOrder(t, now)|
    ensures |ExpiredIds(Without(t, Ids(ExpiredInOrder(t, now)[..n])), now)| == |ExpiredInOrder(t, now)| - n
  {
    hide ExpiredInOrder, ExpiredIds, Without, Sorted;
    ExpiredAfter(t, now, n);
    SortedSize(ExpiredInOrder(Without(t, Ids(ExpiredInOrder(t, now)[..n])), now));
  }

  lemma BatchSizes(
    t0: Tables, root0: Root, now: Instant, deleteFails: set<string>, n: nat,
    t: Tables, root: Root, deleted: nat, failed: nat)
    requires PurgedFirst(t0, root0, now, deleteFails, n, t, root, deleted, failed)
    ensures n + |Batch(t, now)| <= |ExpiredInOrder(t0, now)| && |Batch(t, now)| <= L.BATCH_SIZE
    ensures |Batch(t, now)| < L.BATCH_SIZE ==> n + |Batch(t, now)| == |ExpiredInOrder(t0, now)|
  {
    hide ExpiredInOrder, Batch, ObjectsDeleted, Stuck, Ids, Without;
    NextStretch(t0, now, n, t);
  }

  class Service {
    const db: Database
    const store: Local

    constructor (db: Database, store: Local)
      ensures this.db == db && this.store == store
    {
      this.db, this.store := db, store;
    }

    /** The loop over the batches; `faults(i)` are the calls that fail during batch `i`. */
    method PurgeExpired(now: Instant, faults: nat -> set<Call>, deleteFails: set<string>)
      returns (ok: bool, purged: nat, deleted: nat, failed: nat)
      modifies db, store
      ensures PurgedFirst(old(db.tables), old(store.root), now, deleteFails, purged,
                db.tables, store.root, deleted, failed)
      ensures ok ==> purged == Min(|ExpiredInOrder(old(db.tables), now)|, 2048)
      ensures (forall i :: faults(i) == {}) ==> ok
    {
      hide PurgedFirst, ExpiredInOrder, Batch, Without, KeysOf, Ids, ObjectsDeleted, Stuck;
      ghost var t0, root0 := db.tables, store.root;
      ok, purged, deleted, failed := true, 0, 0, 0;
      NothingPurged(t0, root0, now, deleteFails);
      for i := 0 to MAX_PER_RUN / L.BATCH_SIZE
        invariant PurgedFirst(t0, root0, now, deleteFails, purged, db.tables, store.root, deleted, failed)
        invariant purged == i * L.BATCH_SIZE <= |ExpiredInOrder(t0, now)|
      {
        ghost var t, root := db.tables, store.root;
        var batch := PurgeBatch(db, now, faults(i));
        if batch.None? {
          ok := false;
          return;
        }
        var (keys, count) := batch.value;
        var d, f := DeleteObjects(store, keys, deleteFails);
        PurgedMore(t0, root0, now, deleteFails, purged, t, root, deleted, failed, store.root, d, f);
        BatchSizes(t0, root0, now, deleteFails, purged, t, root, deleted, failed);
        purged, deleted, failed := purged + count, deleted + d, failed + f;
        if count < L.BATCH_SIZE {
          return;
        }
      }
    }

    /**
    RunOnce: purge, report whether a backlog remains, reconcile with the keys still in
    use. A pass that fails has still purged a first part of the expired rows, and perhaps
    reconciled part of the directory, and no more.
    */
    method RunOnce(
      now: Instant, faults: nat -> set<Call>, queriesFail: bool, deleteFails: set<string>,
      statFails: set<string>, removeFails: set<string>)
      returns (ok: bool, r: RunResult)
      modifies db, store
      ensures ok ==> PassCompleted(old(db.tables), old(store.root), now, deleteFails, db.tables, store.root, r)
      ensures !ok ==> PassBroken(old(db.tables), old(store.root), now, deleteFails, db.tables, store.root, r)
      ensures (forall i :: faults(i) == {}) && !queriesFail && statFails == {} && removeFails == {} ==> ok
    {
      hide ExpiredInOrder, ExpiredIds, Without, KeysOf, Ids, ObjectsDeleted, Stuck, ReferencedKeys;
      hide Reconciled, StaleStages, AllOrphans, LeftOrphans, Missing, FilesReconciled, Cleared, ShardPasses, PartOf;
      ghost var t0, root0 := db.tables, store.root;
      var purged, deleted, failed;
      ok, purged, deleted, failed := PurgeExpired(now, faults, deleteFails);
      r := RunResult(purged, deleted, failed, false, Counters(0, 0, 0, 0));
      if !ok || queriesFail {
        BrokenBeforeReconciling(t0, root0, now, deleteFails, db.tables, store.root, r);
        ok := false;
        return;
      }
      var remaining := |ExpiredIds(db.tables, now)|;
      Remaining(t0, now, purged);
      r := r.(backlog := remaining > 0);
      var referenced := ReferencedKeys(db.tables);
      DeletedThenReconciled(root0, store.root, PurgedKeys(t0, now, purged), deleteFails, referenced, now - L.GRACE);
      if statFails == {} && removeFails == {} {
        NothingEndsThePass(store.root, referenced, now - L.GRACE);
      }
      ghost var mid := store.root;
      var reconciled;
      ghost var done;
      ok, reconciled, done := Reconcile(store, referenced, now - L.GRACE, statFails, removeFails);
      r := r.(reconciled := reconciled);
    }
  }


  // ----- what a pass achieves -----------------------------------------------------

  /** Exactly min(E, MaxPerRun) of the E expired rows go, the first in order, and no other row. */
  lemma PurgeAccounting(
    t0: Tables, root0: Root, now: Instant, deleteFails: set<string>, t: Tables, root: Root, r: RunResult)
    requires PassCompleted(t0, root0, now, deleteFails, t, root, r)
    ensures ExpiredIds(t0, now) == set id | id in t0.shares && t0.shares[id].expiresAt.Some?
                                            && t0.shares[id].expiresAt.value * 1_000_000 <= now
    ensures var expired := ExpiredIds(t0, now);
      && r.purged == Min(|expired|, 2048)
      && (r.backlog <==> |expired| > 2048)
      && (exists gone ::
            && gone <= expired && |gone| == r.purged
            && (forall a, b :: a in gone && b in expired - gone ==> StringLess(a, b))
            && t == Without(t0, gone) == Purge(t0, now, gone))
      && |ExpiredIds(t, now)| == |expired| - r.purged
  {
    ExpiredInPlainTerms(t0, now);
    hide ExpiredInOrder, FilesReconciled, Stuck, LeftOrphans, StaleStages, Missing, SqlExpired;
    var all := ExpiredInOrder(t0, now);
    var gone := Ids(all[..r.purged]);
    SortedSize(all);
    SortedSize(all[..r.purged]);
    Remaining(t0, now, r.purged);
    assert forall k :: 0 <= k < r.purged ==> all[k] in gone;
    forall a, b | a in gone && b in Ids(all) - gone ensures StringLess(a, b) {
      var i :| 0 <= i < r.purged && all[i] == a;
      var j :| 0 <= j < |all| && all[j] == b;
    }
    assert forall id :: id in gone ==> id in Ids(all);
    assert gone == set id | id in gone && id in t0.shares && SqlExpired(t0.shares[id].expiresAt, now);
  }

  lemma ExpiredInPlainTerms(t: Tables, now: Instant)
    ensures ExpiredIds(t, now)
         == set id | id in t.shares && t.shares[id].expiresAt.Some? && t.shares[id].expiresAt.value * 1_000_000 <= now
  {
    forall id | id in t.shares
      ensures SqlExpired(t.shares[id].expiresAt, now) <==>
        t.shares[id].expiresAt.Some? && t.shares[id].expiresAt.value * 1_000_000 <= now
    {
      ExpiryTestsAgree(t.shares[id].expiresAt, now);
    }
  }

  /** The time of a file, if it is younger than `age`. */
  function Younger(mtime: Option<Time>, now: Instant, age: nat): Option<Time> {
    if mtime.Some? && now - mtime.value < age then mtime else None
  }

  /**
  The sweep in nanoseconds. After a completed pass the stage files are those younger
  than 30 minutes, and the objects that no row refers to any more, nor did before, are
  those younger than 30 minutes; of what is 30 minutes old or older, only objects that
  rows refer to are left.
  */
  lemma SweptAtThirtyMinutes(
    t0: Tables, root0: Root, now: Instant, deleteFails: set<string>, t: Tables, root: Root, r: RunResult)
    requires PassCompleted(t0, root0, now, deleteFails, t, root, r)
    ensures forall name :: StageAt(root, name) == Younger(StageAt(root0, name), now, 1_800_000_000_000)
    ensures forall key :: key !in ReferencedKeys(t0) ==>
      ObjectAt(root, key) == Younger(ObjectAt(root0, key), now, 1_800_000_000_000)
    ensures forall key :: ObjectAt(root, key).Some? && now - ObjectAt(root, key).value >= 1_800_000_000_000 ==>
      key in ReferencedKeys(t)
  {
    hide ExpiredInOrder, Stuck, LeftOrphans, StaleStages, ObjectAt, StageAt;
    forall key | key in PurgedKeys(t0, now, r.purged) ensures key in ReferencedKeys(t0) {
      KeysOfMembers(t0, ExpiredInOrder(t0, now)[..r.purged], key);
    }
    assert forall key :: key in ReferencedKeys(t) ==> key in ReferencedKeys(t0);
  }

  /**
  No pass, completed or broken off, takes a file that an upload may still be about to
  commit: every stage file, and every object that no row refers to, that is no older
  than the transfer deadline and the busy timeout together.
  */
  lemma PassSparesUploads(
    t0: Tables, root0: Root, now: Instant, deleteFails: set<string>, t: Tables, root: Root, r: RunResult)
    requires
      || PassCompleted(t0, root0, now, deleteFails, t, root, r)
      || PassBroken(t0, root0, now, deleteFails, t, root, r)
    ensures forall name :: StageAt(root0, name).Some?
                           && now - StageAt(root0, name).value <= L.TRANSFER_DEADLINE + L.BUSY_TIMEOUT ==>
      StageAt(root, name) == StageAt(root0, name)
    ensures forall key :: key !in ReferencedKeys(t0) && ObjectAt(root0, key).Some?
                          && now - ObjectAt(root0, key).value <= L.TRANSFER_DEADLINE + L.BUSY_TIMEOUT ==>
      ObjectAt(root, key) == ObjectAt(root0, key)
  {
    hide PassCompleted, PassBroken, ObjectAt, StageAt, ReferencedKeys;
    if PassCompleted(t0, root0, now, deleteFails, t, root, r) {
      SweptAtThirtyMinutes(t0, root0, now, deleteFails, t, root, r);
    } else {
      BrokenPassSparesTheYoung(t0, root0, now, deleteFails, t, root, r);
    }
  }

  ghost predicate OnePass(t0: Tables, now: Instant, t: Tables) {
    exists root0, deleteFails, root, r :: PassCompleted(t0, root0, now, deleteFails, t, root, r)
  }

  /** Passes at the same time, one after the other. */
  ghost predicate Passes(ts: seq<Tables>, now: Instant) {
    forall i, j :: 0 <= i && j == i + 1 < |ts| ==> OnePass(ts[i], now, ts[j])
  }

  /** Every pass takes its share of what the previous ones left: ceil(E / MaxPerRun) passes drain all E rows. */
  lemma {:induction false} RepeatedPassesDrain(ts: seq<Tables>, now: Instant)
    requires ts != [] && Passes(ts, now)
    ensures var expired := |ExpiredIds(ts[0], now)|;
      var passes := |ts| - 1;
      && |ExpiredIds(ts[passes], now)| == if expired <= passes * 2048 then 0 else expired - passes * 2048
    ensures ExpiredIds(ts[|ts| - 1], now) == {} <==>
      |ts| - 1 >= (|ExpiredIds(ts[0], now)| + 2048 - 1) / 2048
    decreases |ts|
  {
    hide PassCompleted, ExpiredIds;
    if |ts| > 1 {
      var n := |ts| - 2;
      assert Passes(ts[..n + 1], now) && OnePass(ts[n], now, ts[n + 1]);
      RepeatedPassesDrain(ts[..n + 1], now);
      var root0, deleteFails, root, r :| PassCompleted(ts[n], root0, now, deleteFails, ts[n + 1], root, r);
      PurgeAccounting(ts[n], root0, now, deleteFails, ts[n + 1], root, r);
    }
  }

  /** Nothing has been written to the directory for as long as the grace period. */
  ghost predicate QuietSince(root: Root, staleBefore: Time) {
    && (forall key :: ObjectAt(root, key).Some? ==> ObjectAt(root, key).value <= staleBefore)
    && (forall name :: StageAt(root, name).Some? ==> StageAt(root, name).value <= staleBefore)
  }

  /**
  Convergence: whatever crashes, failed removals and failed deletions have left behind,
  and even when deletions fail during this pass, one pass over quiet stores ends with
  exactly one object for every file row, no stage file and no backlog.
  */
  lemma Convergence(
    t0: Tables, root0: Root, now: Instant, deleteFails: set<string>, t: Tables, root: Root, r: RunResult)
    requires PassCompleted(t0, root0, now, deleteFails, t, root, r)
    requires Shape(t0) && QuietSince(root0, now - L.GRACE)
    requires |ExpiredIds(t0, now)| <= 2048
    requires forall id :: id in t0.files && id !in ExpiredIds(t0, now) ==> ObjectAt(root0, t0.files[id].key).Some?
    ensures forall id :: id in t.files <==> id in t0.files && id !in ExpiredIds(t0, now)
    ensures forall id :: id in t.files ==> t.files[id] == t0.files[id]
    ensures forall key :: ObjectAt(root, key).Some? <==>
      exists id :: id in t0.files && id !in ExpiredIds(t0, now) && t0.files[id].key == key
    ensures forall name :: StageAt(root, name) == None
    ensures !r.backlog && r.reconciled.missingReferenced == 0
  {
    hide ExpiredInOrder, Stuck, LeftOrphans, StaleStages, ObjectAt, StageAt, RowShape, ExpiredIds;
    var all := ExpiredInOrder(t0, now);
    SortedSize(all);
    assert all[..r.purged] == all;
    forall key | key in PurgedKeys(t0, now, r.purged) ensures key !in ReferencedKeys(t) {
      KeysOfMembers(t0, all, key);
    }
    assert Missing(root, ReferencedKeys(t)) == {};
  }
}
