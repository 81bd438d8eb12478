/** The reconciliation of the object directory with a snapshot of the referenced keys. */
module Reconciling {
  import opened Common
  import opened Shares
  import opened ObjectStore

  // ----- what is removed -------------------------------------------------------------

  predicate StaleStage(name: string, node: Node, staleBefore: Time) {
    IsStageName(name) && node.Regular? && node.mtime <= staleBefore
  }

  predicate Orphan(shard: string, name: string, child: Child, referenced: set<string>, staleBefore: Time) {
    ValidKey(shard + name) && child.Plain? && shard + name !in referenced && child.mtime <= staleBefore
  }

  function KeptChildren(shard: string, children: map<string, Child>, referenced: set<string>, staleBefore: Time)
    : map<string, Child>
  {
    map name | name in children && !Orphan(shard, name, children[name], referenced, staleBefore) :: children[name]
  }

  function KeptNode(name: string, node: Node, referenced: set<string>, staleBefore: Time): Node {
    if !IsStageName(name) && ValidShard(name) && node.Dir?
    then Dir(KeptChildren(name, node.children, referenced, staleBefore))
    else node
  }

  /** The directory without its stale stage files and stale unreferenced objects, and otherwise as it was. */
  function Reconciled(root: Root, referenced: set<string>, staleBefore: Time): Root {
    map name | name in root && !StaleStage(name, root[name], staleBefore)
      :: KeptNode(name, root[name], referenced, staleBefore)
  }

  function StaleStages(root: Root, staleBefore: Time): set<string> {
    set name | name in root && StaleStage(name, root[name], staleBefore)
  }

  function Orphans(shard: string, node: Node, referenced: set<string>, staleBefore: Time): set<string> {
    if !IsStageName(shard) && ValidShard(shard) && node.Dir?
    then
      set name | name in node.children && Orphan(shard, name, node.children[name], referenced, staleBefore)
        :: shard + name
    else {}
  }

  function AllOrphans(root: Root, referenced: set<string>, staleBefore: Time): set<string> {
    set shard, key | shard in root && key in Orphans(shard, root[shard], referenced, staleBefore) :: key
  }

  function Missing(root: Root, referenced: set<string>): set<string> {
    set key | key in referenced && ObjectAt(root, key) == None
  }

  /** Object by object and stage file by stage file: stale and unreferenced is what goes. */
  lemma ReconciledFiles(root: Root, referenced: set<string>, staleBefore: Time)
    ensures var after := Reconciled(root, referenced, staleBefore);
      && (forall key :: ObjectAt(after, key) ==
            match ObjectAt(root, key)
            case None => None
            case Some(mtime) => if key !in referenced && mtime <= staleBefore then None else Some(mtime))
      && (forall name :: StageAt(after, name) ==
            match StageAt(root, name)
            case None => None
            case Some(mtime) => if mtime <= staleBefore then None else Some(mtime))
  {
    var after := Reconciled(root, referenced, staleBefore);
    forall key | ValidKey(key) ensures ObjectAt(after, key) ==
      match ObjectAt(root, key)
      case None => None
      case Some(mtime) => if key !in referenced && mtime <= staleBefore then None else Some(mtime)
    {
      KeyParts(key);
    }
  }

  // ----- what a pass can have done, complete or not -----------------------------------

  datatype Counters = Counters(stagesDeleted: nat, orphansDeleted: nat, missingReferenced: nat, anomalies: nat)

  /** Stage files and objects removed, and anomalies met: an entry with no name after it, or a child of a shard. */
  datatype Work = Work(stages: set<string>, orphans: set<string>, anomalies: set<(string, string)>)

  const NO_WORK := Work({}, {}, {})

  ghost predicate PartOf(part: Work, whole: Work) {
    part.stages <= whole.stages && part.orphans <= whole.orphans && part.anomalies <= whole.anomalies
  }

  function Joined(a: Work, b: Work): Work {
    Work(a.stages + b.stages, a.orphans + b.orphans, a.anomalies + b.anomalies)
  }

  predicate AnomalousChild(shard: string, name: string, child: Child) {
    !ValidKey(shard + name) || !child.Plain?
  }

  predicate AnomalousEntry(name: string, node: Node) {
    if IsStageName(name) then !node.Regular? else !ValidShard(name) || !node.Dir?
  }

  function Anomalies(name: string, node: Node): set<(string, string)> {
    if AnomalousEntry(name, node) then {(name, "")}
    else if !IsStageName(name) && node.Dir?
    then set c | c in node.children && AnomalousChild(name, c, node.children[c]) :: (name, c)
    else {}
  }

  function WorkAt(name: string, node: Node, referenced: set<string>, staleBefore: Time): Work {
    Work(if StaleStage(name, node, staleBefore) then {name} else {},
         Orphans(name, node, referenced, staleBefore),
         Anomalies(name, node))
  }

  /** Everything that there is for a pass to do and to count. */
  function AllWork(root: Root, referenced: set<string>, staleBefore: Time): Work {
    Work(StaleStages(root, staleBefore), AllOrphans(root, referenced, staleBefore),
         set name, a | name in root && a in Anomalies(name, root[name]) :: a)
  }

  function ClearedNode(name: string, node: Node, orphans: set<string>): Node {
    if ValidShard(name) && node.Dir?
    then Dir(map c | c in node.children && name + c !in orphans :: node.children[c])
    else node
  }

  /** The directory without these stage files and these objects. */
  function Cleared(root: Root, stages: set<string>, orphans: set<string>): Root {
    map name | name in root && name !in stages :: ClearedNode(name, root[name], orphans)
  }

  lemma NothingCleared(root: Root)
    ensures Cleared(root, {}, {}) == root
  {
    forall name | name in root ensures ClearedNode(name, root[name], {}) == root[name] {
      if root[name].Dir? {
        assert (map c | c in root[name].children && name + c !in {} :: root[name].children[c]) == root[name].children;
      }
    }
  }

  lemma OrphansOfShard(shard: string, node: Node, referenced: set<string>, staleBefore: Time)
    requires ValidShard(shard) && node.Dir?
    ensures forall c :: c in node.children ==>
      (shard + c in Orphans(shard, node, referenced, staleBefore) <==>
       Orphan(shard, c, node.children[c], referenced, staleBefore))
  {
    forall c | c in node.children && shard + c in Orphans(shard, node, referenced, staleBefore)
      ensures Orphan(shard, c, node.children[c], referenced, staleBefore)
    {
      var n :| n in node.children && Orphan(shard, n, node.children[n], referenced, staleBefore)
               && shard + n == shard + c;
      assert (shard + n)[|shard|..] == n && (shard + c)[|shard|..] == c;
    }
  }

  lemma OrphanNamesItsShard(shard: string, node: Node, referenced: set<string>, staleBefore: Time)
    ensures forall key :: key in Orphans(shard, node, referenced, staleBefore) ==> |key| >= 2 && key[..2] == shard
  {
    forall key | key in Orphans(shard, node, referenced, staleBefore) ensures |key| >= 2 && key[..2] == shard {
      var name :| name in node.children && key == shard + name;
      assert (shard + name)[..2] == shard;
    }
  }

  /** Done in full, the removals leave exactly the reconciled directory. */
  lemma AllWorkReconciles(root: Root, referenced: set<string>, staleBefore: Time)
    ensures var all := AllWork(root, referenced, staleBefore);
      Cleared(root, all.stages, all.orphans) == Reconciled(root, referenced, staleBefore)
  {
    var all := AllWork(root, referenced, staleBefore);
    forall name | name in root
      ensures ClearedNode(name, root[name], all.orphans) == KeptNode(name, root[name], referenced, staleBefore)
    {
      if ValidShard(name) && root[name].Dir? {
        OrphansOfShard(name, root[name], referenced, staleBefore);
        forall c | c in root[name].children
          ensures name + c in all.orphans <==> Orphan(name, c, root[name].children[c], referenced, staleBefore)
        {
          if name + c in all.orphans {
            var shard :| shard in root && name + c in Orphans(shard, root[shard], referenced, staleBefore);
            OrphanNamesItsShard(shard, root[shard], referenced, staleBefore);
            assert (name + c)[..2] == name;
          } else {
            assert name + c !in Orphans(name, root[name], referenced, staleBefore);
          }
        }
      }
    }
  }

  /** Object by object and stage file by stage file, however much of the work is done. */
  lemma ClearedFiles(root: Root, stages: set<string>, orphans: set<string>)
    requires forall name :: name in stages ==> IsStageName(name)
    ensures var after := Cleared(root, stages, orphans);
      && (forall key :: ObjectAt(after, key) == if key in orphans then None else ObjectAt(root, key))
      && (forall name :: StageAt(after, name) == if name in stages then None else StageAt(root, name))
  {
    var after := Cleared(root, stages, orphans);
    forall key | ValidKey(key)
      ensures ChildAt(after, key) == if key in orphans then None else ChildAt(root, key)
    {
      KeyParts(key);
    }
  }

  // ----- the loops ----------------------------------------------------------------------

  /** A set of children, named by their keys or as anomalies of their shard, has as many elements. */
  lemma {:induction false} NamedChildren(shard: string, names: set<string>)
    ensures |set c | c in names :: shard + c| == |names| == |set c | c in names :: (shard, c)|
  {
    var keys := set c | c in names :: shard + c;
    var pairs := set c | c in names :: (shard, c);
    if names != {} {
      var c :| c in names;
      NamedChildren(shard, names - {c});
      var fewerKeys := set d | d in names - {c} :: shard + d;
      var fewerPairs := set d | d in names - {c} :: (shard, d);
      assert shard + c !in fewerKeys by {
        forall d | shard + d == shard + c ensures d == c {
          assert (shard + d)[|shard|..] == d && (shard + c)[|shard|..] == c;
        }
      }
      assert keys == fewerKeys + {shard + c};
      assert pairs == fewerPairs + {(shard, c)};
    }
  }

  /** Nothing inside the shard ends the pass. */
  ghost predicate ShardPasses(
    shard: string, node: Node, referenced: set<string>, staleBefore: Time,
    statFails: set<string>, removeFails: set<string>)
  {
    node.Dir? ==>
      forall c :: c in node.children ==>
        shard + c !in statFails
        && (Orphan(shard, c, node.children[c], referenced, staleBefore) ==> shard + c !in removeFails)
  }

  ghost predicate EntryPasses(
    name: string, node: Node, referenced: set<string>, staleBefore: Time,
    statFails: set<string>, removeFails: set<string>)
  {
    && name !in statFails
    && (StaleStage(name, node, staleBefore) ==> name !in removeFails)
    && (ValidShard(name) ==> ShardPasses(name, node, referenced, staleBefore, statFails, removeFails))
  }

  /** The children part way through: those removed, and those counted as anomalies. */
  ghost predicate ShardHalfway(
    shard: string, children: map<string, Child>, todo: set<string>, gone: set<string>, odd: set<string>,
    referenced: set<string>, staleBefore: Time, statFails: set<string>, removeFails: set<string>)
  {
    && todo <= children.Keys
    && (forall c :: c in gone <==>
          c in children && c !in todo && Orphan(shard, c, children[c], referenced, staleBefore))
    && (forall c :: c in odd <==> c in children && c !in todo && AnomalousChild(shard, c, children[c]))
    && (forall c :: c in children && c !in todo ==>
          shard + c !in statFails
          && (Orphan(shard, c, children[c], referenced, staleBefore) ==> shard + c !in removeFails))
  }

  /** The loop over a shard's children, which ends early at the first call that fails. */
  method ReconcileChildren(
    store: Local, shard: string, referenced: set<string>, staleBefore: Time,
    statFails: set<string>, removeFails: set<string>)
    returns (ok: bool, deleted: nat, anomalies: nat, ghost gone: set<string>, ghost odd: set<string>)
    requires ValidShard(shard) && shard in store.root && store.root[shard].Dir?
    modifies store
    ensures var children := old(store.root)[shard].children;
      && store.root == old(store.root)[shard := Dir(children - gone)]
      && deleted == |gone| && anomalies == |odd|
      && (forall c :: c in gone ==> c in children && Orphan(shard, c, children[c], referenced, staleBefore))
      && (forall c :: c in odd ==> c in children && AnomalousChild(shard, c, children[c]))
      && (ok ==> ShardHalfway(shard, children, {}, gone, odd, referenced, staleBefore, statFails, removeFails))
    ensures ok <==> ShardPasses(shard, old(store.root)[shard], referenced, staleBefore, statFails, removeFails)
  {
    var children := store.root[shard].children;
    var todo := children.Keys;
    ok, deleted, anomalies, gone, odd := true, 0, 0, {}, {};
    hide Orphan, AnomalousChild, ValidShard;
    assert children - {} == children;
    while todo != {}
      invariant ShardHalfway(shard, children, todo, gone, odd, referenced, staleBefore, statFails, removeFails)
      invariant store.root == old(store.root)[shard := Dir(children - gone)]
      invariant deleted == |gone| && anomalies == |odd|
    {
      var name :| name in todo;
      todo := todo - {name};
      if shard + name in statFails {
        ok := false;
        return;
      }
      OddIsNoOrphan(shard, name, children[name], referenced, staleBefore);
      if AnomalousChild(shard, name, children[name]) {
        anomalies := anomalies + 1;
        odd := odd + {name};
      } else if Orphan(shard, name, children[name], referenced, staleBefore) {
        if shard + name in removeFails {
          ok := false;
          return;
        }
        store.root := store.root[shard := Dir(store.root[shard].children - {name})];
        assert children - gone - {name} == children - (gone + {name});
        deleted := deleted + 1;
        gone := gone + {name};
      }
    }
  }

  lemma OddIsNoOrphan(shard: string, name: string, child: Child, referenced: set<string>, staleBefore: Time)
    ensures !(AnomalousChild(shard, name, child) && Orphan(shard, name, child, referenced, staleBefore))
  {
  }

  /** The children removed and counted, as work on the shard. */
  lemma ShardWork(
    shard: string, node: Node, gone: set<string>, odd: set<string>, referenced: set<string>, staleBefore: Time)
    returns (done: Work)
    requires ValidShard(shard) && node.Dir?
    requires forall c :: c in gone ==> c in node.children && Orphan(shard, c, node.children[c], referenced, staleBefore)
    requires forall c :: c in odd ==> c in node.children && AnomalousChild(shard, c, node.children[c])
    ensures done.stages == {} && |done.orphans| == |gone| && |done.anomalies| == |odd|
    ensures PartOf(done, WorkAt(shard, node, referenced, staleBefore))
    ensures ClearedNode(shard, node, done.orphans) == Dir(node.children - gone)
    ensures
      (&& (forall c :: c in node.children && Orphan(shard, c, node.children[c], referenced, staleBefore) ==> c in gone)
       && (forall c :: c in node.children && AnomalousChild(shard, c, node.children[c]) ==> c in odd)) ==>
      done == WorkAt(shard, node, referenced, staleBefore)
  {
    done := Work({}, set c | c in gone :: shard + c, set c | c in odd :: (shard, c));
    NamedChildren(shard, gone);
    NamedChildren(shard, odd);
    hide Orphan, AnomalousChild;
    forall c | shard + c in done.orphans ensures c in gone {
      var d :| d in gone && shard + d == shard + c;
      assert (shard + d)[|shard|..] == d && (shard + c)[|shard|..] == c;
    }
    assert ClearedNode(shard, node, done.orphans).children == node.children - gone;
  }

  function EntryCleared(root: Root, name: string, done: Work): Root
    requires name in root
  {
    if name in done.stages then root - {name} else root[name := ClearedNode(name, root[name], done.orphans)]
  }

  /** One entry of the root: a stage file, a shard, or something to count and leave alone. */
  method ReconcileEntry(
    store: Local, name: string, referenced: set<string>, staleBefore: Time,
    statFails: set<string>, removeFails: set<string>)
    returns (ok: bool, stages: nat, orphans: nat, anomalies: nat, ghost done: Work)
    requires name in store.root
    modifies store
    ensures PartOf(done, WorkAt(name, old(store.root)[name], referenced, staleBefore))
    ensures ok ==> done == WorkAt(name, old(store.root)[name], referenced, staleBefore)
    ensures ok <==> EntryPasses(name, old(store.root)[name], referenced, staleBefore, statFails, removeFails)
    ensures store.root == EntryCleared(old(store.root), name, done)
    ensures stages == |done.stages| && orphans == |done.orphans| && anomalies == |done.anomalies|
  {
    ok, stages, orphans, anomalies, done := true, 0, 0, 0, NO_WORK;
    ghost var node := store.root[name];
    EntryCases(name, node, referenced, staleBefore);
    Untouched(store.root, name);
    hide Orphans, Anomalies, ClearedNode, ShardPasses;
    if name in statFails {
      ok := false;
    } else if IsStageName(name) {
      if StaleStage(name, store.root[name], staleBefore) {
        if name in removeFails {
          ok := false;
          return;
        }
        store.root := store.root - {name};
        stages, done := 1, Work({name}, {}, {});
      } else if !store.root[name].Regular? {
        anomalies, done := 1, Work({}, {}, {(name, "")});
      }
    } else if !ValidShard(name) || !store.root[name].Dir? {
      anomalies, done := 1, Work({}, {}, {(name, "")});
    } else {
      ghost var gone, odd;
      ok, orphans, anomalies, gone, odd :=
        ReconcileChildren(store, name, referenced, staleBefore, statFails, removeFails);
      done := ShardWork(name, node, gone, odd, referenced, staleBefore);
    }
  }

  lemma EntryCases(name: string, node: Node, referenced: set<string>, staleBefore: Time)
    ensures IsStageName(name) ==> !ValidShard(name)
    ensures !(!IsStageName(name) && ValidShard(name) && node.Dir?) ==>
      Orphans(name, node, referenced, staleBefore) == {}
    ensures AnomalousEntry(name, node) ==> Anomalies(name, node) == {(name, "")}
    ensures IsStageName(name) && node.Regular? ==> Anomalies(name, node) == {}
    ensures ValidShard(name) && !node.Dir? ==> forall a, b, c, d :: ShardPasses(name, node, a, b, c, d)
  {
  }

  lemma Untouched(root: Root, name: string)
    requires name in root
    ensures ClearedNode(name, root[name], {}) == root[name] && root[name := root[name]] == root
  {
    NothingCleared(root);
    assert Cleared(root, {}, {})[name] == root[name];
  }

  /** The directory part way through a pass, and the work done on the entries that are no longer to do. */
  ghost predicate Halfway(
    before: Root, now: Root, todo: set<string>, done: Work, referenced: set<string>, staleBefore: Time)
  {
    && todo <= before.Keys
    && now == Cleared(before, done.stages, done.orphans)
    && PartOf(done, AllWork(before, referenced, staleBefore))
    && (forall name :: name in before && name !in todo ==>
          PartOf(WorkAt(name, before[name], referenced, staleBefore), done))
    && done.stages !! todo
    && (forall key :: key in done.orphans ==> |key| >= 2 && key[..2] !in todo)
    && (forall a :: a in done.anomalies ==> a.0 !in todo)
  }

  lemma StartOfPass(before: Root, referenced: set<string>, staleBefore: Time)
    ensures Halfway(before, before, before.Keys, NO_WORK, referenced, staleBefore)
  {
    NothingCleared(before);
    hide WorkAt, Cleared;
  }

  lemma StillUntouched(
    before: Root, now: Root, todo: set<string>, done: Work, referenced: set<string>, staleBefore: Time, name: string)
    requires Halfway(before, now, todo, done, referenced, staleBefore) && name in todo
    ensures name in before && name in now && now[name] == before[name]
  {
    Untouched(before, name);
    assert name !in done.stages;
    if ValidShard(name) && before[name].Dir? {
      forall c | c in before[name].children ensures name + c !in done.orphans {
        assert (name + c)[..2] == name;
      }
      assert (map c | c in before[name].children && name + c !in done.orphans :: before[name].children[c])
          == before[name].children;
    }
  }

  /** Work on one entry belongs to it, so it is new, and part of all there is to do. */
  lemma OwnWork(before: Root, todo: set<string>, name: string, part: Work, referenced: set<string>, staleBefore: Time)
    requires name in before && PartOf(part, WorkAt(name, before[name], referenced, staleBefore))
    ensures PartOf(part, AllWork(before, referenced, staleBefore))
    ensures part.stages <= {name}
    ensures forall key :: key in part.orphans ==> |key| >= 2 && key[..2] == name
    ensures forall a :: a in part.anomalies ==> a.0 == name
  {
    OrphanNamesItsShard(name, before[name], referenced, staleBefore);
  }

  lemma JoinedSizes(done: Work, part: Work, todo: set<string>, name: string)
    requires name in todo && done.stages !! todo && part.stages <= {name}
    requires forall key :: key in done.orphans ==> |key| >= 2 && key[..2] !in todo
    requires forall key :: key in part.orphans ==> |key| >= 2 && key[..2] == name
    requires forall a :: a in done.anomalies ==> a.0 !in todo
    requires forall a :: a in part.anomalies ==> a.0 == name
    ensures |Joined(done, part).stages| == |done.stages| + |part.stages|
    ensures |Joined(done, part).orphans| == |done.orphans| + |part.orphans|
    ensures |Joined(done, part).anomalies| == |done.anomalies| + |part.anomalies|
  {
    assert done.stages !! part.stages && done.orphans !! part.orphans && done.anomalies !! part.anomalies;
  }

  lemma EntryOfPass(
    before: Root, now: Root, todo: set<string>, done: Work, referenced: set<string>, staleBefore: Time,
    name: string, part: Work)
    requires Halfway(before, now, todo, done, referenced, staleBefore) && name in todo && name in now
    requires PartOf(part, WorkAt(name, before[name], referenced, staleBefore))
    ensures var after := EntryCleared(now, name, part);
      && after == Cleared(before, done.stages + part.stages, done.orphans + part.orphans)
      && PartOf(Joined(done, part), AllWork(before, referenced, staleBefore))
      && |Joined(done, part).stages| == |done.stages| + |part.stages|
      && |Joined(done, part).orphans| == |done.orphans| + |part.orphans|
      && |Joined(done, part).anomalies| == |done.anomalies| + |part.anomalies|
      && (part == WorkAt(name, before[name], referenced, staleBefore) ==>
            Halfway(before, after, todo - {name}, Joined(done, part), referenced, staleBefore))
  {
    StillUntouched(before, now, todo, done, referenced, staleBefore, name);
    OwnWork(before, todo, name, part, referenced, staleBefore);
    JoinedSizes(done, part, todo, name);
    hide WorkAt, AllWork, EntryCleared, Cleared;
    EntryClears(before, done, name, part);
    if part == WorkAt(name, before[name], referenced, staleBefore) {
      NextHalfway(before, EntryCleared(now, name, part), todo, done, referenced, staleBefore, name, part);
    }
  }

  lemma NextHalfway(
    before: Root, after: Root, todo: set<string>, done: Work, referenced: set<string>, staleBefore: Time,
    name: string, part: Work)
    requires todo <= before.Keys && name in todo && part == WorkAt(name, before[name], referenced, staleBefore)
    requires after == Cleared(before, done.stages + part.stages, done.orphans + part.orphans)
    requires PartOf(Joined(done, part), AllWork(before, referenced, staleBefore))
    requires forall n :: n in before && n !in todo ==> PartOf(WorkAt(n, before[n], referenced, staleBefore), done)
    requires done.stages !! todo && part.stages <= {name}
    requires forall key :: key in done.orphans ==> |key| >= 2 && key[..2] !in todo
    requires forall key :: key in part.orphans ==> |key| >= 2 && key[..2] == name
    requires forall a :: a in done.anomalies ==> a.0 !in todo
    requires forall a :: a in part.anomalies ==> a.0 == name
    ensures Halfway(before, after, todo - {name}, Joined(done, part), referenced, staleBefore)
  {
    hide WorkAt, AllWork, Cleared;
  }

  lemma EntryClears(before: Root, done: Work, name: string, part: Work)
    requires name in before && name !in done.stages && part.stages <= {name}
    requires forall key :: key in done.orphans ==> |key| >= 2 && key[..2] != name
    requires forall key :: key in part.orphans ==> |key| >= 2 && key[..2] == name
    ensures EntryCleared(Cleared(before, done.stages, done.orphans), name, part)
         == Cleared(before, done.stages + part.stages, done.orphans + part.orphans)
  {
    var now := Cleared(before, done.stages, done.orphans);
    forall other | other in before && other != name
      ensures ClearedNode(other, before[other], done.orphans + part.orphans)
           == ClearedNode(other, before[other], done.orphans)
    {
      if ValidShard(other) && before[other].Dir? {
        forall c | c in before[other].children ensures other + c !in part.orphans {
          assert (other + c)[..2] == other;
        }
      }
    }
    ClearedTwice(name, before[name], done.orphans, part.orphans);
  }

  lemma ClearedTwice(name: string, node: Node, a: set<string>, b: set<string>)
    ensures ClearedNode(name, ClearedNode(name, node, a), b) == ClearedNode(name, node, a + b)
  {
  }

  lemma EndOfPass(before: Root, now: Root, done: Work, referenced: set<string>, staleBefore: Time)
    requires Halfway(before, now, {}, done, referenced, staleBefore)
    ensures done == AllWork(before, referenced, staleBefore)
    ensures now == Reconciled(before, referenced, staleBefore)
  {
    AllWorkReconciles(before, referenced, staleBefore);
    var all := AllWork(before, referenced, staleBefore);
    assert all.stages <= done.stages by {
      forall name | name in all.stages ensures name in done.stages {
        assert name in WorkAt(name, before[name], referenced, staleBefore).stages;
      }
    }
    assert all.orphans <= done.orphans by {
      forall key | key in all.orphans ensures key in done.orphans {
        var shard :| shard in before && key in Orphans(shard, before[shard], referenced, staleBefore);
        assert key in WorkAt(shard, before[shard], referenced, staleBefore).orphans;
      }
    }
    assert all.anomalies <= done.anomalies by {
      forall a | a in all.anomalies ensures a in done.anomalies {
        var name :| name in before && a in Anomalies(name, before[name]);
        assert a in WorkAt(name, before[name], referenced, staleBefore).anomalies;
      }
    }
  }

  /** Nothing in the directory ends the pass. */
  ghost predicate Passes(
    root: Root, referenced: set<string>, staleBefore: Time, statFails: set<string>, removeFails: set<string>)
  {
    "." !in statFails
    && forall name :: name in root ==> EntryPasses(name, root[name], referenced, staleBefore, statFails, removeFails)
  }

  /**
  The anomalies of a directory: an entry with the prefix of stage files that is not a
  regular file, any other entry that is not a directory named by two hexadecimal
  digits, and in such a directory whatever is not a regular file completing a key.
  */
  lemma AnomaliesInPlainTerms(root: Root, referenced: set<string>, staleBefore: Time, name: string, child: string)
    ensures (name, child) in AllWork(root, referenced, staleBefore).anomalies <==>
      && name in root
      && if |name| >= 7 && name[..7] == ".stage-" then child == "" && !root[name].Regular?
         else if |name| == 2 && LowerHex(name) && root[name].Dir? then
           child in root[name].children
           && !(|name + child| == 32 && LowerHex(name + child) && root[name].children[child].Plain?)
         else child == ""
  {
    StageNamesInPlainTerms(name);
    if name in root {
      AnomaliesOfEntry(name, root[name], child);
    }
    forall other | other in root && (name, child) in Anomalies(other, root[other]) ensures other == name {
    }
    hide Anomalies;
  }

  lemma AnomaliesOfEntry(name: string, node: Node, child: string)
    ensures (name, child) in Anomalies(name, node) <==>
      if IsStageName(name) then child == "" && !node.Regular?
      else if |name| == 2 && LowerHex(name) && node.Dir? then
        child in node.children && !(|name + child| == 32 && LowerHex(name + child) && node.children[child].Plain?)
      else child == ""
  {
  }

  lemma NothingEndsThePass(root: Root, referenced: set<string>, staleBefore: Time)
    ensures Passes(root, referenced, staleBefore, {}, {})
  {
  }

  /**
  Reconcile. A pass that no failing call ends removes the stale stage files and the
  stale unreferenced objects, leaves everything else, and counts what it removed, the
  anomalies, and the references without an object. A pass that ends early has done
  and counted part of that, and nothing else.
  */
  method Reconcile(
    store: Local, referenced: set<string>, staleBefore: Time, statFails: set<string>, removeFails: set<string>)
    returns (ok: bool, r: Counters, ghost done: Work)
    modifies store
    ensures ok <==> Passes(old(store.root), referenced, staleBefore, statFails, removeFails)
    ensures PartOf(done, AllWork(old(store.root), referenced, staleBefore))
    ensures store.root == Cleared(old(store.root), done.stages, done.orphans)
    ensures r.stagesDeleted == |done.stages| && r.orphansDeleted == |done.orphans| && r.anomalies == |done.anomalies|
    ensures ok ==>
      && done == AllWork(old(store.root), referenced, staleBefore)
      && store.root == Reconciled(old(store.root), referenced, staleBefore)
      && r.missingReferenced == |Missing(store.root, referenced)|
    ensures !ok ==> r.missingReferenced == 0
  {
    hide Halfway, Cleared, Reconciled, AllWork, WorkAt, EntryCleared, EntryPasses, PartOf, Joined, Missing;
    ghost var before := store.root;
    var stages, orphans, anomalies := 0, 0, 0;
    ok, done := true, NO_WORK;
    StartOfPass(before, referenced, staleBefore);
    HalfwayHolds(before, before, before.Keys, NO_WORK, referenced, staleBefore);
    if "." in statFails {
      return false, Counters(0, 0, 0, 0), NO_WORK;
    }
    var todo := store.root.Keys;
    while todo != {}
      invariant todo <= before.Keys
      invariant Halfway(before, store.root, todo, done, referenced, staleBefore)
      invariant stages == |done.stages| && orphans == |done.orphans| && anomalies == |done.anomalies|
      invariant forall name :: name in before && name !in todo ==>
        EntryPasses(name, before[name], referenced, staleBefore, statFails, removeFails)
    {
      var name :| name in todo;
      StillUntouched(before, store.root, todo, done, referenced, staleBefore, name);
      ghost var now := store.root;
      var passed, s, o, a;
      ghost var part;
      passed, s, o, a, part := ReconcileEntry(store, name, referenced, staleBefore, statFails, removeFails);
      EntryOfPass(before, now, todo, done, referenced, staleBefore, name, part);
      JoinedParts(done, part);
      done := Joined(done, part);
      stages, orphans, anomalies := stages + s, orphans + o, anomalies + a;
      if !passed {
        return false, Counters(stages, orphans, 0, anomalies), done;
      }
      todo := todo - {name};
    }
    EndOfPass(before, store.root, done, referenced, staleBefore);
    HalfwayHolds(before, store.root, {}, done, referenced, staleBefore);
    var missing := CountMissing(store, referenced);
    r := Counters(stages, orphans, missing, anomalies);
  }

  lemma JoinedParts(a: Work, b: Work)
    ensures Joined(a, b).stages == a.stages + b.stages && Joined(a, b).orphans == a.orphans + b.orphans
  {
  }

  lemma HalfwayHolds(
    before: Root, now: Root, todo: set<string>, done: Work, referenced: set<string>, staleBefore: Time)
    requires Halfway(before, now, todo, done, referenced, staleBefore)
    ensures now == Cleared(before, done.stages, done.orphans) && PartOf(done, AllWork(before, referenced, staleBefore))
  {
  }

  method CountMissing(store: Local, referenced: set<string>) returns (missing: nat)
    ensures missing == |Missing(store.root, referenced)|
  {
    var todo := referenced;
    ghost var absent: set<string> := {};
    missing := 0;
    while todo != {}
      invariant todo <= referenced
      invariant absent == set key | key in referenced && key !in todo && ObjectAt(store.root, key) == None
      invariant missing == |absent|
    {
      var key :| key in todo;
      todo := todo - {key};
      if ObjectAt(store.root, key) == None {
        missing := missing + 1;
        absent := absent + {key};
      }
    }
    assert absent == Missing(store.root, referenced);
  }
}
