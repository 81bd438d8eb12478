/**
The object directory: stage files in its root, final objects one level down, in a
shard named by the first two characters of the key.
*/
module ObjectStore {
  import opened Common
  import opened Faults
  import opened Shares

  type Time = int

  /** What a shard holds, and what the root holds: regular files, and anything else. */
  datatype Child = Plain(mtime: Time) | Odd
  datatype Node = Regular(mtime: Time) | Dir(children: map<string, Child>) | Special

  type Root = map<string, Node>

  const STAGE_PREFIX := ".stage-"

  predicate IsStageName(name: string) {
    STAGE_PREFIX <= name
  }

  predicate ValidShard(name: string) {
    |name| == 2 && LowerHex(name)
  }

  function Shard(key: string): string
    requires ValidKey(key)
  {
    key[..2]
  }

  function Rest(key: string): string
    requires ValidKey(key)
  {
    key[2..]
  }

  lemma KeyParts(key: string)
    requires ValidKey(key)
    ensures ValidShard(Shard(key)) && !IsStageName(Shard(key)) && Shard(key) + Rest(key) == key
  {
    assert forall c :: c in Shard(key) ==> c in key;
  }

  /** What is at the final name of a key. */
  function ChildAt(root: Root, key: string): Option<Child>
    requires ValidKey(key)
  {
    if Shard(key) in root && root[Shard(key)].Dir? && Rest(key) in root[Shard(key)].children
    then Some(root[Shard(key)].children[Rest(key)])
    else None
  }

  /** The modification time of the final object of a key, if there is one. */
  function ObjectAt(root: Root, key: string): Option<Time> {
    if ValidKey(key) && ChildAt(root, key).Some? && ChildAt(root, key).value.Plain?
    then Some(ChildAt(root, key).value.mtime)
    else None
  }

  /** The modification time of a regular stage file, if there is one of that name. */
  function StageAt(root: Root, name: string): Option<Time> {
    if IsStageName(name) && name in root && root[name].Regular? then Some(root[name].mtime) else None
  }

  function WithChild(root: Root, key: string, child: Child): Root
    requires ValidKey(key) && Shard(key) in root && root[Shard(key)].Dir?
  {
    root[Shard(key) := Dir(root[Shard(key)].children[Rest(key) := child])]
  }

  function WithoutChild(root: Root, key: string): Root
    requires ValidKey(key) && Shard(key) in root && root[Shard(key)].Dir?
  {
    root[Shard(key) := Dir(root[Shard(key)].children - {Rest(key)})]
  }

  /** Every other object and every other stage file is as it was. */
  ghost predicate OnlyTouches(before: Root, after: Root, key: string, stage: string) {
    && (forall k :: k != key ==> ObjectAt(after, k) == ObjectAt(before, k))
    && (forall name :: name != stage ==> StageAt(after, name) == StageAt(before, name))
  }

  lemma TouchChild(root: Root, key: string, child: Child, stage: string)
    requires ValidKey(key) && Shard(key) in root && root[Shard(key)].Dir?
    ensures OnlyTouches(root, WithChild(root, key, child), key, stage)
    ensures OnlyTouches(root, WithoutChild(root, key), key, stage)
    ensures ChildAt(WithChild(root, key, child), key) == Some(child)
    ensures ChildAt(WithoutChild(root, key), key) == None
    ensures forall k :: k != key && ValidKey(k) ==>
      ChildAt(WithChild(root, key, child), k) == ChildAt(root, k) == ChildAt(WithoutChild(root, key), k)
    ensures forall name :: IsStageName(name) ==>
      StageAt(WithChild(root, key, child), name) == StageAt(root, name) == StageAt(WithoutChild(root, key), name)
  {
    KeyParts(key);
    forall k | k != key && ValidKey(k)
      ensures ChildAt(WithChild(root, key, child), k) == ChildAt(root, k) == ChildAt(WithoutChild(root, key), k)
    {
      KeyParts(k);
    }
  }

  lemma TouchStage(root: Root, name: string, key: string)
    requires IsStageName(name)
    ensures OnlyTouches(root, root - {name}, key, name)
    ensures forall k :: ValidKey(k) ==> ChildAt(root - {name}, k) == ChildAt(root, k)
    ensures StageAt(root - {name}, name) == None
  {
    forall k | ValidKey(k) ensures ChildAt(root - {name}, k) == ChildAt(root, k) {
      KeyParts(k);
    }
  }

  /** The key is well formed, and at its final name is nothing, or a regular file that can be removed. */
  predicate Removable(root: Root, key: string, fails: set<Call>) {
    ValidKey(key) && (ChildAt(root, key) == None || (ObjectAt(root, key).Some? && DeleteObject !in fails))
  }

  /** What arrives from the client as the content of a file: its length, or a read that breaks off. */
  datatype Incoming = Content(size: nat) | Broken

  datatype StageError = StageTooLarge | StageEmpty | StageFailed

  const STAGE_ATTEMPTS := 8

  /** The stage names that an upload draws, all of them with the prefix. */
  predicate DrawnNames(temps: seq<string>) {
    |temps| == 8 && forall i :: 0 <= i < |temps| ==> IsStageName(temps[i])
  }

  /** The first of the names that is not taken, or "" when all are. */
  function FirstFree(root: Root, temps: seq<string>): string {
    if temps == [] then "" else if temps[0] !in root then temps[0] else FirstFree(root, temps[1..])
  }

  lemma {:induction false} FirstFreeIsFree(root: Root, temps: seq<string>)
    ensures FirstFree(root, temps) == "" || (FirstFree(root, temps) in temps && FirstFree(root, temps) !in root)
    ensures StageAt(root, FirstFree(root, temps)) == None
  {
    if temps != [] {
      FirstFreeIsFree(root, temps[1..]);
    }
  }

  /** It is the first name that is free, and there is none exactly when all are taken. */
  lemma {:induction false} FirstFreeIsFirst(root: Root, temps: seq<string>, n: nat)
    requires n < |temps| && temps[n] !in root && forall i :: 0 <= i < n ==> temps[i] in root
    ensures FirstFree(root, temps) == temps[n]
  {
    if n > 0 {
      FirstFreeIsFirst(root, temps[1..], n - 1);
    }
  }

  lemma StageNamesInPlainTerms(name: string)
    ensures IsStageName(name) <==> |name| >= 7 && name[..7] == ".stage-"
  {
  }

  /** Exactly when an upload is staged: between 1 and limit bytes, a free name, and no call failing. */
  predicate Stageable(root: Root, temps: seq<string>, incoming: Incoming, limit: nat, fails: set<Call>) {
    && incoming.Content? && 0 < incoming.size <= limit
    && FirstFree(root, temps) != "" && fails !! {GenerateKey, CreateStage, SyncStage}
  }

  function StageErrorOf(root: Root, temps: seq<string>, incoming: Incoming, limit: nat, fails: set<Call>): StageError {
    if FirstFree(root, temps) == "" || !(fails !! {GenerateKey, CreateStage}) || incoming.Broken? then StageFailed
    else if incoming.size > limit then StageTooLarge
    else if incoming.size == 0 then StageEmpty
    else StageFailed
  }

  class Local {
    var root: Root

    constructor (root: Root)
      ensures this.root == root
    {
      this.root := root;
    }

    /**
    Receives at most `limit` bytes into a new stage file, under the first of the names
    drawn that is not taken. When anything is wrong with them the stage file is removed
    again, unless that removal fails too.
    */
    method Stage(key: string, temps: seq<string>, now: Time, incoming: Incoming, limit: nat, fails: set<Call>)
      returns (r: Result<Staged, StageError>)
      requires DrawnNames(temps)
      modifies this
      ensures OnlyTouches(old(root), root, "", FirstFree(old(root), temps))
      ensures forall k :: ObjectAt(root, k) == ObjectAt(old(root), k)
      ensures r.Ok? <==> Stageable(old(root), temps, incoming, limit, fails)
      ensures r.Ok? ==>
        var temp := FirstFree(old(root), temps);
        && fresh(r.value) && r.value.WellFormed() && !r.value.committed
        && r.value.store == this && r.value.key == key && r.value.temp == temp && IsStageName(temp)
        && StageAt(root, temp) == Some(now) && root == old(root)[temp := Regular(now)]
      ensures r.Err? ==>
        var temp := FirstFree(old(root), temps);
        && (AbortStage !in fails ==> StageAt(root, temp) == None)
        && StageAt(root, temp) in {None, Some(now)}
        && r.error == StageErrorOf(old(root), temps, incoming, limit, fails)
    {
      FirstFreeIsFree(root, temps);
      if GenerateKey in fails {
        return Err(StageFailed);
      }
      var temp := "";
      for i := 0 to STAGE_ATTEMPTS
        invariant temp == "" && FirstFree(root, temps) == FirstFree(root, temps[i..])
      {
        assert temps[i..][0] == temps[i] && temps[i..][1..] == temps[i + 1..];
        if temps[i] !in root {
          temp := temps[i];
          break;
        }
      }
      if temp == "" || CreateStage in fails {
        return Err(StageFailed);
      }
      AddStage(root, temp, now);
      root := root[temp := Regular(now)];
      var staged := new Staged(this, key, temp);
      if incoming.Broken? || incoming.size > limit || incoming.size == 0 || SyncStage in fails {
        var aborted := staged.Abort(fails);
        return Err(if incoming.Broken? then StageFailed
                   else if incoming.size > limit then StageTooLarge
                   else if incoming.size == 0 then StageEmpty else StageFailed);
      }
      r := Ok(staged);
    }

    /** Removing what is not there succeeds; what is there and not a regular file stays. */
    method Delete(key: string, fails: set<Call>) returns (ok: bool)
      modifies this
      ensures OnlyTouches(old(root), root, key, "")
      ensures forall name :: StageAt(root, name) == StageAt(old(root), name)
      ensures ok ==> ValidKey(key) && ChildAt(root, key) == None
      ensures forall k :: ValidKey(k) && k != key ==> ChildAt(root, k) == ChildAt(old(root), k)
      ensures !ok ==> root == old(root)
      ensures ok <==> Removable(old(root), key, fails)
    {
      if !ValidKey(key) {
        return false;
      }
      var child := ChildAt(root, key);
      if child.None? {
        return true;
      }
      if child.value.Odd? || DeleteObject in fails {
        return false;
      }
      TouchChild(root, key, Odd, "");
      root := WithoutChild(root, key);
      ok := true;
    }
  }

  /** An upload that has been received into a stage file. `temp` is "" once there is no stage file to remove. */
  class Staged {
    const store: Local
    const key: string
    var temp: string
    var committed: bool

    ghost predicate WellFormed()
      reads this
    {
      (temp == "" || IsStageName(temp)) && (committed ==> temp == "")
    }

    constructor (store: Local, key: string, temp: string)
      requires IsStageName(temp)
      ensures WellFormed() && this.store == store && this.key == key && this.temp == temp && !committed
    {
      this.store, this.key, this.temp, committed := store, key, temp, false;
    }

    /**
    Publishes the final name and drops the stage name; a second call after that has
    nothing left to do. On success the object has the stage file's time; whatever
    fails, no other file is touched, and the only mark that can stay at the final name
    is an object this call published itself.
    */
    method Commit(fails: set<Call>) returns (ok: bool)
      requires WellFormed()
      modifies this, store
      ensures WellFormed()
      ensures old(committed) ==> ok && committed && temp == old(temp) && store.root == old(store.root)
      ensures !old(committed) ==> (ok <==> CommitSucceeds(old(store.root), key, old(temp), fails))
      ensures OnlyTouches(old(store.root), store.root, key, old(temp))
      ensures ok ==> committed
      ensures ok && !old(committed) ==>
        && StageAt(store.root, old(temp)) == None
        && ObjectAt(old(store.root), key) == None
        && ObjectAt(store.root, key) == StageAt(old(store.root), old(temp)) != None
      ensures committed ==> temp == "" && StageAt(store.root, old(temp)) == None
      ensures !committed ==> temp == old(temp) && StageAt(store.root, temp) == StageAt(old(store.root), temp)
      ensures ObjectAt(store.root, key) != ObjectAt(old(store.root), key) ==>
        && ObjectAt(old(store.root), key) == None
        && ObjectAt(store.root, key) == StageAt(old(store.root), old(temp))
      ensures !committed && TakeBackLink !in fails ==> ObjectAt(store.root, key) == ObjectAt(old(store.root), key)
    {
      if committed {
        return true;
      }
      if !ValidKey(key) {
        return false;
      }
      var shard := Shard(key);
      KeyParts(key);
      if MakeShard in fails || (shard in store.root && !store.root[shard].Dir?) {
        return false;
      }
      if shard !in store.root {
        EmptyShard(store.root, shard, key, temp);
        store.root := store.root[shard := Dir(map[])];
      }
      if StatObject in fails || ChildAt(store.root, key).Some? {
        return false;
      }
      if LinkObject in fails || StageAt(store.root, temp).None? {
        return false;
      }
      TouchChild(store.root, key, Plain(StageAt(store.root, temp).value), temp);
      store.root := WithChild(store.root, key, Plain(StageAt(store.root, temp).value));
      if RemoveStage in fails {
        if TakeBackLink !in fails {
          TouchChild(store.root, key, Odd, temp);
          store.root := WithoutChild(store.root, key);
        }
        return false;
      }
      TouchStage(store.root, temp, key);
      store.root := store.root - {temp};
      temp := "";
      committed := true;
      ok := OpenShard !in fails && SyncShard !in fails;
    }

    /** Removes the stage file, if this upload still has one to remove; a second call does nothing. */
    method Abort(fails: set<Call>) returns (ok: bool)
      requires WellFormed()
      modifies this`temp, store
      ensures WellFormed() && temp == ""
      ensures OnlyTouches(old(store.root), store.root, "", old(temp))
      ensures forall k :: ObjectAt(store.root, k) == ObjectAt(old(store.root), k)
      ensures old(temp) != "" && AbortStage !in fails ==> StageAt(store.root, old(temp)) == None
      ensures AbortStage in fails || old(temp) == "" ==> store.root == old(store.root)
      ensures ok <==> AbortStage !in fails || old(temp) == ""
    {
      ok := true;
      if temp != "" {
        if AbortStage in fails {
          ok := false;
        } else {
          TouchStage(store.root, temp, "");
          store.root := store.root - {temp};
        }
        temp := "";
      }
    }
  }

  lemma AddStage(root: Root, name: string, now: Time)
    requires IsStageName(name) && name !in root
    ensures OnlyTouches(root, root[name := Regular(now)], "", name)
    ensures forall k :: ObjectAt(root[name := Regular(now)], k) == ObjectAt(root, k)
    ensures StageAt(root[name := Regular(now)], name) == Some(now)
  {
    forall k | ValidKey(k) ensures ChildAt(root[name := Regular(now)], k) == ChildAt(root, k) {
      KeyParts(k);
    }
  }

  lemma EmptyShard(root: Root, shard: string, key: string, stage: string)
    requires ValidKey(key) && shard == Shard(key) && shard !in root
    ensures forall k :: ObjectAt(root[shard := Dir(map[])], k) == ObjectAt(root, k)
    ensures forall name :: StageAt(root[shard := Dir(map[])], name) == StageAt(root, name)
    ensures OnlyTouches(root, root[shard := Dir(map[])], key, stage)
  {
    KeyParts(key);
  }

  /** Exactly when publishing succeeds: nothing at the final name, the stage file in place, and no call failing. */
  ghost predicate CommitSucceeds(root: Root, key: string, temp: string, fails: set<Call>) {
    && ValidKey(key)
    && (Shard(key) in root ==> root[Shard(key)].Dir?)
    && ChildAt(root, key) == None
    && StageAt(root, temp).Some?
    && fails !! {MakeShard, StatObject, LinkObject, RemoveStage, OpenShard, SyncShard}
  }
}
