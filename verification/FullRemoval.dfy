/**
 * Redefinition or not, a file all of whose recorded objects are live when its deletion
 * begins is removed completely.  A stored definition may be looked for in place of a given
 * one, but while anything is left there is always a live one to be found.
 */
module FullRemoval {
  import opened Options
  import opened JsonValues
  import opened Definitions
  import opened Paths
  import opened Record
  import opened FileMaps
  import opened Cluster
  import opened FileDeletion
  import opened Convergence
  import opened Agreement
  import opened Fallback
  import opened Conservation
  import opened Tasks
  import opened Creation
  import opened Retries
  import opened RecordKeeping
  import opened Endings
  import opened Lifecycle
  import opened Removal

  // ---------------------------------------------------- keys of definitions

  /** The key a definition is looked for under. */
  ghost function KeyBy(env: Env, d: Definition): Key {
    var m := env.resolver.mappingWithOptions(d);
    KeyOf(env, if m.Some? then m.value else "", d)
  }

  /** A definition that says what it is and nothing more, and has one mapping. */
  ghost predicate Plain(env: Env, d: Definition) {
    && CleanedDict(d.metadata) && d.rest == map[] && CompleteDefinition(env, d)
    && env.mappingByKind(d) == env.resolver.mappingWithOptions(d)
  }

  /** A stored definition of that kind. */
  ghost predicate PlainStored(env: Env, s: Resource) {
    SoundDefinition(s) && Plain(env, Rebuilt(s).value)
  }

  ghost function StoredKey(env: Env, s: Resource): Key
    requires PlainStored(env, s)
  {
    KeyBy(env, Rebuilt(s).value)
  }

  /** A recorded object that is deleted, and stored, by such definitions of one key. */
  ghost predicate PlainObject(env: Env, r: Resource) {
    && GoodResource(r) && Complete(env, r) && EitherVersion(r).Some?
    && Plain(env, TargetDefinition(r)) && Plain(env, DefinitionOf(r))
    && KeyBy(env, TargetDefinition(r)) == KeyBy(env, DefinitionOf(r))
  }

  ghost function ObjectKey(env: Env, r: Resource): Key
    requires PlainObject(env, r)
  {
    KeyBy(env, TargetDefinition(r))
  }

  lemma {:induction false} PlainIsStored(env: Env, d: Definition)
    requires Plain(env, d)
    ensures Stored(d) == DictOf(d) && PlainStored(env, Stored(d)) && Rebuilt(Stored(d)) == Some(d)
    ensures StoredKey(env, Stored(d)) == KeyBy(env, d) && PutBackDefinition(d) == d && Tidied(d) == d
  {
    CleanDictFixed(d.metadata);
    assert CleanDict(map[]) == map[];
    assert Rebuilt(DictOf(d)) == Some(d);
  }

  lemma {:induction false} StoredIsPlain(env: Env, s: Resource)
    requires PlainStored(env, s)
    ensures Stored(Rebuilt(s).value) == s && PutBackDefinition(Rebuilt(s).value) == Rebuilt(s).value
    ensures s.apiVersion.Some? && s.snakeVersion.None? && Complete(env, s)
  {
    SoundDefinitionReadsBack(s);
    PlainIsStored(env, Rebuilt(s).value);
  }

  /** An object shown by its definition only. */
  lemma {:induction false} ShownByDefinition(env: Env, d: Definition, r: Resource)
    requires Plain(env, d) && r.kind == Some(d.kind) && r.apiVersion == Some(d.apiVersion) && r.snakeVersion.None?
    requires r.metadata == Some(d.metadata)
    ensures PlainObject(env, r) && TargetDefinition(r) == d && DefinitionOf(r) == d
    ensures ObjectKey(env, r) == KeyBy(env, d)
  {
  }

  // ------------------------------------------------- what is looked for

  ghost predicate AllPlain(env: Env, defs: seq<Resource>) {
    forall s :: s in defs ==> PlainStored(env, s)
  }

  lemma {:induction false} PlainAreComplete(env: Env, defs: seq<Resource>)
    requires AllPlain(env, defs)
    ensures CompleteDefinitions(env, defs)
  {
    forall s | s in defs
      ensures Complete(env, s) && s.apiVersion.Some? && s.snakeVersion.None? { StoredIsPlain(env, s); }
  }

  lemma {:induction false} LeftWithinPopped(env: Env, defs: seq<Resource>, d: Definition)
    requires DistinctIdentities(defs)
    ensures var left := LeftDefinitions(env, defs, d);
            && DistinctIdentities(left) && (forall s :: s in left ==> s in Popped(Popped(defs)))
            && |left| <= |Popped(Popped(defs))| && (|defs| <= 2 ==> left == [])
  {
    assert DistinctIdentities(Popped(Popped(defs)));
    var choice := ChooseStored(env.resolver, Popped(defs), d, "");
    if choice.LookedUp? && "name" in choice.definition.metadata {
      RemovalLength(Popped(Popped(defs)), choice.definition.kind, choice.definition.metadata["name"]);
      RemovalKeepsDistinct(Popped(Popped(defs)), choice.definition.kind, choice.definition.metadata["name"]);
    }
    hide RemoveSkipping, ChooseStored;
  }

  /** With two definitions or more, the one before the last is looked for, unless it is that of
      the given definition, which then is. */
  lemma {:induction false} PairSought(env: Env, defs: seq<Resource>, d: Definition, mapping: string)
    requires env.resolver.allowRedefinition && AllPlain(env, defs) && |defs| >= 2 && CompleteDefinition(env, d)
    ensures var y := defs[|defs| - 2];
            && PlainStored(env, y)
            && LookedFor(env, defs, d, mapping) ==
               Some(if Stored(d) == y then Sought(Tidied(d), KeyOf(env, mapping, Tidied(d)))
                    else Sought(Rebuilt(y).value, StoredKey(env, y)))
  {
    var y := defs[|defs| - 2];
    assert y in defs && Popped(defs)[|defs| - 2] == y;
    StoredIsPlain(env, y);
    assert AllPlain(env, Popped(defs));
    PlainAreComplete(env, Popped(defs));
    RetrieveStoredCompletes(env, Popped(defs), d, mapping);
    hide RemoveSkipping, SoundDefinition, CompleteDefinitions, AllPlain, KeyOf;
  }

  // -------------------------------------------- one step without any files

  /** What the server and the mappings are relied on for: an object shows itself by a plain
      definition under the key of the given one. */
  ghost predicate PlainFile(env: Env, op: Operation) {
    File(env, op) && forall d :: d in op.definitions ==> PlainlyServed(env, d)
  }

  ghost predicate PlainlyServed(env: Env, d: Definition) {
    && Plain(env, PutBackDefinition(d)) && KeyBy(env, PutBackDefinition(d)) == KeyBy(env, d)
    && (forall obj :: Shows(env, obj, d) ==>
          PlainObject(env, obj) && ObjectKey(env, obj) == KeyBy(env, d))
  }

  lemma {:induction false} PlainFileFacts(env: Env, op: Operation, i: nat)
    requires PlainFile(env, op) && i < |op.definitions|
    ensures var d := op.definitions[i];
            && Served(env, d) && CompleteDefinition(env, d) && PlainlyServed(env, d)
            && KeyBy(env, d) == MappedKey(env, d)
            && KeyOf(env, env.resolver.mappingWithOptions(d).value, Tidied(d)) == KeyBy(env, d) && HasName(d)
            && PathFor(op, i) != "" && Stem(PathFor(op, i)).Some?
  {
    assert op.definitions[i] in op.definitions;
    CleanKey(env, op.definitions[i]);
    FilePaths(env, op, i, i);
  }

  /** The stored definition looked for when definition `i` comes up with no files recorded. */
  ghost function SoughtStored(op: Operation, defs: seq<Resource>, i: nat): Resource
    requires i < |op.definitions|
  {
    if |defs| >= 2 then defs[|defs| - 2] else Stored(PutBackDefinition(op.definitions[i]))
  }

  ghost function SoughtKey(env: Env, op: Operation, defs: seq<Resource>, i: nat): Key
    requires AllPlain(env, defs) && i < |op.definitions|
  {
    if |defs| >= 2 then StoredKey(env, defs[|defs| - 2]) else KeyBy(env, op.definitions[i])
  }

  /** It is that one, whichever definition it is looked for by. */
  lemma {:induction false} StepSought(env: Env, op: Operation, defs: seq<Resource>, i: nat)
    requires PlainFile(env, op) && env.resolver.allowRedefinition && AllPlain(env, defs) && i < |op.definitions|
    ensures env.resolver.mappingWithOptions(op.definitions[i]).Some?
    ensures var d, s := op.definitions[i], SoughtStored(op, defs, i);
            var sought := LookedFor(env, defs, d, env.resolver.mappingWithOptions(d).value);
            && PlainStored(env, s) && StoredKey(env, s) == SoughtKey(env, op, defs, i)
            && sought.Some? && sought.value.key == SoughtKey(env, op, defs, i)
            && PutBackDefinition(sought.value.definition) == Rebuilt(s).value && Constructed(sought.value.definition)
  {
    var d, s := op.definitions[i], SoughtStored(op, defs, i);
    PlainFileFacts(env, op, i);
    var m := env.resolver.mappingWithOptions(d).value;
    hide Served, File, PlainlyServed, KeyOf, CompleteDefinition, KeyBy;
    PlainServedBare(env, d);
    PlainIsStored(env, PutBackDefinition(d));
    TidiedBare(d);
    if |defs| >= 2 {
      PairSought(env, defs, d, m);
      StoredIsPlain(env, s);
      if Stored(d) == s { SameAsStored(env, d, s); }
    } else {
      GivenSought(env, defs, d, m);
    }
    hide LookedFor, Plain, PlainStored, Tidied, PutBackDefinition;
  }

  lemma {:induction false} PlainServedBare(env: Env, d: Definition)
    requires PlainlyServed(env, d)
    ensures Plain(env, PutBackDefinition(d)) && KeyBy(env, PutBackDefinition(d)) == KeyBy(env, d)
  {
  }

  lemma {:induction false} TidiedBare(d: Definition)
    ensures PutBackDefinition(Tidied(d)) == PutBackDefinition(d)
  {
    CleanDictFixed(d.metadata);
    CleanDictFixed(CleanDict(d.metadata));
  }

  lemma {:induction false} SameAsStored(env: Env, d: Definition, s: Resource)
    requires PlainStored(env, s) && Stored(d) == s && Constructed(d)
    ensures Rebuilt(s).value == PutBackDefinition(d)
  {
    assert s.body == map[] && s.metadata == Some(CleanDict(d.metadata));
  }

  lemma {:induction false} StoredFresh(env: Env, defs: seq<Resource>, s: Resource)
    requires PlainStored(env, s) && forall k :: 0 <= k < |defs| ==> IdentityOf(defs[k]) != IdentityOf(s)
    ensures StoreDefinition(defs, Rebuilt(s).value) == defs + [s]
  {
    StoredIsPlain(env, s);
    assert DictOf(Rebuilt(s).value) == s;
    hide IdentityOf;
  }

  lemma {:induction false} FreshBeforeLast(env: Env, defs: seq<Resource>, d: Definition)
    requires DistinctIdentities(defs) && |defs| >= 2
    ensures forall t :: t in LeftDefinitions(env, defs, d) ==> IdentityOf(t) != IdentityOf(defs[|defs| - 2])
  {
    LeftWithinPopped(env, defs, d);
    var n := |defs| - 2;
    forall t | t in LeftDefinitions(env, defs, d) ensures IdentityOf(t) != IdentityOf(defs[n]) {
      assert t in Popped(Popped(defs));
      var k :| 0 <= k < |Popped(Popped(defs))| && Popped(Popped(defs))[k] == t;
      assert defs[k] == t;
    }
  }

  lemma {:induction false} SoughtDeletion(env: Env, op: Operation, st: State, i: nat, m: string)
    requires AccurateApi(env) && !env.external && env.resolver.allowRedefinition && PlainFile(env, op)
    requires i < |op.definitions| && st.files == [] && AllPlain(env, st.defs) && DistinctIdentities(st.defs)
    requires env.resolver.mappingWithOptions(op.definitions[i]) == Some(m)
    ensures var r, key := DeleteFile(env, st, m, op.definitions[i], PathFor(op, i)), SoughtKey(env, op, st.defs, i);
            var s, left := SoughtStored(op, st.defs, i), LeftDefinitions(env, st.defs, op.definitions[i]);
            if key in st.live then
              && r.out == Retry(false) && r.st.live.Keys == st.live.Keys - {key} && r.st.defs == left + [s]
              && |r.st.files| == 1 && r.st.files[0].path == PathFor(op, i)
              && PlainObject(env, r.st.files[0].resource) && ObjectKey(env, r.st.files[0].resource) == key
            else r.out == Done && r.st.live == st.live && r.st.files == [] && r.st.defs == left
  {
    var d := op.definitions[i];
    hide DeleteFile, LookedFor, LeftDefinitions, Served, PlainlyServed, File, CompleteDefinition, IdentityOf,
      PlainStored, KeyOf, PathFor, PutBackDefinition, Stored;
    StepSought(env, op, st.defs, i);
    PlainFileFacts(env, op, i);
    LeftWithinPopped(env, st.defs, d);
    var s, left := SoughtStored(op, st.defs, i), LeftDefinitions(env, st.defs, d);
    var sought := LookedFor(env, st.defs, d, m).value;
    if |st.defs| >= 2 { FreshBeforeLast(env, st.defs, d); }
    StoredFresh(env, left, s);
    StoredKeyIs(env, s);
    hide SoughtStored, SoughtKey, StoredKey;
    PutBackIsPlain(env, sought.definition);
    StoredIsPlain(env, s);
    hide PlainObject, Plain, ObjectKey;
    DeletionWithoutFiles(env, st, m, d, PathFor(op, i));
  }

  lemma {:induction false} StoredKeyIs(env: Env, s: Resource)
    requires PlainStored(env, s)
    ensures Rebuilt(s).Some? && Plain(env, Rebuilt(s).value) && StoredKey(env, s) == KeyBy(env, Rebuilt(s).value)
  {
  }

  /** One step of a delete pass with no file object recorded: what is sought is deleted now and
      put back, or is not live and the next definition comes up. */
  lemma {:induction false} SoughtStep(env: Env, op: Operation, st: State, i: nat)
    requires AccurateApi(env) && !env.external && env.resolver.allowRedefinition && PlainFile(env, op)
    requires op.task.FileDelete?
    requires i < |op.definitions| && st.files == [] && AllPlain(env, st.defs) && DistinctIdentities(st.defs)
    ensures var r, key := Step(env, st, op, i), SoughtKey(env, op, st.defs, i);
            var s, left := SoughtStored(op, st.defs, i), LeftDefinitions(env, st.defs, op.definitions[i]);
            if key in st.live then
              && r.out == Retry(false) && r.st.live.Keys == st.live.Keys - {key} && r.st.defs == left + [s]
              && |r.st.files| == 1 && r.st.files[0].path == PathFor(op, i)
              && PlainObject(env, r.st.files[0].resource) && ObjectKey(env, r.st.files[0].resource) == key
            else r.out == Done && r.st.live == st.live && r.st.files == [] && r.st.defs == left
  {
    PlainFileFacts(env, op, i);
    var m := env.resolver.mappingWithOptions(op.definitions[i]).value;
    hide Step, DeleteFile, LeftDefinitions, Served, PlainlyServed, File, PlainObject, SoughtStored, SoughtKey,
      PathFor, ObjectKey, KeyBy;
    var start := StepDeletes(env, op, st, i, m);
    SoughtDeletion(env, op, start, i, m);
  }

  lemma {:induction false} PutBackIsPlain(env: Env, d: Definition)
    requires Plain(env, PutBackDefinition(d)) && Constructed(d)
    ensures PlainObject(env, Stored(d)) && ObjectKey(env, Stored(d)) == KeyBy(env, PutBackDefinition(d))
  {
    ShownByDefinition(env, PutBackDefinition(d), Stored(d));
  }

  // --------------------------------------- passes over a promising record

  /** Different stored definitions have different keys. */
  ghost predicate KeysApart(env: Env, defs: seq<Resource>)
    requires AllPlain(env, defs)
  {
    forall s, t :: s in defs && t in defs && s != t ==> StoredKey(env, s) != StoredKey(env, t)
  }

  ghost predicate AllLive(env: Env, defs: seq<Resource>, live: map<Key, Resource>)
    requires AllPlain(env, defs)
  {
    forall s :: s in defs ==> StoredKey(env, s) in live
  }

  /** All but the one of the first definition of the file, which has been deleted first. */
  ghost predicate LiveButFirst(env: Env, op: Operation, defs: seq<Resource>, live: map<Key, Resource>)
    requires AllPlain(env, defs) && op.definitions != []
  {
    forall s :: s in defs ==> StoredKey(env, s) in live || StoredKey(env, s) == KeyBy(env, op.definitions[0])
  }

  /** The second definition is not live either, or a later one is that is not stored. */
  ghost predicate OthersWait(env: Env, op: Operation, defs: seq<Resource>, live: map<Key, Resource>)
    requires AllPlain(env, defs)
  {
    || (|op.definitions| > 1 ==> KeyBy(env, op.definitions[1]) !in live)
    || exists z :: 2 <= z < |op.definitions| && WaitsFor(env, op, defs, live, z)
  }

  ghost predicate WaitsFor(env: Env, op: Operation, defs: seq<Resource>, live: map<Key, Resource>, z: nat)
    requires AllPlain(env, defs) && z < |op.definitions|
  {
    KeyBy(env, op.definitions[z]) in live && forall s :: s in defs ==>
      StoredKey(env, s) != KeyBy(env, op.definitions[z])
  }

  /** Definitions among which a live one is sought as long as it matters. */
  ghost predicate Promising(env: Env, op: Operation, defs: seq<Resource>, live: map<Key, Resource>) {
    && op.definitions != [] && AllPlain(env, defs) && DistinctIdentities(defs) && KeysApart(env, defs)
    && KeyBy(env, op.definitions[0]) !in live
    && (|| |defs| <= 1
        || AllLive(env, Popped(defs), live)
        || (LiveButFirst(env, op, Popped(defs), live) && OthersWait(env, op, Popped(defs), live)))
  }

  ghost predicate NothingLive(env: Env, op: Operation, live: map<Key, Resource>, i: nat) {
    forall j :: i <= j < |op.definitions| ==> KeyBy(env, op.definitions[j]) !in live
  }

  /** A record of at most one object, not live any more, and promising definitions. */
  ghost predicate NearlyDone(env: Env, op: Operation, st: State) {
    && |st.files| <= 1 && Promising(env, op, st.defs, st.live)
    && (st.files != [] ==> PlainObject(env, st.files[0].resource) && ObjectKey(env, st.files[0].resource) !in st.live)
  }

  lemma {:induction false} LeftStaysPlain(env: Env, defs: seq<Resource>, d: Definition)
    requires AllPlain(env, defs) && DistinctIdentities(defs) && KeysApart(env, defs)
    ensures var left := LeftDefinitions(env, defs, d);
            && AllPlain(env, left) && DistinctIdentities(left) && KeysApart(env, left) && (|defs| <= 2 ==> left == [])
            && (forall s :: s in left ==> s in Popped(defs) && s in defs)
            && (|defs| >= 2 ==> forall s :: s in left ==> s != defs[|defs| - 2])
  {
    LeftWithinPopped(env, defs, d);
    hide PlainStored, LeftDefinitions;
    if |defs| >= 2 {
      FreshBeforeLast(env, defs, d);
      assert Popped(Popped(defs)) == defs[..|defs| - 2];
    }
    hide IdentityOf;
  }

  lemma {:induction false} AppendPlain(env: Env, left: seq<Resource>, s: Resource)
    requires AllPlain(env, left) && DistinctIdentities(left) && KeysApart(env, left) && PlainStored(env, s)
    requires forall t :: t in left ==> IdentityOf(t) != IdentityOf(s) && StoredKey(env, t) != StoredKey(env, s)
    ensures AllPlain(env, left + [s]) && DistinctIdentities(left + [s]) && KeysApart(env, left + [s])
    ensures Popped(left + [s]) == left
  {
    hide PlainStored, IdentityOf;
    var defs := left + [s];
    forall j, k | 0 <= j < k < |defs| ensures IdentityOf(defs[j]) != IdentityOf(defs[k]) {
      assert defs[j] in left;
    }
  }

  /** Deleting one of these keeps the others promising. */
  lemma {:induction false} OneLess(env: Env, op: Operation, defs: seq<Resource>, left: seq<Resource>, s: Resource,
          before: map<Key, Resource>, after: map<Key, Resource>)
    requires op.definitions != [] && AllPlain(env, defs) && KeysApart(env, defs) && AllPlain(env, left)
    requires s in defs && (forall t :: t in left ==> t in defs && t != s)
    requires after.Keys == before.Keys - {StoredKey(env, s)}
    ensures AllLive(env, defs, before) ==> AllLive(env, left, after)
    ensures LiveButFirst(env, op, defs, before) && OthersWait(env, op, defs, before) ==>
              LiveButFirst(env, op, left, after) && OthersWait(env, op, left, after)
  {
    hide PlainStored, KeyBy;
    if LiveButFirst(env, op, defs, before) && OthersWait(env, op, defs, before) {
      if |op.definitions| > 1 && KeyBy(env, op.definitions[1]) in before {
        var z :| 2 <= z < |op.definitions| && WaitsFor(env, op, defs, before, z);
        assert WaitsFor(env, op, left, after, z);
      }
    }
  }

  /** The list after something sought has been deleted and put back. */
  lemma {:induction false} PutBackPromising(env: Env, op: Operation, defs: seq<Resource>, d: Definition, s: Resource,
          before: map<Key, Resource>, after: map<Key, Resource>)
    requires Promising(env, op, defs, before) && PlainStored(env, s) && (|defs| >= 2 ==> s == defs[|defs| - 2])
    requires after.Keys == before.Keys - {StoredKey(env, s)}
    ensures Promising(env, op, LeftDefinitions(env, defs, d) + [s], after)
  {
    var left := LeftDefinitions(env, defs, d);
    LeftStaysPlain(env, defs, d);
    hide PlainStored, LeftDefinitions, IdentityOf, KeyBy;
    if |defs| >= 2 {
      FreshBeforeLast(env, defs, d);
      assert s in defs && Popped(defs)[|defs| - 2] == s && s in Popped(defs);
      assert AllPlain(env, Popped(defs)) && KeysApart(env, Popped(defs));
      OneLess(env, op, Popped(defs), left, s, before, after);
      hide AllLive, LiveButFirst, OthersWait;
    }
    AppendPlain(env, left, s);
  }

  ghost predicate Deleting(env: Env, op: Operation) {
    AccurateApi(env) && !env.external && env.resolver.allowRedefinition && PlainFile(env, op) && op.task.FileDelete?
  }

  /** How a pass ends that starts from such a record. */
  ghost predicate EndsWell(env: Env, op: Operation, before: State, r: Result, i: nat) {
    && !r.out.Fail?
    && (r.out.Done? ==> r.st.live == before.live && NothingLive(env, op, before.live, i))
    && (r.out.Retry? ==> NearlyDone(env, op, r.st))
  }

  lemma {:induction false} SoughtIsPair(op: Operation, defs: seq<Resource>, i: nat)
    requires i < |op.definitions|
    ensures |defs| >= 2 ==> SoughtStored(op, defs, i) == defs[|defs| - 2]
  {
  }

  /** A step that has found what it sought, or moves on. */
  lemma {:induction false} PromisingStep(env: Env, op: Operation, st: State, i: nat)
    requires Deleting(env, op) && i < |op.definitions| && st.files == [] && Promising(env, op, st.defs, st.live)
    ensures var r, key := Step(env, st, op, i), SoughtKey(env, op, st.defs, i);
            if key in st.live then Pass(env, st, op, i) == r && r.out.Retry? && NearlyDone(env, op, r.st)
            else
              && r.out.Done? && Pass(env, st, op, i) == Pass(env, r.st, op, i + 1)
              && r.st.live == st.live && r.st.files == []
              && r.st.defs == LeftDefinitions(env, st.defs, op.definitions[i])
  {
    StepSought(env, op, st.defs, i);
    hide Step, LeftDefinitions, LookedFor, PlainFile, SoughtStored, SoughtKey, KeysApart, AllLive, LiveButFirst,
      OthersWait;
    SoughtStep(env, op, st, i);
    PassCases(env, st, op, i);
    var r := Step(env, st, op, i);
    if SoughtKey(env, op, st.defs, i) in st.live {
      SoughtIsPair(op, st.defs, i);
      PutBackPromising(env, op, st.defs, op.definitions[i], SoughtStored(op, st.defs, i), st.live, r.st.live);
    }
    hide Promising, AllPlain, PlainObject;
  }

  /** With at most one definition stored, every given one is looked for in turn. */
  lemma {:induction false} SmallPass(env: Env, op: Operation, st: State, i: nat)
    requires Deleting(env, op) && i <= |op.definitions| && st.files == []
    requires Promising(env, op, st.defs, st.live) && |st.defs| <= 1
    ensures EndsWell(env, op, st, Pass(env, st, op, i), i)
    decreases |op.definitions| - i
  {
    hide Step, LeftDefinitions, PlainStored, NearlyDone, PlainFile, KeyBy;
    if i < |op.definitions| {
      PromisingStep(env, op, st, i);
      LeftStaysPlain(env, st.defs, op.definitions[i]);
      var next := Step(env, st, op, i).st;
      if KeyBy(env, op.definitions[i]) !in st.live { SmallPass(env, op, next, i + 1); }
    }
  }

  lemma {:induction false} OnlyFirstWasSought(env: Env, op: Operation, st: State, i: nat)
    requires i < |op.definitions| && Promising(env, op, st.defs, st.live) && |st.defs| >= 2
    requires SoughtKey(env, op, st.defs, i) !in st.live
    ensures var left := LeftDefinitions(env, st.defs, op.definitions[i]);
            && AllPlain(env, left) && AllLive(env, left, st.live) && Promising(env, op, left, st.live)
            && OthersWait(env, op, Popped(st.defs), st.live)
  {
    var defs, left := st.defs, LeftDefinitions(env, st.defs, op.definitions[i]);
    LeftStaysPlain(env, defs, op.definitions[i]);
    FirstIsSought(env, op, st, i);
    hide PlainStored, LeftDefinitions, KeyBy, IdentityOf, OthersWait, StoredKey, DistinctIdentities;
    forall s | s in left ensures StoredKey(env, s) in st.live {
      assert s != defs[|defs| - 2] && s in Popped(defs);
    }
    assert forall s :: s in Popped(left) ==> s in left;
  }

  lemma {:induction false} FirstIsSought(env: Env, op: Operation, st: State, i: nat)
    requires i < |op.definitions| && Promising(env, op, st.defs, st.live) && |st.defs| >= 2
    requires SoughtKey(env, op, st.defs, i) !in st.live
    ensures var y := st.defs[|st.defs| - 2];
            && y in st.defs && StoredKey(env, y) == KeyBy(env, op.definitions[0])
            && LiveButFirst(env, op, Popped(st.defs), st.live) && OthersWait(env, op, Popped(st.defs), st.live)
  {
    var y := st.defs[|st.defs| - 2];
    assert Popped(st.defs)[|st.defs| - 2] == y && y in Popped(st.defs) && y in st.defs;
    hide PlainStored, KeyBy, IdentityOf, OthersWait, StoredKey, DistinctIdentities, KeysApart;
  }

  lemma {:induction false} NothingWaits(env: Env, op: Operation, defs: seq<Resource>, live: map<Key, Resource>, i: nat)
    requires AllPlain(env, defs) && op.definitions != [] && OthersWait(env, op, defs, live) && i <= 2
    requires KeyBy(env, op.definitions[0]) !in live && NothingLive(env, op, live, i)
    ensures NothingLive(env, op, live, 0)
  {
    hide KeyBy, PlainStored;
  }

  lemma {:induction false} NoFilesPass(env: Env, op: Operation, st: State, f: nat)
    requires Deleting(env, op) && f <= 1 && f <= |op.definitions| && st.files == []
    requires Promising(env, op, st.defs, st.live)
    ensures EndsWell(env, op, st, Pass(env, st, op, f), 0)
  {
    hide Step, LeftDefinitions, PlainStored, NearlyDone, PlainFile, KeyBy, OthersWait;
    if |st.defs| <= 1 {
      SmallPass(env, op, st, f);
    } else if f < |op.definitions| {
      PromisingStep(env, op, st, f);
      if SoughtKey(env, op, st.defs, f) !in st.live {
        OnlyFirstWasSought(env, op, st, f);
        var next := Step(env, st, op, f).st;
        if |next.defs| <= 1 {
          SmallPass(env, op, next, f + 1);
          if Pass(env, next, op, f + 1).out.Done? { NothingWaits(env, op, Popped(st.defs), st.live, f + 1); }
        } else if f + 1 < |op.definitions| {
          PromisingStep(env, op, next, f + 1);
          assert next.defs[|next.defs| - 2] in next.defs;
        } else {
          NothingWaits(env, op, Popped(st.defs), st.live, f + 1);
        }
      }
    }
  }

  lemma {:induction false} DeadEntryGoes(env: Env, st: State, mapping: string, d: Definition, path: string)
    requires AccurateApi(env) && |st.files| == 1 && Agrees(st.files, st.defs) && PlainObject(env, st.files[0].resource)
    requires ObjectKey(env, st.files[0].resource) !in st.live
    ensures var r := DeleteFile(env, st, mapping, d, path);
            && r.out == Done && r.st.files == [] && r.st.live == st.live
            && r.st.defs == if Has(st.files, path) then st.defs else Popped(st.defs)
  {
    var e := st.files[0];
    var target := TargetDefinition(e.resource);
    IndexedMeansDefined(st.files, st.defs);
    assert e in st.files && GoodEntry(e);
    assert Without(st.files, 0) == [];
    hide Stem, Contains, IdentityOf, Plain;
    assert RetrieveLastCreatePath(st.files, st.defs, path) ==
           Retrieved(Found(e.path, e.resource, []), [], if Has(st.files, path) then st.defs else Popped(st.defs));
    PlainLeads(env, target);
    hide RetrieveLastCreatePath, Has;
    assert ResolveTarget(env, st, path, d, mapping).target == Resolved([], target, env.mappingByKind(target).value);
    ReadAccurately(env, ResolveTarget(env, st, path, d, mapping).st, env.mappingByKind(target).value, target);
  }

  lemma {:induction false} PlainLeads(env: Env, d: Definition)
    requires Plain(env, d)
    ensures env.mappingByKind(d).Some? && HasName(d) && KeyOf(env, env.mappingByKind(d).value, d) == KeyBy(env, d)
  {
  }

  lemma {:induction false} PoppedPromising(env: Env, op: Operation, defs: seq<Resource>, live: map<Key, Resource>)
    requires Promising(env, op, defs, live)
    ensures Promising(env, op, Popped(defs), live)
  {
    hide PlainStored, KeyBy, IdentityOf;
    var popped := Popped(defs);
    assert AllPlain(env, popped) && DistinctIdentities(popped) && KeysApart(env, popped);
    assert forall s :: s in Popped(popped) ==> s in popped;
    if |popped| > 1 && !AllLive(env, popped, live) && |op.definitions| > 1 && KeyBy(env, op.definitions[1]) in live {
      var z :| 2 <= z < |op.definitions| && WaitsFor(env, op, popped, live, z);
      assert WaitsFor(env, op, Popped(popped), live, z);
    }
  }

  /** A pass over a nearly done record ends, with nothing of the file live, or leaves one. */
  lemma {:induction false} NearlyDonePass(env: Env, op: Operation, st: State)
    requires Deleting(env, op) && op.definitions != [] && Agrees(st.files, st.defs) && NearlyDone(env, op, st)
    ensures EndsWell(env, op, st, Pass(env, st, op, 0), 0)
  {
    if st.files == [] {
      NoFilesPass(env, op, st, 0);
    } else {
      PlainFileFacts(env, op, 0);
      var d, path := op.definitions[0], PathFor(op, 0);
      var m := env.resolver.mappingWithOptions(d).value;
      PoppedPromising(env, op, st.defs, st.live);
      hide Step, DeleteFile, Promising, PlainObject, PlainFile, Served, PlainlyServed, PathFor;
      var start := StepDeletes(env, op, st, 0, m);
      DeadEntryGoes(env, start, m, d, path);
      PassCases(env, st, op, 0);
      NoFilesPass(env, op, Step(env, st, op, 0).st, 1);
    }
  }

  // ------------------------------------------- putting adjacent ones back

  /** Storing entries whose definitions are there already leaves the list as it is. */
  lemma {:induction false} StoreEntriesPresent(st: State, entries: FileMap)
    requires DistinctIdentities(st.defs) && forall e :: e in entries ==> Storable(e) && DefinedBy(e.resource) in st.defs
    requires forall e :: e in entries ==> GoodResource(e.resource)
    ensures StoreEntries(st, entries).error.None? && StoreEntries(st, entries).st.defs == st.defs
    decreases |entries|
  {
    if entries != [] {
      var e := entries[0];
      assert e in entries && Storable(e);
      StorePresent(st.defs, e.resource);
      hide Stored, IdentityOf;
      StoreEntriesPresent(StoreResult(st, e.resource, e.path).st, entries[1..]);
    }
  }

  lemma {:induction false} StorePresent(defs: seq<Resource>, r: Resource)
    requires GoodResource(r) && VersionOf(r).Some? && DistinctIdentities(defs) && DefinedBy(r) in defs
    ensures StoreDefinition(defs, DefinitionOf(r)) == defs
  {
    var d := DefinitionOf(r);
    StoredIsSound(r);
    var k :| 0 <= k < |defs| && defs[k] == Stored(d);
    hide IdentityOf, Stored;
    var i := FirstMatch(defs, IdentityOf(DictOf(d)));
    assert i <= k;
    assert i == k;
  }

  lemma {:induction false} StoreResultNew(st: State, e: Entry)
    requires GoodEntry(e) && Storable(e) && !HasIdentity(st.defs, IdentityOf(e.resource))
    ensures var s := StoreResult(st, e.resource, e.path);
            s.error.None? && s.st.defs == st.defs + [DefinedBy(e.resource)]
  {
    StoreNew(st.defs, e.resource);
    hide IdentityOf, Stored, Stem;
  }

  lemma {:induction false} StillNew(defs: seq<Resource>, e: Entry, f: Entry)
    requires GoodEntry(e) && Separate(e, f) && !HasIdentity(defs, IdentityOf(f.resource))
    ensures !HasIdentity(defs + [DefinedBy(e.resource)], IdentityOf(f.resource))
  {
    DefinedByIdentity(e.resource);
    AppendedIdentity(defs, DefinedBy(e.resource), IdentityOf(f.resource));
  }

  lemma {:induction false} DefsCons(defs: seq<Resource>, m: FileMap)
    requires m != []
    ensures defs + [DefinedBy(m[0].resource)] + DefsOf(m[1..]) == defs + DefsOf(m)
  {
    hide DefinedBy;
    assert DefsOf(m) == [DefinedBy(m[0].resource)] + DefsOf(m[1..]);
  }

  /** Storing entries of identities that are not there appends their definitions. */
  lemma {:induction false} StoreEntriesNew(st: State, entries: FileMap)
    requires GoodEntries(entries) && Distinct(entries) && (forall e :: e in entries ==> Storable(e))
    requires forall e: Entry :: e in entries ==> !HasIdentity(st.defs, IdentityOf(e.resource))
    ensures StoreEntries(st, entries).st.defs == st.defs + DefsOf(entries)
    decreases |entries|
  {
    hide IdentityOf, DefinedBy, GoodEntry, Storable, StoreResult, HasIdentity, Separate, DefsOf;
    if entries == [] {
      assert st.defs + DefsOf(entries) == st.defs;
    } else {
      var e, rest := entries[0], entries[1..];
      assert e in entries && Storable(e) && GoodEntry(e);
      StoreResultNew(st, e);
      DistinctTail(entries);
      var next := StoreResult(st, e.resource, e.path).st;
      forall f: Entry | f in rest ensures !HasIdentity(next.defs, IdentityOf(f.resource)) && f in entries {
        assert e in [e] && Separate(e, f);
        StillNew(st.defs, e, f);
      }
      StoreEntriesNew(next, rest);
      DefsCons(st.defs, entries);
    }
  }

  lemma {:induction false} AppendedIdentity(defs: seq<Resource>, s: Resource, id: Identity)
    ensures HasIdentity(defs + [s], id) ==> HasIdentity(defs, id) || IdentityOf(s) == id
  {
    hide IdentityOf;
    if i :| 0 <= i < |defs + [s]| && IdentityOf((defs + [s])[i]) == id && i < |defs| {
      assert IdentityOf(defs[i]) == id;
    }
  }

  lemma {:induction false} StoreNew(defs: seq<Resource>, r: Resource)
    requires GoodResource(r) && VersionOf(r).Some? && !HasIdentity(defs, IdentityOf(r))
    ensures StoreDefinition(defs, DefinitionOf(r)) == defs + [DefinedBy(r)]
  {
    StoredIsSound(r);
    DefinedByIdentity(r);
    hide IdentityOf, Stored;
    var k := FirstMatch(defs, IdentityOf(DictOf(DefinitionOf(r))));
    assert k < |defs| ==> HasIdentity(defs, IdentityOf(r));
  }

  // ----------------------------------------------- the inner deletions

  lemma {:induction false} InnerIsDefinition(r: Resource)
    requires GoodResource(r) && InnerDefinition(r).Some?
    ensures VersionOf(r).Some? && InnerDefinition(r).value == DefinitionOf(r) && Stored(DefinitionOf(r)) == DefinedBy(r)
  {
  }

  /** Whether the inner deletion of an entry looks for the entry's own definition. */
  ghost predicate LooksForOwn(defs: seq<Resource>, e: Entry) {
    |defs| <= 1 || DefinedBy(e.resource) == defs[|defs| - 2]
  }

  ghost function InnerStored(defs: seq<Resource>, e: Entry): Resource {
    if LooksForOwn(defs, e) then DefinedBy(e.resource) else defs[|defs| - 2]
  }

  /** Its own definition it looks for under the mapping of the outer one. */
  ghost function InnerKey(env: Env, defs: seq<Resource>, e: Entry, m: string): Key
    requires AllPlain(env, defs) && e.resource.kind.Some? && e.resource.metadata.Some? && VersionOf(e.resource).Some?
  {
    if LooksForOwn(defs, e) then KeyOf(env, m, DefinitionOf(e.resource)) else StoredKey(env, defs[|defs| - 2])
  }

  lemma {:induction false} InnerSought(env: Env, defs: seq<Resource>, e: Entry, m: string)
    requires env.resolver.allowRedefinition && AllPlain(env, defs) && PlainObject(env, e.resource)
    requires InnerDefinition(e.resource).Some?
    ensures var s := InnerStored(defs, e);
            && PlainStored(env, s)
            && LookedFor(env, defs, InnerDefinition(e.resource).value, m) ==
               Some(Sought(Rebuilt(s).value, InnerKey(env, defs, e, m)))
  {
    var d := DefinitionOf(e.resource);
    InnerIsDefinition(e.resource);
    PlainIsStored(env, d);
    hide KeyOf, InnerDefinition, GoodResource, Stored;
    if |defs| >= 2 {
      PairSought(env, defs, d, m);
    } else {
      GivenSought(env, defs, d, m);
    }
    hide LookedFor, PlainStored, Plain, KeyBy;
  }

  lemma {:induction false} OneInner(env: Env, st: State, e: Entry, m: string, path: string)
    requires AccurateApi(env) && !env.external && env.resolver.allowRedefinition && st.files == [] && path != ""
    requires AllPlain(env, st.defs) && DistinctIdentities(st.defs) && PlainObject(env, e.resource)
    requires InnerDefinition(e.resource).Some?
    ensures var d := InnerDefinition(e.resource).value;
            var r, s, key := DeleteFile(env, st, m, d, path), InnerStored(st.defs, e), InnerKey(env, st.defs, e, m);
            var left := LeftDefinitions(env, st.defs, d);
            && PlainStored(env, s)
            && if key in st.live then
                 && r.out == Retry(false) && r.st.live.Keys == st.live.Keys - {key} && r.st.defs == left + [s]
                 && r.st.files == [Entry(path, s)] && PlainObject(env, s) && ObjectKey(env, s) == StoredKey(env, s)
               else r.out == Done && r.st.live == st.live && r.st.files == [] && r.st.defs == left
  {
    var d := InnerDefinition(e.resource).value;
    var s, left := InnerStored(st.defs, e), LeftDefinitions(env, st.defs, d);
    InnerSought(env, st.defs, e, m);
    LeftWithinPopped(env, st.defs, d);
    if |st.defs| >= 2 { FreshBeforeLast(env, st.defs, d); }
    StoredFresh(env, left, s);
    StoredIsPlain(env, s);
    ShownByDefinition(env, Rebuilt(s).value, s);
    hide DeleteFile, LookedFor, LeftDefinitions, PlainObject, PlainStored, InnerStored, InnerKey, IdentityOf,
      StoreDefinition;
    DeletionWithoutFiles(env, st, m, d, path);
    hide AllPlain, DistinctIdentities, ObjectKey, StoredKey, AccurateApi;
  }

  // ------------------------------------------------- records of live objects

  /** Live objects, complete enough for inner deletions. */
  ghost predicate LiveEntries(env: Env, m: FileMap, live: map<Key, Resource>) {
    forall e :: e in m ==> LiveEntry(env, e, live)
  }

  ghost predicate LiveEntry(env: Env, e: Entry, live: map<Key, Resource>) {
    PlainObject(env, e.resource) && InnerDefinition(e.resource).Some? && ObjectKey(env, e.resource) in live
  }

  /** Every recorded object is live, none is recorded at the first path of the file. */
  ghost predicate AllRecordedLive(env: Env, op: Operation, st: State) {
    && st.files != [] && !Has(st.files, PathFor(op, 0)) && LiveEntries(env, st.files, st.live)
    && Aligned(st) && AllPlain(env, st.defs) && KeysApart(env, st.defs)
    && op.definitions != [] && KeyBy(env, op.definitions[0]) !in st.live
  }

  /** The object at the first path is not live, all others are, and their definitions are stored
      in order, after that of the first definition or before the one of the first path. */
  ghost predicate PrimaryDead(env: Env, op: Operation, st: State) {
    && |st.files| >= 2 && st.files[0].path == PathFor(op, 0) && PlainObject(env, st.files[0].resource)
    && ObjectKey(env, st.files[0].resource) !in st.live && LiveEntries(env, st.files[1..], st.live)
    && |st.defs| == |st.files| && AllPlain(env, st.defs) && KeysApart(env, st.defs)
    && op.definitions != [] && KeyBy(env, op.definitions[0]) !in st.live
    && (FirstStoredFirst(env, op, st) || st.defs[..|st.defs| - 1] == DefsOf(st.files[1..]))
  }

  ghost predicate FirstStoredFirst(env: Env, op: Operation, st: State)
    requires |st.files| >= 2 && |st.defs| == |st.files| && AllPlain(env, st.defs) && op.definitions != []
  {
    && st.defs[1..] == DefsOf(st.files[1..]) && |st.files| <= |op.definitions|
    && forall i :: 0 <= i < |st.defs| ==>
         PlainStored(env, st.defs[i]) && StoredKey(env, st.defs[i]) == KeyBy(env, op.definitions[i])
  }

  /** One object is recorded, at the first path, and is live yet. */
  ghost predicate HalfDone(env: Env, op: Operation, st: State) {
    && |st.files| == 1 && st.files[0].path == PathFor(op, 0) && PlainObject(env, st.files[0].resource)
    && ObjectKey(env, st.files[0].resource) in st.live
    && Promising(env, op, st.defs, st.live - {ObjectKey(env, st.files[0].resource)})
    && Stored(TargetDefinition(st.files[0].resource)) in st.defs
  }

  /** What one pass after the other leaves until the file is removed. */
  ghost predicate OnTheWay(env: Env, op: Operation, st: State) {
    NearlyDone(env, op, st) || HalfDone(env, op, st) || AllRecordedLive(env, op, st) || PrimaryDead(env, op, st)
  }

  /** A cut: what has been put back alone is dead, or a half-done file is left. */
  lemma {:induction false} CutLeaves(env: Env, op: Operation, st: State, s: Resource)
    requires PlainStored(env, s) && PlainObject(env, s) && ObjectKey(env, s) == StoredKey(env, s)
    requires st.files == [Entry(PathFor(op, 0), s)] && s in st.defs
    requires Promising(env, op, st.defs, if StoredKey(env, s) in st.live then st.live - {StoredKey(env, s)}
        else st.live)
    ensures OnTheWay(env, op, st)
  {
    StoredIsPlain(env, s);
    assert TargetDefinition(s) == Rebuilt(s).value;
    hide Promising, PlainStored, PlainObject;
  }

  lemma {:induction false} RestoredLive(env: Env, op: Operation, st: State, adjacent: FileMap)
    requires adjacent != [] && st.files == [] && st.defs == [] && GoodEntries(adjacent) && Distinct(adjacent)
    requires LiveEntries(env, adjacent, st.live) && AllPlain(env, DefsOf(adjacent)) && KeysApart(env, DefsOf(adjacent))
    requires op.definitions != [] && KeyBy(env, op.definitions[0]) !in st.live
    requires forall e: Entry :: e in adjacent ==> e.path != PathFor(op, 0)
    ensures var r := RestoreAndRetry(st, adjacent);
            r.out == Retry(false) && AllRecordedLive(env, op, r.st)
  {
    forall e | e in adjacent
      ensures Storable(e) && VersionOf(e.resource).Some? { assert GoodEntry(e) && LiveEntry(env, e, st.live); }
    RestoringSucceeds(st, adjacent);
    RestoredInto(st, adjacent);
    StoreEntriesNew(st, adjacent);
    HasExactly(adjacent, PathFor(op, 0));
    hide LiveEntry, GoodEntry, PathFor, KeyBy, StoreEntries, DefsOf;
    assert st.defs + DefsOf(adjacent) == DefsOf(adjacent);
  }

  // ------------------------------------ the inner deletions, by their number

  /** How the inner deletions of such a record end. */
  ghost predicate InnerEnds(env: Env, op: Operation, start: State, r: Result) {
    && !r.out.Fail?
    && (r.out.Retry? ==> OnTheWay(env, op, r.st))
    && (r.out.Done? ==> r.st.files == [] && r.st.defs == [] && r.st.live == start.live)
  }

  /** What the inner deletions start from. */
  ghost predicate InnerStart(env: Env, op: Operation, start: State, adjacent: FileMap) {
    && start.files == [] && adjacent != [] && LiveEntries(env, adjacent, start.live) && |start.defs| == |adjacent| + 1
    && AllPlain(env, start.defs) && KeysApart(env, start.defs) && DistinctIdentities(start.defs)
    && op.definitions != [] && KeyBy(env, op.definitions[0]) !in start.live && PathFor(op, 0) != ""
  }

  lemma {:induction false} InnerFirst(env: Env, st: State, adjacent: FileMap, outer: Definition, m: string,
        path: string)
    requires adjacent != [] && InnerDefinition(adjacent[0].resource).Some? && env.mappingByKind(outer) == Some(m)
    ensures var r := DeleteFile(env, st, m, InnerDefinition(adjacent[0].resource).value, path);
            DeleteInner(env, st, adjacent, outer, path) ==
            (match r.out case Done => DeleteInner(env, r.st, adjacent[1..], outer, path)
                         case Retry(_) => Result(r.st, Retry(true))
                         case Fail(_) => r)
  {
    hide DeleteFile;
  }

  lemma {:induction false} SmallPromising(env: Env, op: Operation, s: Resource, live: map<Key, Resource>)
    requires PlainStored(env, s) && op.definitions != [] && KeyBy(env, op.definitions[0]) !in live
    ensures Promising(env, op, [s], live)
  {
    hide PlainStored;
  }

  /** With at most one definition stored, the entry's own is looked for, and left alone. */
  lemma {:induction false} LastInner(env: Env, op: Operation, st: State, e: Entry, outer: Definition, m: string)
    requires Deleting(env, op) && st.files == [] && |st.defs| <= 1 && AllPlain(env, st.defs)
    requires DistinctIdentities(st.defs)
    requires op.definitions != [] && KeyBy(env, op.definitions[0]) !in st.live && PathFor(op, 0) != ""
    requires LiveEntry(env, e, st.live) && env.mappingByKind(outer) == Some(m)
    ensures InnerEnds(env, op, st, DeleteInner(env, st, [e], outer, PathFor(op, 0)))
  {
    var d, path := InnerDefinition(e.resource).value, PathFor(op, 0);
    OneInner(env, st, e, m, path);
    LeftWithinPopped(env, st.defs, d);
    InnerFirst(env, st, [e], outer, m, path);
    var r, s := DeleteFile(env, st, m, d, path), InnerStored(st.defs, e);
    hide DeleteFile, PlainObject, PlainStored, PathFor, InnerDefinition, KeyBy, LeftDefinitions, OnTheWay, PlainFile,
      InnerStored, InnerKey;
    if r.out.Retry? {
      assert [] + [s] == [s];
      SmallPromising(env, op, s, if StoredKey(env, s) in r.st.live then r.st.live - {StoredKey(env, s)} else r.st.live);
      CutLeaves(env, op, r.st, s);
    } else {
      assert [e][1..] == [];
    }
  }

  /** Another one than the entry's own is sought and live: it is deleted at once. */
  lemma {:induction false} CutAtOnce(env: Env, op: Operation, start: State, adjacent: FileMap, outer: Definition,
        m: string)
    requires Deleting(env, op) && InnerStart(env, op, start, adjacent) && env.mappingByKind(outer) == Some(m)
    requires Promising(env, op, start.defs, start.live) && !LooksForOwn(start.defs, adjacent[0])
    requires StoredKey(env, start.defs[|start.defs| - 2]) in start.live
    ensures InnerEnds(env, op, start, DeleteInner(env, start, adjacent, outer, PathFor(op, 0)))
  {
    var e, path := adjacent[0], PathFor(op, 0);
    assert e in adjacent && LiveEntry(env, e, start.live);
    var d, s := InnerDefinition(e.resource).value, start.defs[|start.defs| - 2];
    InnerFirst(env, start, adjacent, outer, m, path);
    FirstCut(env, start, e, m, path);
    var r := DeleteFile(env, start, m, d, path);
    hide DeleteFile, PlainObject, PlainStored, PathFor, InnerDefinition, KeyBy, LeftDefinitions, OnTheWay, PlainFile,
      LooksForOwn, LiveEntry, AllLive, LiveButFirst, OthersWait, KeysApart, DeleteInner, StoredKey, DistinctIdentities,
      AllPlain, LiveEntries, Promising;
    PutBackPromising(env, op, start.defs, d, s, start.live, r.st.live);
    CutLeaves(env, op, r.st, s);
  }

  /** The definition before the last is looked for, and found. */
  lemma {:induction false} FirstCut(env: Env, st: State, e: Entry, m: string, path: string)
    requires AccurateApi(env) && !env.external && env.resolver.allowRedefinition && st.files == [] && path != ""
    requires AllPlain(env, st.defs) && DistinctIdentities(st.defs) && LiveEntry(env, e, st.live)
    requires !LooksForOwn(st.defs, e) && StoredKey(env, st.defs[|st.defs| - 2]) in st.live
    ensures var d, s := InnerDefinition(e.resource).value, st.defs[|st.defs| - 2];
            var r := DeleteFile(env, st, m, d, path);
            && PlainStored(env, s) && PlainObject(env, s) && ObjectKey(env, s) == StoredKey(env, s)
            && r.out == Retry(false) && r.st.live.Keys == st.live.Keys - {StoredKey(env, s)}
            && r.st.defs == LeftDefinitions(env, st.defs, d) + [s] && r.st.files == [Entry(path, s)]
  {
    InnerOther(env, st.defs, e, m);
    hide DeleteFile, PlainObject, PlainStored, InnerDefinition, LeftDefinitions, LooksForOwn, InnerStored, InnerKey,
      StoredKey, DistinctIdentities, AllPlain, KeyBy, AccurateApi, ObjectKey;
    OneInner(env, st, e, m, path);
  }

  lemma {:induction false} InnerOther(env: Env, defs: seq<Resource>, e: Entry, m: string)
    requires AllPlain(env, defs) && PlainObject(env, e.resource) && InnerDefinition(e.resource).Some?
    requires !LooksForOwn(defs, e)
    ensures e.resource.kind.Some? && e.resource.metadata.Some? && VersionOf(e.resource).Some?
    ensures |defs| >= 2 && InnerStored(defs, e) == defs[|defs| - 2]
    ensures PlainStored(env, defs[|defs| - 2]) && InnerKey(env, defs, e, m) == StoredKey(env, defs[|defs| - 2])
  {
    InnerIsDefinition(e.resource);
    hide PlainStored, StoredKey, KeyBy, KeyOf, DefinedBy;
  }

  lemma {:induction false} AllLiveIn(env: Env, m: FileMap, live: map<Key, Resource>, i: nat)
    requires LiveEntries(env, m, live) && i < |m|
    ensures PlainStored(env, DefsOf(m)[i]) && StoredKey(env, DefsOf(m)[i]) in live
    ensures DefsOf(m)[i] == DefinedBy(m[i].resource)
  {
    assert m[i] in m && LiveEntry(env, m[i], live);
    InnerIsDefinition(m[i].resource);
    PlainIsStored(env, DefinitionOf(m[i].resource));
    hide PlainStored, Plain, GoodResource;
  }

  /** Definitions stored in order, that of the first definition first. */
  ghost predicate FileOrder(env: Env, op: Operation, defs: seq<Resource>)
    requires AllPlain(env, defs)
  {
    |defs| <= |op.definitions| && forall i :: 0 <= i < |defs| ==>
      StoredKey(env, defs[i]) == KeyBy(env, op.definitions[i])
  }

  lemma {:induction false} FileOrderLive(env: Env, op: Operation, start: State, adjacent: FileMap)
    requires InnerStart(env, op, start, adjacent) && start.defs[1..] == DefsOf(adjacent)
    requires FileOrder(env, op, start.defs)
    ensures LiveButFirst(env, op, start.defs, start.live)
  {
    var defs := start.defs;
    hide PlainStored, KeyBy, DefsOf, LiveEntry, KeysApart, DistinctIdentities;
    forall s | s in defs ensures StoredKey(env, s) in start.live || StoredKey(env, s) == KeyBy(env, op.definitions[0]) {
      var i :| 0 <= i < |defs| && defs[i] == s;
      if i > 0 {
        AllLiveIn(env, adjacent, start.live, i - 1);
        assert defs[i] == DefsOf(adjacent)[i - 1];
      }
    }
  }

  lemma {:induction false} LastWaits(env: Env, op: Operation, start: State, adjacent: FileMap)
    requires InnerStart(env, op, start, adjacent) && start.defs[1..] == DefsOf(adjacent)
    requires FileOrder(env, op, start.defs)
    ensures AllPlain(env, Popped(start.defs)) && WaitsFor(env, op, Popped(start.defs), start.live, |adjacent|)
  {
    var defs, z := start.defs, |adjacent|;
    AllLiveIn(env, adjacent, start.live, z - 1);
    assert defs[z] == DefsOf(adjacent)[z - 1] && defs[z] in defs;
    hide PlainStored, KeyBy, DefsOf, LiveEntry, IdentityOf;
    forall s | s in Popped(defs) ensures StoredKey(env, s) != KeyBy(env, op.definitions[z]) && s in defs {
      var i :| 0 <= i < z && defs[i] == s;
      assert s != defs[z];
    }
  }

  /** In the order of the file, with two adjacent objects or more, the last of them waits. */
  lemma {:induction false} FileOrderPromising(env: Env, op: Operation, start: State, adjacent: FileMap)
    requires InnerStart(env, op, start, adjacent) && |adjacent| >= 2 && start.defs[1..] == DefsOf(adjacent)
    requires FileOrder(env, op, start.defs)
    ensures Promising(env, op, start.defs, start.live)
  {
    FileOrderLive(env, op, start, adjacent);
    LastWaits(env, op, start, adjacent);
    hide PlainStored, KeyBy, DefsOf, LiveEntry, WaitsFor, KeysApart, DistinctIdentities;
  }

  lemma {:induction false} OwnOrderPromising(env: Env, op: Operation, start: State, adjacent: FileMap)
    requires InnerStart(env, op, start, adjacent) && start.defs[..|start.defs| - 1] == DefsOf(adjacent)
    ensures Promising(env, op, start.defs, start.live)
  {
    hide PlainStored, KeyBy, DefsOf, LiveEntry;
    forall s | s in Popped(start.defs) ensures StoredKey(env, s) in start.live {
      var i :| 0 <= i < |adjacent| && Popped(start.defs)[i] == s;
      AllLiveIn(env, adjacent, start.live, i);
    }
  }

  /** A single adjacent object, or two in the order of the file. */
  lemma {:induction false} OwnSought(env: Env, op: Operation, start: State, adjacent: FileMap, outer: Definition,
        m: string)
    requires Deleting(env, op) && InnerStart(env, op, start, adjacent) && env.mappingByKind(outer) == Some(m)
    requires LooksForOwn(start.defs, adjacent[0]) && |adjacent| <= 2
    requires |adjacent| == 2 ==> FileOrder(env, op, start.defs)
    ensures InnerEnds(env, op, start, DeleteInner(env, start, adjacent, outer, PathFor(op, 0)))
  {
    var e, path := adjacent[0], PathFor(op, 0);
    assert LiveEntry(env, adjacent[|adjacent| - 1], start.live);
    OwnCut(env, op, start, adjacent, m);
    InnerFirst(env, start, adjacent, outer, m, path);
    hide DeleteFile, DeleteInner, PlainObject, PlainStored, PathFor, InnerDefinition, OnTheWay, KeyBy, LooksForOwn,
      PlainFile, KeysApart, LiveEntries, LiveEntry, AccurateApi;
    var r := DeleteFile(env, start, m, InnerDefinition(e.resource).value, path);
    if r.out.Done? { OwnContinues(env, op, r.st, adjacent, outer, m); }
  }

  lemma {:induction false} OwnContinues(env: Env, op: Operation, st: State, adjacent: FileMap, outer: Definition,
        m: string)
    requires Deleting(env, op) && st.files == [] && |st.defs| < |adjacent| <= 2 && AllPlain(env, st.defs)
    requires DistinctIdentities(st.defs)
    requires op.definitions != [] && KeyBy(env, op.definitions[0]) !in st.live && PathFor(op, 0) != ""
    requires LiveEntry(env, adjacent[|adjacent| - 1], st.live) && env.mappingByKind(outer) == Some(m)
    ensures InnerEnds(env, op, st, DeleteInner(env, st, adjacent[1..], outer, PathFor(op, 0)))
  {
    if |adjacent| == 2 {
      assert adjacent[1..] == [adjacent[1]];
      LastInner(env, op, st, adjacent[1], outer, m);
    } else {
      NoInner(env, st, outer, PathFor(op, 0));
      assert adjacent[1..] == [];
    }
    hide *;
  }

  lemma {:induction false} NoInner(env: Env, st: State, outer: Definition, path: string)
    ensures DeleteInner(env, st, [], outer, path) == Result(st, Done)
  {
  }

  lemma {:induction false} OwnCut(env: Env, op: Operation, start: State, adjacent: FileMap, m: string)
    requires Deleting(env, op) && InnerStart(env, op, start, adjacent)
    requires LooksForOwn(start.defs, adjacent[0]) && |adjacent| <= 2
    requires |adjacent| == 2 ==> FileOrder(env, op, start.defs)
    ensures LiveEntry(env, adjacent[0], start.live)
    ensures var r := DeleteFile(env, start, m, InnerDefinition(adjacent[0].resource).value, PathFor(op, 0));
            && !r.out.Fail? && (r.out.Retry? ==> OnTheWay(env, op, r.st))
            && (r.out.Done? ==>
                  && r.st.live == start.live && r.st.files == [] && |r.st.defs| < |adjacent|
                  && AllPlain(env, r.st.defs) && DistinctIdentities(r.st.defs))
  {
    var e, path := adjacent[0], PathFor(op, 0);
    assert e in adjacent && LiveEntry(env, e, start.live);
    var d, s := InnerDefinition(e.resource).value, DefinedBy(e.resource);
    OwnFirst(env, op, start, e, m);
    var r, left := DeleteFile(env, start, m, d, path), LeftDefinitions(env, start.defs, d);
    if r.out.Retry? {
      hide DeleteFile, PlainObject, PlainStored, PathFor, InnerDefinition, LeftDefinitions, OnTheWay, PlainFile,
        KeyBy, LooksForOwn, KeysApart, DistinctIdentities, DefinedBy, Promising;
      OwnPutBack(env, op, start, adjacent, left, r.st.live);
      CutLeaves(env, op, r.st, s);
    }
    hide *;
  }

  lemma {:induction false} OwnFirst(env: Env, op: Operation, start: State, e: Entry, m: string)
    requires Deleting(env, op) && start.files == [] && |start.defs| >= 2 && PathFor(op, 0) != ""
    requires LiveEntry(env, e, start.live)
    requires AllPlain(env, start.defs) && KeysApart(env, start.defs) && DistinctIdentities(start.defs)
    requires LooksForOwn(start.defs, e)
    ensures var d, s := InnerDefinition(e.resource).value, DefinedBy(e.resource);
            var r, left := DeleteFile(env, start, m, d, PathFor(op, 0)), LeftDefinitions(env, start.defs, d);
            && !r.out.Fail? && PlainStored(env, s) && s == start.defs[|start.defs| - 2]
            && AllPlain(env, left) && DistinctIdentities(left) && KeysApart(env, left)
            && (|start.defs| <= 2 ==> left == [])
            && (forall t :: t in left ==> t in Popped(Popped(start.defs))) && |left| <= |Popped(Popped(start.defs))|
            && (r.out.Retry? ==>
                  && r.st.live.Keys <= start.live.Keys && r.st.defs == left + [s]
                  && r.st.files == [Entry(PathFor(op, 0), s)]
                  && PlainObject(env, s) && ObjectKey(env, s) == StoredKey(env, s))
            && (r.out.Done? ==> r.st.live == start.live && r.st.files == [] && r.st.defs == left)
  {
    var d, s := InnerDefinition(e.resource).value, DefinedBy(e.resource);
    assert InnerStored(start.defs, e) == s && s == start.defs[|start.defs| - 2];
    LeftStaysPlain(env, start.defs, d);
    LeftWithinPopped(env, start.defs, d);
    OneInner(env, start, e, m, PathFor(op, 0));
    hide *;
  }

  lemma {:induction false} OwnPutBack(env: Env, op: Operation, start: State, adjacent: FileMap, left: seq<Resource>,
          live: map<Key, Resource>)
    requires InnerStart(env, op, start, adjacent) && |adjacent| <= 2 && live.Keys <= start.live.Keys
    requires |adjacent| == 2 ==> FileOrder(env, op, start.defs)
    requires AllPlain(env, left) && DistinctIdentities(left) && KeysApart(env, left)
    requires (|start.defs| <= 2 ==> left == [])
    requires (forall t :: t in left ==> t in Popped(Popped(start.defs)))
    ensures var s := start.defs[|start.defs| - 2];
            && PlainStored(env, s) && s in start.defs
            && Promising(env, op, left + [s], if StoredKey(env, s) in live then live - {StoredKey(env, s)} else live)
  {
    var defs, s := start.defs, start.defs[|start.defs| - 2];
    assert s in defs;
    hide PlainStored, KeyBy;
    if |adjacent| == 1 {
      assert left + [s] == [s];
      SmallPromising(env, op, s, if StoredKey(env, s) in live then live - {StoredKey(env, s)} else live);
    } else {
      forall t | t in left
        ensures t == defs[0] && t in defs { assert t in Popped(Popped(defs)) && Popped(Popped(defs)) == [defs[0]]; }
      AppendPlain(env, left, s);
    }
  }

  lemma {:induction false} KeysOfFileDiffer(env: Env, op: Operation, i: nat, j: nat)
    requires PlainFile(env, op) && i < j < |op.definitions|
    ensures KeyBy(env, op.definitions[i]) != KeyBy(env, op.definitions[j])
  {
    PlainFileFacts(env, op, i);
    PlainFileFacts(env, op, j);
    assert Different(env, op.definitions[i], op.definitions[j]);
    hide KeyBy, Shows;
  }

  lemma {:induction false} OwnInFileOrder(env: Env, op: Operation, start: State, adjacent: FileMap)
    requires PlainFile(env, op) && InnerStart(env, op, start, adjacent)
    requires start.defs[1..] == DefsOf(adjacent) && FileOrder(env, op, start.defs)
    ensures LooksForOwn(start.defs, adjacent[0]) <==> |adjacent| == 2
    ensures |adjacent| >= 2 ==> StoredKey(env, start.defs[|start.defs| - 2]) in start.live
  {
    var a, defs := |adjacent|, start.defs;
    assert defs[1] == DefsOf(adjacent)[0] == DefinedBy(adjacent[0].resource);
    assert defs[1] in defs && defs[a - 1] in defs;
    if a != 2 { KeysOfFileDiffer(env, op, if a == 1 then 0 else 1, if a == 1 then 1 else a - 1); }
    hide PlainFile, DefinedBy, PlainStored, KeyBy, LiveEntries, KeysApart, DistinctIdentities, DefsOf;
    if a >= 2 {
      assert defs[1..][a - 2] == defs[a - 1];
      AllLiveIn(env, adjacent, start.live, a - 2);
    }
  }

  /** In the order of the file. */
  lemma {:induction false} InnerInFileOrder(env: Env, op: Operation, start: State, adjacent: FileMap, outer: Definition,
          m: string)
    requires Deleting(env, op) && InnerStart(env, op, start, adjacent) && env.mappingByKind(outer) == Some(m)
    requires start.defs[1..] == DefsOf(adjacent) && FileOrder(env, op, start.defs)
    ensures InnerEnds(env, op, start, DeleteInner(env, start, adjacent, outer, PathFor(op, 0)))
  {
    OwnInFileOrder(env, op, start, adjacent);
    hide PlainFile, PathFor, DefsOf, PlainStored, KeyBy, DeleteInner, InnerEnds, LooksForOwn, KeysApart, LiveEntries,
      Promising;
    if |adjacent| == 1 {
      FirstSought(env, op, start, adjacent, outer, m);
    } else if |adjacent| == 2 {
      OwnSought(env, op, start, adjacent, outer, m);
    } else {
      FileOrderPromising(env, op, start, adjacent);
      CutAtOnce(env, op, start, adjacent, outer, m);
    }
  }

  /** Two definitions stored, that of the file's first one before the last: it is sought, and
      not live. */
  lemma {:induction false} FirstSought(env: Env, op: Operation, start: State, adjacent: FileMap, outer: Definition,
        m: string)
    requires Deleting(env, op) && InnerStart(env, op, start, adjacent) && env.mappingByKind(outer) == Some(m)
    requires |adjacent| == 1 && !LooksForOwn(start.defs, adjacent[0])
    requires StoredKey(env, start.defs[0]) == KeyBy(env, op.definitions[0])
    ensures InnerEnds(env, op, start, DeleteInner(env, start, adjacent, outer, PathFor(op, 0)))
  {
    var e, path := adjacent[0], PathFor(op, 0);
    assert e in adjacent && LiveEntry(env, e, start.live);
    InnerFirst(env, start, adjacent, outer, m, path);
    FirstNotLive(env, start, e, m, path, KeyBy(env, op.definitions[0]));
    NoInner(env, DeleteFile(env, start, m, InnerDefinition(e.resource).value, path).st, outer, path);
    assert adjacent[1..] == [];
    hide DeleteFile, DeleteInner, PlainObject, PlainStored, PathFor, InnerDefinition, KeyBy, OnTheWay, PlainFile,
      LiveEntry, LooksForOwn, StoredKey, KeysApart, AllPlain, DistinctIdentities, AccurateApi;
  }

  lemma {:induction false} FirstNotLive(env: Env, st: State, e: Entry, m: string, path: string, key: Key)
    requires AccurateApi(env) && !env.external && env.resolver.allowRedefinition && st.files == [] && path != ""
    requires AllPlain(env, st.defs) && DistinctIdentities(st.defs) && LiveEntry(env, e, st.live) && |st.defs| == 2
    requires !LooksForOwn(st.defs, e) && StoredKey(env, st.defs[0]) == key && key !in st.live
    ensures var r := DeleteFile(env, st, m, InnerDefinition(e.resource).value, path);
            r.out == Done && r.st.live == st.live && r.st.files == [] && r.st.defs == []
  {
    InnerOther(env, st.defs, e, m);
    LeftWithinPopped(env, st.defs, InnerDefinition(e.resource).value);
    hide DeleteFile, PlainObject, PlainStored, InnerDefinition, LeftDefinitions, LooksForOwn, InnerStored, InnerKey,
      StoredKey, DistinctIdentities, AllPlain, KeyBy, AccurateApi, ObjectKey;
    OneInner(env, st, e, m, path);
  }

  /** In an order of their own, the last being another one. */
  lemma {:induction false} InnerInOwnOrder(env: Env, op: Operation, start: State, adjacent: FileMap, outer: Definition,
          m: string)
    requires Deleting(env, op) && InnerStart(env, op, start, adjacent) && env.mappingByKind(outer) == Some(m)
    requires start.defs[..|start.defs| - 1] == DefsOf(adjacent)
    ensures InnerEnds(env, op, start, DeleteInner(env, start, adjacent, outer, PathFor(op, 0)))
  {
    var a, y := |adjacent|, start.defs[|start.defs| - 2];
    OwnOrderEnds(env, op, start, adjacent);
    hide PlainFile, PathFor, DefinedBy, DefsOf, PlainStored, KeyBy, DeleteInner, InnerEnds, IdentityOf, LiveEntries,
      KeysApart, DistinctIdentities, StoredKey, AllPlain;
    if a == 1 {
      OwnSought(env, op, start, adjacent, outer, m);
    } else {
      OwnOrderPromising(env, op, start, adjacent);
      CutAtOnce(env, op, start, adjacent, outer, m);
    }
  }

  lemma {:induction false} OwnOrderEnds(env: Env, op: Operation, start: State, adjacent: FileMap)
    requires InnerStart(env, op, start, adjacent) && start.defs[..|start.defs| - 1] == DefsOf(adjacent)
    ensures var y := start.defs[|start.defs| - 2];
            && PlainStored(env, y) && StoredKey(env, y) in start.live
            && (if |adjacent| == 1 then LooksForOwn(start.defs, adjacent[0]) else !LooksForOwn(start.defs, adjacent[0]))
  {
    var a, y := |adjacent|, start.defs[|start.defs| - 2];
    AllLiveIn(env, adjacent, start.live, a - 1);
    assert start.defs[0] == DefsOf(adjacent)[0] == DefinedBy(adjacent[0].resource) && y == DefsOf(adjacent)[a - 1];
    hide DefinedBy, DefsOf, PlainStored, KeyBy, StoredKey, KeysApart, LiveEntries;
    if a > 1 { assert IdentityOf(start.defs[0]) != IdentityOf(start.defs[a - 1]); }
    hide IdentityOf;
  }

  // ------------------------------------------------ passes over such records

  /** A record of this file alone, complete and in agreement. */
  ghost predicate FitToDelete(env: Env, op: Operation, st: State)
    requires File(env, op)
  {
    Deletable(env, op, st) && CompleteRecord(env, st)
  }

  /** A pass whose first step is a deletion that asks to be retried ends with it. */
  lemma {:induction false} FirstStepRetries(env: Env, op: Operation, st: State) returns (start: State, m: string)
    requires Deleting(env, op) && op.definitions != [] && FitToDelete(env, op, st)
    ensures env.resolver.mappingWithOptions(op.definitions[0]) == Some(m) && SameRecord(st, start)
    ensures start.live == st.live
    ensures OneFile(st.files, PathFor(op, 0)) && SameStem(st.files, PathFor(op, 0)) && PathFor(op, 0) != ""
    ensures var r := DeleteFile(env, start, m, op.definitions[0], PathFor(op, 0));
            && !r.out.Fail? && (r.out.Retry? ==> Pass(env, st, op, 0) == r)
  {
    PlainFileFacts(env, op, 0);
    m := env.resolver.mappingWithOptions(op.definitions[0]).value;
    OfFileIsOneFile(env, op, st.files);
    hide Step, Served, PlainlyServed, DeleteFile, OfFile, CompleteEntries, CompleteDefinitions, OneFile, SameStem,
      PathFor;
    start := StepDeletes(env, op, st, 0, m);
    DeleteFileEnds(env, start, m, op.definitions[0], PathFor(op, 0));
    PassCases(env, st, op, 0);
  }

  lemma {:induction false} PrimaryDeadStart(env: Env, op: Operation, st: State, start: State)
    requires PrimaryDead(env, op, st) && Agrees(st.files, st.defs) && PathFor(op, 0) != ""
    requires start.files == [] && start.defs == st.defs && start.live == st.live
    ensures InnerStart(env, op, start, st.files[1..])
    ensures (start.defs[1..] == DefsOf(st.files[1..]) && FileOrder(env, op, start.defs))
            || start.defs[..|start.defs| - 1] == DefsOf(st.files[1..])
    ensures Has(st.files, PathFor(op, 0)) && Lookup(st.files, PathFor(op, 0)) == Some(st.files[0].resource)
    ensures Drop(st.files, PathFor(op, 0)) == st.files[1..]
    ensures GoodEntries(st.files[1..]) && Distinct(st.files[1..]) && AllPlain(env, DefsOf(st.files[1..]))
    ensures KeysApart(env, DefsOf(st.files[1..])) && forall e: Entry :: e in st.files[1..] ==> e.path != PathFor(op, 0)
  {
    hide PathFor, PlainStored, KeyBy, DefsOf, LiveEntry, PlainObject, IdentityOf, GoodEntries, Distinct, Indexed,
      DistinctIdentities;
    FirstAtPath(st.files, PathFor(op, 0));
    hide Has, Lookup, Drop;
    DefsAmong(st.defs, st.files[1..]);
  }

  lemma {:induction false} DefsAmong(defs: seq<Resource>, m: FileMap)
    requires |defs| == |m| + 1 && (defs[1..] == DefsOf(m) || defs[..|defs| - 1] == DefsOf(m))
    ensures forall s :: s in DefsOf(m) ==> s in defs
  {
    hide DefsOf;
  }

  /** A record whose primary object is dead: the inner deletions find something, or their
      entries come back without the primary. */
  lemma {:induction false} PrimaryDeadPass(env: Env, op: Operation, st: State)
    requires Deleting(env, op) && FitToDelete(env, op, st) && PrimaryDead(env, op, st)
    ensures var r := Pass(env, st, op, 0);
            r.out.Retry? && OnTheWay(env, op, r.st)
  {
    var path, adjacent := PathFor(op, 0), st.files[1..];
    hide PathFor, Pass, DeleteFile, PlainFile, OfFile, CompleteEntries, CompleteDefinitions, PlainStored, KeyBy,
      DefsOf, LiveEntry, PlainObject, Agrees, OneFile, SameStem, DeleteInner, OnTheWay, AccurateApi;
    var start, m := FirstStepRetries(env, op, st);
    var target, tm, inner := OneFileDeletion(env, start, m, op.definitions[0], path);
    PrimaryDeadStart(env, op, st, inner);
    PrimaryTarget(env, st.files[0].resource, target, tm);
    hide PrimaryDead, InnerStart, FileOrder;
    InnerOfPrimary(env, op, inner, adjacent, target, tm);
    var r := DeleteInner(env, inner, adjacent, target, path);
    if r.out.Done? {
      InnerStartLive(env, op, inner, adjacent);
      RestoredLive(env, op, r.st, adjacent);
      RestoredOnTheWay(env, op, RestoreAndRetry(r.st, adjacent).st);
    }
  }

  lemma {:induction false} RestoredOnTheWay(env: Env, op: Operation, st: State)
    requires AllRecordedLive(env, op, st)
    ensures OnTheWay(env, op, st)
  {
  }

  lemma {:induction false} InnerStartLive(env: Env, op: Operation, start: State, adjacent: FileMap)
    requires InnerStart(env, op, start, adjacent)
    ensures adjacent != [] && LiveEntries(env, adjacent, start.live) && op.definitions != []
    ensures KeyBy(env, op.definitions[0]) !in start.live
  {
  }

  lemma {:induction false} PrimaryTarget(env: Env, r: Resource, target: Definition, m: string)
    requires PlainObject(env, r) && target == TargetDefinition(r) && env.mappingByKind(target) == Some(m)
    ensures KeyOf(env, m, target) == ObjectKey(env, r)
  {
    PlainLeads(env, target);
  }

  lemma {:induction false} InnerOfPrimary(env: Env, op: Operation, start: State, adjacent: FileMap, outer: Definition,
        m: string)
    requires Deleting(env, op) && InnerStart(env, op, start, adjacent) && env.mappingByKind(outer) == Some(m)
    requires (start.defs[1..] == DefsOf(adjacent) && FileOrder(env, op, start.defs))
             || start.defs[..|start.defs| - 1] == DefsOf(adjacent)
    ensures InnerEnds(env, op, start, DeleteInner(env, start, adjacent, outer, PathFor(op, 0)))
  {
    hide InnerEnds, DeleteInner, PathFor, PlainFile;
    if start.defs[1..] == DefsOf(adjacent) && FileOrder(env, op, start.defs) {
      InnerInFileOrder(env, op, start, adjacent, outer, m);
    } else {
      InnerInOwnOrder(env, op, start, adjacent, outer, m);
    }
  }

  lemma {:induction false} StoreThere(env: Env, defs: seq<Resource>, d: Definition)
    requires Plain(env, d) && DistinctIdentities(defs) && Stored(d) in defs
    ensures StoreDefinition(defs, d) == defs
  {
    PlainIsStored(env, d);
    var k :| 0 <= k < |defs| && defs[k] == Stored(d);
    hide IdentityOf, Stored;
    assert FirstMatch(defs, IdentityOf(DictOf(d))) <= k;
  }

  lemma {:induction false} PromisingByKeys(env: Env, op: Operation, defs: seq<Resource>, live: map<Key, Resource>,
          other: map<Key, Resource>)
    requires Promising(env, op, defs, live) && other.Keys == live.Keys
    ensures Promising(env, op, defs, other)
  {
    hide PlainStored, KeyBy, IdentityOf;
    if |op.definitions| > 1 && KeyBy(env, op.definitions[1]) in live && AllPlain(env, Popped(defs))
       && OthersWait(env, op, Popped(defs), live) {
      var z :| 2 <= z < |op.definitions| && WaitsFor(env, op, Popped(defs), live, z);
      assert WaitsFor(env, op, Popped(defs), other, z);
    }
  }

  /** A pass over a half-done file finishes the other half. */
  lemma {:induction false} HalfDonePass(env: Env, op: Operation, st: State)
    requires Deleting(env, op) && op.definitions != [] && FitToDelete(env, op, st) && HalfDone(env, op, st)
    ensures var r := Pass(env, st, op, 0);
            r.out.Retry? && NearlyDone(env, op, r.st)
  {
    var path, e := PathFor(op, 0), st.files[0];
    HalfDoneIs(env, op, st);
    hide PathFor, Pass, DeleteFile, PlainFile, OfFile, CompleteEntries, CompleteDefinitions, PlainStored, KeyBy,
      PlainObject, Agrees, OneFile, SameStem, AccurateApi, Promising, Plain, DeleteTarget, Stored;
    var start, m := FirstStepRetries(env, op, st);
    var target, tm, inner := OneFileDeletion(env, start, m, op.definitions[0], path);
    PrimaryTarget(env, e.resource, target, tm);
    DeleteLiveAlone(env, inner, tm, target, path);
    var r := DeleteTarget(env, inner, tm, target, path, []);
    PlainIsStored(env, target);
    StoreThere(env, st.defs, target);
    ShownByDefinition(env, target, Stored(target)) by { StoredShows(target); }
    PromisingByKeys(env, op, st.defs, st.live - {ObjectKey(env, e.resource)}, r.st.live);
  }

  lemma {:induction false} StoredShows(d: Definition)
    ensures var r := Stored(d);
            r.kind == Some(d.kind) && r.apiVersion == Some(d.apiVersion) && r.snakeVersion.None?
              && r.metadata == Some(CleanDict(d.metadata))
    ensures CleanedDict(d.metadata) ==> CleanDict(d.metadata) == d.metadata
  {
    CleanDictFixed(d.metadata);
  }

  lemma {:induction false} HalfDoneIs(env: Env, op: Operation, st: State)
    requires HalfDone(env, op, st)
    ensures var r := st.files[0].resource;
            && Has(st.files, PathFor(op, 0)) && Lookup(st.files, PathFor(op, 0)) == Some(r)
            && Drop(st.files, PathFor(op, 0)) == []
            && GoodResource(r) && EitherVersion(r).Some? && Plain(env, TargetDefinition(r))
            && KeyBy(env, TargetDefinition(r)) == ObjectKey(env, r)
  {
    hide PathFor, Plain, Promising;
  }

  // ------------------------------------ deleting the primary object itself

  /** A live primary object is deleted and put back with all its adjacent entries, whose
      definitions are stored already. */
  lemma {:induction false} PrimaryDeleted(env: Env, st: State, m: string, d: Definition, path: string,
        adjacent: FileMap)
    requires AccurateApi(env) && !env.external && Plain(env, d) && KeyOf(env, m, d) in st.live && path != ""
    requires st.files == []
    requires GoodEntries(adjacent) && Distinct(adjacent) && Versioned(adjacent)
    requires forall e: Entry :: e in adjacent ==> e.path != path && IdentityOf(e.resource) != IdentityOf(Stored(d))
    requires DistinctIdentities(StoreDefinition(st.defs, d))
    requires forall e: Entry :: e in adjacent ==> DefinedBy(e.resource) in StoreDefinition(st.defs, d)
    ensures var r := DeleteTarget(env, st, m, d, path, adjacent);
            && r.out == Retry(false) && r.st.files == [Entry(path, Stored(d))] + adjacent
            && r.st.live.Keys == st.live.Keys - {KeyOf(env, m, d)} && r.st.defs == StoreDefinition(st.defs, d)
  {
    PlainLeads(env, d);
    PlainIsStored(env, d);
    DeletedIsPutBack(env, st, m, d, path, adjacent);
    DeleteLiveTarget(env, st, m, d);
    var deleted := DoDelete(env, st, m, d);
    PrepareKeepsKeys(env, deleted.st, m, d, deleted.response.obj);
    ExternalTarget(env, st, m, d);
    var prepared := DeleteAndPrepare(env, deleted.st, m, d, deleted.response.obj);
    PuttingBackSucceeds(prepared.st, d, path, adjacent);
    PutBackDefs(env, prepared.st, d, path, adjacent);
    hide DoDelete, DeleteAndPrepare, PutBack, KeyOf, StoreDefinition, Plain;
  }

  lemma {:induction false} PutBackDefs(env: Env, st: State, d: Definition, path: string, adjacent: FileMap)
    requires Plain(env, d) && path != "" && GoodEntries(adjacent) && Versioned(adjacent)
    requires DistinctIdentities(StoreDefinition(st.defs, d))
    requires forall e: Entry :: e in adjacent ==> DefinedBy(e.resource) in StoreDefinition(st.defs, d)
    ensures PutBack(st, Stored(d), path, adjacent).st.defs == StoreDefinition(st.defs, d)
  {
    PlainIsStored(env, d);
    var s := StoreResult(st, Stored(d), path);
    StoredAsDefinition(env, st, d, path);
    forall e | e in adjacent ensures Storable(e) && GoodResource(e.resource) { assert GoodEntry(e); }
    hide StoreDefinition, DefinedBy, StoreResult, Stored, Plain;
    StoreEntriesPresent(s.st, adjacent);
  }

  lemma {:induction false} StoredAsDefinition(env: Env, st: State, d: Definition, path: string)
    requires Plain(env, d)
    ensures StoreResult(st, Stored(d), path).error.None?
    ensures StoreResult(st, Stored(d), path).st.defs == StoreDefinition(st.defs, d)
  {
    PlainIsStored(env, d);
    assert DefinitionOf(DictOf(d)) == d;
    hide StoreDefinition, CleanMetadata;
  }

  lemma {:induction false} LiveVersioned(env: Env, m: FileMap, live: map<Key, Resource>)
    requires LiveEntries(env, m, live)
    ensures Versioned(m)
  {
    forall e: Entry | e in m ensures VersionOf(e.resource).Some? { assert LiveEntry(env, e, live); }
  }

  lemma {:induction false} AlignedIdentities(files: FileMap, k: nat)
    requires GoodEntries(files) && k < |files|
    ensures IdentityOf(DefsOf(files)[k]) == IdentityOf(files[k].resource)
  {
    assert files[k] in files && GoodEntry(files[k]);
    DefinedByIdentity(files[k].resource);
  }

  /** The last definition stored finds the last entry. */
  lemma {:induction false} LastMatches(files: FileMap, defs: seq<Resource>)
    requires files != [] && GoodEntries(files) && Distinct(files) && defs == DefsOf(files)
    ensures MatchingEntry(files, defs[|defs| - 1]) == |files| - 1
  {
    var n, last := |files| - 1, defs[|defs| - 1];
    AlignedIdentities(files, n);
    var i := MatchingEntry(files, last);
    hide IdentityOf, DefsOf;
    assert forall j :: 0 <= j < n ==> Separate(files[j], files[n]);
  }

  /** What the deletion finds when every recorded object is live and none is at its path. */
  lemma {:induction false} LastResolved(env: Env, st: State, mapping: string, d: Definition, path: string)
    requires Agrees(st.files, st.defs) && OneFile(st.files, path) && SameStem(st.files, path) && !Has(st.files, path)
    requires st.files != [] && Aligned(st) && PlainObject(env, st.files[|st.files| - 1].resource)
    ensures env.mappingByKind(TargetDefinition(st.files[|st.files| - 1].resource)).Some?
    ensures var n := |st.files| - 1;
            var target := TargetDefinition(st.files[n].resource);
            ResolveTarget(env, st, path, d, mapping) ==
            Resolution(st.(files := [], defs := Popped(st.defs)),
                       Resolved(st.files[..n], target, env.mappingByKind(target).value))
  {
    var n := |st.files| - 1;
    LastRetrieved(st, path);
    PlainLeads(env, TargetDefinition(st.files[n].resource));
    hide OneFile, SameStem, Agrees, StoredTarget, Plain, DefsOf, RetrieveLastCreatePath, IdentityOf, GoodEntry;
  }

  lemma {:induction false} LastRetrieved(st: State, path: string)
    requires Agrees(st.files, st.defs) && OneFile(st.files, path) && SameStem(st.files, path) && !Has(st.files, path)
    requires st.files != [] && Aligned(st)
    ensures var n := |st.files| - 1;
            RetrieveLastCreatePath(st.files, st.defs, path) ==
            Retrieved(Found(st.files[n].path, st.files[n].resource, st.files[..n]), [], Popped(st.defs))
  {
    var n := |st.files| - 1;
    LastMatches(st.files, st.defs);
    TakeFromOneFile(st.files, n, st.defs, path);
    assert st.files[n] in st.files && Without(st.files, n) == st.files[..n];
    hide Stem, Contains, DefsOf, Take, MatchingEntry, IdentityOf, GoodEntry, Agrees, OneFile;
  }

  /** Live entries whose definitions are kept apart. */
  ghost predicate ApartEntries(env: Env, files: FileMap, live: map<Key, Resource>) {
    && GoodEntries(files) && Distinct(files) && LiveEntries(env, files, live)
    && AllPlain(env, DefsOf(files)) && KeysApart(env, DefsOf(files)) && DistinctIdentities(DefsOf(files))
  }

  lemma {:induction false} PrimaryDefinition(env: Env, r: Resource)
    requires PlainObject(env, r)
    ensures var s := Stored(TargetDefinition(r));
            && PlainStored(env, s) && StoredKey(env, s) == ObjectKey(env, r) && IdentityOf(s) == IdentityOf(r)
            && Rebuilt(s) == Some(TargetDefinition(r)) && PlainObject(env, s) && ObjectKey(env, s) == ObjectKey(env, r)
  {
    var d := TargetDefinition(r);
    PlainIsStored(env, d);
    TargetKeepsIdentity(r);
    ShownByDefinition(env, d, Stored(d));
  }

  /** The definitions of the others, followed by that of the last one as it is put back. */
  lemma {:induction false} OthersThenLast(env: Env, files: FileMap, live: map<Key, Resource>)
    requires files != [] && ApartEntries(env, files, live) && PlainObject(env, files[|files| - 1].resource)
    ensures var before, d := Popped(DefsOf(files)), TargetDefinition(files[|files| - 1].resource);
            && StoreDefinition(before, d) == before + [Stored(d)] && AllPlain(env, before + [Stored(d)])
            && KeysApart(env, before + [Stored(d)]) && DistinctIdentities(before + [Stored(d)])
  {
    var n, defs := |files| - 1, DefsOf(files);
    var before, s := Popped(defs), Stored(TargetDefinition(files[n].resource));
    PrimaryDefinition(env, files[n].resource);
    hide PlainStored, KeyBy, Plain, IdentityOf, GoodEntry, StoreDefinition, PlainObject, DefsOf, Stored;
    forall k | 0 <= k < n
      ensures IdentityOf(before[k]) != IdentityOf(s) && before[k] in defs
          && StoredKey(env, before[k]) != StoredKey(env, s) {
      BeforeLast(env, files, live, k);
    }
    StoredFresh(env, before, s);
    forall t | t in before
      ensures IdentityOf(t) != IdentityOf(s) && PlainStored(env, t) && StoredKey(env, t) != StoredKey(env, s) {
      var k :| 0 <= k < n && before[k] == t;
    }
    AppendPlain(env, before, s);
  }

  lemma {:induction false} OthersApart(env: Env, files: FileMap, live: map<Key, Resource>, e: Entry)
    requires files != [] && ApartEntries(env, files, live) && PlainObject(env, files[|files| - 1].resource)
    requires e in files[..|files| - 1]
    ensures var last := files[|files| - 1];
            && IdentityOf(e.resource) != IdentityOf(last.resource) && DefinedBy(e.resource) in Popped(DefsOf(files))
            && PlainObject(env, e.resource) && ObjectKey(env, e.resource) != ObjectKey(env, last.resource)
  {
    var k :| 0 <= k < |files| - 1 && files[k] == e;
    BeforeLast(env, files, live, k);
    AlignedIdentities(files, k);
    assert Popped(DefsOf(files))[k] == DefinedBy(e.resource);
    hide PlainStored, KeyBy, Plain, IdentityOf, GoodEntry, PlainObject, DefsOf;
  }

  lemma {:induction false} BeforeLast(env: Env, files: FileMap, live: map<Key, Resource>, k: nat)
    requires k < |files| - 1 && ApartEntries(env, files, live)
    ensures PlainObject(env, files[k].resource) && PlainObject(env, files[|files| - 1].resource)
    ensures DefsOf(files)[k] in DefsOf(files) && PlainStored(env, DefsOf(files)[k])
    ensures IdentityOf(DefsOf(files)[k]) != IdentityOf(files[|files| - 1].resource)
    ensures StoredKey(env, DefsOf(files)[k]) == ObjectKey(env, files[k].resource)
    ensures StoredKey(env, DefsOf(files)[k]) != ObjectKey(env, files[|files| - 1].resource)
  {
    var n, defs := |files| - 1, DefsOf(files);
    EntryBeforeLast(env, files, live, k);
    EntryBeforeLast(env, files, live, n);
    ApartPair(env, files, live, k, n);
    hide ApartEntries, PlainStored, KeyBy, Plain, IdentityOf, GoodEntry, PlainObject, DefsOf, StoredKey, ObjectKey;
  }

  lemma {:induction false} EntryBeforeLast(env: Env, files: FileMap, live: map<Key, Resource>, k: nat)
    requires k < |files| && ApartEntries(env, files, live)
    ensures PlainObject(env, files[k].resource) && DefsOf(files)[k] in DefsOf(files)
    ensures PlainStored(env, DefsOf(files)[k])
    ensures StoredKey(env, DefsOf(files)[k]) == ObjectKey(env, files[k].resource)
    ensures IdentityOf(DefsOf(files)[k]) == IdentityOf(files[k].resource)
  {
    assert files[k] in files && LiveEntry(env, files[k], live);
    StoredKeyOfEntry(env, files[k].resource);
    AlignedIdentities(files, k);
    hide PlainStored, KeyBy, Plain, IdentityOf, GoodEntry, PlainObject, StoredKey, ObjectKey, KeysApart,
      DistinctIdentities, DefinedBy;
  }

  lemma {:induction false} ApartPair(env: Env, files: FileMap, live: map<Key, Resource>, k: nat, n: nat)
    requires k < n < |files| && ApartEntries(env, files, live)
    requires PlainStored(env, DefsOf(files)[k]) && PlainStored(env, DefsOf(files)[n])
    ensures IdentityOf(DefsOf(files)[k]) != IdentityOf(DefsOf(files)[n])
    ensures StoredKey(env, DefsOf(files)[k]) != StoredKey(env, DefsOf(files)[n])
  {
    assert DefsOf(files)[k] in DefsOf(files) && DefsOf(files)[n] in DefsOf(files);
    hide PlainStored, KeyBy, IdentityOf, StoredKey, LiveEntries, GoodEntries, DefsOf;
  }

  lemma {:induction false} StoredKeyOfEntry(env: Env, r: Resource)
    requires PlainObject(env, r) && InnerDefinition(r).Some?
    ensures PlainStored(env, DefinedBy(r)) && StoredKey(env, DefinedBy(r)) == ObjectKey(env, r)
  {
    InnerIsDefinition(r);
    PlainIsStored(env, DefinitionOf(r));
  }

  lemma {:induction false} AllLiveIsApart(env: Env, op: Operation, st: State)
    requires AllRecordedLive(env, op, st) && Agrees(st.files, st.defs)
    ensures ApartEntries(env, st.files, st.live) && PlainObject(env, st.files[|st.files| - 1].resource)
    ensures ObjectKey(env, st.files[|st.files| - 1].resource) in st.live
  {
    var n := |st.files| - 1;
    assert st.files[n] in st.files && LiveEntry(env, st.files[n], st.live);
    hide PathFor, PlainObject;
  }

  lemma {:induction false} OthersStayLive(env: Env, files: FileMap, before: map<Key, Resource>,
          after: map<Key, Resource>)
    requires files != [] && ApartEntries(env, files, before) && PlainObject(env, files[|files| - 1].resource)
    requires after.Keys == before.Keys - {ObjectKey(env, files[|files| - 1].resource)}
    ensures LiveEntries(env, files[..|files| - 1], after)
  {
    forall e | e in files[..|files| - 1] ensures LiveEntry(env, e, after) {
      OthersApart(env, files, before, e);
      assert e in files && LiveEntry(env, e, before);
    }
  }

  lemma {:induction false} AllLiveAdjacent(env: Env, op: Operation, st: State)
    requires AllRecordedLive(env, op, st) && Agrees(st.files, st.defs)
    ensures ApartEntries(env, st.files, st.live) && PlainObject(env, st.files[|st.files| - 1].resource)
    ensures var n := |st.files| - 1;
            && GoodEntries(st.files[..n]) && Distinct(st.files[..n]) && Versioned(st.files[..n])
            && forall e: Entry :: e in st.files[..n] ==>
                 e.path != PathFor(op, 0) && IdentityOf(e.resource) != IdentityOf(st.files[n].resource)
                 && DefinedBy(e.resource) in Popped(st.defs)
  {
    var n := |st.files| - 1;
    AllLiveIsApart(env, op, st);
    LiveVersioned(env, st.files, st.live);
    PrefixDistinct(st.files, n);
    HasExactly(st.files, PathFor(op, 0));
    hide PathFor, PlainObject, KeyBy, PlainStored, IdentityOf, GoodEntry, AllPlain, KeysApart, DefsOf,
      DistinctIdentities, ApartEntries, LiveEntries, Agrees;
    forall e: Entry | e in st.files[..n]
      ensures e.path != PathFor(op, 0) && IdentityOf(e.resource) != IdentityOf(st.files[n].resource) && e in st.files
      ensures DefinedBy(e.resource) in Popped(st.defs)
    {
      OthersApart(env, st.files, st.live, e);
    }
  }

  /** A record of live objects none of which is at the first path: the last one is deleted and
      put back there. */
  lemma {:induction false} AllLiveDeletion(env: Env, op: Operation, st: State, mapping: string, d: Definition)
    requires AccurateApi(env) && !env.external && PathFor(op, 0) != ""
    requires AllRecordedLive(env, op, st) && Agrees(st.files, st.defs)
    requires OneFile(st.files, PathFor(op, 0)) && SameStem(st.files, PathFor(op, 0))
    ensures var r, n := DeleteFile(env, st, mapping, d, PathFor(op, 0)), |st.files| - 1;
            && PlainObject(env, st.files[n].resource)
            && r.out == Retry(false)
            && r.st.files == [Entry(PathFor(op, 0), Stored(TargetDefinition(st.files[n].resource)))] + st.files[..n]
            && r.st.defs == Popped(st.defs) + [Stored(TargetDefinition(st.files[n].resource))]
            && r.st.live.Keys == st.live.Keys - {ObjectKey(env, st.files[n].resource)}
  {
    var path, n := PathFor(op, 0), |st.files| - 1;
    AllLiveIsApart(env, op, st);
    AllLiveAdjacent(env, op, st);
    var last := st.files[n].resource;
    var target := TargetDefinition(last);
    hide PathFor, KeyBy, PlainStored, Stored, IdentityOf, GoodEntry, KeyOf, AllPlain, KeysApart, DefsOf, Agrees,
      OneFile, SameStem, DeleteTarget, DistinctIdentities, StoreDefinition, LiveEntries, ApartEntries, Versioned,
      DefinedBy;
    LastResolved(env, st, mapping, d, path);
    PrimaryDefinition(env, last);
    PrimaryTarget(env, last, target, env.mappingByKind(target).value);
    OthersThenLast(env, st.files, st.live);
    var chosen := ResolveTarget(env, st, path, d, mapping).st;
    hide ResolveTarget, AllRecordedLive;
    PlainLeads(env, target);
    hide PlainObject, Plain;
    ReadAccurately(env, chosen, env.mappingByKind(target).value, target);
    var read := Read(env, chosen, env.mappingByKind(target).value, target).st;
    PrimaryDeleted(env, read, env.mappingByKind(target).value, target, path, st.files[..n]);
  }

  lemma {:induction false} PrefixDistinct(m: FileMap, n: nat)
    requires n <= |m| && Distinct(m) && GoodEntries(m)
    ensures Distinct(m[..n]) && GoodEntries(m[..n])
  {
    hide GoodEntry;
  }

  lemma {:induction false} OneLeft(env: Env, op: Operation, st: State, s: Resource)
    requires st.files == [Entry(PathFor(op, 0), s)] && st.defs == [s] && PlainObject(env, s) && PlainStored(env, s)
    requires ObjectKey(env, s) !in st.live && op.definitions != [] && KeyBy(env, op.definitions[0]) !in st.live
    ensures OnTheWay(env, op, st)
  {
    SmallPromising(env, op, s, st.live);
    hide PathFor, PlainObject, PlainStored, Promising;
    assert NearlyDone(env, op, st);
  }

  lemma {:induction false} SomeLeft(env: Env, op: Operation, st: State, s: Resource, adjacent: FileMap)
    requires st.files == [Entry(PathFor(op, 0), s)] + adjacent && st.defs == DefsOf(adjacent) + [s] && adjacent != []
    requires PlainObject(env, s) && ObjectKey(env, s) !in st.live && LiveEntries(env, adjacent, st.live)
    requires AllPlain(env, st.defs) && KeysApart(env, st.defs)
    requires op.definitions != [] && KeyBy(env, op.definitions[0]) !in st.live
    ensures OnTheWay(env, op, st)
  {
    hide PathFor, PlainObject, PlainStored, LiveEntries, KeysApart, DefsOf, KeyBy;
    assert st.files[1..] == adjacent && st.files[0] == Entry(PathFor(op, 0), s);
    assert st.defs[..|st.defs| - 1] == DefsOf(adjacent);
    assert PrimaryDead(env, op, st);
  }

  lemma {:induction false} AllLiveFacts(env: Env, op: Operation, st: State, live: map<Key, Resource>)
    requires AllRecordedLive(env, op, st) && Agrees(st.files, st.defs)
    requires PlainObject(env, st.files[|st.files| - 1].resource)
    requires live.Keys == st.live.Keys - {ObjectKey(env, st.files[|st.files| - 1].resource)}
    ensures var last, adjacent := st.files[|st.files| - 1].resource, st.files[..|st.files| - 1];
            var s := Stored(TargetDefinition(last));
            && PlainStored(env, s) && PlainObject(env, s) && ObjectKey(env, s) !in live
            && LiveEntries(env, adjacent, live)
            && Popped(st.defs) == DefsOf(adjacent) && AllPlain(env, DefsOf(adjacent) + [s])
            && KeysApart(env, DefsOf(adjacent) + [s])
            && op.definitions != [] && KeyBy(env, op.definitions[0]) !in live
  {
    var last, adjacent := st.files[|st.files| - 1].resource, st.files[..|st.files| - 1];
    AllLiveIsApart(env, op, st);
    PrimaryDefinition(env, last);
    PoppedDefs(st.files);
    OthersThenLast(env, st.files, st.live);
    OthersStayLive(env, st.files, st.live, live);
    AllLiveStart(env, op, st);
    hide AllRecordedLive, Agrees, PathFor, PlainStored, KeyBy, LiveEntry, PlainObject, Stored, StoreDefinition,
      ApartEntries, StoredKey, ObjectKey, LiveEntries, KeysApart, AllPlain, DefsOf;
  }

  lemma {:induction false} PoppedDefs(files: FileMap)
    requires files != []
    ensures Popped(DefsOf(files)) == DefsOf(files[..|files| - 1])
  {
  }

  lemma {:induction false} AllLiveStart(env: Env, op: Operation, st: State)
    requires AllRecordedLive(env, op, st)
    ensures st.files != [] && st.defs == DefsOf(st.files) && op.definitions != []
    ensures KeyBy(env, op.definitions[0]) !in st.live
  {
  }

  /** What that leaves. */
  lemma {:induction false} AllLiveLeaves(env: Env, op: Operation, st: State, after: State)
    requires AllRecordedLive(env, op, st) && Agrees(st.files, st.defs)
    requires PlainObject(env, st.files[|st.files| - 1].resource)
    requires var n := |st.files| - 1;
             var s := Stored(TargetDefinition(st.files[n].resource));
             && after.files == [Entry(PathFor(op, 0), s)] + st.files[..n] && after.defs == Popped(st.defs) + [s]
             && after.live.Keys == st.live.Keys - {ObjectKey(env, st.files[n].resource)}
    ensures OnTheWay(env, op, after)
  {
    var adjacent, s := st.files[..|st.files| - 1], Stored(TargetDefinition(st.files[|st.files| - 1].resource));
    AllLiveFacts(env, op, st, after.live);
    hide AllRecordedLive, PathFor, PlainStored, KeyBy, PlainObject, Agrees, Stored, StoredKey, ObjectKey, LiveEntries,
      OnTheWay, KeysApart, AllPlain, DefsOf, Popped;
    if adjacent == [] {
      LeftAlone(s, PathFor(op, 0));
      OneLeft(env, op, after, s);
    } else {
      SomeLeft(env, op, after, s, adjacent);
    }
  }

  lemma {:induction false} LeftAlone(s: Resource, path: string)
    ensures DefsOf([]) + [s] == [s] && [Entry(path, s)] + [] == [Entry(path, s)]
  {
  }

  lemma {:induction false} AllRecordedLivePass(env: Env, op: Operation, st: State)
    requires Deleting(env, op) && FitToDelete(env, op, st) && AllRecordedLive(env, op, st)
    ensures var r := Pass(env, st, op, 0);
            r.out.Retry? && OnTheWay(env, op, r.st)
  {
    var start, m := FirstStepRetries(env, op, st);
    hide PathFor, Pass, DeleteFile, PlainFile, OfFile, CompleteEntries, CompleteDefinitions, PlainStored, KeyBy,
      LiveEntry, PlainObject, Agrees, OneFile, SameStem, AccurateApi, Stored, File, OnTheWay, AllPlain, KeysApart,
      LiveEntries;
    AllLiveDeletion(env, op, start, m, op.definitions[0]);
    AllLiveLeaves(env, op, st, DeleteFile(env, start, m, op.definitions[0], PathFor(op, 0)).st);
  }

  // ------------------------------------------------------ the first pass

  /** The record of the first definitions of the file, all of them live and complete enough for
      inner deletions, mirrored by the list. */
  ghost predicate Begins(env: Env, op: Operation, st: State)
    requires PlainFile(env, op)
  {
    && st.files != [] && FileRecord(env, op, st.files) && Aligned(st)
    && forall j :: 0 <= j < |st.files| ==>
         KeyBy(env, op.definitions[j]) in st.live && InnerDefinition(st.files[j].resource).Some?
  }

  lemma {:induction false} BeginsEntry(env: Env, op: Operation, st: State, j: nat)
    requires PlainFile(env, op) && Begins(env, op, st) && j < |st.files|
    ensures j < |op.definitions| && st.files[j].path == PathFor(op, j)
    ensures LiveEntry(env, st.files[j], st.live)
    ensures ObjectKey(env, st.files[j].resource) == KeyBy(env, op.definitions[j])
    ensures st.defs[j] == DefinedBy(st.files[j].resource) && PlainStored(env, st.defs[j])
    ensures StoredKey(env, st.defs[j]) == KeyBy(env, op.definitions[j])
  {
    PlainFileFacts(env, op, j);
    assert Shows(env, st.files[j].resource, op.definitions[j]);
    StoredKeyOfEntry(env, st.files[j].resource);
    hide File, Shows, Plain, PlainObject, PlainStored, KeyBy, PathFor;
  }

  lemma {:induction false} BeginsFirst(env: Env, op: Operation, st: State)
    requires PlainFile(env, op) && Begins(env, op, st) && Agrees(st.files, st.defs)
    ensures PlainObject(env, st.files[0].resource)
    ensures var s := Stored(TargetDefinition(st.files[0].resource));
            && PlainStored(env, s) && PlainObject(env, s) && StoredKey(env, s) == KeyBy(env, op.definitions[0])
            && ObjectKey(env, s) == KeyBy(env, op.definitions[0]) && IdentityOf(s) == IdentityOf(st.files[0].resource)
  {
    BeginsEntry(env, op, st, 0);
    hide PlainFile, PlainStored, KeyBy, PathFor, Begins, Agrees, Stored, IdentityOf;
    PrimaryDefinition(env, st.files[0].resource);
    hide PlainObject;
  }

  lemma {:induction false} BeginsLive(env: Env, op: Operation, st: State, live: map<Key, Resource>)
    requires PlainFile(env, op) && Begins(env, op, st)
    requires live.Keys == st.live.Keys - {KeyBy(env, op.definitions[0])}
    ensures LiveEntries(env, st.files[1..], live)
  {
    var adjacent := st.files[1..];
    hide PlainFile, Begins, LiveEntry, KeyBy;
    forall e | e in adjacent ensures LiveEntry(env, e, live) {
      var k :| 0 <= k < |adjacent| && adjacent[k] == e;
      BeginsAdjacent(env, op, st, live, k + 1);
    }
  }

  lemma {:induction false} BeginsIdentity(env: Env, op: Operation, st: State, k: nat)
    requires PlainFile(env, op) && Begins(env, op, st) && Agrees(st.files, st.defs) && 1 <= k < |st.defs|
    ensures |st.defs| == |st.files| && IdentityOf(st.defs[k]) != IdentityOf(st.files[0].resource)
  {
    AlignedTail(st);
    AlignedIdentities(st.files, k);
    hide IdentityOf, GoodEntry, DefsOf;
    assert Separate(st.files[0], st.files[k]);
  }

  /** Once the first object is deleted and put back. */
  lemma {:induction false} BeginsFacts(env: Env, op: Operation, st: State, live: map<Key, Resource>)
    requires PlainFile(env, op) && Begins(env, op, st) && Agrees(st.files, st.defs)
    requires live.Keys == st.live.Keys - {KeyBy(env, op.definitions[0])}
    ensures PlainObject(env, st.files[0].resource)
    ensures var s, adjacent := Stored(TargetDefinition(st.files[0].resource)), st.files[1..];
            && PlainStored(env, s) && PlainObject(env, s) && StoredKey(env, s) == KeyBy(env, op.definitions[0])
            && ObjectKey(env, s) == KeyBy(env, op.definitions[0]) && IdentityOf(s) == IdentityOf(st.files[0].resource)
            && LiveEntries(env, adjacent, live) && st.defs[1..] == DefsOf(adjacent)
            && (forall k :: 1 <= k < |st.defs| ==>
                  PlainStored(env, st.defs[k]) && StoredKey(env, st.defs[k]) == KeyBy(env, op.definitions[k])
                  && IdentityOf(st.defs[k]) != IdentityOf(s))
  {
    AlignedTail(st);
    hide PlainFile, PlainStored, KeyBy, IdentityOf, DefsOf, Begins, Agrees, LiveEntries;
    BeginsFirst(env, op, st);
    BeginsLive(env, op, st, live);
    hide PlainObject, Stored, ObjectKey;
    forall k | 1 <= k < |st.defs|
      ensures k < |op.definitions| && PlainStored(env, st.defs[k])
      ensures StoredKey(env, st.defs[k]) == KeyBy(env, op.definitions[k])
      ensures IdentityOf(st.defs[k]) != IdentityOf(st.files[0].resource)
    {
      BeginsAdjacent(env, op, st, live, k);
      BeginsIdentity(env, op, st, k);
    }
  }

  lemma {:induction false} AlignedTail(st: State)
    requires Aligned(st) && st.files != []
    ensures st.defs[1..] == DefsOf(st.files[1..]) && |st.defs| == |st.files|
  {
    hide DefinedBy;
  }

  lemma {:induction false} BeginsAdjacent(env: Env, op: Operation, st: State, live: map<Key, Resource>, k: nat)
    requires PlainFile(env, op) && Begins(env, op, st) && 1 <= k < |st.files|
    requires live.Keys == st.live.Keys - {KeyBy(env, op.definitions[0])}
    ensures k < |op.definitions| && PlainStored(env, st.defs[k])
    ensures StoredKey(env, st.defs[k]) == KeyBy(env, op.definitions[k])
    ensures LiveEntry(env, st.files[k], live)
  {
    BeginsEntry(env, op, st, k);
    KeysOfFileDiffer(env, op, 0, k);
    hide PlainFile, PlainObject, PlainStored, KeyBy, PathFor, Begins;
  }

  /** The list with the first definition as it is put back. */
  lemma {:induction false} FirstReplaced(env: Env, op: Operation, defs: seq<Resource>, d: Definition)
    requires Plain(env, d) && PlainFile(env, op) && defs != [] && |defs| <= |op.definitions| && DistinctIdentities(defs)
    requires IdentityOf(defs[0]) == IdentityOf(Stored(d))
    requires StoredKey(env, PlainOf(env, d)) == KeyBy(env, op.definitions[0])
    requires forall k :: 1 <= k < |defs| ==>
               && PlainStored(env, defs[k]) && StoredKey(env, defs[k]) == KeyBy(env, op.definitions[k])
               && IdentityOf(defs[k]) != IdentityOf(Stored(d))
    ensures var after := StoreDefinition(defs, d);
            && after == [Stored(d)] + defs[1..] && AllPlain(env, after) && KeysApart(env, after)
            && DistinctIdentities(after)
            && FileOrder(env, op, after)
  {
    PlainIsStored(env, d);
    var after := [Stored(d)] + defs[1..];
    hide PlainStored, KeyBy, IdentityOf, PlainFile, Plain, Stored;
    assert FirstMatch(defs, IdentityOf(DictOf(d))) == 0;
    assert StoreDefinition(defs, d) == after;
    forall i | 0 <= i < |after|
      ensures PlainStored(env, after[i]) && StoredKey(env, after[i]) == KeyBy(env, op.definitions[i]) {
      assert i > 0 ==> after[i] == defs[i];
    }
    forall i, j | 0 <= i < j < |after|
      ensures IdentityOf(after[i]) != IdentityOf(after[j]) && StoredKey(env, after[i]) != StoredKey(env, after[j])
    {
      KeysOfFileDiffer(env, op, i, j);
      assert after[j] == defs[j] && (i > 0 ==> after[i] == defs[i]);
    }
  }

  /** The definition as it is stored. */
  ghost function PlainOf(env: Env, d: Definition): (s: Resource)
    requires Plain(env, d)
    ensures s == Stored(d) && PlainStored(env, s)
  {
    PlainIsStored(env, d);
    Stored(d)
  }

  lemma {:induction false} SomeLeftInOrder(env: Env, op: Operation, st: State, s: Resource, adjacent: FileMap)
    requires st.files == [Entry(PathFor(op, 0), s)] + adjacent && st.defs == [s] + DefsOf(adjacent) && adjacent != []
    requires PlainObject(env, s) && ObjectKey(env, s) !in st.live && LiveEntries(env, adjacent, st.live)
    requires AllPlain(env, st.defs) && KeysApart(env, st.defs) && FileOrder(env, op, st.defs)
    requires op.definitions != [] && KeyBy(env, op.definitions[0]) !in st.live
    ensures OnTheWay(env, op, st)
  {
    hide PathFor, PlainObject, PlainStored, LiveEntries, KeysApart, DefsOf, KeyBy;
    assert st.files[1..] == adjacent && st.files[0] == Entry(PathFor(op, 0), s) && st.defs[1..] == DefsOf(adjacent);
    forall i | 0 <= i < |st.defs| ensures PlainStored(env, st.defs[i]) { assert st.defs[i] in st.defs; }
    assert PrimaryDead(env, op, st);
  }

  /** What the first pass leaves. */
  lemma {:induction false} BegunLeaves(env: Env, op: Operation, st: State, after: State)
    requires PlainFile(env, op) && Begins(env, op, st) && Agrees(st.files, st.defs)
    requires PlainObject(env, st.files[0].resource)
    requires op.definitions != []
    requires var s := Stored(TargetDefinition(st.files[0].resource));
             && after.files == [Entry(PathFor(op, 0), s)] + st.files[1..] && after.defs == [s] + st.defs[1..]
             && AllPlain(env, after.defs) && KeysApart(env, after.defs) && FileOrder(env, op, after.defs)
             && after.live.Keys == st.live.Keys - {KeyBy(env, op.definitions[0])}
    ensures OnTheWay(env, op, after)
  {
    var s, adjacent := Stored(TargetDefinition(st.files[0].resource)), st.files[1..];
    BeginsFacts(env, op, st, after.live);
    hide PlainFile, PlainObject, PlainStored, KeyBy, PathFor, IdentityOf, DefsOf, Stored, Begins, LiveEntries, Agrees,
      KeysApart, FileOrder, AllPlain, OnTheWay, ObjectKey, StoredKey;
    if adjacent == [] {
      LeftAlone(s, PathFor(op, 0));
      LeftAloneFirst(s);
      OneLeft(env, op, after, s);
    } else {
      SomeLeftInOrder(env, op, after, s, adjacent);
    }
  }

  lemma {:induction false} LeftAloneFirst(s: Resource)
    ensures [s] + DefsOf([]) == [s]
  {
  }

  /** A deletion by the path of the first entry, while its object is live. */
  lemma {:induction false} DeletionAtFirst(env: Env, st: State, m: string, d: Definition, path: string)
    requires AccurateApi(env) && !env.external && Agrees(st.files, st.defs) && OneFile(st.files, path) && path != ""
    requires st.files != [] && st.files[0].path == path && !DeleteFile(env, st, m, d, path).out.Fail?
    requires PlainObject(env, st.files[0].resource) && ObjectKey(env, st.files[0].resource) in st.live
    requires Versioned(st.files[1..])
    requires var after := StoreDefinition(st.defs, TargetDefinition(st.files[0].resource));
             DistinctIdentities(after) && forall e: Entry :: e in st.files[1..] ==> DefinedBy(e.resource) in after
    ensures var r, first := DeleteFile(env, st, m, d, path), st.files[0].resource;
            && r.out == Retry(false) && r.st.files == [Entry(path, Stored(TargetDefinition(first)))] + st.files[1..]
            && r.st.defs == StoreDefinition(st.defs, TargetDefinition(first))
            && r.st.live.Keys == st.live.Keys - {ObjectKey(env, first)}
  {
    FirstAtPath(st.files, path);
    PrimaryDefinition(env, st.files[0].resource);
    hide DeleteFile, PlainStored, KeyBy, OneFile, AccurateApi, Stored, IdentityOf, DefsOf, DeleteTarget,
      DistinctIdentities, Agrees, Plain, StoreDefinition, DeleteInner, DefinedBy;
    var target, tm, inner := OneFileDeletion(env, st, m, d, path);
    PrimaryTarget(env, st.files[0].resource, target, tm);
    hide PlainObject;
    PrimaryDeleted(env, inner, tm, target, path, st.files[1..]);
  }

  /** The deletion the first pass begins with. */
  lemma {:induction false} FirstDeletion(env: Env, op: Operation, st: State, start: State, m: string)
    requires Deleting(env, op) && op.definitions != [] && Begins(env, op, st) && Agrees(st.files, st.defs)
    requires SameRecord(st, start) && KeyBy(env, op.definitions[0]) in start.live
    requires OneFile(st.files, PathFor(op, 0)) && PathFor(op, 0) != ""
    requires !DeleteFile(env, start, m, op.definitions[0], PathFor(op, 0)).out.Fail?
    ensures PlainObject(env, st.files[0].resource)
    ensures var r, s := DeleteFile(env, start, m, op.definitions[0], PathFor(op, 0)),
        Stored(TargetDefinition(st.files[0].resource));
            && r.out == Retry(false) && r.st.files == [Entry(PathFor(op, 0), s)] + st.files[1..]
            && r.st.defs == StoreDefinition(st.defs, TargetDefinition(st.files[0].resource))
            && r.st.live.Keys == start.live.Keys - {KeyBy(env, op.definitions[0])}
  {
    FirstEntry(env, op, st);
    hide PathFor, DeleteFile, PlainFile, PlainStored, KeyBy, PlainObject, OneFile, AccurateApi, Stored, Begins,
      FileOrder, KeysApart, AllPlain, DistinctIdentities, Agrees, Plain, StoreDefinition, Versioned, DefinedBy;
    DeletionAtFirst(env, start, m, op.definitions[0], PathFor(op, 0));
  }

  /** The first entry, and how the list takes its definition. */
  lemma {:induction false} FirstEntry(env: Env, op: Operation, st: State)
    requires PlainFile(env, op) && op.definitions != [] && Begins(env, op, st) && Agrees(st.files, st.defs)
    ensures var e := st.files[0];
            && e.path == PathFor(op, 0) && PlainObject(env, e.resource) && Plain(env, TargetDefinition(e.resource))
            && ObjectKey(env, e.resource) == KeyBy(env, op.definitions[0]) && KeyBy(env, op.definitions[0]) in st.live
    ensures var s, after := Stored(TargetDefinition(st.files[0].resource)),
        StoreDefinition(st.defs, TargetDefinition(st.files[0].resource));
            && after == [s] + st.defs[1..] && AllPlain(env, after) && KeysApart(env, after) && DistinctIdentities(after)
            && FileOrder(env, op, after)
    ensures Versioned(st.files[1..])
    ensures var after := StoreDefinition(st.defs, TargetDefinition(st.files[0].resource));
            forall e: Entry :: e in st.files[1..] ==> DefinedBy(e.resource) in after
  {
    var e, gone := st.files[0], st.live - {KeyBy(env, op.definitions[0])};
    BeginsEntry(env, op, st, 0);
    BeginsEntry(env, op, st, |st.files| - 1);
    AlignedTail(st);
    AlignedIdentities(st.files, 0);
    BeginsFacts(env, op, st, gone);
    var d := TargetDefinition(e.resource);
    hide PlainFile, PlainStored, KeyBy, PathFor, IdentityOf, DefsOf, Stored, LiveEntries, FileOrder, KeysApart,
      StoreDefinition;
    AdjacentFacts(env, st, gone, d, PathFor(op, 0));
    FirstReplaced(env, op, st.defs, d);
  }

  lemma {:induction false} FirstAtPath(files: FileMap, path: string)
    requires files != [] && files[0].path == path && GoodEntries(files) && Distinct(files)
    ensures Has(files, path) && Lookup(files, path) == Some(files[0].resource) && Drop(files, path) == files[1..]
    ensures GoodEntries(files[1..]) && Distinct(files[1..])
    ensures forall e: Entry :: e in files[1..] ==>
              e.path != path && IdentityOf(e.resource) != IdentityOf(files[0].resource)
  {
    DistinctTail(files);
    hide GoodEntry, IdentityOf;
    forall e: Entry | e in files[1..] ensures Separate(files[0], e) { assert files[0] in [files[0]]; }
  }

  lemma {:induction false} AdjacentFacts(env: Env, st: State, live: map<Key, Resource>, d: Definition, path: string)
    requires st.files != [] && Aligned(st) && LiveEntries(env, st.files[1..], live)
    ensures Versioned(st.files[1..]) && forall e: Entry :: e in st.files[1..] ==> DefinedBy(e.resource) in st.defs[1..]
  {
    LiveVersioned(env, st.files[1..], live);
    hide DefinedBy;
    forall e: Entry | e in st.files[1..] ensures DefinedBy(e.resource) in st.defs[1..] {
      var k :| 0 <= k < |st.files[1..]| && st.files[1..][k] == e;
      assert st.defs[1..][k] == DefinedBy(e.resource);
    }
  }

  lemma {:induction false} BeginningPass(env: Env, op: Operation, st: State)
    requires Deleting(env, op) && op.definitions != [] && FitToDelete(env, op, st) && Begins(env, op, st)
    ensures var r := Pass(env, st, op, 0);
            r.out.Retry? && OnTheWay(env, op, r.st)
  {
    var start, m := FirstStepRetries(env, op, st);
    hide PathFor, Pass, DeleteFile, PlainFile, OfFile, CompleteEntries, CompleteDefinitions, PlainStored, KeyBy,
      PlainObject, Agrees, OneFile, SameStem, AccurateApi, Stored, File, OnTheWay, AllPlain, KeysApart, LiveEntries,
      Begins, FileOrder, StoreDefinition;
    FirstEntry(env, op, st);
    FirstDeletion(env, op, st, start, m);
    BegunLeaves(env, op, st, DeleteFile(env, start, m, op.definitions[0], PathFor(op, 0)).st);
  }

  // --------------------------------------------------------- all together

  /** Nothing is recorded yet: the first definition is looked for, and the record nearly done. */
  lemma {:induction false} EmptyPass(env: Env, op: Operation, st: State)
    requires Deleting(env, op) && op.definitions != [] && st.files == [] && st.defs == []
    ensures EndsOrGoesOn(env, op, st, Pass(env, st, op, 0))
  {
    if KeyBy(env, op.definitions[0]) !in st.live {
      assert Promising(env, op, [], st.live);
      NoFilesPass(env, op, st, 0);
    } else {
      StepSought(env, op, [], 0);
      LeftWithinPopped(env, [], op.definitions[0]);
      hide Step, LeftDefinitions, LookedFor, PlainFile, PlainStored, PlainObject, KeyBy, Stored;
      SoughtStep(env, op, st, 0);
      PassCases(env, st, op, 0);
      var s, r := SoughtStored(op, [], 0), Step(env, st, op, 0).st;
      assert [] + [s] == [s];
      SmallPromising(env, op, s, r.live);
      hide Promising;
      assert NearlyDone(env, op, r);
    }
  }

  /** How a pass on the way ends: with nothing of the file live, or on the way. */
  ghost predicate EndsOrGoesOn(env: Env, op: Operation, before: State, r: Result) {
    && !r.out.Fail?
    && (r.out.Done? ==> r.st.live == before.live && NothingLive(env, op, before.live, 0))
    && (r.out.Retry? ==> OnTheWay(env, op, r.st))
  }

  lemma {:induction false} OnTheWayPass(env: Env, op: Operation, st: State)
    requires Deleting(env, op) && op.definitions != [] && FitToDelete(env, op, st) && OnTheWay(env, op, st)
    ensures EndsOrGoesOn(env, op, st, Pass(env, st, op, 0))
  {
    hide Pass, NearlyDone, HalfDone, AllRecordedLive, PrimaryDead, PlainFile, NothingLive, Agrees, OfFile,
      CompleteEntries, CompleteDefinitions;
    if NearlyDone(env, op, st) {
      NearlyDonePass(env, op, st);
    } else if HalfDone(env, op, st) {
      HalfDonePass(env, op, st);
    } else if AllRecordedLive(env, op, st) {
      AllRecordedLivePass(env, op, st);
    } else {
      PrimaryDeadPass(env, op, st);
    }
  }

  lemma {:induction false} StaysFit(env: Env, op: Operation, st: State)
    requires Deleting(env, op) && FitToDelete(env, op, st)
    ensures FitToDelete(env, op, Pass(env, st, op, 0).st)
  {
    FileIsComplete(env, op);
    hide Pass, Agrees, OfFile, CompleteOperation;
    PassDeletable(env, op, st);
    PassEnds(env, st, op, 0);
  }

  lemma {:induction false} FileIsComplete(env: Env, op: Operation)
    requires File(env, op)
    ensures CompleteOperation(env, op)
  {
    forall i | 0 <= i < |op.definitions|
      ensures CompleteDefinition(env, op.definitions[i]) && Stem(PathFor(op, i)).Some? {
      assert op.definitions[i] in op.definitions && Served(env, op.definitions[i]);
      FilePaths(env, op, i, i);
    }
  }

  /** What a deletion may begin with: a record of live objects, or none. */
  ghost predicate MayBegin(env: Env, op: Operation, st: State)
    requires PlainFile(env, op)
  {
    Begins(env, op, st) || (st.files == [] && st.defs == [])
  }

  lemma {:induction false} RetriesOnTheWay(env: Env, op: Operation, run: nat -> State, n: nat)
    requires Deleting(env, op) && op.definitions != [] && FitToDelete(env, op, run(0)) && MayBegin(env, op, run(0))
    requires forall i: nat :: i < n ==> Retried(env, op, run(i), run(i + 1))
    ensures FitToDelete(env, op, run(n)) && (n > 0 ==> OnTheWay(env, op, run(n)))
  {
    hide Pass, OnTheWay, FitToDelete, PlainFile, Begins;
    if n > 0 {
      RetriesOnTheWay(env, op, run, n - 1);
      assert Retried(env, op, run(n - 1), run(n - 1 + 1));
      StaysFit(env, op, run(n - 1));
      if n - 1 > 0 {
        OnTheWayPass(env, op, run(n - 1));
      } else {
        FirstOfAll(env, op, run(0));
      }
    }
  }

  lemma {:induction false} FirstOfAll(env: Env, op: Operation, st: State)
    requires Deleting(env, op) && op.definitions != [] && FitToDelete(env, op, st) && MayBegin(env, op, st)
    ensures EndsOrGoesOn(env, op, st, Pass(env, st, op, 0))
  {
    hide Pass, OnTheWay, FitToDelete, PlainFile, Begins;
    if Begins(env, op, st) { BeginningPass(env, op, st); } else { EmptyPass(env, op, st); }
  }

  /** Pass `n` ends normally, after passes that all asked to be retried; then nothing is recorded
      and no object of the file is live. */
  ghost predicate RemovedCompletelyAt(env: Env, op: Operation, run: nat -> State, n: nat)
    requires File(env, op)
  {
    var r := Pass(env, run(n), op, 0);
    && (forall i: nat :: i < n ==> Retried(env, op, run(i), run(i + 1)))
    && r.out.Done? && r.st.files == []
    && forall d :: d in op.definitions ==> MappedKey(env, d) !in r.st.live
  }

  /** The end of a deletion that began so. */
  lemma {:induction false} RemovedCompletely(env: Env, op: Operation, run: nat -> State, n: nat)
    requires Deleting(env, op) && op.definitions != [] && FitToDelete(env, op, run(0)) && MayBegin(env, op, run(0))
    requires forall i: nat :: run(i + 1) == Pass(env, run(i), op, 0).st
    requires forall i: nat :: i < n ==> Retried(env, op, run(i), run(i + 1))
    requires !Retried(env, op, run(n), run(n + 1))
    ensures RemovedCompletelyAt(env, op, run, n)
  {
    hide OnTheWay, FitToDelete, PlainFile, Begins, Pass, NothingLive, Step;
    RetriesOnTheWay(env, op, run, n);
    if n > 0 { OnTheWayPass(env, op, run(n)); } else { FirstOfAll(env, op, run(0)); }
    RemovedByLastPass(env, op, run(n));
  }

  lemma {:induction false} RemovedByLastPass(env: Env, op: Operation, st: State)
    requires Deleting(env, op) && op.definitions != [] && FitToDelete(env, op, st) && NothingLive(env, op, st.live, 0)
    requires Pass(env, st, op, 0).out.Done? && Pass(env, st, op, 0).st.live == st.live
    ensures Pass(env, st, op, 0).st.files == []
    ensures forall d :: d in op.definitions ==> MappedKey(env, d) !in st.live
  {
    LastPass(env, op, st);
    hide Pass, Step;
    forall d | d in op.definitions ensures MappedKey(env, d) !in st.live {
      var j :| 0 <= j < |op.definitions| && op.definitions[j] == d;
      PlainFileFacts(env, op, j);
    }
  }

  /** When a deletion begins, every recorded object is live and is in the client's own form. */
  ghost predicate AllAsCreated(env: Env, op: Operation, st: State) {
    forall j :: 0 <= j < |st.files| && j < |op.definitions| ==>
      KeyBy(env, op.definitions[j]) in st.live && InnerDefinition(st.files[j].resource).Some?
  }

  /** The whole life of a file's resources again: if every recorded object is live when their
      deletion begins, nothing of the file is left, whether stored definitions may replace
      the given ones or not. */
  lemma {:induction false} LifeEndsWithNothing(env: Env, op: Operation, st: State, ops: seq<Operation>,
        run: nat -> State)
    requires AccurateApi(env) && !env.external && PlainFile(env, op) && op.task.FileDelete? && op.definitions != []
    requires st.files == [] && st.defs == [] && ClusterShows(env, op, st.live) && forall o :: o in ops ==> OnFile(op, o)
    requires run(0) == Run(env, st, ops) && forall i: nat :: run(i + 1) == Pass(env, run(i), op, 0).st
    requires env.resolver.allowRedefinition ==> AllAsCreated(env, op, run(0))
    ensures exists n: nat :: n <= Remaining(run(0)) && RemovedCompletelyAt(env, op, run, n)
  {
    if env.resolver.allowRedefinition {
      LifeEndsWithRedefinition(env, op, st, ops, run);
    } else {
      LifeEnds(env, op, st, ops, run);
      var n: nat :| n <= Remaining(run(0)) && RemovedAt(env, op, run, n);
      NothingLeft(env, op, run, n);
    }
  }

  lemma {:induction false} NothingLeft(env: Env, op: Operation, run: nat -> State, n: nat)
    requires File(env, op) && RemovedAt(env, op, run, n) && !env.resolver.allowRedefinition
    ensures RemovedCompletelyAt(env, op, run, n)
  {
    hide Pass, Step, ShadowedAt, Retried;
    forall d | d in op.definitions ensures MappedKey(env, d) !in Pass(env, run(n), op, 0).st.live {
      var j :| 0 <= j < |op.definitions| && op.definitions[j] == d;
    }
  }

  lemma {:induction false} LifeEndsWithRedefinition(env: Env, op: Operation, st: State, ops: seq<Operation>,
        run: nat -> State)
    requires Deleting(env, op) && op.definitions != []
    requires st.files == [] && st.defs == [] && ClusterShows(env, op, st.live) && forall o :: o in ops ==> OnFile(op, o)
    requires run(0) == Run(env, st, ops) && forall i: nat :: run(i + 1) == Pass(env, run(i), op, 0).st
    requires AllAsCreated(env, op, run(0))
    ensures exists n: nat :: n <= Remaining(run(0)) && RemovedCompletelyAt(env, op, run, n)
  {
    assert FileRecord(env, op, st.files) && CompleteRecord(env, st) && Aligned(st);
    hide Pass, FileRecord, ClusterShows, Run, OnFile, AccurateApi, Retried, Complete, RemovedCompletelyAt, KeyBy,
      Served, PlainlyServed;
    SetUpKeepsFile(env, op, st, ops);
    RecordIsDeletable(env, op, run(0));
    RecordLength(env, op, run(0).files);
    assert MayBegin(env, op, run(0));
    NoEndlessRetries(env, op, run);
    var n: nat :| n <= Remaining(run(0)) && !Retried(env, op, run(n), run(n + 1));
    n := LeastUnretried(env, op, run, n);
    RemovedCompletely(env, op, run, n);
  }
}
