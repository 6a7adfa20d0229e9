/**
 * Why every recorded object must be live when a deletion with redefinition begins: once one
 * of them has vanished, another one can be left.
 */
module Leftovers {
  import opened Options
  import opened Definitions
  import opened Record
  import opened FileMaps
  import opened Cluster
  import opened FileDeletion
  import opened Agreement
  import opened Fallback
  import opened Conservation
  import opened Tasks
  import opened Creation
  import opened Retries
  import opened RecordKeeping
  import opened Endings
  import opened Lifecycle
  import opened Removal
  import opened FullRemoval

  /** A file of five definitions of different names. */
  ghost predicate FiveNames(env: Env, op: Operation) {
    && |op.definitions| == 5
    && forall i, j :: 0 <= i < j < 5 ==> KeyBy(env, op.definitions[i]).name != KeyBy(env, op.definitions[j]).name
  }

  /** Stored in the order of the file. */
  ghost predicate StoredInOrder(env: Env, op: Operation, defs: seq<Resource>) {
    && AllPlain(env, defs) && KeysApart(env, defs) && DistinctIdentities(defs) && FileOrder(env, op, defs)
  }

  lemma {:induction false} NameOfKey(env: Env, s: Resource)
    requires PlainStored(env, s)
    ensures NameIn(s.metadata) == StoredKey(env, s).name && Named(s)
  {
  }

  /** Where another one than the given definition is sought, those before it stay. */
  lemma {:induction false} LeftInOrder(env: Env, op: Operation, defs: seq<Resource>, d: Definition)
    requires env.resolver.allowRedefinition && FiveNames(env, op) && StoredInOrder(env, op, defs) && |defs| >= 2
    requires Stored(d) != defs[|defs| - 2]
    ensures LeftDefinitions(env, defs, d) == defs[..|defs| - 2]
  {
    var n := |defs| - 2;
    var y, left := defs[n], Popped(Popped(defs));
    assert y in defs && left == defs[..n] && Popped(defs)[n] == y;
    NameOfKey(env, y);
    hide KeyBy, IdentityOf;
    forall t | t in left ensures Named(t) && !SameKindAndName(t, Rebuilt(y).value.kind, NameIn(y.metadata)) {
      var k :| 0 <= k < n && defs[k] == t;
      NameOfKey(env, t);
    }
    RemovalKeepsUnmatched(left, Rebuilt(y).value.kind, NameIn(y.metadata));
    LeftByStored(env, defs, d);
  }

  lemma {:induction false} LeftByStored(env: Env, defs: seq<Resource>, d: Definition)
    requires env.resolver.allowRedefinition && AllPlain(env, defs) && |defs| >= 2 && Stored(d) != defs[|defs| - 2]
    ensures var y := defs[|defs| - 2];
            && Rebuilt(y).Some?
            && LeftDefinitions(env, defs, d) ==
               RemoveSkipping(Popped(Popped(defs)), Rebuilt(y).value.kind, NameIn(y.metadata)).defs
  {
    var y := defs[|defs| - 2];
    assert y in defs && Popped(defs)[|defs| - 2] == y;
    assert "name" in Rebuilt(y).value.metadata;
    hide RemoveSkipping;
  }

  /** A prefix of such a list is one. */
  lemma {:induction false} PrefixInOrder(env: Env, op: Operation, defs: seq<Resource>, n: nat)
    requires StoredInOrder(env, op, defs) && n <= |defs|
    ensures StoredInOrder(env, op, defs[..n])
  {
    hide KeyBy, PlainStored, IdentityOf;
  }

  /** The objects that are live, by their place in the file. */
  ghost predicate OnlyLive(env: Env, op: Operation, live: map<Key, Resource>, places: set<nat>) {
    forall i :: 0 <= i < |op.definitions| ==> (KeyBy(env, op.definitions[i]) in live <==> i in places)
  }

  lemma {:induction false} OneLessLive(env: Env, op: Operation, before: map<Key, Resource>, after: map<Key, Resource>,
          places: set<nat>, i: nat)
    requires PlainFile(env, op) && i < |op.definitions| && OnlyLive(env, op, before, places)
    requires after.Keys == before.Keys - {KeyBy(env, op.definitions[i])}
    ensures OnlyLive(env, op, after, places - {i})
  {
    forall j | 0 <= j < |op.definitions| && j != i
      ensures KeyBy(env, op.definitions[j]) != KeyBy(env, op.definitions[i]) {
      if j < i { KeysOfFileDiffer(env, op, j, i); } else { KeysOfFileDiffer(env, op, i, j); }
    }
    hide KeyBy, PlainFile;
  }

  /** One object is recorded, not live any more, and definitions are stored in order. */
  ghost predicate Remains(env: Env, op: Operation, st: State, n: nat, places: set<nat>) {
    && |st.files| == 1 && PlainObject(env, st.files[0].resource) && ObjectKey(env, st.files[0].resource) !in st.live
    && |st.defs| == n && StoredInOrder(env, op, st.defs) && OnlyLive(env, op, st.live, places)
  }

  // --------------------------------------------------------- pass by pass

  lemma {:induction false} PassOne(env: Env, op: Operation, full: State, st: State) returns (after: State)
    requires Deleting(env, op) && FiveNames(env, op) && FitToDelete(env, op, full) && Begins(env, op, full)
    requires |full.files| == 5
    requires SameRecord(full, st) && OnlyLive(env, op, st.live, {0, 1, 2, 3})
    ensures Pass(env, st, op, 0) == Result(after, Retry(false)) && PlainObject(env, full.files[0].resource)
    ensures var first := TargetDefinition(full.files[0].resource);
            && after.files == [Entry(PathFor(op, 0), Stored(first))] + full.files[1..]
            && after.defs == StoreDefinition(full.defs, first)
            && after.live.Keys == st.live.Keys - {KeyBy(env, op.definitions[0])}
  {
    FitByRecord(env, op, full, st);
    hide PathFor, Pass, DeleteFile, PlainFile, PlainObject, Agrees, OneFile, SameStem, AccurateApi, Stored, Begins,
      StoreDefinition, KeyBy, OfFile, CompleteEntries, CompleteDefinitions;
    var start, m := FirstStepRetries(env, op, st);
    FirstDeletion(env, op, full, start, m);
    after := DeleteFile(env, start, m, op.definitions[0], PathFor(op, 0)).st;
  }

  /** The list after the first pass. */
  lemma {:induction false} AfterOne(env: Env, op: Operation, full: State)
    requires PlainFile(env, op) && op.definitions != [] && Begins(env, op, full) && Agrees(full.files, full.defs)
    ensures PlainObject(env, full.files[0].resource)
    ensures var after := StoreDefinition(full.defs, TargetDefinition(full.files[0].resource));
            |after| == |full.files| && StoredInOrder(env, op, after) && after[1..] == DefsOf(full.files[1..])
  {
    FirstEntry(env, op, full);
    AlignedTail(full);
    hide PlainFile, PlainStored, PlainObject, Agrees, Stored, AllPlain, KeysApart, FileOrder, StoreDefinition, KeyBy,
      DistinctIdentities, DefsOf;
  }

  lemma {:induction false} FitByRecord(env: Env, op: Operation, full: State, st: State)
    requires File(env, op) && FitToDelete(env, op, full) && SameRecord(full, st)
    ensures FitToDelete(env, op, st)
  {
    hide Agrees, OfFile, CompleteEntries, CompleteDefinitions;
  }

  lemma {:induction false} OrderedKeys(env: Env, op: Operation, defs: seq<Resource>, i: nat, k: nat)
    requires PlainFile(env, op) && FiveNames(env, op) && StoredInOrder(env, op, defs) && i < 5 && k < |defs| && i != k
    ensures PlainStored(env, defs[k]) && StoredKey(env, defs[k]) == KeyBy(env, op.definitions[k])
    ensures KeyBy(env, op.definitions[i]) != KeyBy(env, op.definitions[k]) && Stored(op.definitions[i]) != defs[k]
    ensures i < |defs| ==> PlainStored(env, defs[i]) && defs[i] != defs[k]
  {
    assert defs[k] in defs && (i < |defs| ==> defs[i] in defs);
    PlainFileFacts(env, op, i);
    if i < k { KeysOfFileDiffer(env, op, i, k); } else { KeysOfFileDiffer(env, op, k, i); }
    var d := op.definitions[i];
    hide KeyBy, File, Served, IdentityOf;
    if Stored(d) == defs[k] { SameAsStored(env, d, defs[k]); }
    hide PlainStored, Stored;
  }

  /** The second pass: the inner deletion of the second object finds the one before the last. */
  lemma {:induction false} PassTwo(env: Env, op: Operation, st: State) returns (after: State)
    requires Deleting(env, op) && FiveNames(env, op) && FitToDelete(env, op, st)
    requires |st.files| == 5 && st.files[0].path == PathFor(op, 0) && PlainObject(env, st.files[0].resource)
    requires ObjectKey(env, st.files[0].resource) !in st.live
    requires PlainObject(env, st.files[1].resource) && InnerDefinition(st.files[1].resource).Some?
    requires |st.defs| == 5 && StoredInOrder(env, op, st.defs) && st.defs[1] == DefinedBy(st.files[1].resource)
    requires OnlyLive(env, op, st.live, {1, 2, 3})
    ensures Pass(env, st, op, 0) == Result(after, Retry(true))
    ensures Remains(env, op, after, 4, {1, 2}) && after.files[0].path == PathFor(op, 0)
  {
    var path, adjacent, e := PathFor(op, 0), st.files[1..], st.files[1];
    FirstAtPath(st.files, path);
    InnerIsDefinition(e.resource);
    OrderedKeys(env, op, st.defs, 1, 3);
    LeftInOrder(env, op, st.defs, InnerDefinition(e.resource).value);
    hide PathFor, Pass, DeleteFile, PlainFile, OfFile, CompleteEntries, CompleteDefinitions, PlainStored, KeyBy,
      PlainObject, Agrees, OneFile, SameStem, DeleteInner, AccurateApi, InnerDefinition, DefinedBy, StoredInOrder,
      LeftDefinitions, FiveNames;
    var start, m := FirstStepRetries(env, op, st);
    var target, tm, inner := OneFileDeletion(env, start, m, op.definitions[0], path);
    PrimaryTarget(env, st.files[0].resource, target, tm);
    InOrderFacts(env, op, st.defs);
    OneInner(env, inner, e, tm, path);
    InnerFirst(env, inner, adjacent, target, tm, path);
    after := DeleteInner(env, inner, adjacent, target, path).st;
    AfterCut(env, op, st, after);
  }

  lemma {:induction false} InOrderFacts(env: Env, op: Operation, defs: seq<Resource>)
    requires StoredInOrder(env, op, defs)
    ensures AllPlain(env, defs) && DistinctIdentities(defs)
  {
  }

  lemma {:induction false} AfterCut(env: Env, op: Operation, st: State, after: State)
    requires PlainFile(env, op) && FiveNames(env, op) && |st.defs| == 5 && StoredInOrder(env, op, st.defs)
    requires OnlyLive(env, op, st.live, {1, 2, 3}) && PlainStored(env, st.defs[3])
    requires after.live.Keys == st.live.Keys - {StoredKey(env, st.defs[3])}
    requires after.defs == st.defs[..3] + [st.defs[3]] && after.files == [Entry(PathFor(op, 0), st.defs[3])]
    requires PlainObject(env, st.defs[3]) && ObjectKey(env, st.defs[3]) == StoredKey(env, st.defs[3])
    ensures Remains(env, op, after, 4, {1, 2})
  {
    hide PlainFile, KeyBy, PlainStored, PlainObject, StoredInOrder, PathFor, OnlyLive, FiveNames, StoredKey;
    OrderedKeys(env, op, st.defs, 0, 3);
    AfterSought(env, op, st.defs, st.live, after, 3, {1, 2, 3});
    assert {1, 2, 3} - {3} == {1, 2};
  }

  /** The first step of a later pass: the recorded object is gone. */
  lemma {:induction false} RecordedGoes(env: Env, op: Operation, st: State, n: nat,
        places: set<nat>) returns (next: State)
    requires Deleting(env, op) && FiveNames(env, op) && Remains(env, op, st, n, places) && Agrees(st.files, st.defs)
    ensures Pass(env, st, op, 0) == Pass(env, next, op, 1)
    ensures next.files == [] && next.live == st.live && AllPlain(env, next.defs) && DistinctIdentities(next.defs)
    ensures next.defs == if st.files[0].path == PathFor(op, 0) then st.defs else Popped(st.defs)
    ensures StoredInOrder(env, op, next.defs)
  {
    PlainFileFacts(env, op, 0);
    var d, path := op.definitions[0], PathFor(op, 0);
    var m := env.resolver.mappingWithOptions(d).value;
    HasExactly(st.files, path);
    PrefixInOrder(env, op, st.defs, |Popped(st.defs)|);
    InOrderFacts(env, op, st.defs);
    var popped := Popped(st.defs);
    assert popped == st.defs[..|popped|];
    InOrderFacts(env, op, popped);
    hide Step, DeleteFile, PlainObject, PlainFile, Served, PlainlyServed, PathFor, StoredInOrder, Pass, Agrees, KeyBy,
      FiveNames, AllPlain, DistinctIdentities, OnlyLive, Popped, Has, HasName;
    var start := StepDeletes(env, op, st, 0, m);
    DeadEntryGoes(env, start, m, d, path);
    PassCases(env, st, op, 0);
    next := Step(env, st, op, 0).st;
  }

  /** What a step leaves that has found the stored definition at place `k`. */
  lemma {:induction false} AfterSought(env: Env, op: Operation, defs: seq<Resource>, before: map<Key, Resource>,
        after: State,
          k: nat, places: set<nat>)
    requires PlainFile(env, op) && FiveNames(env, op) && StoredInOrder(env, op, defs) && k < |defs|
    requires OnlyLive(env, op, before, places)
    requires PlainStored(env, defs[k]) && StoredKey(env, defs[k]) == KeyBy(env, op.definitions[k])
    requires after.live.Keys == before.Keys - {StoredKey(env, defs[k])} && after.defs == defs[..k] + [defs[k]]
    requires |after.files| == 1 && PlainObject(env, after.files[0].resource)
    requires ObjectKey(env, after.files[0].resource) == StoredKey(env, defs[k])
    ensures Remains(env, op, after, k + 1, places - {k})
  {
    assert after.defs == defs[..k + 1];
    PrefixInOrder(env, op, defs, k + 1);
    InOrderSize(env, op, defs);
    hide PlainFile, KeyBy, PlainStored, PlainObject, StoredInOrder;
    OneLessLive(env, op, before, after.live, places, k);
  }

  lemma {:induction false} InOrderSize(env: Env, op: Operation, defs: seq<Resource>)
    requires StoredInOrder(env, op, defs)
    ensures |defs| <= |op.definitions|
  {
  }

  /** A step that looks for the stored definition before the last, and finds it. */
  lemma {:induction false} FoundInPlace(env: Env, op: Operation, st: State, i: nat) returns (after: State)
    requires Deleting(env, op) && FiveNames(env, op) && i < 5 && st.files == []
    requires StoredInOrder(env, op, st.defs) && |st.defs| >= 2
    requires i != |st.defs| - 2 && KeyBy(env, op.definitions[|st.defs| - 2]) in st.live
    ensures var k := |st.defs| - 2;
            && Pass(env, st, op, i) == Result(after, Retry(false))
            && PlainStored(env, st.defs[k]) && StoredKey(env, st.defs[k]) == KeyBy(env, op.definitions[k])
            && after.live.Keys == st.live.Keys - {StoredKey(env, st.defs[k])}
            && after.defs == st.defs[..k] + [st.defs[k]]
            && |after.files| == 1 && after.files[0].path == PathFor(op, i) && PlainObject(env, after.files[0].resource)
            && ObjectKey(env, after.files[0].resource) == StoredKey(env, st.defs[k])
  {
    SoughtInPlace(env, op, st, i);
    InOrderFacts(env, op, st.defs);
    hide Step, PlainObject, PlainFile, PathFor, StoredInOrder, Pass, KeyBy, FiveNames, LeftDefinitions, PlainStored,
      SoughtKey, SoughtStored, AllPlain, DistinctIdentities, StoredKey;
    SoughtStep(env, op, st, i);
    PassCases(env, st, op, i);
    after := Step(env, st, op, i).st;
  }

  lemma {:induction false} SoughtInPlace(env: Env, op: Operation, st: State, i: nat)
    requires Deleting(env, op) && FiveNames(env, op) && i < 5 && StoredInOrder(env, op, st.defs) && |st.defs| >= 2
    requires i != |st.defs| - 2
    ensures var k := |st.defs| - 2;
            && PlainStored(env, st.defs[k]) && StoredKey(env, st.defs[k]) == KeyBy(env, op.definitions[k])
            && SoughtStored(op, st.defs, i) == st.defs[k]
            && SoughtKey(env, op, st.defs, i) == StoredKey(env, st.defs[k])
            && LeftDefinitions(env, st.defs, op.definitions[i]) == st.defs[..k]
  {
    OrderedKeys(env, op, st.defs, i, |st.defs| - 2);
    LeftInOrder(env, op, st.defs, op.definitions[i]);
    hide PlainFile, StoredInOrder, KeyBy, FiveNames, LeftDefinitions, PlainStored, StoredKey, Stored;
  }

  /** The third pass finds the third object in place of the second. */
  lemma {:induction false} PassThree(env: Env, op: Operation, st: State) returns (after: State)
    requires Deleting(env, op) && FiveNames(env, op) && Remains(env, op, st, 4, {1, 2}) && Agrees(st.files, st.defs)
    requires st.files[0].path == PathFor(op, 0)
    ensures Pass(env, st, op, 0) == Result(after, Retry(false))
    ensures Remains(env, op, after, 3, {1}) && after.files[0].path == PathFor(op, 1)
  {
    hide AccurateApi, Pass, Agrees, KeyBy, PlainFile, PathFor, PlainObject, StoredInOrder;
    FiveAre(env, op);
    assert KeyBy(env, op.definitions[2]) in st.live;
    hide FiveNames, OnlyLive;
    var next := RecordedGoes(env, op, st, 4, {1, 2});
    hide PlainObject, PlainFile, PathFor, StoredInOrder, Pass, Agrees, KeyBy, FiveNames, PlainStored, OnlyLive,
      AllPlain, DistinctIdentities, StoredKey, AccurateApi;
    after := FoundInPlace(env, op, next, 1);
    AfterSought(env, op, st.defs, st.live, after, 2, {1, 2});
    assert {1, 2} - {2} == {1};
  }

  /** The fourth looks for the first, which is not live: the second is passed over, and no
      definition is stored any more. */
  lemma {:induction false} PassFour(env: Env, op: Operation, st: State)
    requires Deleting(env, op) && FiveNames(env, op) && Remains(env, op, st, 3, {1}) && Agrees(st.files, st.defs)
    requires st.files[0].path == PathFor(op, 1)
    ensures var r := Pass(env, st, op, 0);
            r.out == Done && r.st.live == st.live
  {
    var next := RecordedGoes(env, op, st, 3, {1});
    SecondSought(env, op, st, next.defs);
    hide Step, PlainObject, PlainFile, PathFor, StoredInOrder, Pass, Agrees, KeyBy, FiveNames, LeftDefinitions,
      PlainStored, SoughtKey, SoughtStored, OnlyLive, AllPlain, DistinctIdentities, StoredKey, NothingLive;
    SoughtStep(env, op, next, 1);
    PassCases(env, next, op, 1);
    NothingStored(env, op, Step(env, next, op, 1).st, 2);
  }

  lemma {:induction false} SecondSought(env: Env, op: Operation, st: State, defs: seq<Resource>)
    requires Deleting(env, op) && FiveNames(env, op) && Remains(env, op, st, 3, {1})
    requires st.files[0].path == PathFor(op, 1)
    requires AllPlain(env, defs) && DistinctIdentities(defs) && StoredInOrder(env, op, defs)
    requires defs == if st.files[0].path == PathFor(op, 0) then st.defs else Popped(st.defs)
    ensures SoughtKey(env, op, defs, 1) !in st.live && NothingLive(env, op, st.live, 2)
    ensures LeftDefinitions(env, defs, op.definitions[1]) == []
  {
    FirstPathsDiffer(env, op);
    hide PlainObject, PlainFile, PathFor, StoredInOrder, PlainStored, KeyBy, StoredKey, DistinctIdentities,
      LeftDefinitions;
    OrderedKeys(env, op, defs, 1, 0);
    LeftWithinPopped(env, defs, op.definitions[1]);
    NoneFrom(env, op, st.live);
    assert SoughtKey(env, op, defs, 1) == KeyBy(env, op.definitions[0]) && KeyBy(env, op.definitions[0]) !in st.live;
  }

  lemma {:induction false} NoneFrom(env: Env, op: Operation, live: map<Key, Resource>)
    requires OnlyLive(env, op, live, {1})
    ensures NothingLive(env, op, live, 2)
  {
  }

  lemma {:induction false} FirstPathsDiffer(env: Env, op: Operation)
    requires PlainFile(env, op)
    ensures PathFor(op, 0) != PathFor(op, 1)
  {
    FilePaths(env, op, 0, 1);
  }

  /** With nothing recorded or stored, and nothing live from here on, a pass ends normally. */
  lemma {:induction false} NothingStored(env: Env, op: Operation, st: State, i: nat)
    requires Deleting(env, op) && i <= |op.definitions| && st.files == [] && st.defs == []
    requires NothingLive(env, op, st.live, i)
    ensures var r := Pass(env, st, op, i);
            r.out == Done && r.st.live == st.live
    decreases |op.definitions| - i
  {
    hide Step, PlainFile, KeyBy, LeftDefinitions;
    if i < |op.definitions| {
      SoughtStep(env, op, st, i);
      LeftWithinPopped(env, [], op.definitions[i]);
      PassCases(env, st, op, i);
      NothingStored(env, op, Step(env, st, op, i).st, i + 1);
    }
  }

  // ----------------------------------------------------------- all together

  lemma {:induction false} SecondEntry(env: Env, op: Operation, full: State)
    requires PlainFile(env, op) && Begins(env, op, full) && |full.files| == 5
    ensures PlainObject(env, full.files[1].resource) && InnerDefinition(full.files[1].resource).Some?
    ensures DefsOf(full.files[1..])[0] == DefinedBy(full.files[1].resource)
  {
    BeginsEntry(env, op, full, 1);
    hide PlainObject, DefinedBy, PlainFile, Begins;
  }

  lemma {:induction false} AfterPassOne(env: Env, op: Operation, full: State, st: State, after: State)
    requires Deleting(env, op) && FiveNames(env, op) && Begins(env, op, full) && Agrees(full.files, full.defs)
    requires |full.files| == 5
    requires OnlyLive(env, op, st.live, {0, 1, 2, 3}) && PlainObject(env, full.files[0].resource)
    requires var first := TargetDefinition(full.files[0].resource);
             && after.files == [Entry(PathFor(op, 0), Stored(first))] + full.files[1..]
             && after.defs == StoreDefinition(full.defs, first)
             && after.live.Keys == st.live.Keys - {KeyBy(env, op.definitions[0])}
    ensures |after.files| == 5 && after.files[0].path == PathFor(op, 0) && PlainObject(env, after.files[0].resource)
    ensures ObjectKey(env, after.files[0].resource) !in after.live
    ensures PlainObject(env, after.files[1].resource) && InnerDefinition(after.files[1].resource).Some?
    ensures |after.defs| == 5 && StoredInOrder(env, op, after.defs)
    ensures after.defs[1] == DefinedBy(after.files[1].resource)
    ensures OnlyLive(env, op, after.live, {1, 2, 3})
  {
    hide PathFor, PlainFile, PlainObject, PlainStored, Agrees, Stored, Begins, StoreDefinition, KeyBy, DefsOf,
      StoredInOrder, DefinedBy, InnerDefinition, LiveEntry, OnlyLive, ObjectKey, StoredKey, AccurateApi, FiveNames,
      TargetDefinition, GoodResource, EitherVersion;
    FiveAre(env, op);
    AfterOne(env, op, full);
    SecondEntry(env, op, full);
    FirstPutBack(env, op, full, after);
    LiveAfterOne(env, op, st.live, after.live);
  }

  lemma {:induction false} FirstPutBack(env: Env, op: Operation, full: State, after: State)
    requires PlainFile(env, op) && op.definitions != [] && Begins(env, op, full) && |full.files| == 5
    requires PlainObject(env, full.files[0].resource) && KeyBy(env, op.definitions[0]) !in after.live
    requires after.files == [Entry(PathFor(op, 0), Stored(TargetDefinition(full.files[0].resource)))] + full.files[1..]
    ensures |after.files| == 5 && after.files[0].path == PathFor(op, 0) && PlainObject(env, after.files[0].resource)
    ensures ObjectKey(env, after.files[0].resource) !in after.live && after.files[1] == full.files[1]
  {
    BeginsEntry(env, op, full, 0);
    PrimaryDefinition(env, full.files[0].resource);
    hide PathFor, PlainFile, PlainObject, PlainStored, Stored, Begins, KeyBy, LiveEntry, ObjectKey, StoredKey;
  }

  lemma {:induction false} LiveAfterOne(env: Env, op: Operation, before: map<Key, Resource>, after: map<Key, Resource>)
    requires PlainFile(env, op) && FiveNames(env, op) && OnlyLive(env, op, before, {0, 1, 2, 3})
    requires after.Keys == before.Keys - {KeyBy(env, op.definitions[0])}
    ensures OnlyLive(env, op, after, {1, 2, 3})
  {
    OneLessLive(env, op, before, after, {0, 1, 2, 3}, 0);
    assert {0, 1, 2, 3} - {0} == {1, 2, 3};
    hide PlainFile, KeyBy;
  }

  /** A file of five, all recorded, the last of which has vanished from the cluster: three passes
      ask to be retried, the fourth ends normally, and the second object is still live. */
  lemma {:induction false} VanishedLeavesAnother(env: Env, op: Operation, full: State, st: State)
    requires Deleting(env, op) && FiveNames(env, op) && FitToDelete(env, op, full) && Begins(env, op, full)
    requires |full.files| == 5
    requires SameRecord(full, st) && OnlyLive(env, op, st.live, {0, 1, 2, 3})
    ensures var one := Pass(env, st, op, 0);
            var two := Pass(env, one.st, op, 0);
            var three := Pass(env, two.st, op, 0);
            var four := Pass(env, three.st, op, 0);
            && one.out.Retry? && two.out.Retry? && three.out.Retry? && four.out.Done?
            && KeyBy(env, op.definitions[1]) in four.st.live
  {
    FitByRecord(env, op, full, st);
    hide Pass, PathFor, PlainFile, PlainObject, Begins, KeyBy, StoredInOrder, FitToDelete, FiveNames, Stored,
      StoreDefinition, InnerDefinition, DefinedBy, Agrees;
    var one := PassOne(env, op, full, st);
    FitAgrees(env, op, full);
    AfterPassOne(env, op, full, st, one);
    StaysFit(env, op, st);
    var two := PassTwo(env, op, one);
    StaysFit(env, op, one);
    FitAgrees(env, op, two);
    var three := PassThree(env, op, two);
    StaysFit(env, op, two);
    FitAgrees(env, op, three);
    PassFour(env, op, three);
    StillLive(env, op, three);
  }

  lemma {:induction false} FitAgrees(env: Env, op: Operation, st: State)
    requires File(env, op) && FitToDelete(env, op, st)
    ensures Agrees(st.files, st.defs)
  {
  }

  lemma {:induction false} StillLive(env: Env, op: Operation, st: State)
    requires FiveNames(env, op) && Remains(env, op, st, 3, {1})
    ensures KeyBy(env, op.definitions[1]) in st.live
  {
  }

  /** The server shows objects in the client's own form, complete enough for inner deletions. */
  ghost predicate ClientForm(env: Env, op: Operation) {
    forall d :: d in op.definitions ==> InnerDefinition(CleanResource(env.render(d))).Some?
  }

  /** Nothing of the file is live yet. */
  ghost predicate NotCreated(env: Env, op: Operation, live: map<Key, Resource>)
    requires File(env, op)
  {
    forall d :: d in op.definitions ==> MappedKey(env, d) !in live
  }

  lemma {:induction false} CreatedBegins(env: Env, op: Operation, st: State)
    requires AccurateApi(env) && !env.external && PlainFile(env, op) && op.definitions != []
    requires NotCreated(env, op, st.live)
    requires st.files == [] && st.defs == [] && ClientForm(env, op)
    ensures var created := Pass(env, st, op.(task := FileCreate), 0);
            && created.out == Done && Begins(env, op, created.st) && FitToDelete(env, op, created.st)
            && |created.st.files| == |op.definitions|
  {
    hide Pass, KeyBy, PlainlyServed, File, FileRecord, FitToDelete, InnerDefinition, NotCreated, ClientForm,
      AccurateApi, OnlyRendered;
    var create := op.(task := FileCreate);
    var created := Pass(env, st, create, 0).st;
    CreatedRecord(env, op, st);
    RecordLength(env, op, created.files);
    forall j | 0 <= j < |created.files|
      ensures KeyBy(env, op.definitions[j]) in created.live && InnerDefinition(created.files[j].resource).Some?
    {
      CreatedLive(env, op, st, j);
    }
  }

  lemma {:induction false} CreationStarts(env: Env, op: Operation, st: State)
    requires File(env, op) && NotCreated(env, op, st.live) && st.files == [] && st.defs == []
    ensures ClusterShows(env, op, st.live) && OnlyRendered(env, op, st.live)
    ensures FileRecord(env, op, st.files) && CompleteRecord(env, st) && Aligned(st)
  {
    hide Shows, Served;
  }

  lemma {:induction false} CreatedRecord(env: Env, op: Operation, st: State)
    requires AccurateApi(env) && !env.external && File(env, op) && op.definitions != [] && NotCreated(env, op, st.live)
    requires st.files == [] && st.defs == []
    ensures var create := op.(task := FileCreate);
            var created := Pass(env, st, create, 0);
            && created.out == Done && File(env, create) && OnlyRendered(env, create, created.st.live)
            && FileRecord(env, op, created.st.files) && Aligned(created.st) && FitToDelete(env, op, created.st)
            && |created.st.files| == |op.definitions|
  {
    var create := op.(task := FileCreate);
    var created := Pass(env, st, create, 0).st;
    CreatedFile(env, op, st);
    hide Pass, ClusterShows, File, FileRecord, CompleteRecord, OnlyRendered, Aligned, Agrees, SoundAlong,
      FileOperation, AccurateApi;
    FileIsOperation(env, create);
    PassAgrees(env, st, create, 0);
    RecordIsDeletable(env, op, created);
  }

  lemma {:induction false} CreatedFile(env: Env, op: Operation, st: State)
    requires AccurateApi(env) && !env.external && File(env, op) && op.definitions != [] && NotCreated(env, op, st.live)
    requires st.files == [] && st.defs == []
    ensures var create := op.(task := FileCreate);
            var created := Pass(env, st, create, 0);
            && created.out == Done && File(env, create) && OnlyRendered(env, create, created.st.live)
            && FileRecord(env, op, created.st.files) && Aligned(created.st) && CompleteRecord(env, created.st)
            && |created.st.files| == |op.definitions| && SoundAlong(env, st, create, 0)
  {
    var create := op.(task := FileCreate);
    var created := Pass(env, st, create, 0).st;
    SameFile(env, op, create, st.files, st.live);
    assert NotCreated(env, create, st.live);
    hide Pass, ClusterShows, File, FileRecord, CompleteRecord, NotCreated, OnlyRendered, Aligned, SoundAlong,
      AccurateApi;
    CreationStarts(env, op, st);
    CreationStarts(env, create, st);
    CreationSucceeds(env, create, st, 0);
    PassKeepsFile(env, create, st, 0);
    SameFile(env, op, create, created.files, created.live);
  }

  lemma {:induction false} CreatedLive(env: Env, op: Operation, st: State, j: nat)
    requires AccurateApi(env) && !env.external && PlainFile(env, op) && j < |op.definitions|
    requires NotCreated(env, op, st.live)
    requires st.files == [] && st.defs == [] && ClientForm(env, op)
    ensures var created := Pass(env, st, op.(task := FileCreate), 0).st;
            && j < |created.files| && KeyBy(env, op.definitions[j]) in created.live
            && InnerDefinition(created.files[j].resource).Some?
  {
    var create := op.(task := FileCreate);
    var created := Pass(env, st, create, 0).st;
    NamedFile(env, op, create);
    PlainFileFacts(env, op, j);
    CreatedRecord(env, op, st);
    var d := op.definitions[j];
    assert d in op.definitions;
    hide Pass, KeyBy, Served, PlainlyServed, File, InnerDefinition, FitToDelete;
    CreatePassRecords(env, st, create, 0);
    assert RecordedFor(env, created, create, j);
    EntryAt(env, op, created.files, j);
  }

  lemma {:induction false} EntryAt(env: Env, op: Operation, files: FileMap, j: nat)
    requires File(env, op) && FileRecord(env, op, files) && j < |files|
    ensures Lookup(files, PathFor(op, j)) == Some(files[j].resource)
    ensures PathFor(op.(task := FileCreate), j) == PathFor(op, j)
  {
    var i := IndexOf(files, PathFor(op, j));
    assert files[j].path == PathFor(op, j);
    FilePaths(env, op, i, j);
    hide File, Shows;
  }

  lemma {:induction false} BegunAllLive(env: Env, op: Operation, st: State)
    requires PlainFile(env, op) && FiveNames(env, op) && Begins(env, op, st) && |st.files| == 5
    ensures OnlyLive(env, op, st.live, {0, 1, 2, 3, 4})
  {
  }

  lemma {:induction false} NamedFile(env: Env, op: Operation, create: Operation)
    requires File(env, op) && create == op.(task := FileCreate)
    ensures NumberedCreate(create)
  {
    forall d | d in create.definitions ensures HasName(d) { assert Served(env, d); }
    hide File;
  }

  lemma {:induction false} FiveAre(env: Env, op: Operation)
    requires FiveNames(env, op)
    ensures |op.definitions| == 5
  {
  }

  /** Such a record is what creating the file leaves: with redefinition, an object that vanishes
      between creation and deletion can keep another one from being deleted. */
  lemma {:induction false} CreatedThenVanished(env: Env, op: Operation, st: State)
    requires Deleting(env, op) && FiveNames(env, op) && ClientForm(env, op)
    requires st.files == [] && st.defs == [] && NotCreated(env, op, st.live)
    ensures var created := Pass(env, st, op.(task := FileCreate), 0);
            var vanished := created.st.(live := created.st.live - {KeyBy(env, op.definitions[4])});
            var one := Pass(env, vanished, op, 0);
            var two := Pass(env, one.st, op, 0);
            var three := Pass(env, two.st, op, 0);
            var four := Pass(env, three.st, op, 0);
            && created.out.Done? && one.out.Retry? && two.out.Retry? && three.out.Retry? && four.out.Done?
            && KeyBy(env, op.definitions[1]) in four.st.live
  {
    hide Pass, PlainFile, KeyBy, Begins, FitToDelete, OnlyLive, FiveNames, AccurateApi, NotCreated, ClientForm;
    FiveAre(env, op);
    CreatedBegins(env, op, st);
    var created := Pass(env, st, op.(task := FileCreate), 0).st;
    var left := created.(live := created.live - {KeyBy(env, op.definitions[4])});
    BegunAllLive(env, op, created);
    OneLessLive(env, op, created.live, left.live, {0, 1, 2, 3, 4}, 4);
    assert {0, 1, 2, 3, 4} - {4} == {0, 1, 2, 3};
    VanishedLeavesAnother(env, op, created, left);
  }
}
