/**
 * The life of a file's resources up to their deletion: creations, updates, reads and status
 * checks keep the record in order.
 */
module Lifecycle {
  import opened Options
  import opened JsonValues
  import opened Definitions
  import opened Paths
  import opened Record
  import opened FileMaps
  import opened Cluster
  import opened FileDeletion
  import opened Convergence
  import opened Agreement
  import opened Conservation
  import opened Tasks
  import opened Safety
  import opened Creation
  import opened Retries
  import opened RecordKeeping
  import opened Endings

  // ------------------------------------- what the server is relied on for

  /** A cleaned object that shows the kind, name and namespace of a definition, and is
      addressed the way the definition is. */
  ghost predicate Shows(env: Env, obj: Resource, d: Definition) {
    && GoodResource(obj) && Complete(env, obj) && EitherVersion(obj).Some?
    && obj.kind == Some(d.kind)
    && NameIn(obj.metadata) == NameIn(Some(d.metadata))
    && NamespaceIn(obj.metadata) == env.shownNamespace(d)
    && NamespaceSent(env, obj.metadata.value) == NamespaceSent(env, d.metadata)
    && env.mappingByKind(TargetDefinition(obj)).Some?
    && env.mappingByKind(TargetDefinition(obj)) == env.resolver.mappingWithOptions(d)
  }

  /** A definition with a name and a mapping, which the server answers for truly. */
  ghost predicate Served(env: Env, d: Definition) {
    && CompleteDefinition(env, d) && Constructed(d) && Cleaned(NamespaceIn(Some(d.metadata)))
    && env.resolver.mappingWithOptions(d).Some?
    && Shows(env, CleanResource(env.render(d)), d)
    && (forall r :: Shows(env, CleanResource(r), d) ==> Shows(env, CleanResource(env.revise(r, d)), d))
  }

  ghost predicate Different(env: Env, d: Definition, e: Definition)
    requires Served(env, d) && Served(env, e)
  {
    && (d.kind, NameIn(Some(d.metadata)), env.shownNamespace(d)) != (e.kind, NameIn(Some(e.metadata)),
         env.shownNamespace(e))
    && MappedKey(env, d) != MappedKey(env, e)
  }

  /** A file: definitions of different objects, numbered under a path with one `.yaml`. */
  ghost predicate File(env: Env, op: Operation) {
    && op.origin.Some? && op.origin.value != "" && Stem(op.origin.value).Some?
    && (forall d :: d in op.definitions ==> Served(env, d))
    && (forall i, j :: 0 <= i < j < |op.definitions| ==> Different(env, op.definitions[i], op.definitions[j]))
  }

  /** What lives under the keys of the file shows its definitions. */
  ghost predicate ClusterShows(env: Env, op: Operation, live: map<Key, Resource>)
    requires File(env, op)
  {
    forall d :: d in op.definitions && MappedKey(env, d) in live ==>
      Shows(env, CleanResource(live[MappedKey(env, d)]), d)
  }

  /** The record of the first definitions of the file: one entry each, in order. */
  ghost predicate FileRecord(env: Env, op: Operation, files: FileMap) {
    && |files| <= |op.definitions|
    && forall j :: 0 <= j < |files| ==>
         files[j].path == PathFor(op, j) && Shows(env, files[j].resource, op.definitions[j])
  }

  lemma {:induction false} FilePaths(env: Env, op: Operation, i: nat, j: nat)
    requires File(env, op)
    ensures PathFor(op, i) != "" && (PathFor(op, i) == PathFor(op, j) ==> i == j)
    ensures Stem(PathFor(op, i)) == Stem(op.origin.value) && Contains(PathFor(op, i), Stem(op.origin.value).value)
  {
    if PathFor(op, i) == PathFor(op, j) { NumberedPathInjective(op.origin.value, i, j); }
    NumberedPathStem(op.origin.value, i);
  }

  lemma {:induction false} RecordIsSound(env: Env, op: Operation, files: FileMap)
    requires File(env, op) && FileRecord(env, op, files)
    ensures SoundFiles(files)
  {
    forall i, j | 0 <= i < j < |files| ensures Separate(files[i], files[j]) {
      FilePaths(env, op, i, j);
      assert Different(env, op.definitions[i], op.definitions[j]);
    }
    forall e | e in files ensures GoodEntry(e) {
      var j :| 0 <= j < |files| && files[j] == e;
      FilePaths(env, op, j, j);
    }
  }

  lemma {:induction false} RecordIsOneFile(env: Env, op: Operation, files: FileMap)
    requires File(env, op) && FileRecord(env, op, files)
    ensures OneFile(files, PathFor(op, 0)) && SameStem(files, PathFor(op, 0))
  {
    FilePaths(env, op, 0, 0);
    forall e: Entry | e in files
      ensures Stem(e.path) == Stem(op.origin.value) && Contains(e.path, Stem(op.origin.value).value) {
      var j :| 0 <= j < |files| && files[j] == e;
      FilePaths(env, op, j, j);
    }
  }

  // --------------------------------------------- storing into the record

  /** How far the record of the file goes after definition `i` has been stored. */
  ghost predicate RecordGrows(env: Env, op: Operation, before: FileMap, after: FileMap, i: nat) {
    FileRecord(env, op, after) && |after| == if |before| <= i then i + 1 else |before|
  }

  lemma {:induction false} PutGrows(env: Env, op: Operation, files: FileMap, i: nat, obj: Resource)
    requires File(env, op) && FileRecord(env, op, files) && i <= |files| && i < |op.definitions|
    requires Shows(env, obj, op.definitions[i])
    ensures RecordGrows(env, op, files, Put(files, PathFor(op, i), obj), i)
  {
    hide Shows, File, PathFor;
    var at := IndexOf(files, PathFor(op, i));
    if at < |files| { FilePaths(env, op, at, i); }
    assert i < |files| ==> files[i].path == PathFor(op, i);
  }

  lemma {:induction false} StoreShown(env: Env, r: Reply, path: string, d: Definition)
    requires Stem(path).Some? && path != "" && (r.response.Got? ==> Shows(env, r.response.obj, d))
    ensures var s := StoreAnswer(r, path);
            && s.st.live == r.st.live && (CompleteRecord(env, r.st) ==> CompleteRecord(env, s.st))
            && (if r.response.Got? then s.out == Done && s.st.files == Put(r.st.files, path, r.response.obj)
                else s.out.Fail? && s.st.files == r.st.files)
  {
    if r.response.Got? {
      CleanDictFixed(r.response.obj.metadata.value);
      if CompleteRecord(env, r.st) { StoreResultCompletes(env, r.st, r.response.obj, path); }
    }
  }

  /** An answer for a definition of the file: what it shows and what lives now. */
  ghost predicate TrueReply(env: Env, op: Operation, d: Definition, before: State, r: Reply)
    requires File(env, op)
  {
    SameRecord(before, r.st) && ClusterShows(env, op, r.st.live) && (r.response.Got? ==> Shows(env, r.response.obj, d))
  }

  lemma {:induction false} LiveShows(env: Env, op: Operation, live: map<Key, Resource>, d: Definition, obj: Resource)
    requires File(env, op) && ClusterShows(env, op, live) && d in op.definitions && Shows(env, CleanResource(obj), d)
    ensures ClusterShows(env, op, live[MappedKey(env, d) := obj])
  {
    forall e | e in op.definitions && e != d ensures MappedKey(env, e) != MappedKey(env, d) {
      var i, j :| 0 <= i < |op.definitions| && 0 <= j < |op.definitions| && op.definitions[i] == d
        && op.definitions[j] == e;
      if i < j { assert Different(env, op.definitions[i], op.definitions[j]); }
        else { assert Different(env, op.definitions[j], op.definitions[i]); }
    }
  }

  lemma {:induction false} ReadTruly(env: Env, op: Operation, st: State, d: Definition)
    requires AccurateApi(env) && File(env, op) && ClusterShows(env, op, st.live) && d in op.definitions
    ensures TrueReply(env, op, d, st, Read(env, st, env.resolver.mappingWithOptions(d).value, d))
  {
    ReadAccurately(env, st, env.resolver.mappingWithOptions(d).value, d);
  }

  lemma {:induction false} UpdateTruly(env: Env, op: Operation, st: State, d: Definition)
    requires AccurateApi(env) && File(env, op) && ClusterShows(env, op, st.live) && d in op.definitions
    ensures TrueReply(env, op, d, st, Update(env, st, env.resolver.mappingWithOptions(d).value, d))
  {
    var key := MappedKey(env, d);
    if key in st.live { LiveShows(env, op, st.live, d, env.revise(st.live[key], d)); }
    hide Shows;
  }

  lemma {:induction false} CreateTruly(env: Env, op: Operation, st: State, d: Definition)
    requires AccurateApi(env) && File(env, op) && ClusterShows(env, op, st.live) && d in op.definitions
    ensures TrueReply(env, op, d, st, Create(env, st, env.resolver.mappingWithOptions(d).value, d))
  {
    LiveShows(env, op, st.live, d, env.render(d));
    hide Shows;
  }

  /** Complete records stay complete, aligned ones aligned. */
  ghost predicate KeepsRecord(env: Env, before: State, after: State) {
    (CompleteRecord(env, before) ==> CompleteRecord(env, after)) && (Aligned(before) ==> Aligned(after))
  }

  lemma {:induction false} AnswerKeepsAligned(env: Env, op: Operation, r: Reply, i: nat)
    requires File(env, op) && FileRecord(env, op, r.st.files) && i <= |r.st.files| && i < |op.definitions|
    requires r.response.Got? ==> Shows(env, r.response.obj, op.definitions[i])
    ensures Aligned(r.st) ==> Aligned(StoreAnswer(r, PathFor(op, i)).st)
  {
    if r.response.Got? && Aligned(r.st) {
      var files, obj := r.st.files, r.response.obj;
      FilePaths(env, op, i, i);
      RecordIsSound(env, op, files);
      forall k | 0 <= k < |files|
        ensures files[k].path == PathFor(op, i) <==> IdentityOf(files[k].resource) == IdentityOf(obj)
      {
        FilePaths(env, op, k, i);
        if k < i { assert Different(env, op.definitions[k], op.definitions[i]); }
        if i < k { assert Different(env, op.definitions[i], op.definitions[k]); }
      }
      hide File, FileRecord, PathFor;
      StoringKeepsAligned(r.st, obj, PathFor(op, i));
    }
  }

  /** After one storing task: the cluster shows the file, and the record has grown by this
      definition or stayed as it was; it has grown when the task ends normally. */
  ghost predicate StoredOne(env: Env, op: Operation, before: State, r: Result, i: nat)
    requires File(env, op)
  {
    && ClusterShows(env, op, r.st.live) && KeepsRecord(env, before, r.st)
    && (RecordGrows(env, op, before.files, r.st.files, i) || (!r.out.Done? && r.st.files == before.files))
  }

  lemma {:induction false} AnswerStored(env: Env, op: Operation, st: State, r: Reply, i: nat)
    requires File(env, op) && FileRecord(env, op, st.files) && i <= |st.files| && i < |op.definitions|
    requires TrueReply(env, op, op.definitions[i], st, r)
    ensures StoredOne(env, op, st, StoreAnswer(r, PathFor(op, i)), i)
  {
    FilePaths(env, op, i, i);
    StoreShown(env, r, PathFor(op, i), op.definitions[i]);
    if r.response.Got? { PutGrows(env, op, st.files, i, r.response.obj); }
    hide StoreAnswer, Shows, RecordGrows, CompleteEntries, CompleteDefinitions;
    AnswerKeepsAligned(env, op, r, i);
  }

  lemma {:induction false} CreateStored(env: Env, op: Operation, st: State, i: nat, m: string)
    requires AccurateApi(env) && File(env, op) && ClusterShows(env, op, st.live)
    requires FileRecord(env, op, st.files) && i <= |st.files| && i < |op.definitions|
    requires env.resolver.mappingWithOptions(op.definitions[i]) == Some(m)
    ensures StoredOne(env, op, st, RunFileCreate(env, st, m, op.definitions[i], PathFor(op, i)), i)
  {
    var d := op.definitions[i];
    ReadTruly(env, op, st, d);
    var c := CheckExists(env, st, m, d);
    var handled := HandleExisting(env, c.st, Exists(c.existence));
    ReadTruly(env, op, handled, d);
    CreateTruly(env, op, handled, d);
    AnswerStored(env, op, handled, DoCreate(env, handled, m, d), i);
    if c.existence.Present? { AnswerStored(env, op, handled, Reply(handled, Got(c.existence.obj)), i); }
    StoredOneFails(env, op, st, handled, i);
    StoredOneFails(env, op, st, c.st, i);
    hide Read, Create, StoreAnswer, ClusterShows;
  }

  lemma {:induction false} StoredOneFails(env: Env, op: Operation, before: State, after: State, i: nat)
    requires File(env, op) && ClusterShows(env, op, after.live) && SameRecord(before, after)
    ensures forall e :: StoredOne(env, op, before, Stop(after, e), i)
  {
  }

  lemma {:induction false} WatchStored(env: Env, op: Operation, before: State, r: Result, i: nat, kind: string,
        obj: Resource)
    requires File(env, op) && StoredOne(env, op, before, r, i)
    ensures StoredOne(env, op, before, WatchStatus(env, r, kind, obj), i)
  {
  }

  ghost predicate KeepsFile(t: Task) {
    StoringTask(t) || t.CheckStatus?
  }

  lemma {:induction false} CheckStatusShows(env: Env, op: Operation, st: State, i: nat, m: string, heal: bool)
    requires AccurateApi(env) && File(env, op) && ClusterShows(env, op, st.live) && i < |op.definitions|
    requires env.resolver.mappingWithOptions(op.definitions[i]) == Some(m)
    ensures var r := RunCheckStatus(env, st, m, op.definitions[i], heal);
            ClusterShows(env, op, r.st.live) && SameRecord(st, r.st)
  {
    var d := op.definitions[i];
    ReadTruly(env, op, st, d);
    var r := Read(env, st, m, d);
    CreateTruly(env, op, r.st.(perform := true), d);
    hide Read, Create, ClusterShows;
  }

  lemma {:induction false} ReadStored(env: Env, op: Operation, st: State, i: nat, m: string)
    requires AccurateApi(env) && File(env, op) && ClusterShows(env, op, st.live)
    requires FileRecord(env, op, st.files) && i <= |st.files| && i < |op.definitions|
    requires env.resolver.mappingWithOptions(op.definitions[i]) == Some(m)
    ensures StoredOne(env, op, st, RunFileRead(env, st, m, op.definitions[i], PathFor(op, i)), i)
  {
    var d := op.definitions[i];
    ReadTruly(env, op, st, d);
    var r := Read(env, st, m, d);
    AnswerStored(env, op, st, r, i);
    StoredOneFails(env, op, st, st, i);
    if r.response.Got? { WatchStored(env, op, st, StoreAnswer(r, PathFor(op, i)), i, d.kind, r.response.obj); }
    hide Read, StoreAnswer, WatchStatus, ClusterShows, StoredOne, PeekLastCreatePath, File, FileRecord, Served, Shows;
  }

  lemma {:induction false} UpdateStored(env: Env, op: Operation, st: State, i: nat, m: string)
    requires AccurateApi(env) && File(env, op) && ClusterShows(env, op, st.live)
    requires FileRecord(env, op, st.files) && i <= |st.files| && i < |op.definitions|
    requires env.resolver.mappingWithOptions(op.definitions[i]) == Some(m)
    ensures StoredOne(env, op, st, StoreAnswer(Update(env, st, m, op.definitions[i]), PathFor(op, i)), i)
  {
    UpdateTruly(env, op, st, op.definitions[i]);
    AnswerStored(env, op, st, Update(env, st, m, op.definitions[i]), i);
  }

  /** What a step of a creation, update, read or status check leaves of the file. */
  ghost predicate FileKept(env: Env, op: Operation, before: State, r: Result, i: nat)
    requires File(env, op)
  {
    && ClusterShows(env, op, r.st.live) && FileRecord(env, op, r.st.files) && |before.files| <= |r.st.files|
    && KeepsRecord(env, before, r.st)
    && (r.out.Done? && StoringTask(op.task) ==> i < |r.st.files|)
  }

  lemma {:induction false} StoredKeepsFile(env: Env, op: Operation, before: State, r: Result, i: nat)
    requires File(env, op) && StoredOne(env, op, before, r, i) && FileRecord(env, op, before.files)
    ensures FileKept(env, op, before, r, i)
  {
  }

  lemma {:induction false} TaskKeepsFile(env: Env, op: Operation, st: State, i: nat, m: string)
    requires AccurateApi(env) && File(env, op) && ClusterShows(env, op, st.live) && KeepsFile(op.task)
    requires FileRecord(env, op, st.files) && (StoringTask(op.task) ==> i <= |st.files|) && i < |op.definitions|
    requires env.resolver.mappingWithOptions(op.definitions[i]) == Some(m)
    ensures FileKept(env, op, st, RunTask(env, st, op.task, m, op.definitions[i], PathFor(op, i)), i)
  {
    var r := RunTask(env, st, op.task, m, op.definitions[i], PathFor(op, i));
    match op.task
    case FileCreate => CreateStored(env, op, st, i, m); StoredKeepsFile(env, op, st, r, i);
    case FileUpdate => UpdateStored(env, op, st, i, m); StoredKeepsFile(env, op, st, r, i);
    case FileRead => ReadStored(env, op, st, i, m); StoredKeepsFile(env, op, st, r, i);
    case CheckStatus(heal) => CheckStatusShows(env, op, st, i, m, heal);
  }

  lemma {:induction false} KeepsThrough(env: Env, before: State, start: State, end: State, after: State)
    requires SameRecord(before, start) && KeepsRecord(env, start, end) && SameRecord(end, after)
    ensures KeepsRecord(env, before, after)
  {
    hide CompleteEntries, CompleteDefinitions, DefsOf;
  }

  lemma {:induction false} StepKeepsFile(env: Env, op: Operation, st: State, i: nat)
    requires AccurateApi(env) && File(env, op) && ClusterShows(env, op, st.live) && KeepsFile(op.task)
    requires FileRecord(env, op, st.files) && (StoringTask(op.task) ==> i <= |st.files|) && i < |op.definitions|
    ensures FileKept(env, op, st, Step(env, st, op, i), i)
  {
    var d, path := op.definitions[i], PathFor(op, i);
    assert d in op.definitions && Served(env, d);
    var m := env.resolver.mappingWithOptions(d).value;
    StepOf(env, st, op, i);
    CurrentStateFrame(env, st, op, m, d, path);
    var current := CurrentState(env, st, op, m, d, path);
    var handled := HandleExisting(env, current.st, Exists(current.existence));
    hide Step, RunTask, CurrentState, Served, FileRecord, ClusterShows, File, KeepsRecord, PathFor;
    TaskKeepsFile(env, op, handled, i, m);
    var r := RunTask(env, handled, op.task, m, d, path).st;
    KeepsThrough(env, st, handled, r, r.(perform := false));
    KeepsThrough(env, st, handled, r, r);
  }

  /** A pass of a creation, update, read or status check keeps the record in order whatever
      it ends with, and finishes it when it ends normally. */
  lemma {:induction false} PassKeepsFile(env: Env, op: Operation, st: State, i: nat)
    requires AccurateApi(env) && File(env, op) && ClusterShows(env, op, st.live) && KeepsFile(op.task)
    requires FileRecord(env, op, st.files) && (StoringTask(op.task) ==> i <= |st.files|) && i <= |op.definitions|
    ensures SoundAlong(env, st, op, i)
    ensures var r := Pass(env, st, op, i);
            && ClusterShows(env, op, r.st.live) && FileRecord(env, op, r.st.files) && |st.files| <= |r.st.files|
            && KeepsRecord(env, st, r.st)
            && (r.out.Done? && StoringTask(op.task) && i < |op.definitions| ==> |r.st.files| == |op.definitions|)
    decreases |op.definitions| - i
  {
    hide Step, File, ClusterShows, FileRecord;
    if i < |op.definitions| {
      StepKeepsFile(env, op, st, i);
      PassCases(env, st, op, i);
      var r := Step(env, st, op, i);
      RecordIsSound(env, op, r.st.files);
      RecordLength(env, op, r.st.files);
      if r.out.Done? { PassKeepsFile(env, op, r.st, i + 1); }
    }
  }

  lemma {:induction false} RecordLength(env: Env, op: Operation, files: FileMap)
    requires FileRecord(env, op, files)
    ensures |files| <= |op.definitions|
  {
  }

  /** Creating the resources of a file, or finding them there, does not fail. */
  lemma {:induction false} CreateSucceeds(env: Env, op: Operation, st: State, i: nat, m: string)
    requires AccurateApi(env) && !env.external && File(env, op) && ClusterShows(env, op, st.live)
    requires i < |op.definitions| && env.resolver.mappingWithOptions(op.definitions[i]) == Some(m)
    ensures var r := RunFileCreate(env, st, m, op.definitions[i], PathFor(op, i));
            && r.out == Done
            && (r.st.live == st.live
                || r.st.live == st.live[MappedKey(env, op.definitions[i]) := env.render(op.definitions[i])])
  {
    var d, path := op.definitions[i], PathFor(op, i);
    assert d in op.definitions && Served(env, d);
    FilePaths(env, op, i, i);
    CheckAccurately(env, st, m, d);
    ReadTruly(env, op, st, d);
    var c := CheckExists(env, st, m, d);
    var handled := HandleExisting(env, c.st, Exists(c.existence));
    CreateTruly(env, op, handled, d);
    if handled.perform {
      StoreShown(env, Create(env, handled, m, d), path, d);
    } else {
      StoreShown(env, Reply(handled, Got(c.existence.obj)), path, d);
    }
    hide StoreAnswer, Shows, ClusterShows, File, PathFor;
  }

  /** What lives under the keys of the file is what the server has made of its definitions. */
  ghost predicate OnlyRendered(env: Env, op: Operation, live: map<Key, Resource>)
    requires File(env, op)
  {
    forall d :: d in op.definitions && MappedKey(env, d) in live ==> live[MappedKey(env, d)] == env.render(d)
  }

  lemma {:induction false} RenderedMore(env: Env, op: Operation, live: map<Key, Resource>, i: nat)
    requires File(env, op) && i < |op.definitions| && OnlyRendered(env, op, live)
    ensures var d := op.definitions[i];
            env.resolver.mappingWithOptions(d).Some? && OnlyRendered(env, op, live[MappedKey(env, d) := env.render(d)])
  {
    var d := op.definitions[i];
    assert d in op.definitions && Served(env, d);
    forall e | e in op.definitions && e != d ensures MappedKey(env, e) != MappedKey(env, d) {
      var j :| 0 <= j < |op.definitions| && op.definitions[j] == e;
      assert if i < j then Different(env, op.definitions[i], op.definitions[j])
        else Different(env, op.definitions[j], op.definitions[i]);
    }
    hide Shows;
  }

  lemma {:induction false} StepCreation(env: Env, op: Operation, st: State, i: nat)
    requires AccurateApi(env) && !env.external && File(env, op) && ClusterShows(env, op, st.live) && op.task.FileCreate?
    requires FileRecord(env, op, st.files) && i <= |st.files| && i < |op.definitions|
    ensures var r := Step(env, st, op, i);
            r.out == Done && (OnlyRendered(env, op, st.live) ==> OnlyRendered(env, op, r.st.live))
  {
    var d, path := op.definitions[i], PathFor(op, i);
    assert d in op.definitions && Served(env, d);
    var m := env.resolver.mappingWithOptions(d).value;
    var current := CurrentState(env, st, op, m, d, path);
    var handled := HandleExisting(env, current.st, Exists(current.existence));
    CreateSucceeds(env, op, handled, i, m);
    if OnlyRendered(env, op, st.live) { RenderedMore(env, op, st.live, i); }
    hide RunFileCreate, Served, File, ClusterShows, OnlyRendered, FileRecord, PathFor;
  }

  /** So a whole creation succeeds. */
  lemma {:induction false} CreationSucceeds(env: Env, op: Operation, st: State, i: nat)
    requires AccurateApi(env) && !env.external && File(env, op) && ClusterShows(env, op, st.live) && op.task.FileCreate?
    requires FileRecord(env, op, st.files) && i <= |st.files| && i <= |op.definitions|
    ensures var r := Pass(env, st, op, i);
            r.out == Done && (OnlyRendered(env, op, st.live) ==> OnlyRendered(env, op, r.st.live))
    decreases |op.definitions| - i
  {
    hide Step, File, ClusterShows, FileRecord, OnlyRendered;
    if i < |op.definitions| {
      StepKeepsFile(env, op, st, i);
      StepCreation(env, op, st, i);
      PassCases(env, st, op, i);
      CreationSucceeds(env, op, Step(env, st, op, i).st, i + 1);
    }
  }

  /** An operation on the same file. */
  ghost predicate OnFile(op: Operation, other: Operation) {
    other == op.(task := other.task) && KeepsFile(other.task)
  }

  lemma {:induction false} SameFile(env: Env, op: Operation, other: Operation, files: FileMap, live: map<Key, Resource>)
    requires other == op.(task := other.task)
    ensures File(env, other) <==> File(env, op)
    ensures FileRecord(env, other, files) <==> FileRecord(env, op, files)
    ensures File(env, op) ==> (ClusterShows(env, other, live) <==> ClusterShows(env, op, live))
  {
    assert forall j: nat :: PathFor(other, j) == PathFor(op, j);
  }

  lemma {:induction false} FileIsOperation(env: Env, op: Operation)
    requires File(env, op) && FileTask(op.task)
    ensures FileOperation(op)
  {
    NumberedOperation(op);
  }

  /** Creations, updates, reads and status checks of one file, in any order and with any
      outcomes, keep its record in order: the first definitions of the file have one entry
      each, and the two parts of the record agree. */
  lemma {:induction false} SetUpKeepsFile(env: Env, op: Operation, st: State, ops: seq<Operation>)
    requires AccurateApi(env) && File(env, op) && ClusterShows(env, op, st.live) && FileRecord(env, op, st.files)
    requires Agrees(st.files, st.defs) && forall o :: o in ops ==> OnFile(op, o)
    ensures SoundRun(env, st, ops)
    ensures var after := Run(env, st, ops);
            && ClusterShows(env, op, after.live) && FileRecord(env, op, after.files) && Agrees(after.files, after.defs)
            && KeepsRecord(env, st, after)
    decreases |ops|
  {
    hide File, ClusterShows, FileRecord, Pass;
    if ops != [] {
      assert ops[0] in ops && forall o :: o in ops[1..] ==> o in ops;
      var first, next := ops[0], Pass(env, st, ops[0], 0).st;
      SameFile(env, op, first, st.files, st.live);
      SameFile(env, op, first, next.files, next.live);
      PassKeepsFile(env, first, st, 0);
      FileIsOperation(env, first);
      PassAgrees(env, st, first, 0);
      SetUpKeepsFile(env, op, next, ops[1..]);
    }
  }
}
