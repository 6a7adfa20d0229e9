/**
 * What creating a file records, and the agreement of the record over passes and runs of
 * file operations.
 */
module Creation {
  import opened Options
  import opened JsonValues
  import opened Definitions
  import opened Paths
  import opened Record
  import opened FileMaps
  import opened Cluster
  import opened FileDeletion
  import opened Agreement
  import opened Convergence
  import opened Tasks

  // ------------------------------------------------ one entry per definition

  /** Every live object stays as it was. */
  ghost predicate Extends(before: map<Key, Resource>, after: map<Key, Resource>) {
    forall k :: k in before ==> k in after && after[k] == before[k]
  }

  ghost function MappedKey(env: Env, d: Definition): Key
    requires env.resolver.mappingWithOptions(d).Some?
  {
    KeyOf(env, env.resolver.mappingWithOptions(d).value, d)
  }

  lemma {:induction false} StoreAnswerPuts(r: Reply, path: string, live: Resource)
    requires r.response == Got(CleanResource(live)) && path != "" && StoreAnswer(r, path).out.Done?
    ensures StoreAnswer(r, path).st.files == Put(r.st.files, path, CleanResource(live))
    ensures StoreAnswer(r, path).st.live == r.st.live
  {
    CleanResourceFixed(live);
    CleanResourceFixed(CleanResource(live));
    assert CleanMetadata(CleanResource(live)) == CleanResource(live) by {
      if live.metadata.Some? { CleanDictFixed(CleanDict(live.metadata.value)); }
    }
  }

  /** A successful file creation records the live object, found or created. */
  lemma {:induction false} FileCreateRecords(env: Env, st: State, mapping: string, d: Definition, path: string)
    requires AccurateApi(env) && HasName(d) && path != ""
    requires RunFileCreate(env, st, mapping, d, path).out.Done?
    ensures var after, key := RunFileCreate(env, st, mapping, d, path).st, KeyOf(env, mapping, d);
            && Extends(st.live, after.live) && key in after.live
            && after.files == Put(st.files, path, CleanResource(after.live[key]))
  {
    ReadAccurately(env, st, mapping, d);
    var key, c := KeyOf(env, mapping, d), CheckExists(env, st, mapping, d);
    var handled := HandleExisting(env, c.st, Exists(c.existence));
    if handled.perform {
      var r := DoCreate(env, handled, mapping, d);
      StoreAnswerPuts(r, path, env.render(d));
    } else {
      StoreAnswerPuts(Reply(handled, Got(c.existence.obj)), path, st.live[key]);
    }
  }

  lemma {:induction false} StepRecords(env: Env, st: State, op: Operation, i: nat)
    requires AccurateApi(env) && op.task.FileCreate? && i < |op.definitions| && HasName(op.definitions[i])
    requires PathFor(op, i) != "" && Step(env, st, op, i).out.Done?
    ensures env.resolver.mappingWithOptions(op.definitions[i]).Some?
    ensures var after, key := Step(env, st, op, i).st, MappedKey(env, op.definitions[i]);
            && Extends(st.live, after.live) && key in after.live
            && after.files == Put(st.files, PathFor(op, i), CleanResource(after.live[key]))
  {
    var d, path := op.definitions[i], PathFor(op, i);
    var m := env.resolver.mappingWithOptions(d).value;
    var current := CurrentState(env, st, op, m, d, path);
    FileCreateRecords(env, HandleExisting(env, current.st, Exists(current.existence)), m, d, path);
  }

  /** The path is that of one of the definitions from `i` on. */
  ghost predicate NumberedFrom(op: Operation, i: nat, path: string) {
    exists j :: i <= j < |op.definitions| && PathFor(op, j) == path
  }

  ghost predicate NumberedCreate(op: Operation) {
    && op.task.FileCreate? && op.origin.Some? && op.origin.value != ""
    && forall d :: d in op.definitions ==> HasName(d)
  }

  /** The entry recorded for a definition: the cleaned image of the object living under its key. */
  ghost predicate RecordedFor(env: Env, st: State, op: Operation, j: nat)
    requires j < |op.definitions|
  {
    var d := op.definitions[j];
    && env.resolver.mappingWithOptions(d).Some? && MappedKey(env, d) in st.live
    && Lookup(st.files, PathFor(op, j)) == Some(CleanResource(st.live[MappedKey(env, d)]))
  }

  lemma {:induction false} PassCases(env: Env, st: State, op: Operation, i: nat)
    requires i < |op.definitions|
    ensures var r := Step(env, st, op, i);
            Pass(env, st, op, i) == if r.out.Done? then Pass(env, r.st, op, i + 1) else r
  {
  }

  /** The step of a task that cleans nothing up. */
  lemma {:induction false} StepOf(env: Env, st: State, op: Operation, i: nat)
    requires i < |op.definitions| && env.resolver.mappingWithOptions(op.definitions[i]).Some? && !CleansUp(op.task)
    ensures var d, m, path := op.definitions[i], env.resolver.mappingWithOptions(op.definitions[i]).value,
        PathFor(op, i);
            var current := CurrentState(env, st, op, m, d, path);
            var r := RunTask(env, HandleExisting(env, current.st, Exists(current.existence)), op.task, m, d, path);
            Step(env, st, op, i) == if current.existence.Unknown? then Stop(current.st, current.existence.error)
                                    else if r.out.Done? then Result(r.st.(perform := false), Done) else r
  {
    hide RunTask, CurrentState, PathFor, HandleExisting;
  }

  lemma {:induction false} PathsOfCreate(op: Operation, i: nat, j: nat)
    requires NumberedCreate(op)
    ensures PathFor(op, i) != "" && (PathFor(op, i) == PathFor(op, j) ==> i == j)
  {
    if PathFor(op, i) == PathFor(op, j) { NumberedPathInjective(op.origin.value, i, j); }
  }

  /** What a create pass from definition `i` on has done between two states. */
  ghost predicate CreatedFrom(env: Env, before: State, after: State, op: Operation, i: nat) {
    && Extends(before.live, after.live)
    && (forall j :: i <= j < |op.definitions| ==> RecordedFor(env, after, op, j))
    && (forall q :: !NumberedFrom(op, i, q) ==> Lookup(after.files, q) == Lookup(before.files, q))
  }

  lemma {:induction false} CreatedOneMore(env: Env, before: State, next: State, after: State, op: Operation, i: nat)
    requires NumberedCreate(op) && i < |op.definitions| && env.resolver.mappingWithOptions(op.definitions[i]).Some?
    requires var key := MappedKey(env, op.definitions[i]);
             && Extends(before.live, next.live) && key in next.live
             && next.files == Put(before.files, PathFor(op, i), CleanResource(next.live[key]))
    requires CreatedFrom(env, next, after, op, i + 1)
    ensures CreatedFrom(env, before, after, op, i)
  {
    var path, obj := PathFor(op, i), CleanResource(next.live[MappedKey(env, op.definitions[i])]);
    forall j | i < j < |op.definitions| ensures PathFor(op, j) != path { PathsOfCreate(op, i, j); }
    assert !NumberedFrom(op, i + 1, path);
    LookupAfterPut(before.files, path, obj, path);
    assert RecordedFor(env, after, op, i);
    forall q | !NumberedFrom(op, i, q) ensures Lookup(after.files, q) == Lookup(before.files, q) {
      assert PathFor(op, i) != q;
      assert !NumberedFrom(op, i + 1, q);
      LookupAfterPut(before.files, path, obj, q);
    }
  }

  /** A successful create pass with an origin path changes the map exactly at the numbered
      paths of its definitions, which are all different, and the entry of each definition is
      the object that now lives under that definition's key. */
  lemma {:induction false} CreatePassRecords(env: Env, st: State, op: Operation, i: nat)
    requires AccurateApi(env) && NumberedCreate(op) && i <= |op.definitions|
    requires Pass(env, st, op, i).out.Done?
    ensures CreatedFrom(env, st, Pass(env, st, op, i).st, op, i)
    ensures forall j, k :: i <= j < k < |op.definitions| ==> PathFor(op, j) != PathFor(op, k)
    decreases |op.definitions| - i
  {
    hide Step;
    forall j, k | i <= j < k < |op.definitions| ensures PathFor(op, j) != PathFor(op, k) { PathsOfCreate(op, j, k); }
    if i < |op.definitions| {
      var r := Step(env, st, op, i);
      PassCases(env, st, op, i);
      CreatePassRecords(env, r.st, op, i + 1);
      assert op.definitions[i] in op.definitions && PathFor(op, i) != "" by { PathsOfCreate(op, i, i); }
      StepRecords(env, st, op, i);
      CreatedOneMore(env, st, r.st, Pass(env, r.st, op, i + 1).st, op, i);
    }
  }

  // ------------------------------------------------------------- agreement

  /** Objects fit for the record, different ones under different paths. */
  ghost predicate SoundFiles(m: FileMap) {
    GoodEntries(m) && Distinct(m)
  }

  lemma {:induction false} PutOnlyAt(m: FileMap, path: string, r: Resource)
    requires Distinct(m) && Distinct(Put(m, path, r))
    ensures OnlyAt(m, path, IdentityOf(r))
  {
    var n, at := Put(m, path, r), IndexOf(m, path);
    forall e: Entry | e in m && e.path != path ensures IdentityOf(e.resource) != IdentityOf(r) {
      var k :| 0 <= k < |m| && m[k] == e;
      assert n[k] == e && n[at] == Entry(path, r);
      if k < at { assert Separate(n[k], n[at]); } else { assert Separate(n[at], n[k]); }
    }
  }

  lemma {:induction false} StoreAnswerAgrees(r: Reply, path: string)
    requires Agrees(r.st.files, r.st.defs) && path != ""
    requires r.response.Got? ==> CleanedResource(r.response.obj)
    requires SoundFiles(StoreAnswer(r, path).st.files)
    ensures Agrees(StoreAnswer(r, path).st.files, StoreAnswer(r, path).st.defs)
  {
    if r.response.Got? {
      var obj := r.response.obj;
      var s := StoreResult(r.st, obj, path);
      if s.error.None? {
        assert CleanMetadata(obj) == obj by { CleanDictFixed(obj.metadata.value); }
        assert s.st.files == Put(r.st.files, path, obj);
        var at := IndexOf(r.st.files, path);
        assert s.st.files[at] in s.st.files && s.st.files[at] == Entry(path, obj);
        assert GoodEntry(Entry(path, obj));
        PutOnlyAt(r.st.files, path, obj);
        StoreResultAgrees(r.st, obj, path);
      }
    }
  }

  /** A response of the API is a cleaned object. */
  ghost predicate CleanReply(before: State, r: Reply) {
    SameRecord(before, r.st) && (r.response.Got? ==> CleanedResource(r.response.obj))
  }

  lemma {:induction false} ApiRepliesClean(env: Env, st: State, mapping: string, d: Definition)
    ensures CleanReply(st, Read(env, st, mapping, d))
    ensures CleanReply(st, Update(env, st, mapping, d))
    ensures CleanReply(st, Create(env, st, mapping, d))
  {
    var r, u, c := Read(env, st, mapping, d), Update(env, st, mapping, d), Create(env, st, mapping, d);
    CleanResourceFixed(env.render(d));
    if env.script(st.tick).Stale? { CleanResourceFixed(env.script(st.tick).obj); }
    if KeyOf(env, mapping, d) in st.live {
      CleanResourceFixed(st.live[KeyOf(env, mapping, d)]);
      CleanResourceFixed(env.revise(st.live[KeyOf(env, mapping, d)], d));
    }
  }

  ghost predicate StoringTask(t: Task) {
    t.FileCreate? || t.FileUpdate? || t.FileRead?
  }

  lemma {:induction false} StoringTaskAgrees(env: Env, st: State, t: Task, mapping: string, d: Definition, path: string)
    requires StoringTask(t) && Agrees(st.files, st.defs) && path != ""
    requires SoundFiles(RunTask(env, st, t, mapping, d, path).st.files)
    ensures var r := RunTask(env, st, t, mapping, d, path);
            Agrees(r.st.files, r.st.defs)
  {
    ApiRepliesClean(env, st, mapping, d);
    if t.FileCreate? {
      var c := CheckExists(env, st, mapping, d);
      if !c.existence.Unknown? {
        var handled := HandleExisting(env, c.st, Exists(c.existence));
        if handled.perform {
          ApiRepliesClean(env, handled, mapping, d);
          StoreAnswerAgrees(DoCreate(env, handled, mapping, d), path);
        } else if c.existence.Present? {
          StoreAnswerAgrees(Reply(handled, Got(c.existence.obj)), path);
        }
      }
    } else if t.FileUpdate? {
      StoreAnswerAgrees(Update(env, st, mapping, d), path);
    } else {
      var found := PeekLastCreatePath(st.files, st.defs, path);
      if !found.NoResource? && !found.BadPath? {
        StoreAnswerAgrees(Read(env, st, mapping, d), path);
      }
    }
  }

  lemma {:induction false} CheckStatusFrame(env: Env, st: State, mapping: string, d: Definition, heal: bool)
    ensures SameRecord(st, RunCheckStatus(env, st, mapping, d, heal).st)
  {
    ApiRepliesClean(env, st, mapping, d);
    var r := Read(env, st, mapping, d);
    ApiRepliesClean(env, r.st.(perform := true), mapping, d);
  }

  ghost predicate FileTask(t: Task) {
    StoringTask(t) || t.FileDelete? || t.CheckStatus?
  }

  lemma {:induction false} DropAgrees(files: FileMap, defs: seq<Resource>, path: string)
    requires Agrees(files, defs)
    ensures Agrees(Drop(files, path), defs)
  {
    if Has(files, path) { WithoutDistinct(files, IndexOf(files, path)); }
  }

  lemma {:induction false} CleanUpAgrees(st: State, op: Operation, found: bool, path: string)
    requires Agrees(st.files, st.defs)
    ensures var c := CleanUp(st, op, found, path);
            Agrees(c.files, c.defs)
  {
    DropAgrees(st.files, st.defs, path);
  }

  lemma {:induction false} FileTaskAgrees(env: Env, st: State, t: Task, mapping: string, d: Definition, path: string)
    requires FileTask(t) && Agrees(st.files, st.defs) && Stem(path).Some? && Constructed(d)
    requires StoringTask(t) ==> SoundFiles(RunTask(env, st, t, mapping, d, path).st.files)
    ensures var r := RunTask(env, st, t, mapping, d, path);
            Agrees(r.st.files, r.st.defs)
  {
    if StoringTask(t) {
      StoringTaskAgrees(env, st, t, mapping, d, path);
    } else if t.FileDelete? {
      DeleteFileAgrees(env, st, mapping, d, path);
    } else {
      CheckStatusFrame(env, st, mapping, d, t.heal);
    }
  }

  lemma {:induction false} StepAgrees(env: Env, st: State, op: Operation, i: nat)
    requires FileTask(op.task) && i < |op.definitions|
    requires Agrees(st.files, st.defs) && Stem(PathFor(op, i)).Some? && Constructed(op.definitions[i])
    requires StoringTask(op.task) ==> SoundFiles(Step(env, st, op, i).st.files)
    ensures var r := Step(env, st, op, i);
            Agrees(r.st.files, r.st.defs)
  {
    var d, path := op.definitions[i], PathFor(op, i);
    var m := env.resolver.mappingWithOptions(d);
    if m.Some? {
      ApiRepliesClean(env, st, m.value, d);
      var current := CurrentState(env, st, op, m.value, d, path);
      if !current.existence.Unknown? {
        var found := Exists(current.existence);
        var handled := HandleExisting(env, current.st, found);
        FileTaskAgrees(env, handled, op.task, m.value, d, path);
        CleanUpAgrees(RunTask(env, handled, op.task, m.value, d, path).st.(perform := false), op, found, path);
      }
    }
  }

  /** After each definition of a create, update or read, the objects recorded are fit for the
      record and differ from path to path. */
  ghost predicate SoundAlong(env: Env, st: State, op: Operation, i: nat)
    requires i <= |op.definitions|
    decreases |op.definitions| - i
  {
    StoringTask(op.task) && i < |op.definitions| ==>
      var r := Step(env, st, op, i);
      SoundFiles(r.st.files) && (r.out.Done? ==> SoundAlong(env, r.st, op, i + 1))
  }

  ghost predicate FileOperation(op: Operation) {
    && FileTask(op.task)
    && (forall i: nat :: Stem(PathFor(op, i)).Some?)
    && (forall d :: d in op.definitions ==> Constructed(d))
  }

  lemma {:induction false} SoundStep(env: Env, st: State, op: Operation, i: nat)
    requires i < |op.definitions| && SoundAlong(env, st, op, i)
    ensures StoringTask(op.task) ==> SoundFiles(Step(env, st, op, i).st.files)
    ensures Step(env, st, op, i).out.Done? ==> SoundAlong(env, Step(env, st, op, i).st, op, i + 1)
  {
  }

  /** The step of the induction: one definition, and what the rest of the pass starts from. */
  lemma {:induction false} StepAgreesAlong(env: Env, st: State, op: Operation, i: nat) returns (r: Result)
    requires FileOperation(op) && i < |op.definitions|
    requires Agrees(st.files, st.defs) && SoundAlong(env, st, op, i)
    ensures Pass(env, st, op, i) == if r.out.Done? then Pass(env, r.st, op, i + 1) else r
    ensures Agrees(r.st.files, r.st.defs)
    ensures r.out.Done? ==> SoundAlong(env, r.st, op, i + 1)
  {
    r := Step(env, st, op, i);
    assert op.definitions[i] in op.definitions;
    SoundStep(env, st, op, i);
    StepAgrees(env, st, op, i);
    PassCases(env, st, op, i);
  }

  lemma {:induction false} PassAgrees(env: Env, st: State, op: Operation, i: nat)
    requires FileOperation(op) && i <= |op.definitions|
    requires Agrees(st.files, st.defs) && SoundAlong(env, st, op, i)
    ensures Agrees(Pass(env, st, op, i).st.files, Pass(env, st, op, i).st.defs)
    decreases |op.definitions| - i
  {
    hide Step;
    if i < |op.definitions| {
      var r := StepAgreesAlong(env, st, op, i);
      if r.out.Done? { PassAgrees(env, r.st, op, i + 1); }
    }
  }

  ghost predicate SoundRun(env: Env, st: State, ops: seq<Operation>)
    decreases |ops|
  {
    ops == [] || (FileOperation(ops[0]) && SoundAlong(env, st, ops[0], 0)
      && SoundRun(env, Pass(env, st, ops[0], 0).st, ops[1..]))
  }

  /** Over whole runs of file creations, updates, reads, status checks and deletions, with
      every outcome and every sequence of API answers, the two parts of the record agree. */
  lemma {:induction false} RunsAgree(env: Env, st: State, ops: seq<Operation>)
    requires Agrees(st.files, st.defs) && SoundRun(env, st, ops)
    ensures Agrees(Run(env, st, ops).files, Run(env, st, ops).defs)
    decreases |ops|
  {
    if ops != [] {
      PassAgrees(env, st, ops[0], 0);
      RunsAgree(env, Pass(env, st, ops[0], 0).st, ops[1..]);
    }
  }

  /** An origin whose path has one `.yaml` numbers all its definitions into one file. */
  lemma {:induction false} NumberedOperation(op: Operation)
    requires op.origin.Some? && Stem(op.origin.value).Some?
    ensures forall i: nat ::
              Stem(PathFor(op, i)) == Stem(op.origin.value) && Contains(PathFor(op, i), Stem(op.origin.value).value)
  {
    forall i: nat
      ensures Stem(PathFor(op, i)) == Stem(op.origin.value) && Contains(PathFor(op, i), Stem(op.origin.value).value) {
      NumberedPathStem(op.origin.value, i);
    }
  }
}
