/**
 * Safety over whole runs with an accurate API: no create call on a live key, and no
 * deletion of an existing object that is declared external.
 */
module Safety {
  import opened Definitions
  import opened Record
  import opened FileMaps
  import opened Cluster
  import opened FileDeletion
  import opened Convergence
  import opened Tasks

  ghost predicate TruthyCluster(live: map<Key, Resource>) {
    forall k :: k in live ==> TruthyResource(live[k])
  }

  ghost predicate TruthyServer(env: Env) {
    (forall d :: TruthyResource(env.render(d))) && forall r, d :: TruthyResource(env.revise(r, d))
  }

  ghost predicate HarmlessCall(env: Env, c: Call) {
    && (c.CreateCall? ==> !c.wasLive)
    && (c.DeleteCall? && env.external ==> !c.wasLive)
  }

  /** Nothing live was created again, nothing external that was live was deleted. */
  ghost predicate Harmless(env: Env, st: State) {
    TruthyCluster(st.live) && forall c :: c in st.calls ==> HarmlessCall(env, c)
  }

  /** What every step keeps; under external use the cluster also only grows. */
  ghost predicate Keeps(env: Env, before: State, after: State) {
    Harmless(env, before) ==> Harmless(env, after) && (env.external ==> before.live.Keys <= after.live.Keys)
  }

  lemma {:induction false} StoreResultKeeps(env: Env, st: State, result: Resource, path: string)
    ensures Keeps(env, st, StoreResult(st, result, path).st)
  {
    assert StoreResult(st, result, path).st.calls == st.calls && StoreResult(st, result, path).st.live == st.live;
  }

  lemma {:induction false} StoreEntriesKeeps(env: Env, st: State, entries: FileMap)
    ensures Keeps(env, st, StoreEntries(st, entries).st)
    decreases |entries|
  {
    if entries != [] {
      StoreResultKeeps(env, st, entries[0].resource, entries[0].path);
      var s := StoreResult(st, entries[0].resource, entries[0].path);
      if s.error.None? { StoreEntriesKeeps(env, s.st, entries[1..]); }
    }
  }

  lemma {:induction false} CheckAccurately(env: Env, st: State, mapping: string, d: Definition)
    requires AccurateApi(env)
    ensures var c := CheckExists(env, st, mapping, d);
            && c.st == st.(tick := c.st.tick)
            && (TruthyCluster(st.live) && HasName(d) ==> (Exists(c.existence) <==> KeyOf(env, mapping, d) in st.live))
            && (Exists(c.existence) ==> HasName(d) && KeyOf(env, mapping, d) in st.live)
  {
    ReadAccurately(env, st, mapping, d);
    if KeyOf(env, mapping, d) in st.live { CleanTruthy(st.live[KeyOf(env, mapping, d)]); }
  }

  lemma {:induction false} UpdateKeeps(env: Env, st: State, mapping: string, d: Definition)
    requires AccurateApi(env) && TruthyServer(env)
    ensures Keeps(env, st, Update(env, st, mapping, d).st)
  {
  }

  /** Creating is harmless where the key is known not to be live. */
  lemma {:induction false} DoCreateKeeps(env: Env, st: State, mapping: string, d: Definition)
    requires AccurateApi(env) && TruthyServer(env)
    requires st.perform ==> HasName(d) && KeyOf(env, mapping, d) !in st.live
    ensures Keeps(env, st, DoCreate(env, st, mapping, d).st)
  {
    ReadAccurately(env, st, mapping, d);
  }

  /** A deletion is skipped when the object exists and is external. */
  lemma {:induction false} DoDeleteKeeps(env: Env, st: State, mapping: string, d: Definition)
    requires AccurateApi(env)
    ensures Keeps(env, st, DoDelete(env, st, mapping, d).st)
  {
    CheckAccurately(env, st, mapping, d);
  }

  lemma {:induction false} PrepareKeeps(env: Env, st: State, mapping: string, d: Definition, obj: Resource)
    requires AccurateApi(env) && TruthyServer(env)
    ensures Keeps(env, st, DeleteAndPrepare(env, st, mapping, d, obj).st)
  {
    UpdateKeeps(env, HandleDelete(env, st, true), mapping,
                WithoutFinalizers(d));
  }

  lemma {:induction false} DeleteTargetKeeps(env: Env, st: State, mapping: string, d: Definition, path: string,
          adjacent: FileMap)
    requires AccurateApi(env) && TruthyServer(env)
    ensures Keeps(env, st, DeleteTarget(env, st, mapping, d, path, adjacent).st)
  {
    var r := DoDelete(env, st, mapping, d);
    DoDeleteKeeps(env, st, mapping, d);
    if r.response.Got? {
      PrepareKeeps(env, r.st, mapping, d, r.response.obj);
      var p := DeleteAndPrepare(env, r.st, mapping, d, r.response.obj);
      StoreResultKeeps(env, p.st, Stored(d), path);
      StoreEntriesKeeps(env, StoreResult(p.st, Stored(d), path).st, adjacent);
    }
  }

  lemma {:induction false} DeleteFileKeeps(env: Env, st: State, mapping: string, d: Definition, path: string)
    requires AccurateApi(env) && TruthyServer(env)
    ensures Keeps(env, st, DeleteFile(env, st, mapping, d, path).st)
    decreases |st.files|, 0
  {
    var chosen := ResolveTarget(env, st, path, d, mapping);
    ResolveTargetFrame(env, st, path, d, mapping);
    if chosen.target.Resolved? {
      var adjacent, target, m := chosen.target.adjacent, chosen.target.definition, chosen.target.mapping;
      ReadAccurately(env, chosen.st, m, target);
      var read := Read(env, chosen.st, m, target);
      if ReadingOf(read.response).Missing? && adjacent != [] {
        DeleteInnerKeeps(env, read.st, adjacent, target, path);
        StoreEntriesKeeps(env, DeleteInner(env, read.st, adjacent, target, path).st, adjacent);
      } else if ReadingOf(read.response).Readable? {
        DeleteTargetKeeps(env, read.st, m, target, path, adjacent);
        DeleteTargetFrame(env, read.st, m, target, path, adjacent);
        StoreEntriesKeeps(env, DeleteTarget(env, read.st, m, target, path, adjacent).st, adjacent);
      }
    }
  }

  lemma {:induction false} DeleteInnerKeeps(env: Env, st: State, adjacent: FileMap, outer: Definition, path: string)
    requires AccurateApi(env) && TruthyServer(env)
    ensures Keeps(env, st, DeleteInner(env, st, adjacent, outer, path).st)
    decreases |st.files|, |adjacent| + 1
  {
    if adjacent != [] {
      var inner, m := InnerDefinition(adjacent[0].resource), env.mappingByKind(outer);
      if inner.None? {
        DeleteInnerKeeps(env, st, adjacent[1..], outer, path);
      } else if m.Some? {
        DeleteFileKeeps(env, st, m.value, inner.value, path);
        var r := DeleteFile(env, st, m.value, inner.value, path);
        if r.out.Done? { DeleteInnerKeeps(env, r.st, adjacent[1..], outer, path); }
      }
    }
  }

  lemma {:induction false} StoreAnswerKeeps(env: Env, r: Reply, path: string)
    ensures Keeps(env, r.st, StoreAnswer(r, path).st)
  {
    if r.response.Got? { StoreResultKeeps(env, r.st, r.response.obj, path); }
  }

  lemma {:induction false} FileCreateKeeps(env: Env, st: State, mapping: string, d: Definition, path: string)
    requires AccurateApi(env) && TruthyServer(env) && HasName(d) && TruthyCluster(st.live)
    ensures Keeps(env, st, RunFileCreate(env, st, mapping, d, path).st)
  {
    CheckAccurately(env, st, mapping, d);
    var c := CheckExists(env, st, mapping, d);
    var handled := HandleExisting(env, c.st, Exists(c.existence));
    if handled.perform {
      DoCreateKeeps(env, handled, mapping, d);
      StoreAnswerKeeps(env, DoCreate(env, handled, mapping, d), path);
    } else if c.existence.Present? {
      StoreAnswerKeeps(env, Reply(handled, Got(c.existence.obj)), path);
    }
  }

  lemma {:induction false} CheckStatusKeeps(env: Env, st: State, mapping: string, d: Definition, heal: bool)
    requires AccurateApi(env) && TruthyServer(env) && HasName(d)
    ensures Keeps(env, st, RunCheckStatus(env, st, mapping, d, heal).st)
  {
    ReadAccurately(env, st, mapping, d);
    var r := Read(env, st, mapping, d);
    if r.response.ApiError? { DoCreateKeeps(env, r.st.(perform := true), mapping, d); }
  }

  lemma {:induction false} SingleDeleteKeeps(env: Env, st: State, mapping: string, d: Definition)
    requires AccurateApi(env)
    ensures Keeps(env, st, RunSingleDelete(env, st, mapping, d).st)
  {
    ReadAccurately(env, st, mapping, d);
    var r := Read(env, st, mapping, d);
    if r.response.Got? {
      var stored := RetrieveStored(env.resolver, r.st.defs, d, mapping, true);
      var popped := r.st.(defs := stored.defs);
      if stored.lookup.LookedUp? {
        DoDeleteKeeps(env, popped, stored.lookup.mapping, stored.lookup.definition);
        var deleted := DoDelete(env, popped, stored.lookup.mapping, stored.lookup.definition);
        StoreResultKeeps(env, HandleDelete(env, deleted.st, TruthyResource(r.response.obj)), r.response.obj, "");
      }
    }
  }

  lemma {:induction false} SingleCreateKeeps(env: Env, st: State, mapping: string, d: Definition)
    requires AccurateApi(env) && TruthyServer(env)
    requires st.perform ==> HasName(d) && KeyOf(env, mapping, d) !in st.live
    ensures Keeps(env, st, StoreAnswer(CreateOnce(env, st, mapping, d), "").st)
  {
    DoCreateKeeps(env, st, mapping, d);
    StoreAnswerKeeps(env, CreateOnce(env, st, mapping, d), "");
  }

  lemma {:induction false} UpdateTaskKeeps(env: Env, st: State, mapping: string, d: Definition, path: string)
    requires AccurateApi(env) && TruthyServer(env)
    ensures Keeps(env, st, StoreAnswer(Update(env, st, mapping, d), path).st)
  {
    UpdateKeeps(env, st, mapping, d);
    StoreAnswerKeeps(env, Update(env, st, mapping, d), path);
  }

  lemma {:induction false} ReadTaskKeeps(env: Env, st: State, mapping: string, d: Definition, path: string)
    requires AccurateApi(env)
    ensures Keeps(env, st, StoreAnswer(Read(env, st, mapping, d), path).st)
  {
    ReadAccurately(env, st, mapping, d);
    StoreAnswerKeeps(env, Read(env, st, mapping, d), path);
  }

  lemma {:induction false} TaskKeeps(env: Env, st: State, t: Task, mapping: string, d: Definition, path: string)
    requires AccurateApi(env) && TruthyServer(env) && HasName(d) && TruthyCluster(st.live)
    requires t.SingleCreate? && st.perform ==> KeyOf(env, mapping, d) !in st.live
    ensures Keeps(env, st, RunTask(env, st, t, mapping, d, path).st)
  {
    match t
    case FileCreate => FileCreateKeeps(env, st, mapping, d, path);
    case FileDelete => DeleteFileKeeps(env, st, mapping, d, path);
    case SingleDelete => SingleDeleteKeeps(env, st, mapping, d);
    case CheckStatus(heal) => CheckStatusKeeps(env, st, mapping, d, heal);
    case SingleCreate => SingleCreateKeeps(env, st, mapping, d);
    case FileUpdate => UpdateTaskKeeps(env, st, mapping, d, path);
    case SingleUpdate => UpdateTaskKeeps(env, st, mapping, d, "");
    case FileRead => ReadTaskKeeps(env, st, mapping, d, path);
    case SingleRead => ReadTaskKeeps(env, st, mapping, d, "");
  }

  lemma {:induction false} StepKeeps(env: Env, st: State, op: Operation, i: nat)
    requires AccurateApi(env) && TruthyServer(env) && i < |op.definitions| && HasName(op.definitions[i])
    ensures Keeps(env, st, Step(env, st, op, i).st)
  {
    hide RunTask;
    var d, path := op.definitions[i], PathFor(op, i);
    var m := env.resolver.mappingWithOptions(d);
    if m.Some? && TruthyCluster(st.live) {
      CheckAccurately(env, st, m.value, d);
      var current := CurrentState(env, st, op, m.value, d, path);
      TaskKeeps(env, HandleExisting(env, current.st, Exists(current.existence)), op.task, m.value, d, path);
    }
  }

  ghost predicate NamedOperation(op: Operation) {
    forall d :: d in op.definitions ==> HasName(d)
  }

  lemma {:induction false} PassKeeps(env: Env, st: State, op: Operation, i: nat)
    requires AccurateApi(env) && TruthyServer(env) && NamedOperation(op) && i <= |op.definitions|
    ensures Keeps(env, st, Pass(env, st, op, i).st)
    decreases |op.definitions| - i
  {
    hide Step;
    if i < |op.definitions| {
      assert op.definitions[i] in op.definitions;
      StepKeeps(env, st, op, i);
      var r := Step(env, st, op, i);
      if r.out.Done? { PassKeeps(env, r.st, op, i + 1); }
    }
  }

  /** Whole runs, in any order and with any outcomes: create calls only ever go to keys that
      are not live; and where resources are declared external, delete calls never reach an
      existing object, and every live object stays. */
  lemma {:induction false} RunsAreHarmless(env: Env, st: State, ops: seq<Operation>)
    requires AccurateApi(env) && TruthyServer(env)
    requires forall op :: op in ops ==> NamedOperation(op)
    requires Harmless(env, st)
    ensures Harmless(env, Run(env, st, ops))
    ensures env.external ==> st.live.Keys <= Run(env, st, ops).live.Keys
    decreases |ops|
  {
    if ops != [] {
      assert ops[0] in ops && forall op :: op in ops[1..] ==> op in ops;
      PassKeeps(env, st, ops[0], 0);
      RunsAreHarmless(env, Pass(env, st, ops[0], 0).st, ops[1..]);
    }
  }
}
