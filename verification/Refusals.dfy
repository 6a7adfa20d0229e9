/**
 * Calls that the API refuses, for every sequence of its answers: the log of calls accounts
 * for every change of the cluster, and an operation that does not fail has had no create,
 * update or delete call refused, except for claims prepared for their deletion.
 */
module Refusals {
  import opened Options
  import opened JsonValues
  import opened Definitions
  import opened Paths
  import opened Record
  import opened FileMaps
  import opened Cluster
  import opened FileDeletion
  import opened Agreement
  import opened Conservation
  import opened Tasks
  import opened Creation
  import opened External

  // ------------------------------------------- every change has its call

  /** Every object that appeared, vanished or changed did so by a call that was answered. */
  ghost predicate Accounted(before: State, after: State) {
    && before.calls <= after.calls
    && (forall k :: k in after.live && k !in before.live ==> CreateCall(k, false, false) in NewCalls(before, after))
    && (forall k :: k in before.live && k !in after.live ==> DeleteCall(k, true, false) in NewCalls(before, after))
    && (forall k :: k in before.live && k in after.live && after.live[k] != before.live[k] ==>
          AnsweredAt(NewCalls(before, after), k))
  }

  ghost predicate AnsweredAt(calls: seq<Call>, key: Key) {
    exists c :: c in calls && c.key == key && !c.refused
  }

  lemma {:induction false} AccountedChain(a: State, b: State, c: State)
    requires Accounted(a, b) && Accounted(b, c)
    ensures Accounted(a, c)
  {
    var one, two := NewCalls(a, b), NewCalls(b, c);
    assert NewCalls(a, c) == one + two;
    forall k | k in a.live && k in c.live && c.live[k] != a.live[k] ensures AnsweredAt(one + two, k) {
      if k !in b.live {
        assert DeleteCall(k, true, false) in one;
      } else if b.live[k] != a.live[k] {
        var x :| x in one && x.key == k && !x.refused;
      } else {
        var x :| x in two && x.key == k && !x.refused;
      }
    }
  }

  /** The calls between two states are refused only where the claims of files are prepared. */
  ghost predicate Unrefused(before: State, after: State, preparing: bool) {
    before.calls <= after.calls && forall c :: c in NewCalls(before, after) && c.refused ==> preparing && c.UpdateCall?
  }

  lemma {:induction false} UnrefusedChain(a: State, b: State, c: State, preparing: bool)
    requires Unrefused(a, b, preparing) && Unrefused(b, c, preparing)
    ensures Unrefused(a, c, preparing)
  {
    assert NewCalls(a, c) == NewCalls(a, b) + NewCalls(b, c);
  }

  /** What an operation, or a part of one, owes: its changes are accounted for, and unless it
      fails nothing was refused. */
  ghost predicate Owes(before: State, after: State, failed: bool, preparing: bool) {
    Accounted(before, after) && (!failed ==> Unrefused(before, after, preparing))
  }

  lemma {:induction false} OwesChain(a: State, b: State, c: State, failed: bool, preparing: bool)
    requires Owes(a, b, false, preparing) && Owes(b, c, failed, preparing)
    ensures Owes(a, c, failed, preparing)
  {
    AccountedChain(a, b, c);
    if !failed { UnrefusedChain(a, b, c, preparing); }
    hide Accounted, Unrefused;
  }

  lemma {:induction false} SameCluster(before: State, after: State, failed: bool, preparing: bool)
    requires after.live == before.live && after.calls == before.calls
    ensures Owes(before, after, failed, preparing)
  {
  }

  lemma {:induction false} OneCall(before: State, after: State, call: Call)
    requires after.calls == before.calls + [call]
    requires after.live - {call.key} == before.live - {call.key}
    requires call.refused ==> after.live == before.live
    requires call.key in after.live && call.key !in before.live ==> call == CreateCall(call.key, false, false)
    requires call.key in before.live && call.key !in after.live ==> call == DeleteCall(call.key, true, false)
    ensures Owes(before, after, call.refused, false) && Owes(before, after, call.refused, true)
    ensures call.UpdateCall? ==> Owes(before, after, false, true)
  {
    assert NewCalls(before, after) == [call] && call in [call];
    forall k | k != call.key
      ensures k in after.live <==> k in before.live
      ensures k in after.live ==> after.live[k] == before.live[k]
    {
      assert k in after.live <==> k in after.live - {call.key};
      assert k in before.live <==> k in before.live - {call.key};
      if k in after.live { assert (after.live - {call.key})[k] == (before.live - {call.key})[k]; }
    }
  }

  lemma {:induction false} CreateOwes(env: Env, st: State, mapping: string, d: Definition)
    ensures var r := Create(env, st, mapping, d);
            Owes(st, r.st, !r.response.Got?, false)
  {
    var r := Create(env, st, mapping, d);
    hide Owes;
    OneCall(st, r.st, r.st.calls[|st.calls|]);
  }

  lemma {:induction false} UpdateOwes(env: Env, st: State, mapping: string, d: Definition)
    ensures var r := Update(env, st, mapping, d);
            Owes(st, r.st, !r.response.Got?, false) && Owes(st, r.st, false, true)
  {
    var r := Update(env, st, mapping, d);
    SameCluster(st, st, true, false);
    SameCluster(st, st, false, true);
    hide Owes;
    if "name" in d.metadata && HasName(d) { OneCall(st, r.st, r.st.calls[|st.calls|]); }
  }

  lemma {:induction false} DeleteOwes(env: Env, st: State, mapping: string, d: Definition)
    ensures var r := Delete(env, st, mapping, d);
            Owes(st, r.st, !r.response.Got?, false) && Owes(st, r.st, !r.response.Got?, true)
  {
    var r := Delete(env, st, mapping, d);
    SameCluster(st, st, true, false);
    SameCluster(st, st, true, true);
    hide Owes;
    if HasName(d) { OneCall(st, r.st, r.st.calls[|st.calls|]); }
  }

  lemma {:induction false} DoDeleteOwes(env: Env, st: State, mapping: string, d: Definition)
    ensures var r := DoDelete(env, st, mapping, d);
            Owes(st, r.st, !r.response.Got?, false) && Owes(st, r.st, !r.response.Got?, true)
  {
    var c := CheckExists(env, st, mapping, d);
    var handled := HandleDelete(env, c.st, Exists(c.existence));
    SameCluster(st, c.st, !DoDelete(env, st, mapping, d).response.Got?, false);
    SameCluster(st, c.st, !DoDelete(env, st, mapping, d).response.Got?, true);
    SameCluster(st, handled, false, false);
    SameCluster(st, handled, false, true);
    DeleteOwes(env, handled, mapping, d);
    var r := Delete(env, handled, mapping, d);
    hide Owes, Delete;
    OwesChain(st, handled, r.st, !r.response.Got?, false);
    OwesChain(st, handled, r.st, !r.response.Got?, true);
  }

  // ------------------------------------------------------ file deletion

  lemma {:induction false} PrepareOwes(env: Env, st: State, mapping: string, d: Definition, obj: Resource)
    ensures Owes(st, DeleteAndPrepare(env, st, mapping, d, obj).st, false, true)
  {
    var handled := HandleDelete(env, st, true);
    SameCluster(st, handled, false, true);
    UpdateOwes(env, handled, mapping, WithoutFinalizers(d));
    hide Owes, Update;
    OwesChain(st, handled, PreparePvcDelete(env, handled, mapping, d).st, false, true);
  }

  lemma {:induction false} PutBackOwes(st: State, primary: Resource, path: string, adjacent: FileMap, failed: bool)
    ensures Owes(st, PutBack(st, primary, path, adjacent).st, failed, true)
    ensures Owes(st, RestoreAndRetry(st, adjacent).st, failed, true)
  {
    var s := StoreResult(st, primary, path);
    StoreResultFrame(st, primary, path);
    StoreEntriesFrame(st, adjacent);
    StoreEntriesFrame(s.st, adjacent);
    SameCluster(st, s.st, failed, true);
    SameCluster(st, StoreEntries(s.st, adjacent).st, failed, true);
    SameCluster(st, StoreEntries(st, adjacent).st, failed, true);
    hide Owes, StoreResult;
  }

  lemma {:induction false} DeleteTargetOwes(env: Env, st: State, mapping: string, d: Definition, path: string,
        adjacent: FileMap)
    ensures var r := DeleteTarget(env, st, mapping, d, path, adjacent);
            Owes(st, r.st, r.out.Fail?, true)
  {
    var r, end := DoDelete(env, st, mapping, d), DeleteTarget(env, st, mapping, d, path, adjacent);
    SameCluster(st, st, true, true);
    DoDeleteOwes(env, st, mapping, d);
    if r.response.Got? {
      var prepared := DeleteAndPrepare(env, r.st, mapping, d, r.response.obj);
      PrepareOwes(env, r.st, mapping, d, r.response.obj);
      PutBackOwes(prepared.st, Stored(d), path, adjacent, end.out.Fail?);
      hide Owes, DoDelete, DeleteAndPrepare, PutBack;
      OwesChain(st, r.st, prepared.st, false, true);
      FailureOwes(st, prepared.st, end.out.Fail?);
      if prepared.error.None? && prepared.st.perform { OwesChain(st, prepared.st, end.st, end.out.Fail?, true); }
    }
    hide *;
  }

  lemma {:induction false} FailureOwes(before: State, after: State, failed: bool)
    requires Owes(before, after, false, true)
    ensures Owes(before, after, failed, true)
  {
  }

  lemma {:induction false} DeleteFileOwes(env: Env, st: State, mapping: string, d: Definition, path: string)
    ensures var r := DeleteFile(env, st, mapping, d, path);
            Owes(st, r.st, r.out.Fail?, true)
    decreases |st.files|, 0
  {
    var chosen, end := ResolveTarget(env, st, path, d, mapping), DeleteFile(env, st, mapping, d, path);
    ResolveTargetFrame(env, st, path, d, mapping);
    SameCluster(st, chosen.st, end.out.Fail?, true);
    if chosen.target.Resolved? {
      var adjacent, target, m := chosen.target.adjacent, chosen.target.definition, chosen.target.mapping;
      var read := Read(env, chosen.st, m, target);
      SameCluster(st, read.st, false, true);
      FailureOwes(st, read.st, end.out.Fail?);
      if ReadingOf(read.response).Missing? && adjacent != [] {
        var inner := DeleteInner(env, read.st, adjacent, target, path);
        DeleteInnerOwes(env, read.st, adjacent, target, path);
        PutBackOwes(inner.st, Stored(target), path, adjacent, end.out.Fail?);
        hide Owes, ResolveTarget, Read;
        OwesChain(st, read.st, inner.st, inner.out.Fail?, true);
        if inner.out.Done? { OwesChain(st, inner.st, end.st, end.out.Fail?, true); }
      } else if ReadingOf(read.response).Readable? {
        var deleted := DeleteTarget(env, read.st, m, target, path, adjacent);
        DeleteTargetOwes(env, read.st, m, target, path, adjacent);
        PutBackOwes(deleted.st, Stored(target), path, adjacent, end.out.Fail?);
        hide Owes, ResolveTarget, Read, DeleteTarget;
        OwesChain(st, read.st, deleted.st, deleted.out.Fail?, true);
        if deleted.out.Done? && adjacent != [] { OwesChain(st, deleted.st, end.st, end.out.Fail?, true); }
      }
    }
    hide Owes, ResolveTarget, Read, DeleteTarget, DeleteInner;
  }

  lemma {:induction false} DeleteInnerOwes(env: Env, st: State, adjacent: FileMap, outer: Definition, path: string)
    ensures var r := DeleteInner(env, st, adjacent, outer, path);
            Owes(st, r.st, r.out.Fail?, true)
    decreases |st.files|, |adjacent| + 1
  {
    hide Owes, DeleteFile;
    var end := DeleteInner(env, st, adjacent, outer, path);
    SameCluster(st, st, end.out.Fail?, true);
    if adjacent != [] {
      var inner, m := InnerDefinition(adjacent[0].resource), env.mappingByKind(outer);
      if inner.None? {
        DeleteInnerOwes(env, st, adjacent[1..], outer, path);
      } else if m.Some? {
        DeleteFileOwes(env, st, m.value, inner.value, path);
        var r := DeleteFile(env, st, m.value, inner.value, path);
        if r.out.Done? {
          DeleteInnerOwes(env, r.st, adjacent[1..], outer, path);
          OwesChain(st, r.st, end.st, end.out.Fail?, true);
        }
      }
    }
  }

  // ------------------------------------------------------ every operation

  lemma {:induction false} StoreAnswerOwes(st: State, r: Reply, path: string)
    requires Owes(st, r.st, !r.response.Got?, false)
    ensures Owes(st, StoreAnswer(r, path).st, StoreAnswer(r, path).out.Fail?, false)
  {
    if r.response.Got? {
      StoreResultFrame(r.st, r.response.obj, path);
      SameCluster(r.st, StoreAnswer(r, path).st, StoreAnswer(r, path).out.Fail?, false);
      OwesChain(st, r.st, StoreAnswer(r, path).st, StoreAnswer(r, path).out.Fail?, false);
    }
  }

  lemma {:induction false} DoCreateOwes(env: Env, st: State, mapping: string, d: Definition)
    ensures var r := DoCreate(env, st, mapping, d);
            Owes(st, r.st, !r.response.Got?, false)
    ensures var r := CreateOnce(env, st, mapping, d);
            Owes(st, r.st, !r.response.Got?, false)
  {
    CreateOwes(env, st, mapping, d);
    var r := DoCreate(env, st, mapping, d);
    if !st.perform { SameCluster(st, r.st, !r.response.Got?, false); }
    hide Owes, Create;
  }

  lemma {:induction false} FileCreateOwes(env: Env, st: State, mapping: string, d: Definition, path: string)
    ensures var r := RunFileCreate(env, st, mapping, d, path);
            Owes(st, r.st, r.out.Fail?, false)
  {
    var c, end := CheckExists(env, st, mapping, d), RunFileCreate(env, st, mapping, d, path);
    var handled := HandleExisting(env, c.st, Exists(c.existence));
    SameCluster(st, c.st, end.out.Fail?, false);
    SameCluster(st, handled, end.out.Fail?, false);
    SameCluster(st, handled, false, false);
    DoCreateOwes(env, handled, mapping, d);
    hide Owes, DoCreate, StoreAnswer;
    if handled.perform {
      var r := DoCreate(env, handled, mapping, d);
      OwesChain(st, handled, r.st, !r.response.Got?, false);
      StoreAnswerOwes(st, r, path);
    } else if c.existence.Present? {
      StoreAnswerOwes(st, Reply(handled, Got(c.existence.obj)), path);
    }
  }

  lemma {:induction false} ReadTaskOwes(env: Env, st: State, mapping: string, d: Definition, path: string)
    ensures var r := RunFileRead(env, st, mapping, d, path);
            Owes(st, r.st, r.out.Fail?, false)
    ensures var r := RunSingleRead(env, st, mapping, d);
            Owes(st, r.st, r.out.Fail?, false)
  {
    var read, one, two := Read(env, st, mapping, d), RunFileRead(env, st, mapping, d, path),
      RunSingleRead(env, st, mapping, d);
    if read.response.Got? {
      StoreResultFrame(read.st, read.response.obj, path);
      StoreResultFrame(read.st, read.response.obj, "");
    }
    SameCluster(st, one.st, one.out.Fail?, false);
    SameCluster(st, two.st, two.out.Fail?, false);
    hide *;
  }

  lemma {:induction false} CheckStatusOwes(env: Env, st: State, mapping: string, d: Definition, heal: bool)
    ensures var r := RunCheckStatus(env, st, mapping, d, heal);
            Owes(st, r.st, r.out.Fail?, false)
  {
    var read, end := Read(env, st, mapping, d), RunCheckStatus(env, st, mapping, d, heal);
    var ready := read.st.(perform := true);
    SameCluster(st, read.st, end.out.Fail?, false);
    SameCluster(st, ready, false, false);
    DoCreateOwes(env, ready, mapping, d);
    var c := CreateOnce(env, ready, mapping, d);
    hide Owes, CreateOnce, Read;
    OwesChain(st, ready, c.st, !c.response.Got?, false);
  }

  lemma {:induction false} SingleDeleteOwes(env: Env, st: State, mapping: string, d: Definition)
    ensures var r := RunSingleDelete(env, st, mapping, d);
            Owes(st, r.st, r.out.Fail?, false)
  {
    var read, end := Read(env, st, mapping, d), RunSingleDelete(env, st, mapping, d);
    SameCluster(st, read.st, end.out.Fail?, false);
    if read.response.Got? {
      var stored := RetrieveStored(env.resolver, read.st.defs, d, mapping, true);
      var popped := read.st.(defs := stored.defs);
      SameCluster(st, popped, false, false);
      SameCluster(st, popped, true, false);
      if stored.lookup.LookedUp? {
        var deleted := DoDelete(env, popped, stored.lookup.mapping, stored.lookup.definition);
        DoDeleteOwes(env, popped, stored.lookup.mapping, stored.lookup.definition);
        OwesChain(st, popped, deleted.st, !deleted.response.Got?, false);
        if deleted.response.Got? {
          var handled := HandleDelete(env, deleted.st, TruthyResource(read.response.obj));
          StoreResultFrame(handled, read.response.obj, "");
          SameCluster(deleted.st, end.st, end.out.Fail?, false);
          OwesChain(st, deleted.st, end.st, end.out.Fail?, false);
        }
        hide Owes, DoDelete;
      }
      hide Owes, RetrieveStored;
    }
  }

  lemma {:induction false} TaskOwes(env: Env, st: State, t: Task, mapping: string, d: Definition, path: string)
    ensures var r := RunTask(env, st, t, mapping, d, path);
            Owes(st, r.st, r.out.Fail?, t.FileDelete?)
  {
    hide Owes, RunFileCreate, StoreAnswer, RunFileRead, DeleteFile, CreateOnce, Update, RunSingleRead,
      RunSingleDelete, RunCheckStatus;
    match t
    case FileCreate => FileCreateOwes(env, st, mapping, d, path);
    case FileDelete => DeleteFileOwes(env, st, mapping, d, path);
    case SingleDelete => SingleDeleteOwes(env, st, mapping, d);
    case CheckStatus(heal) => CheckStatusOwes(env, st, mapping, d, heal);
    case SingleCreate =>
      DoCreateOwes(env, st, mapping, d);
      StoreAnswerOwes(st, CreateOnce(env, st, mapping, d), "");
    case FileUpdate =>
      UpdateOwes(env, st, mapping, d);
      StoreAnswerOwes(st, Update(env, st, mapping, d), path);
    case SingleUpdate =>
      UpdateOwes(env, st, mapping, d);
      StoreAnswerOwes(st, Update(env, st, mapping, d), "");
    case FileRead => ReadTaskOwes(env, st, mapping, d, path);
    case SingleRead => ReadTaskOwes(env, st, mapping, d, path);
  }

  lemma {:induction false} StepOwes(env: Env, st: State, op: Operation, i: nat)
    requires i < |op.definitions|
    ensures var r := Step(env, st, op, i);
            Owes(st, r.st, r.out.Fail?, op.task.FileDelete?)
  {
    var d, path, end := op.definitions[i], PathFor(op, i), Step(env, st, op, i);
    var m := env.resolver.mappingWithOptions(d);
    SameCluster(st, st, end.out.Fail?, op.task.FileDelete?);
    hide RunTask, Owes;
    if m.Some? {
      var current := CurrentState(env, st, op, m.value, d, path);
      var handled := HandleExisting(env, current.st, Exists(current.existence));
      SameCluster(st, current.st, end.out.Fail?, op.task.FileDelete?);
      SameCluster(st, handled, false, op.task.FileDelete?);
      if !current.existence.Unknown? {
        var r := RunTask(env, handled, op.task, m.value, d, path);
        TaskOwes(env, handled, op.task, m.value, d, path);
        OwesChain(st, handled, r.st, r.out.Fail?, op.task.FileDelete?);
        if r.out.Done? {
          SameCluster(r.st, end.st, false, op.task.FileDelete?);
          OwesChain(st, r.st, end.st, false, op.task.FileDelete?);
        }
      }
    }
  }

  /** Whatever the API answers, a pass of an operation, of any kind, that does not fail has had
      no create, update or delete call refused, but for update calls of a file deletion; and
      however it ends, every object that appeared, vanished or changed did so by a call that
      was answered. */
  lemma {:induction false} PassOwes(env: Env, st: State, op: Operation, i: nat)
    requires i <= |op.definitions|
    ensures Accounted(st, Pass(env, st, op, i).st)
    ensures !Pass(env, st, op, i).out.Fail? ==> Unrefused(st, Pass(env, st, op, i).st, op.task.FileDelete?)
    decreases |op.definitions| - i
  {
    hide Step;
    var end := Pass(env, st, op, i);
    SameCluster(st, st, false, op.task.FileDelete?);
    if i < |op.definitions| {
      StepOwes(env, st, op, i);
      var r := Step(env, st, op, i);
      PassCases(env, st, op, i);
      if r.out.Done? {
        PassOwes(env, r.st, op, i + 1);
        OwesChain(st, r.st, end.st, end.out.Fail?, op.task.FileDelete?);
      }
    }
  }

  /** So over whole runs the log accounts for every change of the cluster. */
  lemma {:induction false} RunsAreAccounted(env: Env, st: State, ops: seq<Operation>)
    ensures Accounted(st, Run(env, st, ops))
    decreases |ops|
  {
    SameCluster(st, st, false, false);
    if ops != [] {
      var next := Pass(env, st, ops[0], 0).st;
      PassOwes(env, st, ops[0], 0);
      RunsAreAccounted(env, next, ops[1..]);
      AccountedChain(st, next, Run(env, next, ops[1..]));
    }
  }

  // -------------------------------------------------- a refused deletion

  /** The API answers this call with an error, of whatever code. */
  predicate Refuses(a: Answer) {
    a.Answer404? || a.AnswerOther? || a.AnswerNamespaceClash?
  }

  /** The exception that ends the deletion then. */
  function Refusal(a: Answer): Error {
    if a.AnswerNamespaceClash? then NonRecoverableError else TypeError
  }

  /** Deleting an own object that could be read, and whose existence was checked: when the
      delete call is refused, whatever the code, the deletion fails.  The test for the code
      404 never comes to a verdict. */
  lemma {:induction false} RefusedTarget(env: Env, st: State, mapping: string, d: Definition, path: string,
        adjacent: FileMap)
    requires !env.external && HasName(d) && Refuses(env.script(st.tick + 1))
    requires !env.script(st.tick).AnswerNamespaceClash?
    ensures var r, key := DeleteTarget(env, st, mapping, d, path, adjacent), KeyOf(env, mapping, d);
            && r.out == Fail(Refusal(env.script(st.tick + 1))) && r.st.live == st.live && SameRecord(st, r.st)
            && r.st.calls == st.calls + [DeleteCall(key, key in st.live, true)]
  {
  }

  /** A deletion by path on the record of one file whose delete call alone is refused fails; the
      object is as live as before, one delete call has been made, and no file object is
      recorded any more, so that nothing will ask for its deletion again. */
  lemma {:induction false} RefusedDeletion(env: Env, st: State, mapping: string, d: Definition, path: string)
    requires !env.external && Agrees(st.files, st.defs) && Has(st.files, path) && OneFile(st.files, path)
    requires PrimaryLive(env, st, path) && HasName(TargetDefinition(Lookup(st.files, path).value))
    requires env.script(st.tick).Accurate? && env.script(st.tick + 1).Accurate? && Refuses(env.script(st.tick + 2))
    ensures var r := DeleteFile(env, st, mapping, d, path);
            && r.out == Fail(Refusal(env.script(st.tick + 2))) && r.st.live == st.live && r.st.files == []
            && r.st.defs == st.defs
            && r.st.calls == st.calls + [DeleteCall(PrimaryKey(env, st, path), true, true)]
  {
    OneFileTarget(env, st, mapping, d, path);
    OneFileResolved(env, st, mapping, d, path);
    var chosen := ResolveTarget(env, st, path, d, mapping);
    var adjacent, target, m := chosen.target.adjacent, chosen.target.definition, chosen.target.mapping;
    var read := Read(env, chosen.st, m, target);
    assert read.st == chosen.st.(tick := st.tick + 1) && read.response.Got?;
    RefusedTarget(env, read.st, m, target, path, adjacent);
    hide ResolveTarget, Read, DeleteTarget, Agrees, OneFile, TargetDefinition, KeyOf;
  }

  lemma {:induction false} OneFileResolved(env: Env, st: State, mapping: string, d: Definition, path: string)
    requires Agrees(st.files, st.defs) && Has(st.files, path) && OneFile(st.files, path) && PrimaryLive(env, st, path)
    ensures ResolveTarget(env, st, path, d, mapping).target.Resolved?
  {
    var e := st.files[IndexOf(st.files, path)];
    assert e in st.files && GoodEntry(e) && e.path == path && Stem(path).Some?;
    assert LastSegment(e.resource.kind.value) == e.resource.kind.value;
  }

  /** The same of the whole operation: a file delete pass whose fourth call, the deletion of its
      first object, is refused. */
  lemma {:induction false} RefusedPass(env: Env, st: State, op: Operation)
    requires !env.external && op.task.FileDelete? && op.definitions != [] && HasName(op.definitions[0])
    requires env.resolver.mappingWithOptions(op.definitions[0]).Some?
    requires var path := PathFor(op, 0);
             && Agrees(st.files, st.defs) && Has(st.files, path) && OneFile(st.files, path)
             && PrimaryLive(env, st, path) && HasName(TargetDefinition(Lookup(st.files, path).value))
    requires forall n :: st.tick <= n < st.tick + 3 ==> env.script(n).Accurate?
    requires Refuses(env.script(st.tick + 3))
    ensures var r := Pass(env, st, op, 0);
            && r.out == Fail(Refusal(env.script(st.tick + 3))) && r.st.live == st.live && r.st.files == []
            && r.st.defs == st.defs
            && r.st.calls == st.calls + [DeleteCall(PrimaryKey(env, st, PathFor(op, 0)), true, true)]
  {
    var d, path := op.definitions[0], PathFor(op, 0);
    var m := env.resolver.mappingWithOptions(d).value;
    var current := CurrentState(env, st, op, m, d, path);
    assert "name" in d.metadata && env.script(st.tick).Accurate?;
    assert current.st == st.(tick := st.tick + 1) && !current.existence.Unknown?;
    var handled := HandleExisting(env, current.st, Exists(current.existence));
    hide DeleteFile, Agrees, OneFile, TargetDefinition, KeyOf, PathFor, CurrentState;
    RefusedDeletion(env, handled, m, d, path);
  }

  // ----------------------------------------------- what a failed read means

  /** A read that is answered with the code 404 is that of a missing object, with any other error
      it is not: the deletion of a blueprint resource ends, or fails and may be tried again. */
  lemma {:induction false} UnreadSingle(env: Env, st: State, m: string, d: Definition, path: string)
    requires HasName(d) && Refuses(env.script(st.tick))
    ensures var r := RunTask(env, st, SingleDelete, m, d, path);
            && r.st == st.(tick := st.tick + 1)
            && r.out == (match env.script(st.tick)
                         case Answer404 => Done
                         case AnswerOther => Fail(RecoverableError)
                         case _ => Fail(NonRecoverableError))
  {
  }

  /** The same of the only object recorded of a file: when it counts as missing, the deletion ends,
      and with any other error, a clash of namespaces included, it fails and may be tried again;
      either way the object is not recorded any more. */
  lemma {:induction false} UnreadFile(env: Env, st: State, mapping: string, d: Definition, path: string)
    requires Agrees(st.files, st.defs) && Has(st.files, path) && OneFile(st.files, path) && |st.files| == 1
    requires ResolveTarget(env, st, path, d, mapping).target.Resolved?
    requires HasName(ResolveTarget(env, st, path, d, mapping).target.definition) && Refuses(env.script(st.tick))
    ensures var r := DeleteFile(env, st, mapping, d, path);
            && r.st == st.(files := [], tick := st.tick + 1)
            && r.out == (if env.script(st.tick).Answer404? then Done else Fail(RecoverableError))
  {
    OneFileTarget(env, st, mapping, d, path);
    var chosen := ResolveTarget(env, st, path, d, mapping);
    assert Drop(st.files, path) == [];
    assert "name" in chosen.target.definition.metadata;
    hide ResolveTarget, Agrees, OneFile, Drop, TargetDefinition, KeyOf;
  }

  // ------------------------------------------- a claim that is still there

  /** A claim whose deletion is accepted but has not happened yet, the response still showing the
      finalizer that protects it, is updated by a definition whose finalizers are null; then it
      is put back, to be looked at again. */
  lemma {:induction false} PendingClaimPrepared(env: Env, st: State, m: string, d: Definition, path: string)
    requires !env.external && HasName(d) && KeyOf(env, m, d) in st.live && path != ""
    requires env.script(st.tick).Accurate? && env.script(st.tick + 1).Stale? && env.script(st.tick + 2).Accurate?
    requires env.pvcProtected(CleanResource(env.script(st.tick + 1).obj))
    ensures var r, key := DeleteTarget(env, st, m, d, path, []), KeyOf(env, m, d);
            var without := Definition(d.kind, d.apiVersion, d.metadata["finalizers" := Null], map[]);
            && r.out == Retry(false) && r.st.live == st.live[key := env.revise(st.live[key], without)]
            && r.st.calls == st.calls + [DeleteCall(key, true, false), UpdateCall(key, false)]
            && Lookup(r.st.files, path) == Some(Stored(d))
  {
    var key, deleted := KeyOf(env, m, d), DoDelete(env, st, m, d);
    var without := WithoutFinalizers(d);
    assert NameIn(Some(without.metadata)) == NameIn(Some(d.metadata)) && KeyOf(env, m, without) == key;
    assert deleted.response == Got(CleanResource(env.script(st.tick + 1).obj));
    var prepared := DeleteAndPrepare(env, deleted.st, m, d, deleted.response.obj);
    assert prepared.st.live == st.live[key := env.revise(st.live[key], without)];
    assert prepared.st.calls == st.calls + [DeleteCall(key, true, false), UpdateCall(key, false)];
    PutBackRecords(prepared.st, d, path);
    hide PutBack, DoDelete, KeyOf, CleanResource;
  }

  lemma {:induction false} PutBackRecords(st: State, d: Definition, path: string)
    requires path != ""
    ensures PutBack(st, Stored(d), path, []).out == Retry(false)
    ensures PutBack(st, Stored(d), path, []).st.live == st.live && PutBack(st, Stored(d), path, []).st.calls == st.calls
    ensures Lookup(PutBack(st, Stored(d), path, []).st.files, path) == Some(Stored(d))
  {
    CleanDictFixed(d.metadata);
    CleanDictFixed(CleanDict(d.metadata));
    assert CleanMetadata(Stored(d)) == Stored(d);
    LookupAfterPut(st.files, path, Stored(d), path);
    hide CleanDict, StoreDefinition, Lookup, Put, LastSegment;
  }

  /** A clash of namespaces on the first call of an operation, whichever it is, ends it for good:
      nothing is recorded or forgotten, and every object stays. */
  lemma {:induction false} ClashIsFinal(env: Env, st: State, op: Operation, i: nat)
    requires i < |op.definitions| && HasName(op.definitions[i])
    requires env.resolver.mappingWithOptions(op.definitions[i]).Some?
    requires op.task.FileRead? ==> Has(st.files, PathFor(op, i))
    requires env.script(st.tick).AnswerNamespaceClash?
    ensures var r := Step(env, st, op, i);
            && r.out == Fail(NonRecoverableError) && r.st.live == st.live && SameRecord(st, r.st)
            && r.st.tick == st.tick + 1
            && (op.task.FileUpdate? || r.st.calls == st.calls)
  {
    var d, path := op.definitions[i], PathFor(op, i);
    var m := env.resolver.mappingWithOptions(d).value;
    var current := CurrentState(env, st, op, m, d, path);
    ClashOnRead(env, st, m, d);
    var handled := HandleExisting(env, current.st, Exists(current.existence));
    if !StateChecked(op.task) { ClashInTask(env, handled, op.task, m, d, path); }
    hide PathFor, Read, RunTask;
  }

  lemma {:induction false} ClashOnRead(env: Env, st: State, m: string, d: Definition)
    requires HasName(d) && env.script(st.tick).AnswerNamespaceClash?
    ensures Read(env, st, m, d) == Reply(st.(tick := st.tick + 1), Raised(NonRecoverableError))
  {
  }

  lemma {:induction false} ClashInTask(env: Env, st: State, t: Task, m: string, d: Definition, path: string)
    requires HasName(d) && !StateChecked(t) && (t.FileRead? ==> Has(st.files, path))
    requires env.script(st.tick).AnswerNamespaceClash?
    ensures var r := RunTask(env, st, t, m, d, path);
            && r.out == Fail(NonRecoverableError) && r.st.live == st.live && SameRecord(st, r.st)
            && r.st.tick == st.tick + 1 && (t.FileUpdate? || r.st.calls == st.calls)
  {
    ClashOnRead(env, st, m, d);
    hide Read, KeyOf, HandleExisting;
  }

  /** Such a clash when an own object's existence is checked before its deletion: no delete call is
      made. */
  lemma {:induction false} ClashBeforeDeletion(env: Env, st: State, m: string, d: Definition, path: string,
        adjacent: FileMap)
    requires HasName(d) && env.script(st.tick).AnswerNamespaceClash?
    ensures DeleteTarget(env, st, m, d, path, adjacent) == Result(st.(tick := st.tick + 1), Fail(NonRecoverableError))
  {
    ClashOnRead(env, st, m, d);
    hide Read;
  }

  /** When the update call that prepares a pending claim is refused, the refusal is ignored, unless
      namespaces clash. */
  lemma {:induction false} RefusedPreparation(env: Env, st: State, m: string, d: Definition, path: string)
    requires !env.external && HasName(d) && KeyOf(env, m, d) in st.live && path != ""
    requires env.script(st.tick).Accurate? && env.script(st.tick + 1).Stale? && Refuses(env.script(st.tick + 2))
    requires env.pvcProtected(CleanResource(env.script(st.tick + 1).obj))
    ensures var r, key := DeleteTarget(env, st, m, d, path, []), KeyOf(env, m, d);
            && r.out == (if env.script(st.tick + 2).AnswerNamespaceClash? then Fail(NonRecoverableError)
                 else Retry(false))
            && r.st.live == st.live && r.st.calls == st.calls + [DeleteCall(key, true, false), UpdateCall(key, true)]
  {
    var key, deleted := KeyOf(env, m, d), DoDelete(env, st, m, d);
    var without := WithoutFinalizers(d);
    assert NameIn(Some(without.metadata)) == NameIn(Some(d.metadata)) && KeyOf(env, m, without) == key;
    assert deleted.response == Got(CleanResource(env.script(st.tick + 1).obj));
    var prepared := DeleteAndPrepare(env, deleted.st, m, d, deleted.response.obj);
    assert prepared.st.live == st.live;
    assert prepared.st.calls == st.calls + [DeleteCall(key, true, false), UpdateCall(key, true)];
    PutBackRecords(prepared.st, d, path);
    hide PutBack, DoDelete, KeyOf, CleanResource;
  }
}
