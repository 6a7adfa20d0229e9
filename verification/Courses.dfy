/**
 * Whole operations with an accurate API: what an update pass leaves of a file, and the life of
 * a blueprint resource, after which the cluster is as it was before.
 */
module Courses {
  import opened Options
  import opened JsonValues
  import opened Definitions
  import opened Paths
  import opened Record
  import opened FileMaps
  import opened Cluster
  import opened FileDeletion
  import opened Convergence
  import opened Tasks
  import opened Creation
  import opened Effects

  // ------------------------------------------------------ updating a file

  /** Objects of the server can be recorded. */
  ghost predicate RecordableServer(env: Env) {
    (forall d :: Recordable(env.render(d))) && forall r, d :: Recordable(env.revise(r, d))
  }

  ghost predicate NumberedUpdate(env: Env, op: Operation) {
    && op.task.FileUpdate? && op.origin.Some? && op.origin.value != ""
    && (forall d :: d in op.definitions ==> HasName(d) && env.resolver.mappingWithOptions(d).Some?)
    && forall i, j :: 0 <= i < j < |op.definitions| ==> KeyAt(env, op, i) != KeyAt(env, op, j)
  }

  ghost function KeyAt(env: Env, op: Operation, j: nat): Option<Key>
    requires j < |op.definitions|
  {
    var m := env.resolver.mappingWithOptions(op.definitions[j]);
    if m.Some? then Some(KeyOf(env, m.value, op.definitions[j])) else None
  }

  /** The object of a definition has been updated, and the result is recorded under its path. */
  ghost predicate UpdatedAt(env: Env, before: State, after: State, op: Operation, j: nat)
    requires j < |op.definitions|
  {
    var key := KeyAt(env, op, j);
    && key.Some? && key.value in before.live && key.value in after.live
    && after.live[key.value] == env.revise(before.live[key.value], op.definitions[j])
    && Lookup(after.files, PathFor(op, j)) == Some(CleanResource(after.live[key.value]))
  }

  ghost predicate KeyAmong(env: Env, op: Operation, i: nat, n: nat, key: Key)
    requires n <= |op.definitions|
  {
    exists j :: i <= j < n && KeyAt(env, op, j) == Some(key)
  }

  ghost predicate PathAmong(op: Operation, i: nat, n: nat, path: string) {
    exists j :: i <= j < n && PathFor(op, j) == path
  }

  /** The definitions from `i` up to `n` have been updated, and nothing else has changed. */
  ghost predicate UpdatedBetween(env: Env, before: State, after: State, op: Operation, i: nat, n: nat)
    requires n <= |op.definitions|
  {
    && after.live.Keys == before.live.Keys && after.single == before.single
    && (forall j :: i <= j < n ==> UpdatedAt(env, before, after, op, j))
    && (forall k :: k in before.live && !KeyAmong(env, op, i, n, k) ==> after.live[k] == before.live[k])
    && (forall q :: !PathAmong(op, i, n, q) ==> Lookup(after.files, q) == Lookup(before.files, q))
  }

  lemma {:induction false} StepUpdates(env: Env, st: State, op: Operation, i: nat)
    requires AccurateApi(env) && RecordableServer(env) && NumberedUpdate(env, op) && i < |op.definitions|
    ensures var r, key := Step(env, st, op, i), KeyAt(env, op, i);
            && key.Some?
            && if key.value in st.live then
                 r.out == Done && UpdatedBetween(env, st, r.st, op, i, i + 1) && r.st.tick == st.tick + 1
               else r.out == Fail(ApiOperationError) && r.st.live == st.live && SameRecord(st, r.st)
  {
    var d, path := op.definitions[i], PathFor(op, i);
    assert d in op.definitions;
    var m := env.resolver.mappingWithOptions(d).value;
    var current := CurrentState(env, st, op, m, d, path);
    var handled := HandleExisting(env, current.st, Exists(current.existence));
    UpdateTakesEffect(env, handled, op.task, m, d, path);
    PathIsNumbered(op, i);
    StepOf(env, st, op, i);
    hide Step, RunTask, KeyOf, NumberedPath, UpdatedBetween, PathFor;
    if KeyOf(env, m, d) in st.live { OneUpdated(env, st, Step(env, st, op, i).st, op, i); }
  }

  lemma {:induction false} OneUpdated(env: Env, before: State, after: State, op: Operation, i: nat)
    requires i < |op.definitions| && KeyAt(env, op, i).Some? && KeyAt(env, op, i).value in before.live
    requires PathFor(op, i) != ""
    requires var revised := env.revise(before.live[KeyAt(env, op, i).value], op.definitions[i]);
             && after.live == before.live[KeyAt(env, op, i).value := revised]
             && Recordable(revised) && Records(before, after, PathFor(op, i), CleanResource(revised))
    ensures UpdatedBetween(env, before, after, op, i, i + 1)
  {
    hide PathFor, CleanResource, StoreDefinition, Lookup, LastSegment, KeyAt;
    assert KeyAmong(env, op, i, i + 1, KeyAt(env, op, i).value) && PathAmong(op, i, i + 1, PathFor(op, i)) by {
      assert KeyAt(env, op, i) == Some(KeyAt(env, op, i).value) && PathFor(op, i) == PathFor(op, i);
    }
    assert UpdatedAt(env, before, after, op, i);
  }

  lemma {:induction false} PathIsNumbered(op: Operation, i: nat)
    requires op.origin.Some? && op.origin.value != ""
    ensures PathFor(op, i) != ""
    ensures forall j: nat :: PathFor(op, i) == PathFor(op, j) ==> i == j
  {
    forall j: nat | PathFor(op, i) == PathFor(op, j) ensures i == j { NumberedPathInjective(op.origin.value, i, j); }
  }

  lemma {:induction false} UpdatedOneMore(env: Env, before: State, next: State, after: State, op: Operation, i: nat,
        n: nat)
    requires NumberedUpdate(env, op) && i < n <= |op.definitions|
    requires UpdatedBetween(env, before, next, op, i, i + 1) && UpdatedBetween(env, next, after, op, i + 1, n)
    ensures UpdatedBetween(env, before, after, op, i, n)
  {
    PathIsNumbered(op, i);
    assert UpdatedAt(env, before, next, op, i);
    forall j | i <= j < n ensures UpdatedAt(env, before, after, op, j) {
      if j == i {
        assert !KeyAmong(env, op, i + 1, n, KeyAt(env, op, i).value) && !PathAmong(op, i + 1, n, PathFor(op, i));
      } else {
        assert UpdatedAt(env, next, after, op, j) && KeyAt(env, op, i) != KeyAt(env, op, j);
        assert !KeyAmong(env, op, i, i + 1, KeyAt(env, op, j).value);
      }
    }
    forall k | k in before.live && !KeyAmong(env, op, i, n, k) ensures after.live[k] == before.live[k] {
      assert !KeyAmong(env, op, i, i + 1, k) && !KeyAmong(env, op, i + 1, n, k);
    }
    forall q | !PathAmong(op, i, n, q) ensures Lookup(after.files, q) == Lookup(before.files, q) {
      assert !PathAmong(op, i, i + 1, q) && !PathAmong(op, i + 1, n, q);
    }
  }

  /** An update pass changes the live objects of its definitions, up to the first that is not
      live: each becomes what the server makes of it and its definition, and is recorded under
      its path; nothing else changes.  It ends normally exactly when all are live, after one call
      of the API for each. */
  lemma {:induction false} UpdatePassTakesEffect(env: Env, st: State, op: Operation, i: nat, n: nat)
    requires AccurateApi(env) && RecordableServer(env) && NumberedUpdate(env, op) && i <= n <= |op.definitions|
    requires forall j :: i <= j < n ==> KeyAt(env, op, j).Some? && KeyAt(env, op, j).value in st.live
    requires n < |op.definitions| ==> KeyAt(env, op, n).Some? && KeyAt(env, op, n).value !in st.live
    ensures var r := Pass(env, st, op, i);
            && r.out == (if n == |op.definitions| then Done else Fail(ApiOperationError))
            && UpdatedBetween(env, st, r.st, op, i, n) && (n == |op.definitions| ==> r.st.tick == st.tick + n - i)
    decreases n - i
  {
    hide Step, UpdatedBetween, NumberedUpdate;
    if i < |op.definitions| {
      StepUpdates(env, st, op, i);
      PassCases(env, st, op, i);
    }
    if i < n {
      var next := Step(env, st, op, i).st;
      SameKeys(env, st, next, op, i, i + 1);
      UpdatePassTakesEffect(env, next, op, i + 1, n);
      UpdatedOneMore(env, st, next, Pass(env, st, op, i).st, op, i, n);
    } else {
      NothingUpdated(env, st, Pass(env, st, op, i).st, op, i);
    }
  }

  lemma {:induction false} SameKeys(env: Env, before: State, after: State, op: Operation, i: nat, n: nat)
    requires n <= |op.definitions| && UpdatedBetween(env, before, after, op, i, n)
    ensures after.live.Keys == before.live.Keys
  {
  }

  lemma {:induction false} NothingUpdated(env: Env, before: State, after: State, op: Operation, i: nat)
    requires i <= |op.definitions| && after.live == before.live && SameRecord(before, after)
    ensures UpdatedBetween(env, before, after, op, i, i)
  {
  }

  // --------------------------------------- the life of a blueprint resource

  /** An operation on the one definition of a blueprint resource. */
  function Alone(t: Task, d: Definition): Operation {
    Operation(t, [d], None, "")
  }

  lemma {:induction false} AlonePass(env: Env, st: State, t: Task, d: Definition)
    requires env.resolver.mappingWithOptions(d).Some? && !CleansUp(t)
    ensures var m, r := env.resolver.mappingWithOptions(d).value, Pass(env, st, Alone(t, d), 0);
            var current := CurrentState(env, st, Alone(t, d), m, d, "");
            current.existence.Unknown? ||
            (var task := RunTask(env, HandleExisting(env, current.st, Exists(current.existence)), t, m, d, "");
             r == if task.out.Done? then Result(task.st.(perform := false), Done) else task)
  {
    PassCases(env, st, Alone(t, d), 0);
    hide RunTask, CurrentState, HandleExisting;
  }

  /** Deleting a live blueprint resource that is looked for takes two passes: the first deletes
      the object and asks to be retried, the second ends normally.  Nothing else has changed in
      the cluster, and one delete call was made.  The object stays recorded: the second pass
      has not found it any more, so that nothing is cleaned up. */
  lemma {:induction false} SingleDeleteRun(env: Env, st: State, d: Definition)
    requires AccurateApi(env) && !env.external && HasName(d) && env.resolver.mappingWithOptions(d).Some?
    requires MappedKey(env, d) in st.live && Recordable(st.live[MappedKey(env, d)])
    requires var sought := LookedForAlone(env, st.defs, d, env.resolver.mappingWithOptions(d).value);
             sought.Some? && sought.value.key == MappedKey(env, d)
    ensures var one := Pass(env, st, Alone(SingleDelete, d), 0);
            var two := Pass(env, one.st, Alone(SingleDelete, d), 0);
            && one.out == Retry(false) && two.out == Done
            && two.st.live == one.st.live == st.live - {MappedKey(env, d)}
            && two.st.calls == st.calls + [DeleteCall(MappedKey(env, d), true, false)]
            && two.st.single == Some(CleanResource(st.live[MappedKey(env, d)])) && two.st.files == st.files
  {
    var m, op := env.resolver.mappingWithOptions(d).value, Alone(SingleDelete, d);
    var one := Pass(env, st, op, 0);
    DeletePassOf(env, st, d);
    DeletePassOf(env, one.st, d);
    hide Pass, KeyOf, LookedForAlone;
  }

  lemma {:induction false} DeletePassOf(env: Env, st: State, d: Definition)
    requires AccurateApi(env) && !env.external && HasName(d) && env.resolver.mappingWithOptions(d).Some?
    ensures var r, key := Pass(env, st, Alone(SingleDelete, d), 0), MappedKey(env, d);
            var sought := LookedForAlone(env, st.defs, d, env.resolver.mappingWithOptions(d).value);
            && (key !in st.live ==>
                  r.out == Done && r.st.live == st.live && r.st.calls == st.calls && SameRecord(st, r.st))
            && (key in st.live && Recordable(st.live[key]) && sought.Some? && sought.value.key == key ==>
                  && r.out == Retry(false) && r.st.live == st.live - {key} && r.st.files == st.files
                  && r.st.calls == st.calls + [DeleteCall(key, true, false)]
                  && r.st.single == Some(CleanResource(st.live[key])))
  {
    var m, op := env.resolver.mappingWithOptions(d).value, Alone(SingleDelete, d);
    ReadAccurately(env, st, m, d);
    var current := CheckExists(env, st, m, d);
    var handled := HandleExisting(env, current.st, Exists(current.existence));
    SingleDeleteTakesEffect(env, handled, m, d, "");
    PassCases(env, st, op, 0);
    hide RunTask, Read, KeyOf, LookedForAlone, CleanResource;
  }

  /** The server makes objects that can be recorded and say their name. */
  ghost predicate NamingServer(env: Env) {
    RecordableServer(env) && (forall d :: Named(env.render(d))) && forall r, d :: Named(env.revise(r, d))
  }

  ghost predicate NamedDefinitions(defs: seq<Resource>) {
    forall r :: r in defs ==> Named(r)
  }

  /** The resource is live, everything else is as in `others`. */
  ghost predicate InPlace(env: Env, st: State, d: Definition, others: map<Key, Resource>)
    requires env.resolver.mappingWithOptions(d).Some?
  {
    var key := MappedKey(env, d);
    && key in st.live && st.live - {key} == others && Recordable(st.live[key]) && Named(st.live[key])
    && NamedDefinitions(st.defs)
  }

  lemma {:induction false} RecordingKeepsNamed(before: State, r: Result, path: string, obj: Resource)
    requires EndsRecording(before, r, path, obj) && Named(obj) && NamedDefinitions(before.defs)
    ensures NamedDefinitions(r.st.defs)
  {
    if Recordable(obj) { StoringKeepsNamed(before, r.st, path, CleanResource(obj)); }
  }

  lemma {:induction false} StoringKeepsNamed(before: State, after: State, path: string, obj: Resource)
    requires Recordable(obj) && Records(before, after, path, obj) && Named(obj) && NamedDefinitions(before.defs)
    ensures NamedDefinitions(after.defs)
  {
    hide LastSegment, Lookup;
  }

  /** Creating again, updating, reading and checking a resource keep it in place. */
  predicate Harmonious(t: Task) {
    t.SingleCreate? || t.SingleUpdate? || t.SingleRead? || t.CheckStatus?
  }

  lemma {:induction false} TaskKeepsInPlace(env: Env, st: State, t: Task, d: Definition, others: map<Key, Resource>)
    requires AccurateApi(env) && !env.external && NamingServer(env) && HasName(d)
    requires env.resolver.mappingWithOptions(d).Some? && Harmonious(t) && InPlace(env, st, d, others)
    ensures InPlace(env, Pass(env, st, Alone(t, d), 0).st, d, others)
  {
    var m, key := env.resolver.mappingWithOptions(d).value, MappedKey(env, d);
    var current := CurrentState(env, st, Alone(t, d), m, d, "");
    AlonePass(env, st, t, d);
    ReadAccurately(env, st, m, d);
    assert SameRecord(st, current.st) && current.st.live == st.live && !current.existence.Unknown?;
    var handled := HandleExisting(env, current.st, Exists(current.existence));
    var r := RunTask(env, handled, t, m, d, "");
    hide RunTask, Pass, KeyOf, CurrentState, CheckExists, Named, Recordable;
    match t
    case SingleCreate =>
      SingleCreateTakesEffect(env, st, m, d, "");
      RecordingKeepsNamed(st, r, "", st.live[key]);
    case SingleUpdate =>
      UpdateTakesEffect(env, handled, t, m, d, "");
      RecordingKeepsNamed(handled, r, "", r.st.live[key]);
    case SingleRead =>
      ReadTakesEffect(env, handled, t, m, d, "");
      StoringKeepsNamed(handled, r.st, "", CleanResource(st.live[key]));
    case CheckStatus(heal) => CheckTakesEffect(env, handled, heal, m, d, "");
  }

  lemma {:induction false} CreatedInPlace(env: Env, st: State, d: Definition)
    requires AccurateApi(env) && !env.external && NamingServer(env) && HasName(d)
    requires env.resolver.mappingWithOptions(d).Some? && MappedKey(env, d) !in st.live && NamedDefinitions(st.defs)
    ensures var r := Pass(env, st, Alone(SingleCreate, d), 0);
            && r.out == Done && InPlace(env, r.st, d, st.live)
            && r.st.live[MappedKey(env, d)] == env.render(d)
            && r.st.single == Some(CleanResource(env.render(d)))
            && r.st.calls == st.calls + [CreateCall(MappedKey(env, d), false, false)]
  {
    var m, key := env.resolver.mappingWithOptions(d).value, MappedKey(env, d);
    AlonePass(env, st, SingleCreate, d);
    ReadAccurately(env, st, m, d);
    var current := CurrentState(env, st, Alone(SingleCreate, d), m, d, "");
    var r := RunTask(env, HandleExisting(env, current.st, Exists(current.existence)), SingleCreate, m, d, "");
    SingleCreateTakesEffect(env, st, m, d, "");
    assert st.live[key := env.render(d)] - {key} == st.live;
    hide RunTask, Pass, KeyOf, Named;
    assert Recordable(env.render(d));
    StoringKeepsNamed(st, r.st, "", CleanResource(env.render(d)));
  }

  ghost predicate SetUpAlone(ops: seq<Operation>, d: Definition) {
    forall op :: op in ops ==> Harmonious(op.task) && op == Alone(op.task, d)
  }

  lemma {:induction false} RunKeepsInPlace(env: Env, st: State, ops: seq<Operation>, d: Definition,
        others: map<Key, Resource>)
    requires AccurateApi(env) && !env.external && NamingServer(env) && HasName(d)
    requires env.resolver.mappingWithOptions(d).Some? && SetUpAlone(ops, d) && InPlace(env, st, d, others)
    ensures InPlace(env, Run(env, st, ops), d, others)
    decreases |ops|
  {
    hide Pass, InPlace;
    if ops != [] {
      assert ops[0] in ops && forall op :: op in ops[1..] ==> op in ops;
      TaskKeepsInPlace(env, st, ops[0].task, d, others);
      RunKeepsInPlace(env, Pass(env, st, ops[0], 0).st, ops[1..], d, others);
    }
  }

  /** A blueprint resource that is created, then created again, updated, read, checked and healed
      in any order and with any outcomes, and at last deleted, leaves the cluster exactly as it
      was: the deletion asks for one retry and ends normally. */
  lemma {:induction false} LifeRestoresCluster(env: Env, st: State, d: Definition, ops: seq<Operation>)
    requires AccurateApi(env) && !env.external && !env.resolver.allowRedefinition && NamingServer(env)
    requires HasName(d) && CleanedDict(d.metadata) && env.resolver.mappingWithOptions(d).Some?
    requires MappedKey(env, d) !in st.live && NamedDefinitions(st.defs) && SetUpAlone(ops, d)
    ensures var created := Pass(env, st, Alone(SingleCreate, d), 0);
            var lived := Run(env, created.st, ops);
            var one := Pass(env, lived, Alone(SingleDelete, d), 0);
            var two := Pass(env, one.st, Alone(SingleDelete, d), 0);
            && created.out == Done && created.st.live == st.live[MappedKey(env, d) := env.render(d)]
            && MappedKey(env, d) in lived.live
            && one.out == Retry(false) && two.out == Done && two.st.live == st.live
  {
    var key, created := MappedKey(env, d), Pass(env, st, Alone(SingleCreate, d), 0).st;
    CreatedInPlace(env, st, d);
    RunKeepsInPlace(env, created, ops, d, st.live);
    LifeEndsInPlace(env, Run(env, created, ops), d, st.live);
    assert created.live == (created.live - {key})[key := created.live[key]];
    hide Pass, Run, KeyOf, NamingServer, Recordable, Named, NamedDefinitions, SetUpAlone;
  }

  lemma {:induction false} LifeEndsInPlace(env: Env, st: State, d: Definition, others: map<Key, Resource>)
    requires AccurateApi(env) && !env.external && !env.resolver.allowRedefinition
    requires HasName(d) && CleanedDict(d.metadata) && env.resolver.mappingWithOptions(d).Some?
    requires InPlace(env, st, d, others)
    ensures var one := Pass(env, st, Alone(SingleDelete, d), 0);
            var two := Pass(env, one.st, Alone(SingleDelete, d), 0);
            && MappedKey(env, d) in st.live
            && one.out == Retry(false) && two.out == Done && two.st.live == others
  {
    hide Pass, KeyOf, LookedForAlone, Recordable, Named;
    assert forall r :: r in Popped(st.defs) ==> r in st.defs;
    GivenIsLookedFor(env, st.defs, d, env.resolver.mappingWithOptions(d).value);
    SingleDeleteRun(env, st, d);
  }

  /** A blueprint resource without a name, recorded nowhere yet, is created under a name that the
      server makes up. */
  lemma {:induction false} NamelessIsCreated(env: Env, st: State, d: Definition)
    requires AccurateApi(env) && MayCreate(env) && !HasName(d) && env.resolver.mappingWithOptions(d).Some?
    requires st.single.None? && Recordable(env.render(d))
    requires MappedKey(env, d).(name := env.generated(st.tick)) !in st.live
    ensures var r, key := Pass(env, st, Alone(SingleCreate, d), 0), MappedKey(env, d).(name := env.generated(st.tick));
            && r.out == Done && r.st.live == st.live[key := env.render(d)]
            && r.st.calls == st.calls + [CreateCall(key, false, false)]
            && r.st.single == Some(CleanResource(env.render(d)))
  {
    AlonePass(env, st, SingleCreate, d);
    var m := env.resolver.mappingWithOptions(d).value;
    var handled := HandleExisting(env, st, false);
    PerformsExactly(env, st, false);
    StoresImage(handled, CreateOnce(env, handled, m, d), "", env.render(d));
    hide StoreAnswer, Pass, KeyOf, HandleExisting, CleanResource;
  }

  // ------------------------------------------------------- paths and runs

  /** The definitions of an operation are numbered exactly where there is an origin path. */
  lemma {:induction false} NumberedExactly(op: Operation, i: nat)
    ensures op.origin.Some? && op.origin.value != "" ==> PathFor(op, i) == op.origin.value + "#" + Decimal(i)
    ensures op.origin.None? || op.origin.value == "" ==> PathFor(op, i) == op.path
  {
  }

  /** Operations run one after the other, whatever they end with. */
  lemma {:induction false} RunsCompose(env: Env, st: State, first: seq<Operation>, then_: seq<Operation>)
    ensures Run(env, st, first + then_) == Run(env, Run(env, st, first), then_)
    decreases |first|
  {
    hide Pass;
    if first == [] {
      assert first + then_ == then_;
    } else {
      assert (first + then_)[1..] == first[1..] + then_ && (first + then_)[0] == first[0];
      RunsCompose(env, Pass(env, st, first[0], 0).st, first[1..], then_);
    }
  }
}
