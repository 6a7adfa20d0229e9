/**
 * Retried delete operations come to an end: a bound on how often an operation can ask to
 * be retried, and what a normal end says about the cluster.
 */
module Retries {
  import opened JsonValues
  import opened Definitions
  import opened Paths
  import opened Record
  import opened FileMaps
  import opened Cluster
  import opened FileDeletion
  import opened Convergence
  import opened Fallback
  import opened Tasks
  import opened Safety
  import opened Agreement
  import opened Conservation
  import opened Creation

  lemma {:induction false} CleanUpShrinks(st: State, op: Operation, found: bool, path: string)
    ensures CleanUp(st, op, found, path).live == st.live
    ensures |CleanUp(st, op, found, path).files| <= |st.files|
  {
  }

  /** A blueprint resource is deleted as one definition. */
  ghost predicate DeleteOperation(op: Operation) {
    op.task.FileDelete? || (op.task.SingleDelete? && |op.definitions| <= 1)
  }

  lemma {:induction false} DoDeleteProgress(env: Env, st: State, mapping: string, d: Definition)
    requires AccurateApi(env)
    ensures var r := DoDelete(env, st, mapping, d);
            && r.st.files == st.files && r.st.live.Keys <= st.live.Keys
            && (r.response.Got? && !env.external ==> |r.st.live.Keys| < |st.live.Keys|)
  {
    CheckAccurately(env, st, mapping, d);
    var r := DoDelete(env, st, mapping, d);
    if r.response.Got? && !env.external {
      assert r.st.live == st.live - {KeyOf(env, mapping, d)} && KeyOf(env, mapping, d) in st.live;
      FewerKeys(r.st.live.Keys, st.live.Keys);
    }
  }

  /** Each retry of a blueprint deletion has deleted a live object. */
  lemma {:induction false} SingleDeleteProgress(env: Env, st: State, mapping: string, d: Definition)
    requires AccurateApi(env) && TruthyCluster(st.live)
    ensures var r := RunSingleDelete(env, st, mapping, d);
            Progress(st, r) && (r.out.Retry? ==> |r.st.live.Keys| < |st.live.Keys|)
  {
    ReadAccurately(env, st, mapping, d);
    var r := Read(env, st, mapping, d);
    if r.response.Got? {
      CleanTruthy(st.live[KeyOf(env, mapping, d)]);
      var stored := RetrieveStored(env.resolver, r.st.defs, d, mapping, true);
      var popped := r.st.(defs := stored.defs);
      if stored.lookup.LookedUp? {
        DoDeleteProgress(env, popped, stored.lookup.mapping, stored.lookup.definition);
        var deleted := DoDelete(env, popped, stored.lookup.mapping, stored.lookup.definition);
        StoreSingleFrame(HandleDelete(env, deleted.st, TruthyResource(r.response.obj)), r.response.obj);
      }
    }
  }

  lemma {:induction false} StoreSingleFrame(st: State, result: Resource)
    ensures StoreResult(st, result, "").st.live == st.live && StoreResult(st, result, "").st.files == st.files
  {
  }

  lemma {:induction false} CurrentStateFrame(env: Env, st: State, op: Operation, mapping: string,
          d: Definition, path: string)
    requires AccurateApi(env)
    ensures var c := CurrentState(env, st, op, mapping, d, path);
            c.st == st.(tick := c.st.tick)
  {
    CheckAccurately(env, st, mapping, d);
  }

  lemma {:induction false} StepProgress(env: Env, st: State, op: Operation, i: nat)
    requires AccurateApi(env) && i < |op.definitions|
    requires op.task.FileDelete? || (op.task.SingleDelete? && TruthyCluster(st.live))
    ensures Progress(st, Step(env, st, op, i))
  {
    var d, path := op.definitions[i], PathFor(op, i);
    var m := env.resolver.mappingWithOptions(d);
    if m.Some? {
      CurrentStateFrame(env, st, op, m.value, d, path);
      var current := CurrentState(env, st, op, m.value, d, path);
      if !current.existence.Unknown? {
        var found := Exists(current.existence);
        var handled := HandleExisting(env, current.st, found);
        if op.task.FileDelete? {
          DeleteFileProgress(env, handled, m.value, d, path);
        } else {
          SingleDeleteProgress(env, handled, m.value, d);
        }
        var r := RunTask(env, handled, op.task, m.value, d, path);
        CleanUpShrinks(r.st.(perform := false), op, found, path);
      }
    }
  }

  /** Every whole pass of a delete operation that asks to be retried leaves less than it
      found: fewer live objects, or as many and fewer recorded paths.  A pass that ends
      normally has added neither. */
  lemma {:induction false} PassProgress(env: Env, st: State, op: Operation, i: nat)
    requires AccurateApi(env) && DeleteOperation(op) && i <= |op.definitions|
    requires op.task.SingleDelete? ==> TruthyCluster(st.live)
    ensures var r := Pass(env, st, op, i);
            && Progress(st, r)
            && (r.out.Retry? ==>
                  || |r.st.live.Keys| < |st.live.Keys|
                  || (r.st.live.Keys == st.live.Keys && |r.st.files| < |st.files|))
    decreases |op.definitions| - i
  {
    hide Step;
    if i < |op.definitions| {
      StepProgress(env, st, op, i);
      PassCases(env, st, op, i);
      var r := Step(env, st, op, i);
      FewerKeys(r.st.live.Keys, st.live.Keys);
      if r.out.Done? {
        if op.task.FileDelete? { PassProgress(env, r.st, op, i + 1); }
        var rest := Pass(env, r.st, op, i + 1);
        FewerKeys(rest.st.live.Keys, r.st.live.Keys);
        FewerKeys(rest.st.live.Keys, st.live.Keys);
      }
    }
  }

  /** Consecutive states of an operation that keeps asking to be retried. */
  ghost predicate Retried(env: Env, op: Operation, before: State, after: State) {
    && (op.task.SingleDelete? ==> TruthyCluster(before.live))
    && var r := Pass(env, before, op, 0); r.out.Retry? && r.st == after
  }

  /** A delete operation asks for at most as many retries in a row as there are recorded
      paths, plus two for each live object. */
  lemma {:induction false} RetriesBounded(env: Env, op: Operation, run: nat -> State, n: nat)
    requires AccurateApi(env) && DeleteOperation(op)
    requires forall i: nat :: i < n ==> Retried(env, op, run(i), run(i + 1))
    ensures n + Remaining(run(n)) <= Remaining(run(0))
  {
    if n > 0 {
      RetriesBounded(env, op, run, n - 1);
      RetryUsesUp(env, op, run(n - 1), run(n - 1 + 1));
    }
  }

  lemma {:induction false} RetryUsesUp(env: Env, op: Operation, before: State, after: State)
    requires AccurateApi(env) && DeleteOperation(op) && Retried(env, op, before, after)
    ensures Remaining(after) < Remaining(before)
  {
    PassProgress(env, before, op, 0);
  }

  /** So there is no endless run of retries. */
  lemma {:induction false} NoEndlessRetries(env: Env, op: Operation, run: nat -> State)
    requires AccurateApi(env) && DeleteOperation(op)
    ensures exists i: nat :: i <= Remaining(run(0)) && !Retried(env, op, run(i), run(i + 1))
  {
    var n := Remaining(run(0)) + 1;
    if forall i: nat :: i < n ==> Retried(env, op, run(i), run(i + 1)) {
      RetriesBounded(env, op, run, n);
    }
  }

  // ------------------------------------------------------ a normal end

  /** A deletion of the plugin's own object that ends normally found it gone: the target
      that was looked for is not live. */
  lemma {:induction false} NormalEndMeansGone(env: Env, st: State, mapping: string, d: Definition, path: string)
    requires AccurateApi(env) && !env.external
    requires DeleteFile(env, st, mapping, d, path).out.Done?
    ensures var r, after := ResolveTarget(env, st, path, d, mapping), DeleteFile(env, st, mapping, d, path).st;
            && r.target.Resolved? && r.target.adjacent == []
            && HasName(r.target.definition) && KeyOf(env, r.target.mapping, r.target.definition) !in st.live
            && after.live == st.live && after.files == r.st.files && after.defs == r.st.defs
  {
    var chosen := ResolveTarget(env, st, path, d, mapping);
    ResolveTargetFrame(env, st, path, d, mapping);
    var target, m := chosen.target.definition, chosen.target.mapping;
    ReadAccurately(env, chosen.st, m, target);
    var read := Read(env, chosen.st, m, target);
    if ReadingOf(read.response).Readable? {
      DeleteLiveTarget(env, read.st, m, target);
      var r := DoDelete(env, read.st, m, target);
      PrepareKeepsKeys(env, r.st, m, target, r.response.obj);
    }
  }

  /** The definition has a mapping and a name, and nothing lives under its key. */
  ghost predicate Gone(env: Env, live: map<Key, Resource>, d: Definition) {
    && env.resolver.mappingWithOptions(d).Some? && HasName(Tidied(d))
    && KeyOf(env, env.resolver.mappingWithOptions(d).value, Tidied(d)) !in live
  }

  /** Another one is looked for in its place. */
  ghost predicate ShadowedIn(env: Env, defs: seq<Resource>, d: Definition) {
    env.resolver.mappingWithOptions(d).Some? && Shadowed(env, defs, d, env.resolver.mappingWithOptions(d).value)
  }

  /** The definitions stored when a pass that takes no exception comes from `i` to `j`. */
  ghost function DefinitionsAt(env: Env, defs: seq<Resource>, op: Operation, i: nat, j: nat): seq<Resource>
    requires i <= j <= |op.definitions|
    decreases j - i
  {
    if i == j then defs else DefinitionsAt(env, LeftDefinitions(env, defs, op.definitions[i]), op, i + 1, j)
  }

  ghost predicate NumberedPaths(op: Operation) {
    forall i: nat :: PathFor(op, i) != ""
  }

  lemma {:induction false} StepWithoutFiles(env: Env, st: State, op: Operation, i: nat)
    requires AccurateApi(env) && !env.external && op.task.FileDelete? && i < |op.definitions| && PathFor(op, i) != ""
    requires st.files == [] && Step(env, st, op, i).out.Done?
    ensures var d, after := op.definitions[i], Step(env, st, op, i).st;
            && after.live == st.live && after.files == [] && after.defs == LeftDefinitions(env, st.defs, d)
            && (ShadowedIn(env, st.defs, d) || Gone(env, st.live, d))
  {
    var d, path := op.definitions[i], PathFor(op, i);
    var m := env.resolver.mappingWithOptions(d).value;
    CurrentStateFrame(env, st, op, m, d, path);
    var current := CurrentState(env, st, op, m, d, path);
    var handled := HandleExisting(env, current.st, Exists(current.existence));
    DeletionWithoutFiles(env, handled, m, d, path);
    ShadowedExactly(env, st.defs, d, m);
    SoughtHasName(env, st.defs, d, m);
    hide DeleteFile, LookedFor, Shadowed, LeftDefinitions;
  }

  /** With no file object recorded, a whole pass that ends normally has changed nothing in the
      cluster and found gone every definition that was not shadowed when its turn came. */
  lemma {:induction false} PassWithoutFiles(env: Env, st: State, op: Operation, i: nat)
    requires AccurateApi(env) && !env.external && op.task.FileDelete? && i <= |op.definitions| && NumberedPaths(op)
    requires st.files == [] && Pass(env, st, op, i).out.Done?
    ensures Pass(env, st, op, i).st.live == st.live && Pass(env, st, op, i).st.files == []
    ensures forall j :: i <= j < |op.definitions| ==>
              ShadowedIn(env, DefinitionsAt(env, st.defs, op, i, j), op.definitions[j])
                || Gone(env, st.live, op.definitions[j])
    decreases |op.definitions| - i
  {
    hide Step, ShadowedIn, Gone;
    if i < |op.definitions| {
      var r := Step(env, st, op, i);
      PassCases(env, st, op, i);
      StepWithoutFiles(env, st, op, i);
      PassWithoutFiles(env, r.st, op, i + 1);
    }
  }

  lemma {:induction false} DefinitionsShrink(env: Env, defs: seq<Resource>, op: Operation, i: nat, j: nat)
    requires i <= j <= |op.definitions|
    ensures |DefinitionsAt(env, defs, op, i, j)| <= |defs|
    decreases j - i
  {
    if i < j {
      var d := op.definitions[i];
      var choice := ChooseStored(env.resolver, Popped(defs), d, "");
      if choice.LookedUp? && "name" in choice.definition.metadata {
        RemovalLength(Popped(Popped(defs)), choice.definition.kind, choice.definition.metadata["name"]);
      }
      DefinitionsShrink(env, LeftDefinitions(env, defs, d), op, i + 1, j);
    }
  }

  /** Nothing is shadowed without redefinition, nor with at most one definition stored: then a
      pass that ends normally has found every definition of the file gone. */
  lemma {:induction false} PassFindsAllGone(env: Env, st: State, op: Operation, i: nat)
    requires AccurateApi(env) && !env.external && op.task.FileDelete? && i <= |op.definitions| && NumberedPaths(op)
    requires st.files == [] && Pass(env, st, op, i).out.Done?
    requires !env.resolver.allowRedefinition || |st.defs| <= 1
    ensures forall j :: i <= j < |op.definitions| ==> Gone(env, st.live, op.definitions[j])
  {
    PassWithoutFiles(env, st, op, i);
    forall j | i <= j < |op.definitions| { DefinitionsShrink(env, st.defs, op, i, j); }
  }

  /** In the record of one file, any entry that is taken has all the others adjacent to it. */
  lemma {:induction false} TakeFromOneFile(files: FileMap, i: nat, defs: seq<Resource>, path: string)
    requires Agrees(files, defs) && i < |files| && OneFile(files, path) && Stem(files[i].path) == Stem(path)
    ensures forall left :: Take(files, i, left) ==
                           Retrieved(Found(files[i].path, files[i].resource, Without(files, i)), [], left)
  {
    WithoutDistinct(files, i);
    assert GoodEntry(files[i]);
    forall e | e in Without(files, i) ensures IsAdjacent(Stem(path).value, files[i].resource, e) {
      assert e in files && files[i] in [files[i]] && Separate(files[i], e);
    }
    SelectAll(Without(files, i), Stem(path).value, files[i].resource);
  }

  /** Every recorded path has the stem of the file. */
  ghost predicate SameStem(m: FileMap, path: string) {
    forall e: Entry :: e in m ==> Stem(e.path) == Stem(path)
  }

  /** The object recorded in an entry is not live under the key it is deleted by. */
  ghost predicate EntryGone(env: Env, live: map<Key, Resource>, e: Entry) {
    && GoodResource(e.resource) && EitherVersion(e.resource).Some?
    && (var d := TargetDefinition(e.resource);
        env.mappingByKind(d).Some? && KeyOf(env, env.mappingByKind(d).value, d) !in live)
  }

  lemma {:induction false} OneFileRetrieval(files: FileMap, defs: seq<Resource>, path: string) returns (i: nat,
          left: seq<Resource>)
    requires files != [] && Agrees(files, defs) && OneFile(files, path) && SameStem(files, path)
    ensures i < |files| && files[i] in files
    ensures RetrieveLastCreatePath(files, defs, path) ==
            Retrieved(Found(files[i].path, files[i].resource, Without(files, i)), [], left)
  {
    IndexedMeansDefined(files, defs);
    i := if Has(files, path) then IndexOf(files, path) else MatchingEntry(files, defs[|defs| - 1]);
    left := if Has(files, path) then defs else Popped(defs);
    assert files[i] in files;
    TakeFromOneFile(files, i, defs, path);
  }

  /** A target without adjacent objects, chosen from the record of one file, was its only entry. */
  lemma {:induction false} OnlyEntryChosen(env: Env, st: State, mapping: string, d: Definition, path: string)
    requires st.files != [] && Agrees(st.files, st.defs) && OneFile(st.files, path) && SameStem(st.files, path)
    requires ResolveTarget(env, st, path, d, mapping).target.Resolved?
    requires ResolveTarget(env, st, path, d, mapping).target.adjacent == []
    ensures |st.files| == 1 && GoodResource(st.files[0].resource) && EitherVersion(st.files[0].resource).Some?
    ensures var r, target := ResolveTarget(env, st, path, d, mapping), TargetDefinition(st.files[0].resource);
            && r.st.files == [] && env.mappingByKind(target).Some?
            && r.target == Resolved([], target, env.mappingByKind(target).value)
  {
    hide Stem, Contains;
    var i, left := OneFileRetrieval(st.files, st.defs, path);
    assert GoodEntry(st.files[i]);
    hide RetrieveLastCreatePath, StoredTarget, OneFile, SameStem, CleanedDict, Agrees;
    var found := Found(st.files[i].path, st.files[i].resource, Without(st.files, i));
    assert ResolveTarget(env, st, path, d, mapping) == TargetOf(env, st.(files := [], defs := left), found, d, mapping);
    assert |Without(st.files, i)| == |st.files| - 1;
  }

  /** A deletion of the plugin's own objects ends normally, for the record of one file, only
      when nothing is left to do: no file object stays recorded, and every object that was
      recorded is gone from the cluster. */
  lemma {:induction false} NormalEndClearsFile(env: Env, st: State, mapping: string, d: Definition, path: string)
    requires AccurateApi(env) && !env.external && Constructed(d)
    requires Agrees(st.files, st.defs) && OneFile(st.files, path) && SameStem(st.files, path)
    ensures DeleteFile(env, st, mapping, d, path).out.Done? ==>
              && DeleteFile(env, st, mapping, d, path).st.files == []
              && forall e :: e in st.files ==> EntryGone(env, st.live, e)
  {
    if DeleteFile(env, st, mapping, d, path).out.Done? {
      NormalEndMeansGone(env, st, mapping, d, path);
      if st.files == [] {
        ResolveTargetFrame(env, st, path, d, mapping);
      } else {
        OnlyEntryChosen(env, st, mapping, d, path);
        assert EntryGone(env, st.live, st.files[0]);
      }
    }
  }

  lemma {:induction false} StepClearsFile(env: Env, st: State, op: Operation, i: nat)
    requires AccurateApi(env) && !env.external && op.task.FileDelete? && i < |op.definitions|
    requires Constructed(op.definitions[i]) && Agrees(st.files, st.defs)
    requires OneFile(st.files, PathFor(op, i)) && SameStem(st.files, PathFor(op, i))
    requires Step(env, st, op, i).out.Done?
    ensures Step(env, st, op, i).st.files == []
    ensures forall e :: e in st.files ==> EntryGone(env, st.live, e)
  {
    var d, path := op.definitions[i], PathFor(op, i);
    var m := env.resolver.mappingWithOptions(d).value;
    CurrentStateFrame(env, st, op, m, d, path);
    var current := CurrentState(env, st, op, m, d, path);
    var handled := HandleExisting(env, current.st, Exists(current.existence));
    NormalEndClearsFile(env, handled, m, d, path);
  }

  /** The same for the operation as a whole: when it no longer asks to be retried and ends
      normally, nothing of the file is recorded and nothing that was recorded is live. */
  lemma {:induction false} PassClearsFile(env: Env, st: State, op: Operation)
    requires AccurateApi(env) && !env.external && op.task.FileDelete? && op.definitions != []
    requires Constructed(op.definitions[0]) && Agrees(st.files, st.defs)
    requires OneFile(st.files, PathFor(op, 0)) && SameStem(st.files, PathFor(op, 0))
    ensures Pass(env, st, op, 0).out.Done? ==>
              && Pass(env, st, op, 0).st.files == []
              && forall e :: e in st.files ==> EntryGone(env, st.live, e)
  {
    hide Step;
    var r := Step(env, st, op, 0);
    PassCases(env, st, op, 0);
    if r.out.Done? {
      StepClearsFile(env, st, op, 0);
      PassProgress(env, r.st, op, 1);
    }
  }

  /** A file created into an empty record makes the record of one file. */
  lemma {:induction false} CreatedRecordIsOneFile(env: Env, st: State, op: Operation)
    requires AccurateApi(env) && NumberedCreate(op) && Stem(op.origin.value).Some?
    requires st.files == [] && Pass(env, st, op, 0).out.Done?
    ensures var files, path := Pass(env, st, op, 0).st.files, PathFor(op, 0);
            OneFile(files, path) && SameStem(files, path)
  {
    CreatePassRecords(env, st, op, 0);
    var files := Pass(env, st, op, 0).st.files;
    NumberedOperation(op);
    forall e: Entry | e in files
      ensures Stem(e.path) == Stem(PathFor(op, 0)) && Contains(e.path, Stem(PathFor(op, 0)).value)
    {
      HasExactly(files, e.path);
      assert Lookup(files, e.path) != Lookup(st.files, e.path);
      assert NumberedFrom(op, 0, e.path);
    }
  }

  /** What a deletion that ends normally leaves recorded is what choosing its target left. */
  lemma {:induction false} NormalEndLeavesRest(env: Env, st: State, mapping: string, d: Definition, path: string)
    requires DeleteFile(env, st, mapping, d, path).out.Done?
    ensures DeleteFile(env, st, mapping, d, path).st.files == ResolveTarget(env, st, path, d, mapping).st.files
  {
    var chosen := ResolveTarget(env, st, path, d, mapping);
    ResolveTargetFrame(env, st, path, d, mapping);
    var target, m := chosen.target.definition, chosen.target.mapping;
    var read := Read(env, chosen.st, m, target);
    DeleteTargetFrame(env, read.st, m, target, path, chosen.target.adjacent);
    hide DeleteTarget, ResolveTarget;
    assert read.st.files == chosen.st.files;
  }

  /** What decides the clean-up: a definition with a name is looked for in the cluster, one
      without in the record. */
  ghost predicate FoundBefore(env: Env, st: State, op: Operation, i: nat)
    requires i < |op.definitions| && env.resolver.mappingWithOptions(op.definitions[i]).Some?
  {
    var d, path := op.definitions[i], PathFor(op, i);
    if HasName(d) then MappedKey(env, d) in st.live
    else
      var recorded := if path != "" then Lookup(st.files, path) else st.single;
      recorded.Some? && TruthyResource(recorded.value)
  }

  /** The clean-up after a normal end finds the path gone already; so it does nothing when the
      definition was not found, and otherwise forgets every file object recorded, those of
      other files included. */
  lemma {:induction false} CleanUpForgetsAllFiles(env: Env, st: State, op: Operation, i: nat)
    requires AccurateApi(env) && TruthyCluster(st.live) && op.task.FileDelete? && i < |op.definitions|
    requires Agrees(st.files, st.defs) && Constructed(op.definitions[i]) && Step(env, st, op, i).out.Done?
    ensures env.resolver.mappingWithOptions(op.definitions[i]).Some?
    ensures var rest := RetrieveLastCreatePath(st.files, st.defs, PathFor(op, i)).files;
            && !Has(rest, PathFor(op, i))
            && Step(env, st, op, i).st.files == if FoundBefore(env, st, op, i) then [] else rest
  {
    var d, path := op.definitions[i], PathFor(op, i);
    var m := env.resolver.mappingWithOptions(d).value;
    CheckAccurately(env, st, m, d);
    var current := CurrentState(env, st, op, m, d, path);
    var handled := HandleExisting(env, current.st, Exists(current.existence));
    NormalEndLeavesRest(env, handled, m, d, path);
    FallbackOnlyWhenEmpty(env, handled, path, d, m);
    var taken := RetrieveLastCreatePath(st.files, st.defs, path);
    TargetOfFrame(env, handled.(files := taken.files, defs := taken.defs), taken.outcome, d, m);
    hide DeleteFile, RetrieveLastCreatePath, TargetOf;
  }
}
