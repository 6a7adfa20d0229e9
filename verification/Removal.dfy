/**
 * The end of a file's resources: deleting, retried as often as it asks, ends normally with
 * nothing recorded and nothing created left in the cluster.
 */
module Removal {
  import opened Options
  import opened JsonValues
  import opened Definitions
  import opened Paths
  import opened Record
  import opened FileMaps
  import opened Cluster
  import opened FileDeletion
  import opened Convergence
  import opened Agreement
  import opened Fallback
  import opened Conservation
  import opened Tasks
  import opened Creation
  import opened Retries
  import opened RecordKeeping
  import opened Endings
  import opened Lifecycle

  // ----------------------------------------------- the record stays one file's

  /** Every recorded path has this stem. */
  ghost predicate OfFile(m: FileMap, stem: string) {
    forall e: Entry :: e in m ==> Stem(e.path) == Some(stem) && Contains(e.path, stem)
  }

  ghost predicate OnStem(path: string, stem: string) {
    Stem(path) == Some(stem) && Contains(path, stem)
  }

  lemma {:induction false} StoreResultOfFile(st: State, result: Resource, path: string, stem: string)
    requires OfFile(st.files, stem) && OnStem(path, stem)
    ensures OfFile(StoreResult(st, result, path).st.files, stem)
  {
  }

  lemma {:induction false} StoreEntriesOfFile(st: State, entries: FileMap, stem: string)
    requires OfFile(st.files, stem) && OfFile(entries, stem)
    ensures OfFile(StoreEntries(st, entries).st.files, stem)
    decreases |entries|
  {
    if entries != [] {
      assert entries[0] in entries;
      StoreResultOfFile(st, entries[0].resource, entries[0].path, stem);
      StoreEntriesOfFile(StoreResult(st, entries[0].resource, entries[0].path).st, entries[1..], stem);
    }
  }

  lemma {:induction false} TargetOfFile(env: Env, st: State, path: string, d: Definition, mapping: string, stem: string)
    requires OfFile(st.files, stem)
    ensures var r := ResolveTarget(env, st, path, d, mapping);
            OfFile(r.st.files, stem) && (r.target.Resolved? ==> OfFile(r.target.adjacent, stem))
  {
    var r := RetrieveLastCreatePath(st.files, st.defs, path);
    TargetOfFrame(env, st.(files := r.files, defs := r.defs), r.outcome, d, mapping);
    RetrievalLength(st.files, st.defs, path);
    if r.outcome.Found? {
      var i := if Has(st.files, path) then IndexOf(st.files, path) else MatchingEntry(st.files, st.defs[|st.defs| - 1]);
      TakeSplits(st.files, i, if Has(st.files, path) then st.defs else Popped(st.defs));
    }
    hide RetrieveLastCreatePath, TargetOf, Stem, Contains;
  }

  lemma {:induction false} DeleteTargetOfFile(env: Env, st: State, mapping: string, d: Definition, path: string,
          adjacent: FileMap, stem: string)
    requires OfFile(st.files, stem) && OfFile(adjacent, stem) && OnStem(path, stem)
    ensures OfFile(DeleteTarget(env, st, mapping, d, path, adjacent).st.files, stem)
  {
    var r := DoDelete(env, st, mapping, d);
    DoDeleteFrame(env, st, mapping, d);
    if r.response.Got? {
      DeleteAndPrepareFrame(env, r.st, mapping, d, r.response.obj);
      var p := DeleteAndPrepare(env, r.st, mapping, d, r.response.obj);
      StoreResultOfFile(p.st, Stored(d), path, stem);
      StoreEntriesOfFile(StoreResult(p.st, Stored(d), path).st, adjacent, stem);
    }
    hide DoDelete, DeleteAndPrepare, StoreResult, StoreEntries, OfFile;
  }

  lemma {:induction false} DeleteFileOfFile(env: Env, st: State, mapping: string, d: Definition, path: string,
        stem: string)
    requires OfFile(st.files, stem) && OnStem(path, stem)
    ensures OfFile(DeleteFile(env, st, mapping, d, path).st.files, stem)
    decreases |st.files|, 0
  {
    var chosen := ResolveTarget(env, st, path, d, mapping);
    ResolveTargetFrame(env, st, path, d, mapping);
    TargetOfFile(env, st, path, d, mapping, stem);
    hide OfFile;
    if chosen.target.Resolved? {
      var adjacent, target, m := chosen.target.adjacent, chosen.target.definition, chosen.target.mapping;
      var read := Read(env, chosen.st, m, target);
      assert read.st.files == chosen.st.files;
      if ReadingOf(read.response).Missing? && adjacent != [] {
        DeleteInnerOfFile(env, read.st, adjacent, target, path, stem);
        StoreEntriesOfFile(DeleteInner(env, read.st, adjacent, target, path).st, adjacent, stem);
      } else if ReadingOf(read.response).Readable? {
        DeleteTargetOfFile(env, read.st, m, target, path, adjacent, stem);
        StoreEntriesOfFile(DeleteTarget(env, read.st, m, target, path, adjacent).st, adjacent, stem);
      }
    }
  }

  lemma {:induction false} DeleteInnerOfFile(env: Env, st: State, adjacent: FileMap, outer: Definition, path: string,
          stem: string)
    requires OfFile(st.files, stem) && OnStem(path, stem)
    ensures OfFile(DeleteInner(env, st, adjacent, outer, path).st.files, stem)
    decreases |st.files|, |adjacent| + 1
  {
    hide OfFile;
    if adjacent != [] {
      var inner, m := InnerDefinition(adjacent[0].resource), env.mappingByKind(outer);
      if inner.None? {
        DeleteInnerOfFile(env, st, adjacent[1..], outer, path, stem);
      } else if m.Some? {
        DeleteFileOfFile(env, st, m.value, inner.value, path, stem);
        var r := DeleteFile(env, st, m.value, inner.value, path);
        if r.out.Done? { DeleteInnerOfFile(env, r.st, adjacent[1..], outer, path, stem); }
      }
    }
  }

  lemma {:induction false} CleanUpOfFile(st: State, op: Operation, found: bool, path: string, stem: string)
    requires OfFile(st.files, stem)
    ensures OfFile(CleanUp(st, op, found, path).files, stem)
  {
    hide Stem, Contains;
  }

  /** What a delete pass starts from: a record of this file only, in agreement. */
  ghost predicate Deletable(env: Env, op: Operation, st: State)
    requires File(env, op)
  {
    Agrees(st.files, st.defs) && OfFile(st.files, Stem(op.origin.value).value)
  }

  lemma {:induction false} StepDeletable(env: Env, op: Operation, st: State, i: nat)
    requires File(env, op) && op.task.FileDelete? && i < |op.definitions|
    requires OfFile(st.files, Stem(op.origin.value).value)
    ensures OfFile(Step(env, st, op, i).st.files, Stem(op.origin.value).value)
  {
    var d, path, stem := op.definitions[i], PathFor(op, i), Stem(op.origin.value).value;
    FilePaths(env, op, i, i);
    var m := env.resolver.mappingWithOptions(d);
    if m.Some? {
      ApiRepliesClean(env, st, m.value, d);
      var current := CurrentState(env, st, op, m.value, d, path);
      if !current.existence.Unknown? {
        var found := Exists(current.existence);
        var handled := HandleExisting(env, current.st, found);
        DeleteFileOfFile(env, handled, m.value, d, path, stem);
        CleanUpOfFile(DeleteFile(env, handled, m.value, d, path).st.(perform := false), op, found, path, stem);
        hide DeleteFile, CurrentState, CleanUp, OfFile, File;
      }
    }
  }

  lemma {:induction false} PassOfFile(env: Env, op: Operation, st: State, i: nat)
    requires File(env, op) && op.task.FileDelete? && i <= |op.definitions|
    requires OfFile(st.files, Stem(op.origin.value).value)
    ensures OfFile(Pass(env, st, op, i).st.files, Stem(op.origin.value).value)
    decreases |op.definitions| - i
  {
    hide Step, OfFile, File;
    if i < |op.definitions| {
      StepDeletable(env, op, st, i);
      PassCases(env, st, op, i);
      var r := Step(env, st, op, i);
      if r.out.Done? { PassOfFile(env, op, r.st, i + 1); }
    }
  }

  lemma {:induction false} PassDeletable(env: Env, op: Operation, st: State)
    requires File(env, op) && op.task.FileDelete? && Deletable(env, op, st)
    ensures Deletable(env, op, Pass(env, st, op, 0).st)
  {
    FileIsOperation(env, op);
    PassOfFile(env, op, st, 0);
    PassAgrees(env, st, op, 0);
    hide Pass;
  }

  // ------------------------------------------------------- the first pass

  /** A deletion by path asks to be retried as long as anything else of the file is recorded. */
  lemma {:induction false} AdjacentMeansRetry(env: Env, st: State, mapping: string, d: Definition, path: string)
    requires AccurateApi(env) && !env.external && CompleteRecord(env, st) && CompleteDefinition(env, d)
    requires Agrees(st.files, st.defs) && Has(st.files, path) && OneFile(st.files, path) && |st.files| > 1
    ensures DeleteFile(env, st, mapping, d, path).out.Retry?
  {
    DeleteFileEnds(env, st, mapping, d, path);
    if DeleteFile(env, st, mapping, d, path).out.Done? {
      NormalEndMeansGone(env, st, mapping, d, path);
      OneFileTarget(env, st, mapping, d, path);
    }
    hide DeleteFile, ResolveTarget, Complete;
  }

  /** A deletion by path that does not fail leaves the object at the path not live. */
  lemma {:induction false} PrimaryGoes(env: Env, st: State, mapping: string, d: Definition, path: string)
    requires AccurateApi(env) && !env.external && Agrees(st.files, st.defs) && Has(st.files, path)
    requires OneFile(st.files, path)
    requires !DeleteFile(env, st, mapping, d, path).out.Fail?
    ensures var hit := Lookup(st.files, path).value;
            && GoodResource(hit) && EitherVersion(hit).Some? && env.mappingByKind(TargetDefinition(hit)).Some?
            && KeyOf(env, env.mappingByKind(TargetDefinition(hit)).value, TargetDefinition(hit))
               !in DeleteFile(env, st, mapping, d, path).st.live
  {
    OneFileTarget(env, st, mapping, d, path);
    var chosen := ResolveTarget(env, st, path, d, mapping);
    var adjacent, target, m := chosen.target.adjacent, chosen.target.definition, chosen.target.mapping;
    ReadAccurately(env, chosen.st, m, target);
    var read := Read(env, chosen.st, m, target);
    if ReadingOf(read.response).Missing? {
      DeleteInnerProgress(env, read.st, adjacent, target, path);
      StoreEntriesFrame(DeleteInner(env, read.st, adjacent, target, path).st, adjacent);
    } else {
      TargetGoes(env, read.st, m, target, path, adjacent);
      StoreEntriesFrame(DeleteTarget(env, read.st, m, target, path, adjacent).st, adjacent);
    }
    hide ResolveTarget, DeleteTarget, DeleteInner, KeyOf;
  }

  lemma {:induction false} TargetGoes(env: Env, st: State, mapping: string, d: Definition, path: string,
        adjacent: FileMap)
    requires AccurateApi(env) && !env.external && HasName(d) && KeyOf(env, mapping, d) in st.live
    ensures KeyOf(env, mapping, d) !in DeleteTarget(env, st, mapping, d, path, adjacent).st.live
  {
    DeleteLiveTarget(env, st, mapping, d);
    var r := DoDelete(env, st, mapping, d);
    PrepareKeepsKeys(env, r.st, mapping, d, r.response.obj);
    var p := DeleteAndPrepare(env, r.st, mapping, d, r.response.obj);
    StoreResultFrame(p.st, Stored(d), path);
    StoreEntriesFrame(StoreResult(p.st, Stored(d), path).st, adjacent);
    hide DoDelete, DeleteAndPrepare, KeyOf;
  }

  lemma {:induction false} ShownKey(env: Env, obj: Resource, d: Definition)
    requires env.resolver.mappingWithOptions(d).Some? && Shows(env, obj, d)
    ensures KeyOf(env, env.mappingByKind(TargetDefinition(obj)).value, TargetDefinition(obj)) == MappedKey(env, d)
  {
  }

  /** A step of a delete pass is a deletion that starts from the record and cluster as they are. */
  lemma {:induction false} StepDeletes(env: Env, op: Operation, st: State, i: nat, m: string) returns (start: State)
    requires AccurateApi(env) && op.task.FileDelete? && i < |op.definitions| && HasName(op.definitions[i])
    requires env.resolver.mappingWithOptions(op.definitions[i]) == Some(m)
    ensures SameRecord(st, start) && start.live == st.live
    ensures var r := DeleteFile(env, start, m, op.definitions[i], PathFor(op, i));
            && Step(env, st, op, i).st.live == r.st.live && Step(env, st, op, i).out == r.out
            && (r.out.Retry? ==> Step(env, st, op, i) == r)
            && (r.out.Done? ==>
                  Step(env, st, op, i).st.defs == r.st.defs
                    && (r.st.files == [] ==> Step(env, st, op, i).st.files == []))
  {
    var d, path := op.definitions[i], PathFor(op, i);
    ReadAccurately(env, st, m, d);
    var current := CurrentState(env, st, op, m, d, path);
    start := HandleExisting(env, current.st, Exists(current.existence));
    hide DeleteFile, Read;
  }

  lemma {:induction false} FirstRecorded(env: Env, op: Operation, files: FileMap)
    requires File(env, op) && FileRecord(env, op, files) && files != []
    ensures var d, path := op.definitions[0], PathFor(op, 0);
            && Served(env, d) && Has(files, path) && Shows(env, Lookup(files, path).value, d)
  {
    assert op.definitions[0] in op.definitions;
    assert files[0].path == PathFor(op, 0);
    assert IndexOf(files, PathFor(op, 0)) == 0;
    hide Served, Shows;
  }

  /** A record of the first definitions of the file, or none at all. */
  ghost predicate RecordedOrNot(env: Env, op: Operation, st: State) {
    FileRecord(env, op, st.files) && (st.files != [] || st.defs == [])
  }

  lemma {:induction false} FirstStep(env: Env, op: Operation, st: State)
    requires AccurateApi(env) && !env.external && File(env, op) && op.task.FileDelete? && op.definitions != []
    requires Deletable(env, op, st) && RecordedOrNot(env, op, st)
    requires !Step(env, st, op, 0).out.Fail?
    ensures Served(env, op.definitions[0]) && MappedKey(env, op.definitions[0]) !in Step(env, st, op, 0).st.live
  {
    var d, path := op.definitions[0], PathFor(op, 0);
    assert d in op.definitions && Served(env, d);
    FilePaths(env, op, 0, 0);
    var m := env.resolver.mappingWithOptions(d).value;
    if st.files != [] {
      FirstRecorded(env, op, st.files);
      RecordIsOneFile(env, op, st.files);
    }
    hide Step, DeleteFile, Shows, File, OneFile, FileRecord, Agrees, OfFile;
    var start := StepDeletes(env, op, st, 0, m);
    if st.files != [] {
      PrimaryGoes(env, start, m, d, path);
      ShownKey(env, Lookup(st.files, path).value, d);
    } else {
      CleanKey(env, d);
      GivenSought(env, st.defs, d, m);
      hide Served, LookedFor, LeftDefinitions, Tidied, KeyOf;
      DeletionWithoutFiles(env, start, m, d, path);
    }
  }

  /** The first delete pass leaves the object of the first definition not live. */
  lemma {:induction false} FirstPass(env: Env, op: Operation, st: State)
    requires AccurateApi(env) && !env.external && File(env, op) && op.task.FileDelete? && op.definitions != []
    requires Deletable(env, op, st) && RecordedOrNot(env, op, st)
    requires !Pass(env, st, op, 0).out.Fail?
    ensures Served(env, op.definitions[0]) && MappedKey(env, op.definitions[0]) !in Pass(env, st, op, 0).st.live
  {
    PassCases(env, st, op, 0);
    FirstStep(env, op, st);
    hide Step, Deletable, RecordedOrNot;
    var r := Step(env, st, op, 0);
    if r.out.Done? { PassProgress(env, r.st, op, 1); }
  }

  // -------------------------------------------------------- the last pass

  lemma {:induction false} OfFileIsOneFile(env: Env, op: Operation, m: FileMap)
    requires File(env, op) && OfFile(m, Stem(op.origin.value).value)
    ensures OneFile(m, PathFor(op, 0)) && SameStem(m, PathFor(op, 0))
  {
    FilePaths(env, op, 0, 0);
  }

  lemma {:induction false} CleanKey(env: Env, d: Definition)
    requires Served(env, d)
    ensures KeyOf(env, env.resolver.mappingWithOptions(d).value, Tidied(d)) == MappedKey(env, d)
  {
    CleanFixed(NameIn(Some(d.metadata)));
    CleanFixed(NamespaceIn(Some(d.metadata)));
    NameShown(env, d);
  }

  lemma {:induction false} NameShown(env: Env, d: Definition)
    requires Served(env, d)
    ensures Cleaned(NameIn(Some(d.metadata)))
  {
    var shown := CleanResource(env.render(d)).metadata.value;
    CleanDictFixed(shown);
    assert NameIn(Some(shown)) == NameIn(Some(d.metadata));
    assert Truthy(NameIn(Some(shown)));
    assert "name" in shown && Cleaned(shown["name"]);
  }

  /** Whether definition `j` is shadowed in a pass whose first definition has left these. */
  ghost predicate ShadowedAt(env: Env, op: Operation, defs: seq<Resource>, j: nat)
    requires 0 < j < |op.definitions|
  {
    ShadowedIn(env, DefinitionsAt(env, defs, op, 1, j), op.definitions[j])
  }

  lemma {:induction false} GoneOrShadowed(env: Env, op: Operation, live: map<Key, Resource>, defs: seq<Resource>,
        j: nat)
    requires File(env, op) && 0 < j < |op.definitions|
    requires ShadowedIn(env, DefinitionsAt(env, defs, op, 1, j), op.definitions[j])
        || Gone(env, live, op.definitions[j])
    ensures var d := op.definitions[j];
            Served(env, d) && (MappedKey(env, d) in live ==> ShadowedAt(env, op, defs, j))
  {
    assert op.definitions[j] in op.definitions;
    CleanKey(env, op.definitions[j]);
    hide Shows, ShadowedIn;
  }

  /** A delete pass that ends normally has found gone every definition after the first that
      was not shadowed, and leaves nothing recorded. */
  lemma {:induction false} LastPass(env: Env, op: Operation, st: State)
    requires AccurateApi(env) && !env.external && File(env, op) && op.task.FileDelete? && op.definitions != []
    requires Deletable(env, op, st) && Pass(env, st, op, 0).out.Done?
    ensures var after := Pass(env, st, op, 0).st;
            && after.files == [] && after.live.Keys <= st.live.Keys
            && (forall j :: 0 < j < |op.definitions| ==>
                  Served(env, op.definitions[j])
                  && (MappedKey(env, op.definitions[j]) in after.live ==>
                       ShadowedAt(env, op, Step(env, st, op, 0).st.defs, j)))
  {
    PassCases(env, st, op, 0);
    OfFileIsOneFile(env, op, st.files);
    ServedIsConstructed(env, op);
    assert op.definitions[0] in op.definitions;
    hide Step, ShadowedIn, Gone, OfFile, DefinitionsAt, File, Shows;
    var r := Step(env, st, op, 0);
    PassProgress(env, st, op, 0);
    StepClearsFile(env, st, op, 0);
    FileIsNumbered(env, op);
    PassWithoutFiles(env, r.st, op, 1);
    forall j | 0 < j < |op.definitions| { GoneOrShadowed(env, op, r.st.live, r.st.defs, j); }
  }

  lemma {:induction false} ServedIsConstructed(env: Env, op: Operation)
    requires File(env, op)
    ensures forall d :: d in op.definitions ==> Constructed(d)
  {
  }

  lemma {:induction false} FileIsNumbered(env: Env, op: Operation)
    requires File(env, op)
    ensures NumberedPaths(op)
  {
    forall i: nat ensures PathFor(op, i) != "" { FilePaths(env, op, i, i); }
  }

  // --------------------------------------------------------- all together

  lemma {:induction false} RetriesDeletable(env: Env, op: Operation, run: nat -> State, n: nat)
    requires File(env, op) && op.task.FileDelete? && Deletable(env, op, run(0))
    requires forall i: nat :: i < n ==> Retried(env, op, run(i), run(i + 1))
    ensures Deletable(env, op, run(n))
  {
    if n > 0 {
      RetriesDeletable(env, op, run, n - 1);
      PassDeletable(env, op, run(n - 1));
      assert Retried(env, op, run(n - 1), run(n - 1 + 1));
    }
  }

  lemma {:induction false} RetriesOnlyDelete(env: Env, op: Operation, run: nat -> State, n: nat)
    requires AccurateApi(env) && op.task.FileDelete? && n > 0
    requires forall i: nat :: i < n ==> Retried(env, op, run(i), run(i + 1))
    ensures run(n).live.Keys <= run(1).live.Keys
  {
    if n > 1 {
      RetriesOnlyDelete(env, op, run, n - 1);
      PassProgress(env, run(n - 1), op, 0);
      assert Retried(env, op, run(n - 1), run(n - 1 + 1));
    }
  }

  /** Deleting the resources of a created file, retried until it ends normally: nothing of the
      file is recorded any more, and an object of the file that is still live is one whose
      definition, not the first, was shadowed in the last pass.  Without redefinition none is. */
  lemma {:induction false} DeletedToTheEnd(env: Env, op: Operation, run: nat -> State, n: nat)
    requires AccurateApi(env) && !env.external && File(env, op) && op.task.FileDelete? && op.definitions != []
    requires Deletable(env, op, run(0)) && RecordedOrNot(env, op, run(0))
    requires forall i: nat :: i < n ==> Retried(env, op, run(i), run(i + 1))
    requires Pass(env, run(n), op, 0).out.Done?
    ensures var after := Pass(env, run(n), op, 0).st;
            && after.files == []
            && (forall j :: 0 <= j < |op.definitions| ==>
                  Served(env, op.definitions[j])
                  && (MappedKey(env, op.definitions[j]) in after.live ==>
                        env.resolver.allowRedefinition && j > 0
                          && ShadowedAt(env, op, Step(env, run(n), op, 0).st.defs, j)))
  {
    hide Pass, Step, Deletable, FileRecord, DefinitionsAt, Served;
    RetriesDeletable(env, op, run, n);
    LastPass(env, op, run(n));
    if n > 0 {
      assert Retried(env, op, run(0), run(0 + 1));
      RetriesOnlyDelete(env, op, run, n);
    }
    FirstPass(env, op, run(0));
  }

  /** The whole life of a file's resources, from an empty record, in a cluster whose API is
      accurate: however they were created, updated, read and checked, deleting the file asks for
      a bounded number of retries and then ends normally, with nothing recorded; what is still
      live of the file is shadowed, so that without redefinition nothing is. */
  lemma {:induction false} LifeEnds(env: Env, op: Operation, st: State, ops: seq<Operation>, run: nat -> State)
    requires AccurateApi(env) && !env.external
    requires File(env, op) && op.task.FileDelete? && op.definitions != []
    requires st.files == [] && st.defs == [] && ClusterShows(env, op, st.live) && forall o :: o in ops ==> OnFile(op, o)
    requires run(0) == Run(env, st, ops)
    requires forall i: nat :: run(i + 1) == Pass(env, run(i), op, 0).st
    ensures exists n: nat :: n <= Remaining(run(0)) && RemovedAt(env, op, run, n)
  {
    assert FileRecord(env, op, st.files) && CompleteRecord(env, st) && Aligned(st);
    hide Pass, File, FileRecord, ClusterShows, Run, OnFile, AccurateApi, Retried, Complete, RemovedAt;
    SetUpKeepsFile(env, op, st, ops);
    RecordIsDeletable(env, op, run(0));
    NoEndlessRetries(env, op, run);
    var n: nat :| n <= Remaining(run(0)) && !Retried(env, op, run(n), run(n + 1));
    n := LeastUnretried(env, op, run, n);
    RemovedAfter(env, op, run, n);
  }

  lemma {:induction false} RemovedAfter(env: Env, op: Operation, run: nat -> State, n: nat)
    requires AccurateApi(env) && !env.external
    requires File(env, op) && op.task.FileDelete? && op.definitions != []
    requires Deletable(env, op, run(0)) && RecordedOrNot(env, op, run(0))
    requires CompleteOperation(env, op) && CompleteRecord(env, run(0))
    requires forall i: nat :: run(i + 1) == Pass(env, run(i), op, 0).st
    requires forall i: nat :: i < n ==> Retried(env, op, run(i), run(i + 1))
    requires !Retried(env, op, run(n), run(n + 1))
    ensures RemovedAt(env, op, run, n)
  {
    hide Pass, Step, File, FileRecord, AccurateApi, Complete, CompleteOperation, Deletable, Served, ShadowedAt;
    RetriesComplete(env, op, run, n);
    PassEnds(env, run(n), op, 0);
    DeletedToTheEnd(env, op, run, n);
  }

  /** Pass `n` ends normally, after passes that all asked to be retried, and has removed the file. */
  ghost predicate RemovedAt(env: Env, op: Operation, run: nat -> State, n: nat) {
    var r := Pass(env, run(n), op, 0);
    && (forall i: nat :: i < n ==> Retried(env, op, run(i), run(i + 1)))
    && r.out.Done? && r.st.files == []
    && (forall j :: 0 <= j < |op.definitions| ==>
          Served(env, op.definitions[j])
          && (MappedKey(env, op.definitions[j]) in r.st.live ==>
                env.resolver.allowRedefinition && j > 0 && ShadowedAt(env, op, Step(env, run(n), op, 0).st.defs, j)))
  }

  lemma {:induction false} RecordIsDeletable(env: Env, op: Operation, st: State)
    requires File(env, op) && FileRecord(env, op, st.files) && Agrees(st.files, st.defs)
    ensures Deletable(env, op, st) && CompleteOperation(env, op)
  {
    RecordIsOneFile(env, op, st.files);
    FilePaths(env, op, 0, 0);
    forall i | 0 <= i < |op.definitions|
      ensures CompleteDefinition(env, op.definitions[i]) && Stem(PathFor(op, i)).Some? {
      assert op.definitions[i] in op.definitions && Served(env, op.definitions[i]);
      FilePaths(env, op, i, i);
    }
  }

  lemma {:induction false} LeastUnretried(env: Env, op: Operation, run: nat -> State, m: nat) returns (n: nat)
    requires !Retried(env, op, run(m), run(m + 1))
    ensures n <= m && !Retried(env, op, run(n), run(n + 1))
    ensures forall i: nat :: i < n ==> Retried(env, op, run(i), run(i + 1))
  {
    hide Retried;
    n := 0;
    while Retried(env, op, run(n), run(n + 1))
      invariant n <= m
      invariant forall i: nat :: i < n ==> Retried(env, op, run(i), run(i + 1))
      decreases m - n
    {
      n := n + 1;
    }
  }

  lemma {:induction false} RetriesComplete(env: Env, op: Operation, run: nat -> State, n: nat)
    requires AccurateApi(env) && CompleteOperation(env, op) && op.task.FileDelete?
    requires CompleteRecord(env, run(0)) && forall i: nat :: run(i + 1) == Pass(env, run(i), op, 0).st
    ensures CompleteRecord(env, run(n))
  {
    if n > 0 {
      RetriesComplete(env, op, run, n - 1);
      PassEnds(env, run(n - 1), op, 0);
      assert run(n - 1 + 1) == Pass(env, run(n - 1), op, 0).st;
    }
  }
}
