/**
 * Deletions of named objects never fail with an accurate API: each pass ends normally or
 * asks to be retried.
 */
module Endings {
  import opened Options
  import opened JsonValues
  import opened Definitions
  import opened Paths
  import opened Record
  import opened FileMaps
  import opened Cluster
  import opened FileDeletion
  import opened Convergence
  import opened Fallback
  import opened Tasks
  import opened Creation
  import opened RecordKeeping

  predicate StringName(metadata: Option<Dict>) {
    NameIn(metadata).Str? && NameIn(metadata).s != ""
  }

  /** The table of API mappings has this kind. */
  ghost predicate KnownKind(env: Env, kind: string) {
    forall d: Definition :: d.kind == kind ==> env.mappingByKind(d).Some? && env.resolver.mappingWithOptions(d).Some?
  }

  /** An object of a known kind that says what it is, with a version that is not empty and a name. */
  ghost predicate Complete(env: Env, r: Resource) {
    && r.kind.Some? && r.metadata.Some? && StringName(r.metadata) && VersionOf(r).Some? && VersionOf(r).value != ""
    && KnownKind(env, LastSegment(r.kind.value))
  }

  ghost predicate CompleteDefinition(env: Env, d: Definition) {
    Constructed(d) && StringName(Some(d.metadata)) && d.apiVersion != "" && KnownKind(env, d.kind)
  }

  ghost predicate CompleteEntries(env: Env, m: FileMap) {
    forall e: Entry :: e in m ==> Complete(env, e.resource) && Stem(e.path).Some?
  }

  ghost predicate CompleteDefinitions(env: Env, defs: seq<Resource>) {
    forall r :: r in defs ==> Complete(env, r) && r.apiVersion.Some? && r.snakeVersion.None?
  }

  ghost predicate CompleteRecord(env: Env, st: State) {
    CompleteEntries(env, st.files) && CompleteDefinitions(env, st.defs)
  }

  lemma {:induction false} CleanName(metadata: Dict)
    ensures StringName(Some(metadata)) ==> StringName(Some(CleanDict(metadata)))
  {
    if StringName(Some(metadata)) { assert CleanDict(metadata)["name"] == Clean(metadata["name"]) == metadata["name"]; }
  }

  lemma {:induction false} StoredIsComplete(env: Env, d: Definition)
    requires CompleteDefinition(env, d)
    ensures Complete(env, Stored(d)) && Stored(d).apiVersion.Some? && Stored(d).snakeVersion.None?
  {
    CleanName(d.metadata);
  }

  lemma {:induction false} StoreResultCompletes(env: Env, st: State, result: Resource, path: string)
    requires CompleteRecord(env, st) && Complete(env, result) && Stem(path).Some?
    ensures var s := StoreResult(st, result, path);
            s.error.None? && CompleteRecord(env, s.st)
  {
    var s, d := StoreResult(st, result, path), DefinitionOf(result);
    StoredIsComplete(env, d);
    CleanName(result.metadata.value);
    StoreDefinitionEntries(st.defs, d);
    forall e: Entry | e in s.st.files ensures Complete(env, e.resource) && Stem(e.path).Some? {
      assert e in st.files || e == Entry(path, CleanMetadata(result));
    }
  }

  lemma {:induction false} StoreEntriesCompletes(env: Env, st: State, entries: FileMap)
    requires CompleteRecord(env, st) && CompleteEntries(env, entries)
    ensures var s := StoreEntries(st, entries);
            s.error.None? && CompleteRecord(env, s.st)
    decreases |entries|
  {
    if entries != [] {
      assert entries[0] in entries;
      StoreResultCompletes(env, st, entries[0].resource, entries[0].path);
      StoreEntriesCompletes(env, StoreResult(st, entries[0].resource, entries[0].path).st, entries[1..]);
    }
  }

  lemma {:induction false} RemovalOfNamed(env: Env, defs: seq<Resource>, kind: string, name: Json)
    requires CompleteDefinitions(env, defs)
    ensures RemoveSkipping(defs, kind, name).ok && CompleteDefinitions(env, RemoveSkipping(defs, kind, name).defs)
    decreases |defs|
  {
    if |defs| > 0 {
      assert defs[0] in defs;
      RemovalOfNamed(env, defs[1..], kind, name);
      if |defs| > 1 {
        assert defs[1] in defs;
        RemovalOfNamed(env, defs[2..], kind, name);
      }
    }
  }

  lemma {:induction false} RebuiltIsComplete(env: Env, r: Resource)
    requires Complete(env, r) && r.apiVersion.Some? && r.snakeVersion.None?
    ensures Rebuilt(r).Some? && CompleteDefinition(env, Rebuilt(r).value)
  {
  }

  lemma {:induction false} RetrieveStoredCompletes(env: Env, defs: seq<Resource>, d: Definition, mapping: string)
    requires CompleteDefinitions(env, defs) && CompleteDefinition(env, d)
    ensures var r := RetrieveStored(env.resolver, defs, d, mapping, true);
            r.lookup.LookedUp? && CompleteDefinition(env, r.lookup.definition) && CompleteDefinitions(env, r.defs)
  {
    var choice := ChooseStored(env.resolver, defs, d, mapping);
    CleanName(d.metadata);
    StoredIsComplete(env, d);
    if defs != [] {
      assert defs[|defs| - 1] in defs;
      RebuiltIsComplete(env, defs[|defs| - 1]);
    }
    assert CompleteDefinition(env, choice.definition);
    RemovalOfNamed(env, Popped(defs), choice.definition.kind, choice.definition.metadata["name"]);
  }

  /** Without redefinition the given definition is what a deletion without files looks for. */
  lemma {:induction false} GivenIsSought(env: Env, defs: seq<Resource>, d: Definition, mapping: string)
    requires CompleteDefinitions(env, defs) && CompleteDefinition(env, d) && !env.resolver.allowRedefinition
    ensures LookedFor(env, defs, d, mapping) == Some(Sought(Tidied(d), KeyOf(env, mapping, Tidied(d))))
  {
    CleanName(d.metadata);
    hide RemoveSkipping, Complete, KeyOf;
    RetrieveStoredCompletes(env, Popped(defs), d, mapping);
  }

  /** With at most one definition stored, the given one is looked for in any case. */
  lemma {:induction false} GivenSought(env: Env, defs: seq<Resource>, d: Definition, mapping: string)
    requires |defs| <= 1 && CompleteDefinition(env, d)
    ensures LookedFor(env, defs, d, mapping) == Some(Sought(Tidied(d), KeyOf(env, mapping, Tidied(d))))
  {
    assert Popped(defs) == [];
    assert CompleteDefinitions(env, []);
    CleanName(d.metadata);
    hide KeyOf;
  }

  /** A retrieval that finds something finds it complete. */
  ghost predicate CompleteRetrieval(env: Env, r: Retrieved) {
    && !r.outcome.BadPath? && CompleteEntries(env, r.files) && CompleteDefinitions(env, r.defs)
    && (r.outcome.Found? ==> Complete(env, r.outcome.resource) && CompleteEntries(env, r.outcome.adjacent))
  }

  lemma {:induction false} RetrievalCompletes(env: Env, files: FileMap, defs: seq<Resource>, path: string)
    requires CompleteEntries(env, files) && CompleteDefinitions(env, defs)
    ensures CompleteRetrieval(env, RetrieveLastCreatePath(files, defs, path))
  {
    RetrievalLength(files, defs, path);
    if RetrieveLastCreatePath(files, defs, path).outcome.Found? {
      var i := if Has(files, path) then IndexOf(files, path) else MatchingEntry(files, defs[|defs| - 1]);
      TakeSplits(files, i, if Has(files, path) then defs else Popped(defs));
    }
  }

  ghost predicate CompleteTarget(env: Env, r: Resolution) {
    && CompleteRecord(env, r.st) && r.target.Resolved?
    && CompleteDefinition(env, r.target.definition) && CompleteEntries(env, r.target.adjacent)
  }

  lemma {:induction false} TargetOfCompletes(env: Env, st: State, found: Retrieved, d: Definition, mapping: string)
    requires CompleteRetrieval(env, found) && CompleteDefinition(env, d)
    requires st.files == found.files && st.defs == found.defs
    ensures CompleteTarget(env, TargetOf(env, st, found.outcome, d, mapping))
  {
    RetrieveStoredCompletes(env, st.defs, d, mapping);
    hide RetrieveStored, LastSegment;
  }

  lemma {:induction false} TargetCompletes(env: Env, st: State, path: string, d: Definition, mapping: string)
    requires CompleteRecord(env, st) && CompleteDefinition(env, d)
    ensures CompleteTarget(env, ResolveTarget(env, st, path, d, mapping))
  {
    var r := RetrieveLastCreatePath(st.files, st.defs, path);
    RetrievalCompletes(env, st.files, st.defs, path);
    TargetOfCompletes(env, st.(files := r.files, defs := r.defs), r, d, mapping);
    hide RetrieveLastCreatePath, TargetOf;
  }

  lemma {:induction false} DeleteTargetEnds(env: Env, st: State, mapping: string, d: Definition, path: string,
          adjacent: FileMap)
    requires AccurateApi(env) && CompleteRecord(env, st) && CompleteDefinition(env, d) && CompleteEntries(env, adjacent)
    requires Stem(path).Some? && KeyOf(env, mapping, d) in st.live
    ensures var r := DeleteTarget(env, st, mapping, d, path, adjacent);
            !r.out.Fail? && CompleteRecord(env, r.st)
  {
    DeleteLiveTarget(env, st, mapping, d);
    var deleted := DoDelete(env, st, mapping, d);
    PrepareKeepsKeys(env, deleted.st, mapping, d, deleted.response.obj);
    var prepared := DeleteAndPrepare(env, deleted.st, mapping, d, deleted.response.obj);
    StoredIsComplete(env, d);
    StoreResultCompletes(env, prepared.st, Stored(d), path);
    StoreEntriesCompletes(env, StoreResult(prepared.st, Stored(d), path).st, adjacent);
    hide DoDelete;
  }

  /** With an accurate API, deleting from a record of complete
      objects never fails, and leaves such a record. */
  lemma {:induction false} DeleteFileEnds(env: Env, st: State, mapping: string, d: Definition, path: string)
    requires AccurateApi(env) && CompleteRecord(env, st) && CompleteDefinition(env, d) && Stem(path).Some?
    ensures var r := DeleteFile(env, st, mapping, d, path);
            !r.out.Fail? && CompleteRecord(env, r.st)
    decreases |st.files|, 0
  {
    var chosen := ResolveTarget(env, st, path, d, mapping);
    ResolveTargetFrame(env, st, path, d, mapping);
    TargetCompletes(env, st, path, d, mapping);
    var adjacent, target, m := chosen.target.adjacent, chosen.target.definition, chosen.target.mapping;
    ReadAccurately(env, chosen.st, m, target);
    var read := Read(env, chosen.st, m, target);
    assert read.st.files == chosen.st.files && read.st.defs == chosen.st.defs;
    if ReadingOf(read.response).Missing? {
      if adjacent != [] {
        DeleteInnerEnds(env, read.st, adjacent, target, path);
        StoreEntriesCompletes(env, DeleteInner(env, read.st, adjacent, target, path).st, adjacent);
      }
    } else {
      DeleteTargetEnds(env, read.st, m, target, path, adjacent);
      StoreEntriesCompletes(env, DeleteTarget(env, read.st, m, target, path, adjacent).st, adjacent);
    }
  }

  lemma {:induction false} DeleteInnerEnds(env: Env, st: State, adjacent: FileMap, outer: Definition, path: string)
    requires CompleteDefinition(env, outer)
    requires AccurateApi(env) && CompleteRecord(env, st) && CompleteEntries(env, adjacent) && Stem(path).Some?
    ensures var r := DeleteInner(env, st, adjacent, outer, path);
            !r.out.Fail? && CompleteRecord(env, r.st)
    decreases |st.files|, |adjacent| + 1
  {
    if adjacent != [] {
      assert adjacent[0] in adjacent;
      var inner, m := InnerDefinition(adjacent[0].resource), env.mappingByKind(outer);
      if inner.None? {
        DeleteInnerEnds(env, st, adjacent[1..], outer, path);
      } else {
        DeleteFileEnds(env, st, m.value, inner.value, path);
        var r := DeleteFile(env, st, m.value, inner.value, path);
        if r.out.Done? { DeleteInnerEnds(env, r.st, adjacent[1..], outer, path); }
      }
    }
  }

  ghost predicate CompleteOperation(env: Env, op: Operation) {
    forall i :: 0 <= i < |op.definitions| ==> CompleteDefinition(env, op.definitions[i]) && Stem(PathFor(op, i)).Some?
  }

  lemma {:induction false} CurrentStateKnown(env: Env, st: State, op: Operation, mapping: string, d: Definition,
          path: string)
    requires AccurateApi(env) && CompleteDefinition(env, d) && CompleteRecord(env, st)
    ensures var c := CurrentState(env, st, op, mapping, d, path);
            !c.existence.Unknown? && CompleteRecord(env, HandleExisting(env, c.st, Exists(c.existence)))
  {
    ReadAccurately(env, st, mapping, d);
    hide CompleteEntries, CompleteDefinitions;
  }

  lemma {:induction false} CleanUpCompletes(env: Env, st: State, op: Operation, found: bool, path: string)
    requires CompleteRecord(env, st)
    ensures CompleteRecord(env, CleanUp(st, op, found, path))
  {
  }

  lemma {:induction false} StepEnds(env: Env, st: State, op: Operation, i: nat)
    requires AccurateApi(env) && CompleteRecord(env, st) && CompleteOperation(env, op)
    requires op.task.FileDelete? && i < |op.definitions|
    ensures var r := Step(env, st, op, i);
            !r.out.Fail? && CompleteRecord(env, r.st)
  {
    var d, path := op.definitions[i], PathFor(op, i);
    var m := env.resolver.mappingWithOptions(d).value;
    CurrentStateKnown(env, st, op, m, d, path);
    var current := CurrentState(env, st, op, m, d, path);
    var handled := HandleExisting(env, current.st, Exists(current.existence));
    DeleteFileEnds(env, handled, m, d, path);
    var r := DeleteFile(env, handled, m, d, path);
    SameIsComplete(env, r.st, r.st.(perform := false));
    CleanUpCompletes(env, r.st.(perform := false), op, Exists(current.existence), path);
    hide DeleteFile, CurrentState, CleanUp, CompleteRecord;
  }

  lemma {:induction false} SameIsComplete(env: Env, before: State, after: State)
    requires CompleteRecord(env, before) && SameRecord(before, after)
    ensures CompleteRecord(env, after)
  {
  }

  /** A whole pass of a delete operation ends normally or asks to be retried. */
  lemma {:induction false} PassEnds(env: Env, st: State, op: Operation, i: nat)
    requires AccurateApi(env) && CompleteRecord(env, st) && CompleteOperation(env, op)
    requires op.task.FileDelete? && i <= |op.definitions|
    ensures var r := Pass(env, st, op, i);
            !r.out.Fail? && CompleteRecord(env, r.st)
    decreases |op.definitions| - i
  {
    hide Step, CompleteOperation;
    if i < |op.definitions| {
      StepEnds(env, st, op, i);
      PassCases(env, st, op, i);
      var r := Step(env, st, op, i);
      if r.out.Done? { PassEnds(env, r.st, op, i + 1); }
    }
  }
}
