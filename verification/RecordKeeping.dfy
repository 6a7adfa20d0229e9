/**
 * What every operation keeps of the record, blueprint or file, whatever the API answers
 * and whatever it ends with: the definition list is a list of distinct definitions that
 * cleaning leaves alone.
 */
module RecordKeeping {
  import opened JsonValues
  import opened Definitions
  import opened Record
  import opened FileMaps
  import opened Cluster
  import opened FileDeletion
  import opened Agreement
  import opened Tasks
  import opened Creation

  ghost predicate CleanedMetadata(r: Resource) {
    r.metadata.Some? ==> CleanedDict(r.metadata.value)
  }

  /** A stored definition says what it is and nothing more, in clean values. */
  ghost predicate SoundDefinition(r: Resource) {
    && r.kind.Some? && '.' !in r.kind.value && r.apiVersion.Some? && r.snakeVersion.None?
    && r.metadata.Some? && CleanedDict(r.metadata.value) && r.body == map[]
  }

  ghost predicate SoundDefinitions(defs: seq<Resource>) {
    DistinctIdentities(defs) && forall r :: r in defs ==> SoundDefinition(r)
  }

  ghost predicate CleanEntries(m: FileMap) {
    forall e: Entry :: e in m ==> CleanedMetadata(e.resource)
  }

  ghost predicate SoundRecord(st: State) {
    SoundDefinitions(st.defs) && CleanEntries(st.files)
  }

  /** The definition `store_result_for_retrieve_id` stores for a result. */
  function DefinitionOf(result: Resource): Definition
    requires result.kind.Some? && result.metadata.Some? && VersionOf(result).Some?
  {
    Definition(LastSegment(result.kind.value), VersionOf(result).value, result.metadata.value, map[])
  }

  lemma {:induction false} StoredIsSound(result: Resource)
    requires result.kind.Some? && result.metadata.Some? && VersionOf(result).Some? && CleanedMetadata(result)
    ensures SoundDefinition(Stored(DefinitionOf(result))) && IdentityStable(DefinitionOf(result))
  {
    CleanedIsStable(DefinitionOf(result));
    CleanDictFixed(result.metadata.value);
  }

  lemma {:induction false} StoreDefinitionEntries(defs: seq<Resource>, d: Definition)
    ensures forall r :: r in StoreDefinition(defs, d) ==> r in defs || r == Stored(d)
  {
  }

  lemma {:induction false} StoreResultSound(st: State, result: Resource, path: string)
    requires SoundRecord(st) && CleanedMetadata(result)
    ensures SoundRecord(StoreResult(st, result, path).st)
  {
    var s := StoreResult(st, result, path);
    if s.error.None? {
      StoredIsSound(result);
      StoreKeepsDistinct(st.defs, DefinitionOf(result));
      StoreDefinitionEntries(st.defs, DefinitionOf(result));
      CleanDictFixed(result.metadata.value);
      forall e: Entry | e in s.st.files ensures CleanedMetadata(e.resource) {
        assert e in st.files || e == Entry(path, CleanMetadata(result));
      }
    }
  }

  lemma {:induction false} StoreEntriesSound(st: State, entries: FileMap)
    requires SoundRecord(st) && CleanEntries(entries)
    ensures SoundRecord(StoreEntries(st, entries).st)
    decreases |entries|
  {
    if entries != [] {
      assert entries[0] in entries;
      StoreResultSound(st, entries[0].resource, entries[0].path);
      var s := StoreResult(st, entries[0].resource, entries[0].path);
      if s.error.None? { StoreEntriesSound(s.st, entries[1..]); }
    }
  }

  // --------------------------------------------------------------- deletion

  lemma {:induction false} PoppedSound(defs: seq<Resource>)
    requires SoundDefinitions(defs)
    ensures SoundDefinitions(Popped(defs))
  {
  }

  lemma {:induction false} RetrieveStoredSound(env: Resolver, defs: seq<Resource>, d: Definition, mapping: string)
    requires SoundDefinitions(defs)
    ensures SoundDefinitions(RetrieveStored(env, defs, d, mapping, true).defs)
  {
    PoppedSound(defs);
    var choice := ChooseStored(env, defs, d, mapping);
    if choice.LookedUp? && "name" in choice.definition.metadata {
      RemovalKeepsDistinct(Popped(defs), choice.definition.kind, choice.definition.metadata["name"]);
    }
  }

  lemma {:induction false} RetrievalSound(files: FileMap, defs: seq<Resource>, path: string)
    requires SoundDefinitions(defs) && CleanEntries(files)
    ensures var r := RetrieveLastCreatePath(files, defs, path);
            && SoundDefinitions(r.defs) && CleanEntries(r.files)
            && (r.outcome.Found? ==> CleanEntries(r.outcome.adjacent))
  {
    PoppedSound(defs);
    RetrievalLength(files, defs, path);
    if RetrieveLastCreatePath(files, defs, path).outcome.Found? {
      var i := if Has(files, path) then IndexOf(files, path) else MatchingEntry(files, defs[|defs| - 1]);
      TakeSplits(files, i, if Has(files, path) then defs else Popped(defs));
    }
  }

  lemma {:induction false} ResolveTargetSound(env: Env, st: State, path: string, d: Definition, mapping: string)
    requires SoundRecord(st)
    ensures var r := ResolveTarget(env, st, path, d, mapping);
            SoundRecord(r.st) && (r.target.Resolved? ==> CleanEntries(r.target.adjacent))
  {
    var r := RetrieveLastCreatePath(st.files, st.defs, path);
    RetrievalSound(st.files, st.defs, path);
    RetrieveStoredSound(env.resolver, r.defs, d, mapping);
    hide RetrieveLastCreatePath, RetrieveStored;
  }

  lemma {:induction false} DeleteTargetSound(env: Env, st: State, mapping: string, d: Definition, path: string,
          adjacent: FileMap)
    requires SoundRecord(st) && CleanEntries(adjacent)
    ensures SoundRecord(DeleteTarget(env, st, mapping, d, path, adjacent).st)
  {
    var r := DoDelete(env, st, mapping, d);
    DoDeleteFrame(env, st, mapping, d);
    if r.response.Got? {
      DeleteAndPrepareFrame(env, r.st, mapping, d, r.response.obj);
      var p := DeleteAndPrepare(env, r.st, mapping, d, r.response.obj);
      hide DoDelete, DeleteAndPrepare;
      CleanDictFixed(d.metadata);
      StoreResultSound(p.st, Stored(d), path);
      StoreEntriesSound(StoreResult(p.st, Stored(d), path).st, adjacent);
    }
  }

  lemma {:induction false} DeleteFileSound(env: Env, st: State, mapping: string, d: Definition, path: string)
    requires SoundRecord(st)
    ensures SoundRecord(DeleteFile(env, st, mapping, d, path).st)
    decreases |st.files|, 0
  {
    var chosen := ResolveTarget(env, st, path, d, mapping);
    ResolveTargetFrame(env, st, path, d, mapping);
    ResolveTargetSound(env, st, path, d, mapping);
    if chosen.target.Resolved? {
      var adjacent, target, m := chosen.target.adjacent, chosen.target.definition, chosen.target.mapping;
      var read := Read(env, chosen.st, m, target);
      assert read.st.files == chosen.st.files && read.st.defs == chosen.st.defs;
      if ReadingOf(read.response).Missing? && adjacent != [] {
        DeleteInnerSound(env, read.st, adjacent, target, path);
        StoreEntriesSound(DeleteInner(env, read.st, adjacent, target, path).st, adjacent);
      } else if ReadingOf(read.response).Readable? {
        DeleteTargetSound(env, read.st, m, target, path, adjacent);
        StoreEntriesSound(DeleteTarget(env, read.st, m, target, path, adjacent).st, adjacent);
      }
    }
  }

  lemma {:induction false} DeleteInnerSound(env: Env, st: State, adjacent: FileMap, outer: Definition, path: string)
    requires SoundRecord(st)
    ensures SoundRecord(DeleteInner(env, st, adjacent, outer, path).st)
    decreases |st.files|, |adjacent| + 1
  {
    if adjacent != [] {
      var inner, m := InnerDefinition(adjacent[0].resource), env.mappingByKind(outer);
      if inner.None? {
        DeleteInnerSound(env, st, adjacent[1..], outer, path);
      } else if m.Some? {
        DeleteFileSound(env, st, m.value, inner.value, path);
        var r := DeleteFile(env, st, m.value, inner.value, path);
        if r.out.Done? { DeleteInnerSound(env, r.st, adjacent[1..], outer, path); }
      }
    }
  }

  // ---------------------------------------------------- the other operations

  lemma {:induction false} StoreAnswerSound(r: Reply, path: string)
    requires SoundRecord(r.st) && (r.response.Got? ==> CleanedResource(r.response.obj))
    ensures SoundRecord(StoreAnswer(r, path).st)
  {
    if r.response.Got? { StoreResultSound(r.st, r.response.obj, path); }
  }

  lemma {:induction false} FileCreateSound(env: Env, st: State, mapping: string, d: Definition, path: string)
    requires SoundRecord(st)
    ensures SoundRecord(RunFileCreate(env, st, mapping, d, path).st)
  {
    ApiRepliesClean(env, st, mapping, d);
    var c := CheckExists(env, st, mapping, d);
    if !c.existence.Unknown? {
      var handled := HandleExisting(env, c.st, Exists(c.existence));
      ApiRepliesClean(env, handled, mapping, d);
      StoreAnswerSound(DoCreate(env, handled, mapping, d), path);
      if c.existence.Present? { StoreAnswerSound(Reply(handled, Got(c.existence.obj)), path); }
    }
  }

  lemma {:induction false} SingleDeleteSound(env: Env, st: State, mapping: string, d: Definition)
    requires SoundRecord(st)
    ensures SoundRecord(RunSingleDelete(env, st, mapping, d).st)
  {
    ApiRepliesClean(env, st, mapping, d);
    var r := Read(env, st, mapping, d);
    if r.response.Got? {
      var stored := RetrieveStored(env.resolver, r.st.defs, d, mapping, true);
      RetrieveStoredSound(env.resolver, r.st.defs, d, mapping);
      var popped := r.st.(defs := stored.defs);
      if stored.lookup.LookedUp? {
        DoDeleteFrame(env, popped, stored.lookup.mapping, stored.lookup.definition);
        var deleted := DoDelete(env, popped, stored.lookup.mapping, stored.lookup.definition);
        hide DoDelete, RetrieveStored;
        StoreResultSound(HandleDelete(env, deleted.st, TruthyResource(r.response.obj)), r.response.obj, "");
      }
    }
  }

  lemma {:induction false} StoringSound(env: Env, st: State, mapping: string, d: Definition, path: string)
    requires SoundRecord(st)
    ensures SoundRecord(StoreAnswer(Read(env, st, mapping, d), path).st)
    ensures SoundRecord(StoreAnswer(Update(env, st, mapping, d), path).st)
    ensures SoundRecord(StoreAnswer(CreateOnce(env, st, mapping, d), path).st)
  {
    ApiRepliesClean(env, st, mapping, d);
    StoreAnswerSound(Read(env, st, mapping, d), path);
    StoreAnswerSound(Update(env, st, mapping, d), path);
    StoreAnswerSound(CreateOnce(env, st, mapping, d), path);
  }

  lemma {:induction false} TaskSound(env: Env, st: State, t: Task, mapping: string, d: Definition, path: string)
    requires SoundRecord(st)
    ensures SoundRecord(RunTask(env, st, t, mapping, d, path).st)
  {
    hide StoreAnswer, SoundRecord;
    StoringSound(env, st, mapping, d, path);
    StoringSound(env, st, mapping, d, "");
    match t
    case FileCreate => FileCreateSound(env, st, mapping, d, path);
    case FileDelete => DeleteFileSound(env, st, mapping, d, path);
    case SingleDelete => SingleDeleteSound(env, st, mapping, d);
    case CheckStatus(heal) =>
      CheckStatusFrame(env, st, mapping, d, heal);
      SameIsSound(st, RunCheckStatus(env, st, mapping, d, heal).st);
    case _ =>
  }

  lemma {:induction false} SameIsSound(before: State, after: State)
    requires SoundRecord(before) && SameRecord(before, after)
    ensures SoundRecord(after)
  {
  }

  lemma {:induction false} StepSound(env: Env, st: State, op: Operation, i: nat)
    requires i < |op.definitions| && SoundRecord(st)
    ensures SoundRecord(Step(env, st, op, i).st)
  {
    hide RunTask;
    var d, path := op.definitions[i], PathFor(op, i);
    var m := env.resolver.mappingWithOptions(d);
    if m.Some? {
      var current := CurrentState(env, st, op, m.value, d, path);
      TaskSound(env, HandleExisting(env, current.st, Exists(current.existence)), op.task, m.value, d, path);
    }
  }

  lemma {:induction false} PassSound(env: Env, st: State, op: Operation, i: nat)
    requires i <= |op.definitions| && SoundRecord(st)
    ensures SoundRecord(Pass(env, st, op, i).st)
    decreases |op.definitions| - i
  {
    hide Step;
    if i < |op.definitions| {
      StepSound(env, st, op, i);
      PassCases(env, st, op, i);
      var r := Step(env, st, op, i);
      if r.out.Done? { PassSound(env, r.st, op, i + 1); }
    }
  }

  /** Over whole runs of any operations, with every sequence of API answers and every
      outcome, the definitions stored keep pairwise distinct identities: every definition an
      operation stores is one that cleaning leaves alone. */
  lemma {:induction false} RunsKeepDefinitionsDistinct(env: Env, st: State, ops: seq<Operation>)
    requires SoundRecord(st)
    ensures SoundRecord(Run(env, st, ops))
    ensures DistinctIdentities(Run(env, st, ops).defs)
    decreases |ops|
  {
    if ops != [] {
      PassSound(env, st, ops[0], 0);
      RunsKeepDefinitionsDistinct(env, Pass(env, st, ops[0], 0).st, ops[1..]);
    }
  }

  /** What is stored in such a run comes back as the constructor makes it. */
  lemma {:induction false} SoundDefinitionReadsBack(r: Resource)
    requires SoundDefinition(r)
    ensures Rebuilt(r).Some? && Stored(Rebuilt(r).value) == r && ConstructedFrom(Rebuilt(r).value, r)
  {
    hide Construct, ToDict;
    RebuiltIsConstructed(r);
    CleanDictFixed(r.metadata.value);
    assert DictOf(Rebuilt(r).value) == r;
    assert CleanDict(map[]) == map[];
  }

  // ------------------------------------------- results stored from the start

  ghost predicate Storable(e: Entry) {
    && e.resource.kind.Some? && e.resource.metadata.Some? && VersionOf(e.resource).Some?
    && CleanedDict(e.resource.metadata.value)
  }

  /** The definitions of a sequence of results. */
  ghost function DefinitionsOf(results: FileMap): seq<Definition>
    requires forall e :: e in results ==> Storable(e)
  {
    seq(|results|, i requires 0 <= i < |results| => assert Storable(results[i]); DefinitionOf(results[i].resource))
  }

  lemma {:induction false} StoreAllOneMore(ds: seq<Definition>, d: Definition)
    ensures StoreAllDefinitions(ds + [d]) == StoreDefinition(StoreAllDefinitions(ds), d)
  {
    assert (ds + [d])[..|ds + [d]| - 1] == ds;
  }

  lemma {:induction false} StoreOneMore(st: State, e: Entry, before: seq<Definition>)
    requires Storable(e) && st.defs == StoreAllDefinitions(before)
    ensures var s := StoreResult(st, e.resource, e.path);
            s.error.None? && s.st.defs == StoreAllDefinitions(before + [DefinitionOf(e.resource)])
  {
    StoreAllOneMore(before, DefinitionOf(e.resource));
  }

  lemma {:induction false} ResultsStoreAll(st: State, results: FileMap, before: seq<Definition>)
    requires (forall e :: e in results ==> Storable(e)) && st.defs == StoreAllDefinitions(before)
    ensures StoreEntries(st, results).error.None?
    ensures StoreEntries(st, results).st.defs == StoreAllDefinitions(before + DefinitionsOf(results))
    decreases |results|
  {
    hide StoreAllDefinitions, StoreResult;
    if results == [] {
      assert before + DefinitionsOf(results) == before;
    } else {
      var e, rest := results[0], results[1..];
      assert Storable(e) && forall f :: f in rest ==> f in results;
      var d := DefinitionOf(e.resource);
      StoreOneMore(st, e, before);
      ResultsStoreAll(StoreResult(st, e.resource, e.path).st, rest, before + [d]);
      assert DefinitionsOf(results) == [d] + DefinitionsOf(rest);
      assert before + ([d] + DefinitionsOf(rest)) == before + [d] + DefinitionsOf(rest);
    }
  }

  /** Storing results one after the other, from an empty list, makes the list a map keyed by
      (name, kind, namespace): one entry for each identity, in first-insertion order, holding
      the definition of the last result stored under it. */
  lemma {:induction false} ResultsRefineMap(st: State, results: FileMap)
    requires st.defs == [] && forall e :: e in results ==> Storable(e)
    ensures var ds := DefinitionsOf(results);
            var defs, ids := StoreEntries(st, results).st.defs, FirstIdentities(ds);
            && |defs| == |ids|
            && (forall i, j :: 0 <= i < j < |ids| ==> ids[i] != ids[j])
            && (forall i :: 0 <= i < |ids| ==>
                  (exists k :: 0 <= k < |ds| && IdentityOf(DictOf(ds[k])) == ids[i])
                  && IdentityOf(defs[i]) == ids[i] && defs[i] == Stored(LastWith(ds, ids[i])))
  {
    var ds := DefinitionsOf(results);
    ResultsStoreAll(st, results, []);
    assert [] + ds == ds;
    hide StoreEntries, StoreAllDefinitions, FirstIdentities, IdentityStable, IdentityOf, DictOf, Stored;
    forall d | d in ds ensures IdentityStable(d) {
      var i :| 0 <= i < |ds| && ds[i] == d;
      assert results[i] in results && Storable(results[i]);
      CleanedIsStable(d);
    }
    DefinitionsRefineMap(ds);
  }

  // --------------------------------------------- the list that mirrors a map

  /** The definition stored along with an entry. */
  function DefinedBy(r: Resource): Resource {
    if r.kind.Some? && r.metadata.Some? && VersionOf(r).Some? then Stored(DefinitionOf(r)) else r
  }

  function DefsOf(m: FileMap): (defs: seq<Resource>)
    ensures |defs| == |m| && forall i :: 0 <= i < |m| ==> defs[i] == DefinedBy(m[i].resource)
  {
    seq(|m|, i requires 0 <= i < |m| => DefinedBy(m[i].resource))
  }

  /** One definition for each entry, in the same order. */
  ghost predicate Aligned(st: State) {
    st.defs == DefsOf(st.files)
  }

  lemma {:induction false} DefinedByIdentity(r: Resource)
    requires GoodResource(r)
    ensures IdentityOf(DefinedBy(r)) == IdentityOf(r)
  {
    if VersionOf(r).Some? {
      StoredIsSound(r);
      CleanIdentity(DictOf(DefinitionOf(r)));
    }
  }

  /** Storing under a path of the map, or under a new one, keeps map and list aligned, as long
      as the entry at the path, and no other, has the identity of the result. */
  lemma {:induction false} StoringKeepsAligned(st: State, result: Resource, path: string)
    requires Aligned(st) && GoodEntries(st.files) && GoodResource(result) && VersionOf(result).Some? && path != ""
    requires forall i :: 0 <= i < |st.files| ==>
        (st.files[i].path == path <==> IdentityOf(st.files[i].resource) == IdentityOf(result))
    ensures Aligned(StoreResult(st, result, path).st)
  {
    var d, i := DefinitionOf(result), IndexOf(st.files, path);
    CleanDictFixed(result.metadata.value);
    StoredIsSound(result);
    CleanIdentity(DictOf(d));
    assert IdentityOf(DictOf(d)) == IdentityOf(result) && CleanMetadata(result) == result;
    forall k | 0 <= k < |st.files| ensures IdentityOf(st.defs[k]) == IdentityOf(st.files[k].resource) {
      assert st.files[k] in st.files && GoodEntry(st.files[k]);
      DefinedByIdentity(st.files[k].resource);
    }
    hide IdentityOf, Stored;
    assert FirstMatch(st.defs, IdentityOf(DictOf(d))) == i;
    var after := StoreResult(st, result, path).st;
    assert after.files == Put(st.files, path, result) && after.defs == StoreDefinition(st.defs, d);
    assert DefsOf(after.files) == after.defs;
  }
}
