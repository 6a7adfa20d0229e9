/**
 * What each operation does to the cluster and to the record when the API is accurate: which
 * object it creates, changes or deletes, which call it makes for that, what it records, and
 * when it does nothing.
 */
module Effects {
  import opened Options
  import opened JsonValues
  import opened Definitions
  import opened Paths
  import opened Record
  import opened FileMaps
  import opened Cluster
  import opened FileDeletion
  import opened Convergence
  import opened Fallback
  import opened Tasks

  /** An object that can be recorded. */
  predicate Recordable(r: Resource) {
    r.kind.Some? && r.metadata.Some? && VersionOf(r).Some?
  }

  /** The object is recorded at the path, or as that of a blueprint resource, its definition is
      stored, and nothing else of the record changes. */
  ghost predicate Records(before: State, after: State, path: string, obj: Resource)
    requires Recordable(obj)
  {
    && after.defs == StoreDefinition(before.defs, Definition(LastSegment(obj.kind.value), VersionOf(obj).value,
                                                             obj.metadata.value, map[]))
    && if path == "" then after.single == Some(obj) && after.files == before.files
       else
         && after.single == before.single && Lookup(after.files, path) == Some(obj)
         && forall q :: q != path ==> Lookup(after.files, q) == Lookup(before.files, q)
  }

  /** A task that has got hold of an object and records its image, if it can. */
  ghost predicate EndsRecording(before: State, r: Result, path: string, obj: Resource) {
    if Recordable(obj) then r.out == Done && Records(before, r.st, path, CleanResource(obj))
    else r.out.Fail? && SameRecord(before, r.st)
  }

  ghost predicate SameCluster(before: State, after: State) {
    after.live == before.live && after.calls == before.calls
  }

  lemma {:induction false} StoresImage(before: State, r: Reply, path: string, obj: Resource)
    requires r.response == Got(CleanResource(obj)) && SameRecord(before, r.st)
    ensures EndsRecording(before, StoreAnswer(r, path), path, obj) && SameCluster(r.st, StoreAnswer(r, path).st)
  {
    CleanedTwice(obj);
    hide CleanDict, StoreDefinition, LastSegment;
    if Recordable(obj) && path != "" { PutsAlone(before, StoreAnswer(r, path).st, path, CleanResource(obj)); }
  }

  lemma {:induction false} CleanedTwice(obj: Resource)
    ensures CleanMetadata(CleanResource(obj)) == CleanResource(obj)
    ensures Recordable(CleanResource(obj)) <==> Recordable(obj)
  {
    if obj.metadata.Some? { CleanDictFixed(obj.metadata.value); CleanDictFixed(CleanDict(obj.metadata.value)); }
  }

  lemma {:induction false} PutsAlone(before: State, after: State, path: string, obj: Resource)
    requires path != "" && after.files == Put(before.files, path, obj)
    ensures Lookup(after.files, path) == Some(obj)
    ensures forall q :: q != path ==> Lookup(after.files, q) == Lookup(before.files, q)
  {
    forall q ensures Lookup(after.files, q) == if q == path then Some(obj) else Lookup(before.files, q) {
      LookupAfterPut(before.files, path, obj, q);
    }
    hide Put, Lookup;
  }

  // ----------------------------------------------------------------- update

  /** Updating changes the live object, and it alone, into what the server makes of it and the
      definition, by one call, and records the result; a missing object is not recorded. */
  lemma {:induction false} UpdateTakesEffect(env: Env, st: State, t: Task, m: string, d: Definition, path: string)
    requires AccurateApi(env) && (t.FileUpdate? || t.SingleUpdate?)
    ensures var r, key := RunTask(env, st, t, m, d, path), KeyOf(env, m, d);
            if HasName(d) && key in st.live then
              var revised := env.revise(st.live[key], d);
              && r.st.live == st.live[key := revised] && r.st.calls == st.calls + [UpdateCall(key, false)]
              && r.st.tick == st.tick + 1 && EndsRecording(st, r, if t.FileUpdate? then path else "", revised)
            else
              && r.out.Fail? && r.st.live == st.live && SameRecord(st, r.st)
              && (if HasName(d)
                  then r.out == Fail(ApiOperationError) && r.st.calls == st.calls + [UpdateCall(key, true)]
                  else r.st.calls == st.calls)
  {
    var r, key := Update(env, st, m, d), KeyOf(env, m, d);
    if HasName(d) && key in st.live {
      StoresImage(st, r, if t.FileUpdate? then path else "", env.revise(st.live[key], d));
    }
    hide StoreAnswer, EndsRecording, KeyOf;
  }

  // ------------------------------------------------------------------- read

  /** How a task ends that has recorded an object of this kind and looks at its status. */
  function WatchedOutcome(env: Env, kind: string, obj: Resource): Outcome {
    if kind == "" || env.status(kind, obj).Ready? || env.status(kind, obj).Bad? then Done
    else if env.status(kind, obj).Pending? then Retry(false)
    else Fail(KeyError)
  }

  /** Reading changes nothing in the cluster and records what is live; while its status is
      pending the operation asks to be retried. */
  lemma {:induction false} ReadTakesEffect(env: Env, st: State, t: Task, m: string, d: Definition, path: string)
    requires AccurateApi(env) && (t.FileRead? || t.SingleRead?)
    requires t.FileRead? ==> Has(st.files, path)
    ensures var r, key, where := RunTask(env, st, t, m, d, path), KeyOf(env, m, d), if t.FileRead? then path else "";
            && SameCluster(st, r.st)
            && (if HasName(d) && key in st.live then
                  var obj := st.live[key];
                  if Recordable(obj) then
                    Records(st, r.st, where, CleanResource(obj))
                      && r.out == WatchedOutcome(env, d.kind, CleanResource(obj))
                  else r.out.Fail? && SameRecord(st, r.st)
                else r.out.Fail? && SameRecord(st, r.st))
  {
    ReadAccurately(env, st, m, d);
    var r, key, where := Read(env, st, m, d), KeyOf(env, m, d), if t.FileRead? then path else "";
    if HasName(d) && key in st.live { StoresImage(st, r, where, st.live[key]); }
    hide StoreAnswer, KeyOf, Read, Records;
  }

  // ------------------------------------------------- status check and heal

  /** A status check changes no record.  A live object is judged; a missing one fails the check,
      or, in the first try of a heal workflow, is created, and the check is to be retried. */
  lemma {:induction false} CheckTakesEffect(env: Env, st: State, heal: bool, m: string, d: Definition, path: string)
    requires AccurateApi(env) && HasName(d)
    ensures var r, key := RunTask(env, st, CheckStatus(heal), m, d, path), KeyOf(env, m, d);
            && SameRecord(st, r.st)
            && (if key in st.live then
                  && SameCluster(st, r.st)
                  && r.out == (if d.kind == "" then Done
                               else match env.status(d.kind, CleanResource(st.live[key]))
                                 case Ready => Done
                                 case Bad => Fail(BadStatusError)
                                 case Pending => Retry(false)
                                 case Broken => Fail(KeyError))
                else if heal then
                  && r.out == Retry(false) && r.st.live == st.live[key := env.render(d)]
                  && r.st.calls == st.calls + [CreateCall(key, false, false)]
                else r.out == Fail(ApiOperationError) && SameCluster(st, r.st))
  {
    hide KeyOf, CleanResource;
  }

  // --------------------------------------------------------------- clean-up

  /** After a successful deletion whose definition was found before, an entry that is still
      recorded at its path goes, and it alone; where there is none, all objects are forgotten.
      After any other task, or when nothing was found, the record stays as it is. */
  lemma {:induction false} CleansUpExactly(st: State, op: Operation, found: bool, path: string)
    requires DistinctPaths(st.files)
    ensures var after := CleanUp(st, op, found, path);
            && after.live == st.live && after.calls == st.calls && after.defs == st.defs
            && (if !found || !(op.task.FileDelete? || op.task.SingleDelete?) then after == st
                else if path != "" && Has(st.files, path) then
                  && after.single == st.single
                  && (forall e: Entry :: e in after.files <==> e in st.files && e.path != path)
                else after.files == [] && after.single == None)
  {
    if Has(st.files, path) { DropsOneEntry(st.files, path); }
  }

  lemma {:induction false} DropsOneEntry(m: FileMap, path: string)
    requires DistinctPaths(m) && Has(m, path)
    ensures forall e: Entry :: e in Drop(m, path) <==> e in m && e.path != path
  {
    var i := IndexOf(m, path);
    WithoutSplits(m, i);
    forall e: Entry | e in m && e.path != path ensures e in Without(m, i) {
      assert e in multiset(m) && e !in multiset{m[i]};
    }
    hide Without, IndexOf, DistinctPaths;
  }

  // --------------------------------------------------------------- creation

  /** The flag with which a creation begins: set exactly when the object is missing and may be
      created. */
  predicate MayCreate(env: Env) {
    env.external ==> env.createIfMissing
  }

  /** Creating the resource of a blueprint, its state having been checked: an object that is
      live is recorded as it is; a missing one is created by one call and recorded, unless it
      is external and not to be created, which fails. */
  lemma {:induction false} SingleCreateTakesEffect(env: Env, st: State, m: string, d: Definition, path: string)
    requires AccurateApi(env) && HasName(d)
    requires (KeyOf(env, m, d) in st.live ==> TruthyResource(st.live[KeyOf(env, m, d)]))
    ensures var check := CheckExists(env, st, m, d);
            var r := RunTask(env, HandleExisting(env, check.st, Exists(check.existence)), SingleCreate, m, d, path);
            var key := KeyOf(env, m, d);
            if key in st.live then SameCluster(st, r.st) && EndsRecording(st, r, "", st.live[key])
            else if MayCreate(env) then
              && r.st.live == st.live[key := env.render(d)] && r.st.calls == st.calls + [CreateCall(key, false, false)]
              && EndsRecording(st, r, "", env.render(d))
            else r.out == Fail(ApiOperationError) && SameCluster(st, r.st) && SameRecord(st, r.st)
  {
    ReadAccurately(env, st, m, d);
    var key, check := KeyOf(env, m, d), CheckExists(env, st, m, d);
    if key in st.live { CleanTruthy(st.live[key]); }
    var ready := HandleExisting(env, check.st, Exists(check.existence));
    PerformsExactly(env, check.st, Exists(check.existence));
    ReadAccurately(env, ready, m, d);
    var r := CreateOnce(env, ready, m, d);
    assert SameRecord(st, r.st);
    if key in st.live {
      StoresImage(st, r, "", st.live[key]);
    } else if MayCreate(env) {
      StoresImage(st, r, "", env.render(d));
    }
    hide StoreAnswer, EndsRecording, KeyOf, Read, HandleExisting, CleanResource;
  }

  /** Creating a definition of a file, which checks for itself: the same, except that a missing
      external object that is not to be created fails on its missing answer. */
  lemma {:induction false} FileCreateTakesEffect(env: Env, st: State, m: string, d: Definition, path: string)
    requires AccurateApi(env) && HasName(d)
    requires (KeyOf(env, m, d) in st.live ==> TruthyResource(st.live[KeyOf(env, m, d)]))
    ensures var r, key := RunTask(env, st, FileCreate, m, d, path), KeyOf(env, m, d);
            if key in st.live then SameCluster(st, r.st) && EndsRecording(st, r, path, st.live[key])
            else if MayCreate(env) then
              && r.st.live == st.live[key := env.render(d)] && r.st.calls == st.calls + [CreateCall(key, false, false)]
              && EndsRecording(st, r, path, env.render(d))
            else r.out == Fail(TypeError) && SameCluster(st, r.st) && SameRecord(st, r.st)
  {
    ReadAccurately(env, st, m, d);
    var key, check := KeyOf(env, m, d), CheckExists(env, st, m, d);
    if key in st.live { CleanTruthy(st.live[key]); }
    var ready := HandleExisting(env, check.st, Exists(check.existence));
    PerformsExactly(env, check.st, Exists(check.existence));
    if key in st.live {
      StoresImage(st, Reply(ready, Got(check.existence.obj)), path, st.live[key]);
    } else if MayCreate(env) {
      StoresImage(st, DoCreate(env, ready, m, d), path, env.render(d));
    }
    hide StoreAnswer, EndsRecording, KeyOf, Read, HandleExisting, CleanResource;
  }

  /** A blueprint resource that is to be created although it is live is a conflict, which is
      not recoverable; nothing is recorded and the live object stays. */
  lemma {:induction false} ConflictIsFinal(env: Env, st: State, m: string, d: Definition, path: string)
    requires env.script(st.tick).Accurate? && st.perform && HasName(d) && KeyOf(env, m, d) in st.live
    ensures var r, key := RunTask(env, st, SingleCreate, m, d, path), KeyOf(env, m, d);
            && r.out == Fail(NonRecoverableError) && r.st.live == st.live && SameRecord(st, r.st)
            && r.st.calls == st.calls + [CreateCall(key, true, true)]
  {
  }

  // --------------------------------------------------------------- deletion

  /** What the deletion of a blueprint resource looks for once the object could be read: as a
      deletion without files does, but nothing has been popped off the definitions before. */
  ghost function LookedForAlone(env: Env, defs: seq<Resource>, d: Definition, mapping: string): Option<Sought> {
    LookedFor(env, defs + [Stored(d)], d, mapping)
  }

  lemma {:induction false} LookedForAloneIs(env: Env, defs: seq<Resource>, d: Definition, mapping: string)
    ensures var lookup := RetrieveStored(env.resolver, defs, d, mapping, true).lookup;
            LookedForAlone(env, defs, d, mapping) ==
            if lookup.LookedUp? && HasName(lookup.definition)
            then Some(Sought(lookup.definition, KeyOf(env, lookup.mapping, lookup.definition))) else None
  {
    assert Popped(defs + [Stored(d)]) == defs;
    hide RetrieveStored, KeyOf;
  }

  /** Deleting the plugin's own blueprint resource.  A missing object ends it; a live one is
      looked up once more among the definitions, deleted by one call and recorded again, and the
      deletion asks to be retried.  If what is looked for is not live, or cannot be made out,
      the deletion fails and every object stays. */
  lemma {:induction false} SingleDeleteTakesEffect(env: Env, st: State, m: string, d: Definition, path: string)
    requires AccurateApi(env) && !env.external && HasName(d)
    ensures var r, key := RunTask(env, st, SingleDelete, m, d, path), KeyOf(env, m, d);
            var sought := LookedForAlone(env, st.defs, d, m);
            if key !in st.live then r.out == Done && SameCluster(st, r.st) && SameRecord(st, r.st)
            else if sought.None? then
              r.out.Fail? && SameCluster(st, r.st) && r.st.files == st.files && r.st.single == st.single
            else if sought.value.key !in st.live then
              && r.out == Fail(ApiOperationError) && r.st.live == st.live && r.st.files == st.files
              && r.st.single == st.single && r.st.calls == st.calls + [DeleteCall(sought.value.key, false, true)]
            else
              && r.st.live == st.live - {sought.value.key} && r.st.files == st.files
              && r.st.calls == st.calls + [DeleteCall(sought.value.key, true, false)]
              && (if Recordable(st.live[key])
                  then r.out == Retry(false) && r.st.single == Some(CleanResource(st.live[key]))
                  else r.out.Fail? && r.st.single == st.single)
  {
    ReadAccurately(env, st, m, d);
    LookedForAloneIs(env, st.defs, d, m);
    var key, read := KeyOf(env, m, d), Read(env, st, m, d);
    if key in st.live {
      var stored := RetrieveStored(env.resolver, st.defs, d, m, true);
      var popped := read.st.(defs := stored.defs);
      if stored.lookup.LookedUp? {
        DeletedOrNot(env, popped, stored.lookup.mapping, stored.lookup.definition);
        var deleted := DoDelete(env, popped, stored.lookup.mapping, stored.lookup.definition);
        CleanedTwice(st.live[key]);
      }
    }
    hide DoDelete, RetrieveStored, KeyOf, Read, LookedForAlone, CleanResource, StoreDefinition;
  }

  lemma {:induction false} DeletedOrNot(env: Env, st: State, m: string, d: Definition)
    requires AccurateApi(env) && !env.external
    ensures var r, key := DoDelete(env, st, m, d), KeyOf(env, m, d);
            && SameRecord(st, r.st)
            && (if HasName(d) && key in st.live then
                  && r.response.Got? && r.st.live == st.live - {key}
                  && r.st.calls == st.calls + [DeleteCall(key, true, false)]
                else
                  && !r.response.Got? && r.st.live == st.live
                  && (HasName(d) ==>
                        r.response == ApiError(Code404) && r.st.calls == st.calls + [DeleteCall(key, false, true)])
                  && (!HasName(d) ==> r.st.calls == st.calls))
  {
    ReadAccurately(env, st, m, d);
    hide KeyOf, CleanResource;
  }

  /** The given definition is what is looked for unless redefinition is allowed and another one
      has been stored last; names and namespaces that cleaning changes lead elsewhere. */
  lemma {:induction false} GivenIsLookedFor(env: Env, defs: seq<Resource>, d: Definition, m: string)
    requires HasName(d) && CleanedDict(d.metadata) && AllNamed(Popped(defs), d.kind)
    requires !env.resolver.allowRedefinition || defs == [] || defs[|defs| - 1] == Stored(d)
    ensures LookedForAlone(env, defs, d, m) == Some(Sought(Tidied(d), KeyOf(env, m, d)))
  {
    CleanDictFixed(d.metadata);
    LookedForAloneIs(env, defs, d, m);
    RemovalIsFilter(Popped(defs), d.kind, d.metadata["name"]);
    hide RemoveSkipping, LookedForAlone, Filter, NoNeighbours;
  }

  /** A live object is deleted exactly when something is looked for and it is not shadowed. */
  lemma {:induction false} SingleDeletesGivenExactly(env: Env, st: State, m: string, d: Definition, path: string)
    requires AccurateApi(env) && !env.external && HasName(d) && CleanedDict(d.metadata) && KeyOf(env, m, d) in st.live
    ensures KeyOf(env, m, d) !in RunTask(env, st, SingleDelete, m, d, path).st.live <==>
            LookedForAlone(env, st.defs, d, m).Some? && !Shadowed(env, st.defs + [Stored(d)], d, m)
  {
    CleanDictFixed(d.metadata);
    SingleDeleteTakesEffect(env, st, m, d, path);
    ShadowedExactly(env, st.defs + [Stored(d)], d, m);
    hide Shadowed, RunTask, LookedFor;
  }

  // ---------------------------------------------- what is kept of an object

  /** Whatever is recorded has clean metadata: it is the object itself if that was so before, and
      in any case differs in nothing else. */
  lemma {:induction false} RecordedIsCleaned(st: State, obj: Resource, path: string)
    requires Recordable(obj)
    ensures var s := StoreResult(st, obj, path);
            var recorded := if path == "" then s.st.single else Lookup(s.st.files, path);
            && s.error.None? && recorded.Some? && recorded.value.metadata.Some?
            && CleanedDict(recorded.value.metadata.value)
            && recorded.value.(metadata := obj.metadata) == obj
            && (CleanedDict(obj.metadata.value) ==> recorded.value == obj)
  {
    CleanDictFixed(obj.metadata.value);
    LookupAfterPut(st.files, path, CleanMetadata(obj), path);
    hide CleanDict, CleanedDict, StoreDefinition, Put, Lookup, LastSegment;
  }

  /** An object that says its version under both keys is recorded by the definition of its
      `api_version`, and is deleted by that of its `apiVersion`. */
  lemma {:induction false} VersionKeysPrecedence(env: Env, st: State, obj: Resource, path: string, d: Definition,
        m: string)
    requires Recordable(obj) && obj.apiVersion.Some? && obj.snakeVersion.Some? && obj.apiVersion.value != ""
    requires st.files == [Entry(path, obj)] && Stem(path).Some?
    ensures var target := Definition(LastSegment(obj.kind.value), obj.apiVersion.value, obj.metadata.value, map[]);
            ResolveTarget(env, st, path, d, m) ==
            Resolution(st.(files := []), if env.mappingByKind(target).Some?
                                         then Resolved([], target, env.mappingByKind(target).value)
                                         else Unresolved(MappingNotFoundError))
    ensures var s := StoreResult(st, obj, path);
            var stored := Definition(LastSegment(obj.kind.value), obj.snakeVersion.value, obj.metadata.value, map[]);
            s.error.None? && s.st.defs == StoreDefinition(st.defs, stored)
  {
    assert Without(st.files, 0) == [];
    hide Stem, LastSegment, StoreDefinition;
  }

  /** An entry that cannot be made out, having no kind or no metadata, is as good as none: the
      deletion takes it out and looks for what is defined. */
  lemma {:induction false} UnusableEntryIgnored(env: Env, st: State, obj: Resource, path: string, d: Definition,
        m: string)
    requires (obj.kind.None? || obj.metadata.None?) && TruthyResource(obj)
    requires st.files == [Entry(path, obj)] && Stem(path).Some?
    ensures DeleteFile(env, st, m, d, path) ==
        DeleteFile(env, st.(files := [], defs := st.defs + [Stored(d)]), m, d, path)
  {
    assert Without(st.files, 0) == [] && Popped(st.defs + [Stored(d)]) == st.defs;
    hide Stem, RetrieveStored, DeleteTarget, Read, Stored;
    assert ResolveTarget(env, st, path, d, m) ==
      ResolveTarget(env, st.(files := [], defs := st.defs + [Stored(d)]), path, d, m);
    hide ResolveTarget;
  }

  /** Adjacent objects that lack metadata, kind or `api_version`, or have empty ones, are skipped by
      the inner deletions; the others are deleted by what these say of them. */
  lemma {:induction false} IncompleteIsSkipped(env: Env, st: State, e: Entry, rest: FileMap, outer: Definition,
        path: string)
    ensures var r := e.resource;
            if r.metadata == None || r.metadata == Some(map[]) || r.kind == None || r.kind == Some("")
               || r.snakeVersion == None || r.snakeVersion == Some("") then
              DeleteInner(env, st, [e] + rest, outer, path) == DeleteInner(env, st, rest, outer, path)
            else InnerDefinition(r) ==
                 Some(Definition(LastSegment(r.kind.value), r.snakeVersion.value, r.metadata.value, map[]))
  {
    assert ([e] + rest)[1..] == rest;
    hide DeleteFile, LastSegment;
  }
}
