/**
 * What a retried deletion leaves of the record of one file.
 */
module Conservation {
  import opened Options
  import opened JsonValues
  import opened Definitions
  import opened Paths
  import opened Record
  import opened FileMaps
  import opened Cluster
  import opened FileDeletion
  import opened Agreement
  import opened Convergence
  import opened Fallback

  /** Every recorded path belongs to the file of this path. */
  ghost predicate OneFile(m: FileMap, path: string) {
    Stem(path).Some? && forall e: Entry :: e in m ==> Contains(e.path, Stem(path).value)
  }

  lemma {:induction false} SelectAll(m: FileMap, stem: string, resource: Resource)
    requires forall e :: e in m ==> IsAdjacent(stem, resource, e)
    ensures Select(m, stem, resource, true) == m && Select(m, stem, resource, false) == []
  {
    if m != [] {
      assert m[0] in m && forall e :: e in m[1..] ==> e in m;
      SelectAll(m[1..], stem, resource);
      assert [m[0]] + m[1..] == m;
    }
  }

  /** In the record of one file everything but the object at the path is adjacent to it. */
  lemma {:induction false} OthersAreAdjacent(files: FileMap, defs: seq<Resource>, path: string)
    requires Agrees(files, defs) && Has(files, path) && OneFile(files, path)
    ensures RetrieveLastCreatePath(files, defs, path) ==
            Retrieved(Found(path, Lookup(files, path).value, Drop(files, path)), [], defs)
  {
    var i := IndexOf(files, path);
    WithoutDistinct(files, i);
    assert GoodEntry(files[i]);
    forall e | e in Without(files, i) ensures IsAdjacent(Stem(path).value, files[i].resource, e) {
      assert e in files && files[i] in [files[i]] && Separate(files[i], e);
    }
    SelectAll(Without(files, i), Stem(path).value, files[i].resource);
  }

  lemma {:induction false} IndexOfAbsent(m: FileMap, path: string)
    requires forall e: Entry :: e in m ==> e.path != path
    ensures IndexOf(m, path) == |m|
  {
  }

  lemma {:induction false} StoreResultAppends(st: State, e: Entry)
    requires GoodEntry(e) && (forall f: Entry :: f in st.files ==> f.path != e.path)
    requires StoreResult(st, e.resource, e.path).error.None?
    ensures StoreResult(st, e.resource, e.path).st.files == st.files + [e]
  {
    IndexOfAbsent(st.files, e.path);
    CleanDictFixed(e.resource.metadata.value);
    assert CleanMetadata(e.resource) == e.resource;
  }

  lemma {:induction false} StoreEntriesStep(st: State, entries: FileMap)
    requires entries != [] && StoreEntries(st, entries).error.None?
    ensures var s := StoreResult(st, entries[0].resource, entries[0].path);
            s.error.None? && StoreEntries(st, entries) == StoreEntries(s.st, entries[1..])
  {
  }

  lemma {:induction false} GoodTail(entries: FileMap, files: FileMap)
    requires entries != [] && GoodEntries(entries) && Distinct(entries) && Apart(entries, files)
    ensures GoodEntry(entries[0]) && (forall f: Entry :: f in files ==> f.path != entries[0].path)
    ensures GoodEntries(entries[1..]) && Distinct(entries[1..]) && Apart(entries[1..], files + [entries[0]])
  {
    DistinctTail(entries);
    var e := entries[0];
    assert e in entries;
    forall f: Entry, g: Entry | f in entries[1..] && g in files + [e] ensures Separate(f, g) {
      assert f in entries;
      if g == e { assert e in [e]; }
    }
    forall f: Entry | f in files ensures f.path != e.path { assert Separate(e, f); }
  }

  lemma {:induction false} StoreEntriesAppends(st: State, entries: FileMap)
    requires GoodEntries(entries) && Distinct(entries) && Apart(entries, st.files)
    requires StoreEntries(st, entries).error.None?
    ensures StoreEntries(st, entries).st.files == st.files + entries
    decreases |entries|
  {
    if entries != [] {
      var e, rest := entries[0], entries[1..];
      var s := StoreResult(st, e.resource, e.path);
      StoreEntriesStep(st, entries);
      GoodTail(entries, st.files);
      StoreResultAppends(st, e);
      StoreEntriesAppends(s.st, rest);
      assert st.files + [e] + rest == st.files + entries;
    }
  }

  /** The definition a recorded object is deleted by. */
  ghost function TargetDefinition(r: Resource): Definition
    requires GoodResource(r) && EitherVersion(r).Some?
  {
    Definition(r.kind.value, EitherVersion(r).value, r.metadata.value, map[])
  }

  lemma {:induction false} TargetKeepsIdentity(r: Resource)
    requires GoodResource(r) && EitherVersion(r).Some?
    ensures IdentityOf(Stored(TargetDefinition(r))) == IdentityOf(r)
    ensures GoodResource(Stored(TargetDefinition(r)))
  {
    CleanDictFixed(r.metadata.value);
    CleanIdentity(DictOf(TargetDefinition(r)));
    CleanResourceFixed(DictOf(TargetDefinition(r)));
  }

  lemma {:induction false} OneFileTarget(env: Env, st: State, mapping: string, d: Definition, path: string)
    requires Agrees(st.files, st.defs) && Has(st.files, path) && OneFile(st.files, path)
    ensures GoodResource(Lookup(st.files, path).value)
    ensures var r, hit := ResolveTarget(env, st, path, d, mapping), Lookup(st.files, path).value;
            && r.st == st.(files := [])
            && (r.target.Resolved? ==>
                  && EitherVersion(hit).Some? && env.mappingByKind(TargetDefinition(hit)).Some?
                  && r.target == Resolved(Drop(st.files, path), TargetDefinition(hit),
                       env.mappingByKind(TargetDefinition(hit)).value))
  {
    OthersAreAdjacent(st.files, st.defs, path);
    assert st.files[IndexOf(st.files, path)] in st.files;
    assert GoodEntry(st.files[IndexOf(st.files, path)]);
  }

  lemma {:induction false} DeletedIsPutBack(env: Env, st: State, mapping: string, d: Definition, path: string,
          adjacent: FileMap)
    requires AccurateApi(env) && HasName(d) && KeyOf(env, mapping, d) in st.live
    requires st.files == [] && path != "" && GoodEntries(adjacent) && Distinct(adjacent)
    requires forall e: Entry :: e in adjacent ==> e.path != path && IdentityOf(e.resource) != IdentityOf(Stored(d))
    ensures var r := DeleteTarget(env, st, mapping, d, path, adjacent);
            && (r.out.Retry? ==> !env.external && r.st.files == [Entry(path, Stored(d))] + adjacent
                                 && r.st.live.Keys == st.live.Keys - {KeyOf(env, mapping, d)})
            && (r.out.Done? ==> env.external)
  {
    DeleteLiveTarget(env, st, mapping, d);
    var r := DoDelete(env, st, mapping, d);
    PrepareKeepsKeys(env, r.st, mapping, d, r.response.obj);
    var prepared := DeleteAndPrepare(env, r.st, mapping, d, r.response.obj);
    if prepared.error.None? && prepared.st.perform {
      var s := StoreResult(prepared.st, Stored(d), path);
      StoreResultFrame(prepared.st, Stored(d), path);
      StoreEntriesFrame(s.st, adjacent);
      if s.error.None? && StoreEntries(s.st, adjacent).error.None? {
        CleanDictFixed(d.metadata);
        CleanDictFixed(CleanDict(d.metadata));
        assert CleanMetadata(Stored(d)) == Stored(d);
        assert s.st.files == [Entry(path, Stored(d))];
        StoreEntriesAppends(s.st, adjacent);
      }
    }
  }

  /** The object recorded at the path is live, under the key it is deleted by. */
  ghost predicate PrimaryLive(env: Env, st: State, path: string) {
    var hit := Lookup(st.files, path);
    && hit.Some? && GoodResource(hit.value) && EitherVersion(hit.value).Some?
    && (var target := TargetDefinition(hit.value);
        env.mappingByKind(target).Some? && KeyOf(env, env.mappingByKind(target).value, target) in st.live)
  }

  ghost function PrimaryKey(env: Env, st: State, path: string): Key
    requires PrimaryLive(env, st, path)
  {
    var target := TargetDefinition(Lookup(st.files, path).value);
    KeyOf(env, env.mappingByKind(target).value, target)
  }

  /** The inner deletion that cuts the deletion of a file short, if any: the primary object
      is not live any more, and a target of the inner deletions is live and the plugin's own. */
  ghost function CutShort(env: Env, st: State, path: string): Option<Sought> {
    var hit := Lookup(st.files, path);
    if env.external || PrimaryLive(env, st, path) || hit.None? || !GoodResource(hit.value)
      || EitherVersion(hit.value).None?
    then None
    else FirstLive(InnerTargets(env, st.defs, Drop(st.files, path), TargetDefinition(hit.value)), st.live)
  }

  ghost function AfterInner(env: Env, st: State, adjacent: FileMap, target: Definition, path: string): Result {
    var inner := DeleteInner(env, st, adjacent, target, path);
    if inner.out.Done? then RestoreAndRetry(inner.st, adjacent) else inner
  }

  ghost function AfterTarget(env: Env, st: State, m: string, target: Definition, path: string,
        adjacent: FileMap): Result {
    var deleted := DeleteTarget(env, st, m, target, path, adjacent);
    if deleted.out.Done? && adjacent != [] then RestoreAndRetry(deleted.st, adjacent) else deleted
  }

  /** What a deletion that does not fail comes to, on the record of one file. */
  lemma {:induction false} OneFileDeletion(env: Env, st: State, mapping: string, d: Definition, path: string)
    returns (target: Definition, m: string, start: State)
    requires AccurateApi(env) && Agrees(st.files, st.defs) && Has(st.files, path) && OneFile(st.files, path)
    requires !DeleteFile(env, st, mapping, d, path).out.Fail?
    ensures var hit := Lookup(st.files, path).value;
            GoodResource(hit) && EitherVersion(hit).Some? && target == TargetDefinition(hit)
              && env.mappingByKind(target) == Some(m)
    ensures HasName(target) && start.files == [] && start.defs == st.defs && start.live == st.live
    ensures var adjacent := Drop(st.files, path);
            DeleteFile(env, st, mapping, d, path) ==
            if KeyOf(env, m, target) in st.live then AfterTarget(env, start, m, target, path, adjacent)
            else if adjacent == [] then Result(start, Done)
            else AfterInner(env, start, adjacent, target, path)
  {
    OneFileTarget(env, st, mapping, d, path);
    var chosen := ResolveTarget(env, st, path, d, mapping);
    target, m := chosen.target.definition, chosen.target.mapping;
    ReadAccurately(env, chosen.st, m, target);
    start := Read(env, chosen.st, m, target).st;
    hide ResolveTarget, Agrees, OneFile, DeleteInner, DeleteTarget, KeyOf, RestoreAndRetry, Read;
  }

  lemma {:induction false} CutShortIs(env: Env, st: State, path: string, m: string)
    requires Has(st.files, path)
    requires var hit := Lookup(st.files, path).value;
             GoodResource(hit) && EitherVersion(hit).Some? && env.mappingByKind(TargetDefinition(hit)) == Some(m)
    ensures var target := TargetDefinition(Lookup(st.files, path).value);
            && (PrimaryLive(env, st, path) <==> KeyOf(env, m, target) in st.live)
            && (PrimaryLive(env, st, path) ==> PrimaryKey(env, st, path) == KeyOf(env, m, target))
            && CutShort(env, st, path) ==
               if env.external || KeyOf(env, m, target) in st.live then None
               else FirstLive(InnerTargets(env, st.defs, Drop(st.files, path), target), st.live)
  {
    hide KeyOf, InnerTargets, FirstLive, Drop;
  }

  lemma {:induction false} RestoredInto(st: State, adjacent: FileMap)
    requires GoodEntries(adjacent) && Distinct(adjacent) && st.files == [] && RestoreAndRetry(st, adjacent).out.Retry?
    ensures RestoreAndRetry(st, adjacent).st.files == adjacent && RestoreAndRetry(st, adjacent).st.live == st.live
  {
    StoreEntriesFrame(st, adjacent);
    StoreEntriesAppends(st, adjacent);
    assert [] + adjacent == adjacent;
  }

  lemma {:induction false} RetryFromInner(env: Env, st: State, adjacent: FileMap, target: Definition, path: string)
    requires AccurateApi(env) && st.files == [] && path != "" && GoodEntries(adjacent) && Distinct(adjacent)
    requires AfterInner(env, st, adjacent, target, path).out.Retry?
    ensures var r := AfterInner(env, st, adjacent, target, path);
            var cut := if env.external then None else FirstLive(InnerTargets(env, st.defs, adjacent, target), st.live);
            && r.out == Retry(cut.Some?)
            && r.st.files == (if cut.Some? then [Entry(path, Stored(cut.value.definition))] else adjacent)
            && (!env.external ==> r.st.live.Keys == st.live.Keys - if cut.Some? then {cut.value.key} else {})
  {
    hide DeleteInner, RestoreAndRetry, InnerTargets, FirstLive;
    var inner := DeleteInner(env, st, adjacent, target, path);
    if env.external {
      ExternalInnerDeletions(env, st, adjacent, target, path);
    } else {
      InnerDeletions(env, st, adjacent, target, path);
    }
    if inner.out.Done? {
      RestoredInto(inner.st, adjacent);
      RestoringNotNested(inner.st, adjacent);
    }
  }

  lemma {:induction false} RestoringNotNested(st: State, adjacent: FileMap)
    ensures RestoreAndRetry(st, adjacent).out != Retry(true)
  {
  }

  lemma {:induction false} RetryFromTarget(env: Env, st: State, m: string, target: Definition, path: string,
        adjacent: FileMap)
    requires AccurateApi(env) && HasName(target) && KeyOf(env, m, target) in st.live
    requires st.files == [] && path != "" && GoodEntries(adjacent) && Distinct(adjacent)
    requires forall e: Entry :: e in adjacent ==> e.path != path && IdentityOf(e.resource) != IdentityOf(Stored(target))
    requires AfterTarget(env, st, m, target, path, adjacent).out.Retry?
    ensures var r := AfterTarget(env, st, m, target, path, adjacent);
            && r.out == Retry(false)
            && r.st.files == (if env.external then [] else [Entry(path, Stored(target))]) + adjacent
            && (!env.external ==> r.st.live.Keys == st.live.Keys - {KeyOf(env, m, target)})
  {
    DeletedIsPutBack(env, st, m, target, path, adjacent);
    DeleteTargetFrame(env, st, m, target, path, adjacent);
    hide DeleteTarget, RestoreAndRetry, KeyOf, Stored, IdentityOf;
    var deleted := DeleteTarget(env, st, m, target, path, adjacent);
    if deleted.out.Done? {
      RestoredInto(deleted.st, adjacent);
      RestoringNotNested(deleted.st, adjacent);
    }
  }

  /** Conservation across a retry, for the record of one file.  An inner deletion that cuts
      the deletion short leaves its own target alone in the record: all adjacent entries are
      lost.  Otherwise, if the object at the path was live and is the plugin's to delete, every
      path is kept, adjacent entries unchanged and the object's identity with them; else exactly
      the path is gone (an external object drops out of the record although it exists). */
  lemma {:induction false} RetryConserves(env: Env, st: State, mapping: string, d: Definition, path: string)
    requires AccurateApi(env) && Agrees(st.files, st.defs) && Has(st.files, path) && OneFile(st.files, path)
    requires DeleteFile(env, st, mapping, d, path).out.Retry?
    ensures var hit, r, cut := Lookup(st.files, path).value, DeleteFile(env, st, mapping, d, path),
        CutShort(env, st, path);
            && GoodResource(hit) && EitherVersion(hit).Some?
            && (var target := TargetDefinition(hit);
                && IdentityOf(Stored(target)) == IdentityOf(hit)
                && r.out == Retry(cut.Some?)
                && r.st.files ==
                   if cut.Some? then [Entry(path, Stored(cut.value.definition))]
                   else if PrimaryLive(env, st, path) && !env.external then
                     [Entry(path, Stored(target))] + Drop(st.files, path)
                   else Drop(st.files, path))
    ensures var cut := CutShort(env, st, path);
            !env.external ==>
              DeleteFile(env, st, mapping, d, path).st.live.Keys ==
              st.live.Keys -
              if cut.Some? then {cut.value.key}
              else if PrimaryLive(env, st, path) then {PrimaryKey(env, st, path)} else {}
  {
    var target, m, start := OneFileDeletion(env, st, mapping, d, path);
    var hit, adjacent := Lookup(st.files, path).value, Drop(st.files, path);
    TargetKeepsIdentity(hit);
    AdjacentApart(st.files, path);
    CutShortIs(env, st, path, m);
    hide DeleteFile, IdentityOf, GoodEntries, Distinct, DeleteTarget, KeyOf, InnerTargets, FirstLive, Lookup, Drop,
      RestoreAndRetry, DeleteInner, OneFile, GoodResource, PrimaryLive, PrimaryKey, CutShort, AccurateApi, AfterInner,
      AfterTarget;
    if KeyOf(env, m, target) !in st.live {
      RetryFromInner(env, start, adjacent, target, path);
    } else {
      RetryFromTarget(env, start, m, target, path, adjacent);
    }
  }

  lemma {:induction false} AdjacentApart(files: FileMap, path: string)
    requires GoodEntries(files) && Distinct(files) && Has(files, path)
    ensures var adjacent, id := Drop(files, path), IdentityOf(Lookup(files, path).value);
            && GoodEntries(adjacent) && Distinct(adjacent)
            && (forall e: Entry :: e in adjacent ==> e.path != path && IdentityOf(e.resource) != id)
  {
    var i := IndexOf(files, path);
    WithoutDistinct(files, i);
    forall e: Entry | e in Without(files, i) ensures Separate(files[i], e) { assert files[i] in [files[i]]; }
  }

  /** So a retry keeps the adjacent entries exactly when no inner deletion cuts it short, and
      one that does loses at least one entry, all of them in fact. */
  lemma {:induction false} RetryKeepsAdjacentExactly(env: Env, st: State, mapping: string, d: Definition, path: string)
    requires AccurateApi(env) && Agrees(st.files, st.defs) && Has(st.files, path) && OneFile(st.files, path)
    requires DeleteFile(env, st, mapping, d, path).out.Retry?
    ensures var adjacent, after := Drop(st.files, path), DeleteFile(env, st, mapping, d, path).st;
            && (Within(adjacent, after.files) <==> CutShort(env, st, path).None?)
            && (CutShort(env, st, path).Some? ==>
                  adjacent != [] && (forall e :: e in adjacent ==> e !in after.files) && |after.files| == 1)
  {
    RetryConserves(env, st, mapping, d, path);
    AdjacentApart(st.files, path);
    var adjacent, cut := Drop(st.files, path), CutShort(env, st, path);
    hide DeleteFile, CutShort, PrimaryLive;
    if cut.Some? {
      CutShortNeedsAdjacent(env, st, path);
      assert adjacent[0] in adjacent;
    }
  }

  lemma {:induction false} CutShortNeedsAdjacent(env: Env, st: State, path: string)
    ensures CutShort(env, st, path).Some? ==> Drop(st.files, path) != []
  {
  }

  /** Without redefinition the condition reads off the cluster: the primary object is not
      live, and one of its adjacent objects is, under the mapping of the primary's kind. */
  lemma {:induction false} CutShortWithoutRedefinition(env: Env, st: State, mapping: string, d: Definition,
        path: string)
    requires AccurateApi(env) && Agrees(st.files, st.defs) && Has(st.files, path) && OneFile(st.files, path)
    requires DeleteFile(env, st, mapping, d, path).out.Retry? && !env.external && !env.resolver.allowRedefinition
    ensures var hit := Lookup(st.files, path).value;
            && GoodResource(hit) && EitherVersion(hit).Some?
            && (CutShort(env, st, path).Some? <==>
                  !PrimaryLive(env, st, path)
                  && exists e :: e in Drop(st.files, path) && LiveAdjacent(env, st.live, e, TargetDefinition(hit)))
  {
    var target, m, start := OneFileDeletion(env, st, mapping, d, path);
    if KeyOf(env, m, target) !in st.live {
      InnerTargetsWithoutRedefinition(env, start, Drop(st.files, path), target, path);
    }
  }

  // ------------------------------------------------------ after a failure

  ghost predicate Versioned(m: FileMap) {
    forall e: Entry :: e in m ==> VersionOf(e.resource).Some?
  }

  lemma {:induction false} RestoringSucceeds(st: State, entries: FileMap)
    requires GoodEntries(entries) && Versioned(entries)
    ensures RestoreAndRetry(st, entries).out == Retry(false)
    decreases |entries|
  {
    if entries != [] {
      assert entries[0] in entries && GoodEntry(entries[0]);
      RestoringSucceeds(StoreResult(st, entries[0].resource, entries[0].path).st, entries[1..]);
    }
  }

  lemma {:induction false} PuttingBackSucceeds(st: State, d: Definition, path: string, adjacent: FileMap)
    requires GoodEntries(adjacent) && Versioned(adjacent)
    ensures PutBack(st, Stored(d), path, adjacent).out == Retry(false)
  {
    var s := StoreResult(st, Stored(d), path);
    assert s.error.None?;
    hide StoreResult;
    RestoringSucceeds(s.st, adjacent);
  }

  lemma {:induction false} DeleteTargetFails(env: Env, st: State, mapping: string, d: Definition, path: string,
          adjacent: FileMap)
    requires GoodEntries(adjacent) && Versioned(adjacent)
    ensures var r := DeleteTarget(env, st, mapping, d, path, adjacent);
            !r.out.Retry? ==> r.st.files == st.files
  {
    var r := DoDelete(env, st, mapping, d);
    DoDeleteFrame(env, st, mapping, d);
    if r.response.Got? {
      DeleteAndPrepareFrame(env, r.st, mapping, d, r.response.obj);
      PuttingBackSucceeds(DeleteAndPrepare(env, r.st, mapping, d, r.response.obj).st, d, path, adjacent);
    }
    hide DoDelete, DeleteAndPrepare, PutBack;
  }

  lemma {:induction false} FailureWithoutFiles(env: Env, st: State, mapping: string, d: Definition, path: string)
    requires st.files == []
    ensures var r := DeleteFile(env, st, mapping, d, path);
            !r.out.Retry? ==> r.st.files == []
  {
    TargetWithoutFiles(env, st, mapping, d, path);
    var chosen := ResolveTarget(env, st, path, d, mapping);
    if chosen.target.Resolved? {
      var read := Read(env, chosen.st, chosen.target.mapping, chosen.target.definition);
      assert read.st.files == [];
      DeleteTargetFails(env, read.st, chosen.target.mapping, chosen.target.definition, path, []);
    }
    hide ResolveTarget, DeleteTarget, RetrieveStored;
  }

  lemma {:induction false} InnerFailure(env: Env, st: State, adjacent: FileMap, outer: Definition, path: string)
    requires st.files == []
    ensures var r := DeleteInner(env, st, adjacent, outer, path);
            !r.out.Retry? ==> r.st.files == []
    decreases |adjacent|
  {
    hide DeleteFile;
    if adjacent != [] {
      var inner, m := InnerDefinition(adjacent[0].resource), env.mappingByKind(outer);
      if inner.None? {
        InnerFailure(env, st, adjacent[1..], outer, path);
      } else if m.Some? {
        FailureWithoutFiles(env, st, m.value, inner.value, path);
        var r := DeleteFile(env, st, m.value, inner.value, path);
        if r.out.Done? { InnerFailure(env, r.st, adjacent[1..], outer, path); }
      }
    }
  }

  /** Whatever the API answers, a deletion by path that fails, on the record of one file, leaves
      no file object recorded: what has been taken out is put back only with a retry. */
  lemma {:induction false} FailureEmptiesRecord(env: Env, st: State, mapping: string, d: Definition, path: string)
    requires Agrees(st.files, st.defs) && Has(st.files, path) && OneFile(st.files, path) && Versioned(st.files)
    ensures DeleteFile(env, st, mapping, d, path).out.Fail? ==> DeleteFile(env, st, mapping, d, path).st.files == []
  {
    OneFileTarget(env, st, mapping, d, path);
    OthersStorable(st, path);
    var chosen := ResolveTarget(env, st, path, d, mapping);
    if chosen.target.Resolved? {
      var adjacent, target, m := chosen.target.adjacent, chosen.target.definition, chosen.target.mapping;
      var read := Read(env, chosen.st, m, target);
      assert read.st.files == [];
      hide ResolveTarget, Read, DeleteTarget, DeleteInner, RestoreAndRetry, Agrees, OneFile, KeyOf;
      InnerFailure(env, read.st, adjacent, target, path);
      DeleteTargetFails(env, read.st, m, target, path, adjacent);
      RestoringSucceeds(DeleteInner(env, read.st, adjacent, target, path).st, adjacent);
      RestoringSucceeds(DeleteTarget(env, read.st, m, target, path, adjacent).st, adjacent);
    }
  }

  lemma {:induction false} OthersStorable(st: State, path: string)
    requires GoodEntries(st.files) && Distinct(st.files) && Has(st.files, path) && Versioned(st.files)
    ensures GoodEntries(Drop(st.files, path)) && Versioned(Drop(st.files, path))
  {
    WithoutDistinct(st.files, IndexOf(st.files, path));
    hide GoodEntry;
  }

  /** One error of the API on reading the object is enough, and nothing else has changed then. */
  lemma {:induction false} FailedReadEmptiesRecord(env: Env, st: State, mapping: string, d: Definition, path: string)
    requires Agrees(st.files, st.defs) && Has(st.files, path) && OneFile(st.files, path)
    requires ResolveTarget(env, st, path, d, mapping).target.Resolved?
    requires HasName(ResolveTarget(env, st, path, d, mapping).target.definition)
    requires env.script(st.tick) == AnswerOther || env.script(st.tick) == AnswerNamespaceClash
    ensures var r := DeleteFile(env, st, mapping, d, path);
            r.out == Fail(RecoverableError) && r.st == st.(files := [], tick := st.tick + 1)
  {
    OneFileTarget(env, st, mapping, d, path);
    var chosen := ResolveTarget(env, st, path, d, mapping);
    assert "name" in chosen.target.definition.metadata;
    hide ResolveTarget, KeyOf, DeleteTarget, DeleteInner;
  }
}
