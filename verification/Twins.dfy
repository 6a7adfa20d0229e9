/**
 * One identity recorded under two paths: the fallback takes one of the two objects and pops
 * their only definition.
 */
module Twins {
  import opened Options
  import opened JsonValues
  import opened Definitions
  import opened Paths
  import opened Record
  import opened FileMaps
  import opened Cluster
  import opened FileDeletion
  import opened Convergence
  import opened Agreement
  import opened Fallback
  import opened Conservation

  // ------------------------------------------------- with nothing adjacent

  lemma {:induction false} SelectNone(m: FileMap, stem: string, resource: Resource)
    requires forall e :: e in m ==> !IsAdjacent(stem, resource, e)
    ensures Select(m, stem, resource, true) == [] && Select(m, stem, resource, false) == m
  {
    if m != [] {
      assert m[0] in m && forall e :: e in m[1..] ==> e in m;
      SelectNone(m[1..], stem, resource);
      assert [m[0]] + m[1..] == m;
    }
  }

  /** The fallback takes the first entry that has the identity of the last definition; another
      entry has it too, and nothing is adjacent to the one taken. */
  ghost predicate TakenTwin(env: Env, st: State, path: string, j: nat) {
    && st.files != [] && st.defs != [] && !Has(st.files, path) && Stem(path).Some?
    && (var last := st.defs[|st.defs| - 1];
        var i := MatchingEntry(st.files, last);
        var e := st.files[i];
        && i != j < |st.files| && IdentityOf(e.resource) == IdentityOf(st.files[j].resource) == IdentityOf(last)
        && GoodEntry(e) && EitherVersion(e.resource).Some?
        && (forall f :: f in st.files ==> !IsAdjacent(Stem(e.path).value, e.resource, f))
        && (var target := TargetDefinition(e.resource); env.mappingByKind(target).Some? && HasName(target)))
  }

  ghost function TwinTarget(env: Env, st: State, path: string, j: nat): Sought
    requires TakenTwin(env, st, path, j)
  {
    var target := TargetDefinition(st.files[MatchingEntry(st.files, st.defs[|st.defs| - 1])].resource);
    Sought(target, KeyOf(env, env.mappingByKind(target).value, target))
  }

  lemma {:induction false} TwinChosen(env: Env, st: State, mapping: string, d: Definition, path: string, j: nat)
    requires TakenTwin(env, st, path, j)
    ensures var i, target := MatchingEntry(st.files, st.defs[|st.defs| - 1]), TwinTarget(env, st, path, j).definition;
            && st.files[j] in Without(st.files, i)
            && ResolveTarget(env, st, path, d, mapping) ==
               Resolution(st.(files := Without(st.files, i), defs := Popped(st.defs)),
                          Resolved([], target, env.mappingByKind(target).value))
  {
    hide IsAdjacent, Stem, StoredTarget, MatchingEntry, IdentityOf, IndexOf;
    var i := MatchingEntry(st.files, st.defs[|st.defs| - 1]);
    var e, rest := st.files[i], Without(st.files, i);
    WithoutSplits(st.files, i);
    SelectNone(rest, Stem(e.path).value, e.resource);
    assert st.files[j] == rest[if j < i then j else j - 1];
    assert RetrieveLastCreatePath(st.files, st.defs, path) ==
      Retrieved(Found(e.path, e.resource, []), rest, Popped(st.defs));
    hide RetrieveLastCreatePath, Has, Without;
  }

  lemma {:induction false} PutBackDefines(st: State, d: Definition, path: string)
    requires path != "" && CleanedDict(d.metadata) && Constructed(d) && d.rest == map[] && !Has(st.files, path)
    ensures var r := PutBack(st, Stored(d), path, []);
            && r.out == Retry(false) && r.st.files == st.files + [Entry(path, Stored(d))]
            && r.st.defs == StoreDefinition(st.defs, d)
  {
    CleanDictFixed(d.metadata);
    assert CleanDict(map[]) == map[];
    assert Stored(d) == DictOf(d);
    assert CleanMetadata(Stored(d)) == Stored(d);
  }

  /** What a deletion leaves whose only target is this one. */
  lemma {:induction false} AloneLeaves(env: Env, st: State, mapping: string, d: Definition, path: string)
    requires AccurateApi(env) && HasName(d) && KeyOf(env, mapping, d) in st.live
    requires path != "" && CleanedDict(d.metadata) && Constructed(d) && d.rest == map[] && !Has(st.files, path)
    ensures var r := DeleteTarget(env, st, mapping, d, path, []);
            if env.external then r.out == Done && r.st.files == st.files && r.st.defs == st.defs
            else
              && r.out == Retry(false) && r.st.files == st.files + [Entry(path, Stored(d))]
              && r.st.defs == StoreDefinition(st.defs, d)
  {
    DeleteLiveTarget(env, st, mapping, d);
    var deleted := DoDelete(env, st, mapping, d);
    PrepareKeepsKeys(env, deleted.st, mapping, d, deleted.response.obj);
    ExternalTarget(env, st, mapping, d);
    var prepared := DeleteAndPrepare(env, deleted.st, mapping, d, deleted.response.obj);
    PutBackDefines(prepared.st, d, path);
    hide DoDelete, DeleteAndPrepare, PutBack;
  }

  lemma {:induction false} TwinFacts(env: Env, st: State, path: string, j: nat)
    requires TakenTwin(env, st, path, j)
    ensures var sought := TwinTarget(env, st, path, j);
            var d := sought.definition;
            && HasName(d) && Constructed(d) && CleanedDict(d.metadata) && d.rest == map[] && path != ""
            && env.mappingByKind(d).Some? && sought.key == KeyOf(env, env.mappingByKind(d).value, d)
    ensures !Has(Without(st.files, MatchingEntry(st.files, st.defs[|st.defs| - 1])), path)
  {
    var i := MatchingEntry(st.files, st.defs[|st.defs| - 1]);
    hide MatchingEntry, IsAdjacent, IdentityOf;
    WithoutSplits(st.files, i);
    HasExactly(st.files, path);
    HasExactly(Without(st.files, i), path);
  }

  lemma {:induction false} TwinDeletion(env: Env, st: State, mapping: string, d: Definition, path: string, j: nat)
    requires AccurateApi(env) && TakenTwin(env, st, path, j)
    ensures var r, sought := DeleteFile(env, st, mapping, d, path), TwinTarget(env, st, path, j);
            var rest := Without(st.files, MatchingEntry(st.files, st.defs[|st.defs| - 1]));
            if sought.key in st.live && !env.external then
              && r.out == Retry(false) && r.st.files == rest + [Entry(path, Stored(sought.definition))]
              && r.st.defs == StoreDefinition(Popped(st.defs), sought.definition)
            else r.out == Done && r.st.files == rest && r.st.defs == Popped(st.defs)
  {
    TwinChosen(env, st, mapping, d, path, j);
    TwinFacts(env, st, path, j);
    hide ResolveTarget, DeleteTarget, TakenTwin, TwinTarget, MatchingEntry, StoreDefinition, KeyOf, IndexOf;
    var chosen := ResolveTarget(env, st, path, d, mapping);
    var target, m := chosen.target.definition, chosen.target.mapping;
    ReadAccurately(env, chosen.st, m, target);
    var read := Read(env, chosen.st, m, target);
    if TwinTarget(env, st, path, j).key in st.live {
      AloneLeaves(env, read.st, m, target, path);
    }
  }

  /** When two recorded objects share an identity, and nothing is adjacent to the one that the
      fallback takes with their only definition, the other is left without a definition exactly
      when the target is not deleted now, and so not put back: because it is not live any more,
      or is external. */
  lemma {:induction false} LoneTwinLosesDefinition(env: Env, st: State, mapping: string, d: Definition,
          path: string, j: nat)
    requires AccurateApi(env) && DistinctIdentities(st.defs) && Indexed(st.files, st.defs)
    requires TakenTwin(env, st, path, j)
    ensures var r, sought := DeleteFile(env, st, mapping, d, path), TwinTarget(env, st, path, j);
            && st.files[j] in r.st.files
            && (HasIdentity(r.st.defs, IdentityOf(st.files[j].resource)) <==> sought.key in st.live && !env.external)
            && (Indexed(r.st.files, r.st.defs) <==> sought.key in st.live && !env.external)
  {
    TwinDeletion(env, st, mapping, d, path, j);
    TwinChosen(env, st, mapping, d, path, j);
    LastPopped(st.defs);
    var i := MatchingEntry(st.files, st.defs[|st.defs| - 1]);
    var sought, id := TwinTarget(env, st, path, j), IdentityOf(st.files[j].resource);
    WithoutSplits(st.files, i);
    TargetKeepsIdentity(st.files[i].resource);
    CleanDictFixed(sought.definition.metadata);
    CleanIdentity(DictOf(sought.definition));
    forall id' { StoreKeepsIdentities(Popped(st.defs), sought.definition, id'); }
    hide DeleteFile, TakenTwin, StoreDefinition;
  }

  // ---------------------------------------------- in the record of one file

  /** The entries that hold an identity, or the others. */
  ghost function Holding(m: FileMap, id: Identity, same: bool): FileMap {
    if m == [] then []
    else (if (IdentityOf(m[0].resource) == id) == same then [m[0]] else []) + Holding(m[1..], id, same)
  }

  /** How many entries are complete enough for an inner deletion. */
  ghost function Deletable(m: FileMap): nat {
    if m == [] then 0 else (if InnerDefinition(m[0].resource).Some? then 1 else 0) + Deletable(m[1..])
  }

  /** The recorded object is deleted under this key. */
  ghost predicate DeletedUnder(env: Env, r: Resource, key: Key) {
    && GoodResource(r) && EitherVersion(r).Some? && HasName(TargetDefinition(r))
    && env.mappingByKind(TargetDefinition(r)).Some?
    && KeyOf(env, env.mappingByKind(TargetDefinition(r)).value, TargetDefinition(r)) == key
  }

  /** Entries of one identity and key, none of them under the path of the deletion. */
  ghost predicate AllTwins(env: Env, m: FileMap, id: Identity, key: Key, path: string) {
    forall e :: e in m ==>
      GoodEntry(e) && e.path != path && IdentityOf(e.resource) == id && DeletedUnder(env, e.resource, key)
  }

  lemma {:induction false} TwinResolved(env: Env, st: State, d: Definition, mapping: string, path: string, id: Identity,
          key: Key)
    requires AllTwins(env, st.files, id, key, path) && st.files != [] && st.defs != [] && !HasIdentity(st.defs, id)
    ensures var n := |st.files| - 1;
            var target := TargetDefinition(st.files[n].resource);
            ResolveTarget(env, st, path, d, mapping) ==
            Resolution(st.(files := st.files[..n], defs := Popped(st.defs)),
              Resolved([], target, env.mappingByKind(target).value))
  {
    var n, last := |st.files| - 1, st.defs[|st.defs| - 1];
    hide Stem, Contains, StoredTarget, KeyOf, IdentityOf, CleanedDict;
    HasExactly(st.files, path);
    assert forall e :: e in st.files ==> !MatchResource(last, e.resource);
    assert MatchingEntry(st.files, last) == n;
    var e, rest := st.files[n], Without(st.files, n);
    assert rest == st.files[..n] && e in st.files && GoodEntry(e) && DeletedUnder(env, e.resource, key);
    forall f | f in rest ensures !IsAdjacent(Stem(e.path).value, e.resource, f) { assert f in st.files; }
    SelectNone(rest, Stem(e.path).value, e.resource);
    assert RetrieveLastCreatePath(st.files, st.defs, path) ==
      Retrieved(Found(e.path, e.resource, []), rest, Popped(st.defs));
    hide RetrieveLastCreatePath, MatchingEntry, Has, Without;
  }

  /** While a definition is stored, an inner deletion takes a twin and its turn is over. */
  lemma {:induction false} TwinTaken(env: Env, st: State, d: Definition, mapping: string, path: string, id: Identity,
          key: Key)
    requires AccurateApi(env) && AllTwins(env, st.files, id, key, path) && key !in st.live
    requires st.files != [] && st.defs != [] && !HasIdentity(st.defs, id)
    ensures var r := DeleteFile(env, st, mapping, d, path);
            && r.out == Done && r.st.files == st.files[..|st.files| - 1] && r.st.defs == Popped(st.defs)
            && r.st.live == st.live
  {
    TwinResolved(env, st, d, mapping, path, id, key);
    var e := st.files[|st.files| - 1];
    assert e in st.files && DeletedUnder(env, e.resource, key);
    hide ResolveTarget, KeyOf, AllTwins;
    var target := TargetDefinition(e.resource);
    ReadAccurately(env, st.(files := st.files[..|st.files| - 1], defs := Popped(st.defs)),
      env.mappingByKind(target).value, target);
  }

  /** An object of another identity, as an adjacent entry defines it. */
  ghost predicate OtherDefinition(d: Definition, id: Identity) {
    CleanedDict(d.metadata) && Constructed(d) && d.rest == map[] && IdentityOf(DictOf(d)) != id
  }

  /** Without one, the inner deletion looks for its own object, and the twins stay. */
  lemma {:induction false} TwinsStay(env: Env, st: State, d: Definition, mapping: string, path: string, id: Identity)
    requires AccurateApi(env) && st.files != [] && st.defs == [] && !Has(st.files, path) && path != ""
    requires OtherDefinition(d, id)
    ensures var r := DeleteFile(env, st, mapping, d, path);
            && (forall e :: e in st.files ==> e in r.st.files) && !HasIdentity(r.st.defs, id)
            && r.st.live.Keys <= st.live.Keys
            && (r.out.Done? ==> r.st.files == st.files && r.st.defs == [])
  {
    DeleteFileProgress(env, st, mapping, d, path);
    OwnTarget(env, st, d, mapping, path);
    var chosen := ResolveTarget(env, st, path, d, mapping);
    if chosen.target.Resolved? {
      ReadAccurately(env, chosen.st, mapping, d);
      var read := Read(env, chosen.st, mapping, d);
      if HasName(d) && KeyOf(env, mapping, d) in st.live { AloneLeaves(env, read.st, mapping, d, path); }
      StoreKeepsOther(d, id);
      hide ResolveTarget, DeleteTarget, IdentityOf, DictOf, KeyOf;
    }
  }

  lemma {:induction false} StoreKeepsOther(d: Definition, id: Identity)
    requires OtherDefinition(d, id)
    ensures !HasIdentity(StoreDefinition([], d), id)
  {
    CleanedIsStable(d);
    StoreKeepsIdentities([], d, id);
  }

  lemma {:induction false} OwnTarget(env: Env, st: State, d: Definition, mapping: string, path: string)
    requires st.defs == [] && !Has(st.files, path) && CleanedDict(d.metadata) && d.rest == map[]
    ensures var r := ResolveTarget(env, st, path, d, mapping);
            r.st == st && (r.target.Resolved? ==> r.target == Resolved([], d, mapping))
  {
    TidiedStored(d);
    assert CleanedDict(d.rest);
  }

  /** What the inner deletions leave of the twins: they are all gone, or one of them stays and
      no definition with it. */
  ghost predicate TwinsGone(r: Result) {
    Indexed(r.st.files, r.st.defs) && (r.out.Done? ==> r.st.files == [])
  }

  ghost predicate TwinLeft(before: FileMap, r: Result, id: Identity) {
    && !HasIdentity(r.st.defs, id)
    && exists e: Entry :: e in before && e in r.st.files && IdentityOf(e.resource) == id
  }

  lemma {:induction false} InnerWithoutTwins(env: Env, st: State, adjacent: FileMap, outer: Definition, path: string)
    requires st.files == [] && DistinctIdentities(st.defs) && Stem(path).Some?
    ensures TwinsGone(DeleteInner(env, st, adjacent, outer, path))
  {
    DeleteInnerAgrees(env, st, adjacent, outer, path);
    var left := DeleteInner(env, st, adjacent, outer, path).st.files;
    assert left == [] || left[0] in left;
  }

  ghost predicate OtherEntries(m: FileMap, id: Identity) {
    forall e :: e in m ==> GoodEntry(e) && IdentityOf(e.resource) != id
  }

  lemma {:induction false} InnerIsOther(e: Entry, id: Identity)
    requires GoodEntry(e) && IdentityOf(e.resource) != id
    ensures InnerDefinition(e.resource).Some? ==> OtherDefinition(InnerDefinition(e.resource).value, id)
  {
  }

  /** Each inner deletion takes one twin and pops one definition, as long as there are both. */
  lemma {:induction false} InnerOnTwins(env: Env, st: State, adjacent: FileMap, outer: Definition, path: string,
          id: Identity, key: Key)
    requires AccurateApi(env) && Stem(path).Some? && path != "" && env.mappingByKind(outer).Some?
    requires AllTwins(env, st.files, id, key, path) && key !in st.live
    requires DistinctIdentities(st.defs) && !HasIdentity(st.defs, id) && OtherEntries(adjacent, id)
    ensures var r := DeleteInner(env, st, adjacent, outer, path);
            if |st.files| <= Deletable(adjacent) && |st.files| <= |st.defs| then TwinsGone(r)
            else TwinLeft(st.files, r, id) && (r.out.Done? ==> Within(r.st.files, st.files))
    decreases |adjacent|
  {
    var inner := if adjacent == [] then None else InnerDefinition(adjacent[0].resource);
    hide DeleteFile, GoodEntry, IdentityOf, DeletedUnder, InnerDefinition, OtherDefinition;
    if st.files == [] {
      InnerWithoutTwins(env, st, adjacent, outer, path);
    } else if adjacent == [] {
      assert st.files[0] in st.files;
    } else {
      var rest := adjacent[1..];
      assert adjacent[0] in adjacent && OtherEntries(rest, id);
      if inner.None? {
        InnerOnTwins(env, st, rest, outer, path, id, key);
      } else {
        InnerIsOther(adjacent[0], id);
        var r := DeleteFile(env, st, env.mappingByKind(outer).value, inner.value, path);
        OneInnerOnTwins(env, st, inner.value, env.mappingByKind(outer).value, path, id, key);
        if r.out.Done? { InnerOnTwins(env, r.st, rest, outer, path, id, key); }
      }
    }
  }

  /** One inner deletion takes the last twin and pops a definition; where none is left to pop,
      the twins stay. */
  lemma {:induction false} OneInnerOnTwins(env: Env, st: State, d: Definition, mapping: string, path: string,
        id: Identity, key: Key)
    requires AccurateApi(env) && Stem(path).Some? && path != "" && OtherDefinition(d, id) && st.files != []
    requires AllTwins(env, st.files, id, key, path) && key !in st.live
    requires DistinctIdentities(st.defs) && !HasIdentity(st.defs, id)
    ensures var r := DeleteFile(env, st, mapping, d, path);
            && (st.defs != [] ==> r.out.Done?)
            && !HasIdentity(r.st.defs, id) && (r.out.Done? ==> key !in r.st.live)
            && (r.out.Done? ==> r.st.defs == Popped(st.defs) && DistinctIdentities(r.st.defs))
            && (r.out.Done? ==> r.st.files == if st.defs == [] then st.files else st.files[..|st.files| - 1])
            && (r.out.Done? ==> AllTwins(env, r.st.files, id, key, path))
            && (st.defs == [] ==> TwinLeft(st.files, r, id))
  {
    hide DeleteFile, GoodEntry, IdentityOf, DeletedUnder, OtherDefinition;
    HasExactly(st.files, path);
    assert st.files[0] in st.files;
    if st.defs == [] {
      TwinsStay(env, st, d, mapping, path, id);
    } else {
      TwinTaken(env, st, d, mapping, path, id, key);
      PoppedLacks(st.defs, id);
    }
  }

  lemma {:induction false} PoppedLacks(defs: seq<Resource>, id: Identity)
    requires DistinctIdentities(defs) && !HasIdentity(defs, id)
    ensures DistinctIdentities(Popped(defs)) && !HasIdentity(Popped(defs), id)
  {
    assert forall i :: 0 <= i < |Popped(defs)| ==> Popped(defs)[i] == defs[i];
  }

  // ------------------------------------------------- putting others back

  lemma {:induction false} StoreResultIndexed(st: State, result: Resource, path: string)
    requires Indexed(st.files, st.defs) && GoodResource(result)
    ensures Indexed(StoreResult(st, result, path).st.files, StoreResult(st, result, path).st.defs)
    ensures var s := StoreResult(st, result, path).st;
            forall id :: HasIdentity(s.defs, id) && id != IdentityOf(result) ==> HasIdentity(st.defs, id)
    ensures var s := StoreResult(st, result, path);
            s.error.None? ==> HasIdentity(s.st.defs, IdentityOf(result))
  {
    StoreResultIdentities(st, result, path);
    hide StoreDefinition, IdentityOf;
  }

  /** Storing adds the identity of the result to those defined, and its entry to the map. */
  lemma {:induction false} StoreResultIdentities(st: State, result: Resource, path: string)
    requires GoodResource(result)
    ensures var s := StoreResult(st, result, path);
            if s.error.Some? then s.st == st
            else
              && (forall id :: HasIdentity(s.st.defs, id) <==> HasIdentity(st.defs, id) || id == IdentityOf(result))
              && (forall e: Entry :: e in s.st.files ==> e in st.files || e == Entry(path, result))
              && (forall e: Entry :: e in st.files && e.path != path ==> e in s.st.files)
  {
    var s := StoreResult(st, result, path);
    if s.error.None? {
      var d := Definition(LastSegment(result.kind.value), VersionOf(result).value, result.metadata.value, map[]);
      CleanDictFixed(result.metadata.value);
      CleanIdentity(DictOf(d));
      assert IdentityOf(DictOf(d)) == IdentityOf(result) && CleanMetadata(result) == result;
      forall id { StoreKeepsIdentities(st.defs, d, id); }
      if path != "" {
        forall e: Entry | e in st.files && e.path != path ensures e in s.st.files {
          var k :| 0 <= k < |st.files| && st.files[k] == e;
          assert s.st.files[k] == e;
        }
      }
    }
  }

  lemma {:induction false} StoreEntriesIndexed(st: State, entries: FileMap)
    requires Indexed(st.files, st.defs) && GoodEntries(entries)
    ensures Indexed(StoreEntries(st, entries).st.files, StoreEntries(st, entries).st.defs)
    decreases |entries|
  {
    if entries != [] {
      assert entries[0] in entries && GoodEntry(entries[0]);
      StoreResultIndexed(st, entries[0].resource, entries[0].path);
      var s := StoreResult(st, entries[0].resource, entries[0].path);
      if s.error.None? { StoreEntriesIndexed(s.st, entries[1..]); }
    }
  }

  lemma {:induction false} StoreEntriesLeaves(st: State, entries: FileMap, twin: Entry)
    requires twin in st.files && !HasIdentity(st.defs, IdentityOf(twin.resource))
    requires GoodEntries(entries) && forall e :: e in entries ==> Separate(twin, e)
    ensures var s := StoreEntries(st, entries).st;
            twin in s.files && !HasIdentity(s.defs, IdentityOf(twin.resource))
    decreases |entries|
  {
    if entries != [] {
      assert entries[0] in entries && GoodEntry(entries[0]) && Separate(twin, entries[0]);
      StoreResultIdentities(st, entries[0].resource, entries[0].path);
      var s := StoreResult(st, entries[0].resource, entries[0].path);
      hide StoreResult, IdentityOf;
      if s.error.None? { StoreEntriesLeaves(s.st, entries[1..], twin); }
    }
  }

  lemma {:induction false} LeftWithout(files: FileMap, defs: seq<Resource>, twin: Entry)
    requires twin in files && !HasIdentity(defs, IdentityOf(twin.resource))
    ensures !Indexed(files, defs)
  {
  }

  /** Restoring the others keeps the map indexed, or one of the twins without a definition. */
  lemma {:induction false} RestoredAfterInner(r: Result, adjacent: FileMap, twins: FileMap, id: Identity)
    requires GoodEntries(adjacent) && (forall e, f :: e in twins && f in adjacent ==> e.path != f.path)
    requires OtherEntries(adjacent, id)
    ensures var after := if r.out.Done? then RestoreAndRetry(r.st, adjacent) else r;
            && (TwinsGone(r) ==> Indexed(after.st.files, after.st.defs))
            && (TwinLeft(twins, r, id) ==> !Indexed(after.st.files, after.st.defs))
  {
    hide IdentityOf, StoreEntries, Indexed, GoodEntry;
    if TwinsGone(r) && r.out.Done? { StoreEntriesIndexed(r.st, adjacent); }
    if TwinLeft(twins, r, id) {
      var twin: Entry :| twin in twins && twin in r.st.files && IdentityOf(twin.resource) == id;
      if r.out.Done? {
        forall e | e in adjacent ensures Separate(twin, e) {}
        StoreEntriesLeaves(r.st, adjacent, twin);
        LeftWithout(StoreEntries(r.st, adjacent).st.files, StoreEntries(r.st, adjacent).st.defs, twin);
      } else {
        LeftWithout(r.st.files, r.st.defs, twin);
      }
    }
  }

  // ------------------------------------------------------- all together

  lemma {:induction false} SelectIsHolding(m: FileMap, stem: string, resource: Resource, adjacent: bool)
    requires forall e: Entry :: e in m ==> Contains(e.path, stem)
    ensures Select(m, stem, resource, adjacent) == Holding(m, IdentityOf(resource), !adjacent)
  {
    hide Contains, IdentityOf;
    if m != [] {
      assert m[0] in m && forall e :: e in m[1..] ==> e in m;
      SelectIsHolding(m[1..], stem, resource, adjacent);
    }
  }

  lemma {:induction false} HoldingConcat(m: FileMap, n: FileMap, id: Identity, same: bool)
    ensures Holding(m + n, id, same) == Holding(m, id, same) + Holding(n, id, same)
  {
    hide IdentityOf;
    if m == [] {
      assert m + n == n;
    } else {
      assert (m + n)[0] == m[0] && (m + n)[1..] == m[1..] + n;
      HoldingConcat(m[1..], n, id, same);
    }
  }

  lemma {:induction false} HoldingEntries(m: FileMap, id: Identity, same: bool)
    ensures forall e: Entry :: e in Holding(m, id, same) <==> e in m && (IdentityOf(e.resource) == id) == same
  {
    hide IdentityOf;
    if m != [] {
      HoldingEntries(m[1..], id, same);
      assert m == [m[0]] + m[1..];
    }
  }

  lemma {:induction false} HoldingWithout(m: FileMap, i: nat, id: Identity)
    requires i < |m| && IdentityOf(m[i].resource) == id
    ensures Holding(Without(m, i), id, false) == Holding(m, id, false)
    ensures |Holding(Without(m, i), id, true)| == |Holding(m, id, true)| - 1
  {
    hide IdentityOf;
    var one := [m[i]];
    assert m == m[..i] + (one + m[i + 1..]) && one[1..] == [];
    assert Holding(one, id, true) == one + Holding([], id, true)
      && Holding(one, id, false) == [] + Holding([], id, false);
    HoldingConcat(m[..i], one + m[i + 1..], id, true);
    HoldingConcat(m[..i], one + m[i + 1..], id, false);
    HoldingConcat(one, m[i + 1..], id, true);
    HoldingConcat(one, m[i + 1..], id, false);
    HoldingConcat(m[..i], m[i + 1..], id, true);
    HoldingConcat(m[..i], m[i + 1..], id, false);
  }

  ghost function ChosenEntry(st: State): Entry
    requires st.files != [] && st.defs != []
  {
    st.files[MatchingEntry(st.files, st.defs[|st.defs| - 1])]
  }

  /** The record of one file in agreement but for objects of one identity, that of the last
      definition, which may stand under several paths; the deletion is under a new path. */
  ghost predicate FileWithTwins(env: Env, st: State, path: string, key: Key) {
    && st.files != [] && st.defs != [] && !Has(st.files, path) && Stem(path).Some?
    && GoodEntries(st.files) && DistinctPaths(st.files) && DistinctIdentities(st.defs) && Indexed(st.files, st.defs)
    && (var e, id := ChosenEntry(st), IdentityOf(st.defs[|st.defs| - 1]);
        && Stem(e.path).Some? && IdentityOf(e.resource) == id
        && forall f: Entry :: f in st.files ==>
             Contains(f.path, Stem(e.path).value)
               && (IdentityOf(f.resource) == id ==> DeletedUnder(env, f.resource, key)))
  }

  lemma {:induction false} ChosenSplits(env: Env, st: State, mapping: string, d: Definition, path: string, key: Key)
    requires FileWithTwins(env, st, path, key)
    ensures var i, id := MatchingEntry(st.files, st.defs[|st.defs| - 1]), IdentityOf(st.defs[|st.defs| - 1]);
            var target := TargetDefinition(ChosenEntry(st).resource);
            var rest := Without(st.files, i);
            && ResolveTarget(env, st, path, d, mapping) ==
               Resolution(st.(files := Holding(rest, id, true), defs := Popped(st.defs)),
                          Resolved(Holding(rest, id, false), target, env.mappingByKind(target).value))
  {
    var i, id := MatchingEntry(st.files, st.defs[|st.defs| - 1]), IdentityOf(st.defs[|st.defs| - 1]);
    var e, rest := st.files[i], Without(st.files, i);
    hide Stem, Contains, StoredTarget, KeyOf, IdentityOf, CleanedDict, MatchingEntry, IndexOf, IsAdjacent;
    WithoutSplits(st.files, i);
    assert e in st.files && DeletedUnder(env, e.resource, key);
    SelectIsHolding(rest, Stem(e.path).value, e.resource, true);
    SelectIsHolding(rest, Stem(e.path).value, e.resource, false);
    assert RetrieveLastCreatePath(st.files, st.defs, path) ==
           Retrieved(Found(e.path, e.resource, Holding(rest, id, false)), Holding(rest, id, true), Popped(st.defs));
    hide RetrieveLastCreatePath, Has, Without, Holding;
  }

  lemma {:induction false} HoldingApart(m: FileMap, i: nat, id: Identity)
    requires i < |m| && DistinctPaths(m)
    ensures var rest := Without(m, i);
            forall e, f :: e in Holding(rest, id, true) && f in Holding(rest, id, false) ==> e.path != f.path
  {
    hide IdentityOf, Holding;
    var rest := Without(m, i);
    WithoutSplits(m, i);
    HoldingEntries(rest, id, true);
    HoldingEntries(rest, id, false);
    forall e, f | e in Holding(rest, id, true) && f in Holding(rest, id, false) ensures e.path != f.path {
      var j, k :| 0 <= j < |rest| && 0 <= k < |rest| && rest[j] == e && rest[k] == f;
    }
  }

  lemma {:induction false} HoldingTwins(env: Env, st: State, path: string, key: Key, i: nat, id: Identity)
    requires i < |st.files| && GoodEntries(st.files) && !Has(st.files, path)
    requires forall f: Entry :: f in st.files && IdentityOf(f.resource) == id ==> DeletedUnder(env, f.resource, key)
    ensures var rest := Without(st.files, i);
            AllTwins(env, Holding(rest, id, true), id, key, path) && OtherEntries(Holding(rest, id, false), id)
  {
    hide IdentityOf, Holding, GoodEntry, DeletedUnder;
    var rest := Without(st.files, i);
    WithoutSplits(st.files, i);
    HoldingEntries(rest, id, true);
    HoldingEntries(rest, id, false);
    HasExactly(st.files, path);
    forall e | e in rest ensures GoodEntry(e) && e.path != path && e in st.files {}
  }

  lemma {:induction false} SplitFacts(env: Env, st: State, path: string, key: Key)
    requires FileWithTwins(env, st, path, key)
    ensures var i, id := MatchingEntry(st.files, st.defs[|st.defs| - 1]), IdentityOf(st.defs[|st.defs| - 1]);
            var rest := Without(st.files, i);
            var twins, others := Holding(rest, id, true), Holding(rest, id, false);
            && AllTwins(env, twins, id, key, path) && OtherEntries(others, id)
            && (forall e, f :: e in twins && f in others ==> e.path != f.path)
            && others == Holding(st.files, id, false) && |twins| == |Holding(st.files, id, true)| - 1
            && !HasIdentity(Popped(st.defs), id) && DistinctIdentities(Popped(st.defs))
  {
    var i, id := MatchingEntry(st.files, st.defs[|st.defs| - 1]), IdentityOf(st.defs[|st.defs| - 1]);
    LastPopped(st.defs);
    hide Stem, Contains, IdentityOf, MatchingEntry, GoodEntry, DeletedUnder, IndexOf, Holding, AllTwins, OtherEntries;
    HoldingWithout(st.files, i, id);
    HoldingTwins(env, st, path, key, i, id);
    HoldingApart(st.files, i, id);
    assert forall j :: 0 <= j < |Popped(st.defs)| ==> Popped(st.defs)[j] == st.defs[j];
  }

  /** A live target is put back with its definition, or, if it is external, is not. */
  lemma {:induction false} LiveTargetWithTwins(env: Env, st: State, m: string, target: Definition, path: string,
          adjacent: FileMap, id: Identity)
    requires AccurateApi(env) && HasName(target) && KeyOf(env, m, target) in st.live && path != ""
    requires CleanedDict(target.metadata) && Constructed(target) && target.rest == map[]
    requires IdentityOf(DictOf(target)) == id
    requires GoodEntries(adjacent) && forall e: Entry :: e in st.files ==> IdentityOf(e.resource) == id
    ensures var r := DeleteTarget(env, st, m, target, path, adjacent);
            if env.external then r.out == Done && r.st.files == st.files && r.st.defs == st.defs
            else !r.out.Done? && Indexed(r.st.files, r.st.defs)
  {
    DeleteLiveTarget(env, st, m, target);
    var deleted := DoDelete(env, st, m, target);
    PrepareKeepsKeys(env, deleted.st, m, target, deleted.response.obj);
    ExternalTarget(env, st, m, target);
    var prepared := DeleteAndPrepare(env, deleted.st, m, target, deleted.response.obj);
    hide DoDelete, DeleteAndPrepare, KeyOf, StoreResult;
    if !env.external { PutBackWithTwins(prepared.st, target, path, adjacent, id); }
  }

  lemma {:induction false} PutBackWithTwins(st: State, target: Definition, path: string, adjacent: FileMap,
        id: Identity)
    requires CleanedDict(target.metadata) && Constructed(target) && target.rest == map[]
    requires IdentityOf(DictOf(target)) == id
    requires GoodEntries(adjacent) && forall e: Entry :: e in st.files ==> IdentityOf(e.resource) == id
    ensures var r := PutBack(st, Stored(target), path, adjacent);
            !r.out.Done? && Indexed(r.st.files, r.st.defs)
  {
    CleanResourceFixed(DictOf(target));
    CleanDictFixed(target.metadata);
    CleanIdentity(DictOf(target));
    assert GoodResource(Stored(target)) && IdentityOf(Stored(target)) == id;
    StoreResultIdentities(st, Stored(target), path);
    var s := StoreResult(st, Stored(target), path);
    assert s.error.None?;
    hide StoreResult, IdentityOf, StoreEntries;
    StoreEntriesIndexed(s.st, adjacent);
  }

  lemma {:induction false} RestoredFromTarget(st: State, adjacent: FileMap, id: Identity)
    requires GoodEntries(adjacent) && OtherEntries(adjacent, id)
    requires (forall e, f :: e in st.files && f in adjacent ==> e.path != f.path) && !HasIdentity(st.defs, id)
    requires forall e: Entry :: e in st.files ==> IdentityOf(e.resource) == id
    ensures var after := if adjacent != [] then RestoreAndRetry(st, adjacent) else Result(st, Done);
            Indexed(after.st.files, after.st.defs) <==> st.files == []
  {
    hide IdentityOf, StoreEntries, GoodEntry;
    if st.files == [] {
      StoreEntriesIndexed(st, adjacent);
    } else {
      var twin := st.files[0];
      assert twin in st.files;
      forall e | e in adjacent ensures Separate(twin, e) {}
      StoreEntriesLeaves(st, adjacent, twin);
      LeftWithout(st.files, st.defs, twin);
      LeftWithout(StoreEntries(st, adjacent).st.files, StoreEntries(st, adjacent).st.defs, twin);
    }
  }

  lemma {:induction false} ChosenTarget(env: Env, st: State, path: string, key: Key)
    requires FileWithTwins(env, st, path, key)
    ensures var target := TargetDefinition(ChosenEntry(st).resource);
            && HasName(target) && Constructed(target) && CleanedDict(target.metadata) && target.rest == map[]
            && path != ""
            && env.mappingByKind(target).Some? && KeyOf(env, env.mappingByKind(target).value, target) == key
            && IdentityOf(DictOf(target)) == IdentityOf(st.defs[|st.defs| - 1])
  {
    var e := ChosenEntry(st);
    hide MatchingEntry, Contains, IndexOf;
    assert e in st.files && GoodEntry(e) && DeletedUnder(env, e.resource, key);
    hide KeyOf, Indexed, DistinctIdentities, DistinctPaths, GoodEntries;
  }

  /** Agreement needs different objects under different paths.  When several objects of one
      file share an identity, a deletion under a new path takes one of them and pops their only
      definition.  The map and the list agree again afterwards exactly when its target is
      deleted now, and so put back; or, once it is not live any more, when the inner deletions,
      which each take one more of them and pop one more definition, come to an end of them. */
  lemma {:induction false} SharedIdentityLosesDefinition(env: Env, st: State, mapping: string, d: Definition,
          path: string, key: Key)
    requires AccurateApi(env) && FileWithTwins(env, st, path, key)
    ensures var r, id := DeleteFile(env, st, mapping, d, path), IdentityOf(st.defs[|st.defs| - 1]);
            var twins := |Holding(st.files, id, true)| - 1;
            Indexed(r.st.files, r.st.defs) <==>
            || twins == 0
            || (if key in st.live then !env.external
                else twins < |st.defs| && twins <= Deletable(Holding(st.files, id, false)))
  {
    ChosenSplits(env, st, mapping, d, path, key);
    SplitFacts(env, st, path, key);
    ChosenTarget(env, st, path, key);
    var id, target := IdentityOf(st.defs[|st.defs| - 1]), TargetDefinition(ChosenEntry(st).resource);
    var chosen := ResolveTarget(env, st, path, d, mapping);
    var m, others := env.mappingByKind(target).value, chosen.target.adjacent;
    hide ResolveTarget, Holding, FileWithTwins, KeyOf, MatchingEntry, IdentityOf, ChosenEntry, TargetDefinition;
    ReadAccurately(env, chosen.st, m, target);
    var read := Read(env, chosen.st, m, target);
    AllTwinsEntries(env, chosen.st.files, id, key, path);
    OthersGood(others, id);
    if key in st.live {
      LiveTargetWithTwins(env, read.st, m, target, path, others, id);
      if env.external { RestoredFromTarget(DeleteTarget(env, read.st, m, target, path, others).st, others, id); }
    } else if others == [] {
      RestoredFromTarget(read.st, others, id);
    } else {
      InnerOnTwins(env, read.st, others, target, path, id, key);
      RestoredAfterInner(DeleteInner(env, read.st, others, target, path), others, read.st.files, id);
    }
  }

  lemma {:induction false} AllTwinsEntries(env: Env, m: FileMap, id: Identity, key: Key, path: string)
    requires AllTwins(env, m, id, key, path)
    ensures forall e: Entry :: e in m ==> IdentityOf(e.resource) == id
  {
  }

  lemma {:induction false} OthersGood(m: FileMap, id: Identity)
    requires OtherEntries(m, id)
    ensures GoodEntries(m)
  {
  }
}
