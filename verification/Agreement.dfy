/**
 * Agreement of the two parts of the record, kept by deletion whatever the API answers and
 * however the deletion ends.
 */
module Agreement {
  import opened JsonValues
  import opened Definitions
  import opened Paths
  import opened Record
  import opened FileMaps
  import opened Cluster
  import opened FileDeletion

  /** An object fit for the record: it says what it is, and its metadata is clean. */
  ghost predicate GoodResource(r: Resource) {
    && r.kind.Some? && '.' !in r.kind.value
    && r.metadata.Some? && CleanedDict(r.metadata.value)
  }

  ghost predicate GoodEntry(e: Entry) {
    GoodResource(e.resource) && Stem(e.path).Some?
  }

  ghost predicate GoodEntries(m: FileMap) {
    forall e :: e in m ==> GoodEntry(e)
  }

  ghost predicate Separate(e: Entry, f: Entry) {
    e.path != f.path && IdentityOf(e.resource) != IdentityOf(f.resource)
  }

  /** Different paths hold objects of different identity. */
  ghost predicate Distinct(m: FileMap) {
    forall i, j :: 0 <= i < j < |m| ==> Separate(m[i], m[j])
  }

  ghost predicate Apart(m: FileMap, n: FileMap) {
    forall e, f :: e in m && f in n ==> Separate(e, f)
  }

  ghost predicate HasIdentity(defs: seq<Resource>, id: Identity) {
    exists i :: 0 <= i < |defs| && IdentityOf(defs[i]) == id
  }

  ghost predicate Indexed(m: FileMap, defs: seq<Resource>) {
    forall e: Entry :: e in m ==> HasIdentity(defs, IdentityOf(e.resource))
  }

  /** Definitions have pairwise distinct identities, recorded objects too, and every
      recorded object has a matching definition. */
  ghost predicate Agrees(files: FileMap, defs: seq<Resource>) {
    GoodEntries(files) && Distinct(files) && DistinctIdentities(defs) && Indexed(files, defs)
  }

  ghost predicate Within(m: FileMap, n: FileMap) {
    forall e :: e in m ==> e in n
  }

  // ------------------------------------------------------- taking entries out

  lemma {:induction false} DistinctMeansPaths(m: FileMap)
    requires Distinct(m)
    ensures DistinctPaths(m)
  {
    forall i, j | 0 <= i < j < |m| ensures m[i].path != m[j].path { assert Separate(m[i], m[j]); }
  }

  lemma {:induction false} WithoutDistinct(m: FileMap, i: nat)
    requires i < |m| && Distinct(m)
    ensures Distinct(Without(m, i)) && Within(Without(m, i), m) && Apart([m[i]], Without(m, i))
  {
    var rest := Without(m, i);
    forall j, k | 0 <= j < k < |rest| ensures Separate(rest[j], rest[k]) {
      assert Separate(m[if j < i then j else j + 1], m[if k < i then k else k + 1]);
    }
    forall k | 0 <= k < |rest| ensures Separate(m[i], rest[k]) {
      if k < i { assert Separate(m[k], m[i]); } else { assert Separate(m[i], m[k + 1]); }
    }
  }

  lemma {:induction false} DistinctTail(m: FileMap)
    requires m != [] && Distinct(m)
    ensures Distinct(m[1..]) && Apart([m[0]], m[1..]) && Apart(m[1..], [m[0]])
  {
    assert Without(m, 0) == m[1..];
    WithoutDistinct(m, 0);
  }

  lemma {:induction false} DistinctCons(e: Entry, rest: FileMap)
    requires Distinct(rest) && Apart([e], rest)
    ensures Distinct([e] + rest)
  {
    var m := [e] + rest;
    forall j, k | 0 <= j < k < |m| ensures Separate(m[j], m[k]) {
      assert e in [e] && m[k] == rest[k - 1];
      if j > 0 { assert Separate(rest[j - 1], rest[k - 1]); }
    }
  }

  lemma {:induction false} SelectDistinct(m: FileMap, stem: string, resource: Resource)
    requires Distinct(m)
    ensures Distinct(Select(m, stem, resource, true)) && Distinct(Select(m, stem, resource, false))
    ensures Apart(Select(m, stem, resource, true), Select(m, stem, resource, false))
  {
    if m != [] {
      DistinctTail(m);
      SelectDistinct(m[1..], stem, resource);
      SelectSplits(m[1..], stem, resource);
      var a, r := Select(m[1..], stem, resource, true), Select(m[1..], stem, resource, false);
      assert Apart([m[0]], a) && Apart([m[0]], r) && Apart(a, [m[0]]);
      DistinctCons(m[0], a);
      DistinctCons(m[0], r);
    }
  }

  lemma {:induction false} TakeDistinct(files: FileMap, i: nat, defs: seq<Resource>)
    requires i < |files| && Distinct(files) && Take(files, i, defs).outcome.Found?
    ensures var r := Take(files, i, defs);
            var adjacent := r.outcome.adjacent;
            && Distinct(adjacent) && Distinct(r.files) && Apart(adjacent, r.files)
            && Apart([files[i]], adjacent) && Apart([files[i]], r.files)
            && Within(adjacent, files) && Within(r.files, files)
  {
    var rest, stem, res := Without(files, i), Stem(files[i].path).value, files[i].resource;
    WithoutDistinct(files, i);
    SelectSplits(rest, stem, res);
    SelectDistinct(rest, stem, res);
  }

  lemma {:induction false} IndexedMeansDefined(files: FileMap, defs: seq<Resource>)
    requires Indexed(files, defs) && files != []
    ensures defs != []
  {
    assert files[0] in files;
  }

  lemma {:induction false} PoppedIndexed(files: FileMap, defs: seq<Resource>, m: FileMap)
    requires Indexed(files, defs) && defs != [] && Within(m, files)
    requires forall e: Entry :: e in m ==> IdentityOf(e.resource) != IdentityOf(defs[|defs| - 1])
    ensures Indexed(m, Popped(defs))
  {
    forall e: Entry | e in m ensures HasIdentity(Popped(defs), IdentityOf(e.resource)) {
      var i :| 0 <= i < |defs| && IdentityOf(defs[i]) == IdentityOf(e.resource);
      assert Popped(defs)[i] == defs[i];
    }
  }

  /** What the search leaves agrees, and what it returns is apart from it. */
  ghost predicate TakenApart(taken: Retrieved, path: string) {
    && Agrees(taken.files, taken.defs)
    && !Has(taken.files, path)
    && (taken.outcome.Found? ==>
          var adjacent, hit := taken.outcome.adjacent, taken.outcome.resource;
          && GoodResource(hit) && GoodEntries(adjacent) && Distinct(adjacent) && Apart(adjacent, taken.files)
          && (forall e: Entry :: e in adjacent ==> e.path != path)
          && (forall e: Entry :: e in adjacent || e in taken.files ==> IdentityOf(e.resource) != IdentityOf(hit)))
    && (!taken.outcome.Found? ==> taken.files == [] && !taken.outcome.BadPath?)
  }

  lemma {:induction false} TakeApart(files: FileMap, i: nat, defs: seq<Resource>, left: seq<Resource>, path: string)
    requires Agrees(files, defs) && i < |files| && DistinctIdentities(left)
    requires Indexed(Without(files, i), left)
    requires forall e: Entry :: e in Without(files, i) ==> e.path != path
    ensures TakenApart(Take(files, i, left), path)
  {
    var e := files[i];
    assert GoodEntry(e);
    assert TruthyResource(e.resource) && Stem(e.path).Some?;
    var taken := Take(files, i, left);
    TakeDistinct(files, i, left);
    WithoutDistinct(files, i);
    SelectSplits(Without(files, i), Stem(e.path).value, e.resource);
    HasExactly(taken.files, path);
    forall f | f in taken.outcome.adjacent || f in taken.files
      ensures IdentityOf(f.resource) != IdentityOf(e.resource) {
      assert e in [e] && Separate(e, f);
    }
  }

  lemma {:induction false} RetrievalApart(files: FileMap, defs: seq<Resource>, path: string)
    requires Agrees(files, defs)
    ensures TakenApart(RetrieveLastCreatePath(files, defs, path), path)
  {
    HasExactly(files, path);
    if Has(files, path) {
      var i := IndexOf(files, path);
      WithoutDistinct(files, i);
      forall e: Entry | e in Without(files, i) ensures e.path != path {
        assert files[i] in [files[i]] && Separate(files[i], e);
      }
      TakeApart(files, i, defs, defs, path);
    } else if files != [] {
      IndexedMeansDefined(files, defs);
      var i := MatchingEntry(files, defs[|defs| - 1]);
      WithoutDistinct(files, i);
      forall e: Entry | e in Without(files, i)
        ensures e.path != path && IdentityOf(e.resource) != IdentityOf(defs[|defs| - 1]) {
        assert e in files;
        var k :| 0 <= k < |files| && files[k] == e;
        assert files[i] in [files[i]] && Separate(files[i], e);
      }
      PoppedIndexed(files, defs, Without(files, i));
      TakeApart(files, i, defs, Popped(defs), path);
    }
  }

  // ------------------------------------------------------ putting entries in

  lemma {:induction false} StoreKeepsIdentities(defs: seq<Resource>, d: Definition, id: Identity)
    requires IdentityStable(d)
    ensures HasIdentity(StoreDefinition(defs, d), id) <==> HasIdentity(defs, id) || id == IdentityOf(DictOf(d))
  {
    var n, own := StoreDefinition(defs, d), IdentityOf(DictOf(d));
    var at := FirstMatch(defs, own);
    assert IdentityOf(n[at]) == own;
    if i :| 0 <= i < |defs| && IdentityOf(defs[i]) == id { assert IdentityOf(n[i]) == id; }
    if i :| 0 <= i < |n| && IdentityOf(n[i]) == id && i != at { assert IdentityOf(defs[i]) == id; }
  }

  lemma {:induction false} PutDistinct(m: FileMap, path: string, r: Resource)
    requires Distinct(m)
    requires forall e: Entry :: e in m && e.path != path ==> IdentityOf(e.resource) != IdentityOf(r)
    ensures Distinct(Put(m, path, r))
    ensures forall e :: e in Put(m, path, r) ==> e in m || e == Entry(path, r)
    ensures forall e: Entry :: e in m && e.path != path ==> e in Put(m, path, r)
  {
    var n, at := Put(m, path, r), IndexOf(m, path);
    DistinctMeansPaths(m);
    forall j, k | 0 <= j < k < |n| ensures Separate(n[j], n[k]) {
      if j != at && k != at {
        assert Separate(m[j], m[k]);
      } else {
        var other := if j == at then k else j;
        assert n[other] == m[other] && m[other] in m;
        if at < |m| && other > at { assert Separate(m[at], m[other]); }
      }
    }
    forall e: Entry | e in m && e.path != path ensures e in n {
      var k :| 0 <= k < |m| && m[k] == e;
      assert n[k] == e;
    }
  }

  /** No other path holds an object of this identity. */
  ghost predicate OnlyAt(m: FileMap, path: string, id: Identity) {
    forall e: Entry :: e in m && e.path != path ==> IdentityOf(e.resource) != id
  }

  /** Storing a good object under a path keeps the agreement when no other path holds its identity. */
  lemma {:induction false} StoreResultAgrees(st: State, result: Resource, path: string)
    requires Agrees(st.files, st.defs) && GoodResource(result) && Stem(path).Some?
    requires OnlyAt(st.files, path, IdentityOf(result))
    ensures var s := StoreResult(st, result, path);
            && Agrees(s.st.files, s.st.defs)
            && (if s.error.Some? then s.st == st else s.st.files == Put(st.files, path, result))
  {
    var s := StoreResult(st, result, path);
    if s.error.None? {
      var d := Definition(LastSegment(result.kind.value), VersionOf(result).value, result.metadata.value, map[]);
      CleanDictFixed(result.metadata.value);
      CleanIdentity(DictOf(d));
      assert IdentityOf(DictOf(d)) == IdentityOf(result);
      assert CleanMetadata(result) == result;
      StoreKeepsDistinct(st.defs, d);
      PutDistinct(st.files, path, result);
      forall e: Entry | e in s.st.files ensures GoodEntry(e) && HasIdentity(s.st.defs, IdentityOf(e.resource)) {
        StoreKeepsIdentities(st.defs, d, IdentityOf(e.resource));
        assert e in st.files || e == Entry(path, result);
      }
    }
  }

  lemma {:induction false} StoreEntriesAgrees(st: State, entries: FileMap)
    requires Agrees(st.files, st.defs) && GoodEntries(entries) && Distinct(entries) && Apart(entries, st.files)
    ensures Agrees(StoreEntries(st, entries).st.files, StoreEntries(st, entries).st.defs)
    decreases |entries|
  {
    if entries != [] {
      var e := entries[0];
      assert e in entries && GoodEntry(e);
      forall f: Entry | f in st.files ensures Separate(e, f) {}
      StoreResultAgrees(st, e.resource, e.path);
      var s := StoreResult(st, e.resource, e.path);
      if s.error.None? {
        DistinctTail(entries);
        PutDistinct(st.files, e.path, e.resource);
        forall f: Entry, g: Entry | f in entries[1..] && g in s.st.files ensures Separate(f, g) {
          assert f in entries;
          if g == e { assert e in [e]; }
        }
        StoreEntriesAgrees(s.st, entries[1..]);
      }
    }
  }

  // --------------------------------------------------------------- deletion

  lemma {:induction false} RemovalKeepsDistinct(defs: seq<Resource>, kind: string, name: Json)
    requires DistinctIdentities(defs)
    ensures DistinctIdentities(RemoveSkipping(defs, kind, name).defs)
    ensures forall r :: r in RemoveSkipping(defs, kind, name).defs ==> r in defs
    decreases |defs|
  {
    var left := RemoveSkipping(defs, kind, name).defs;
    if defs == [] || (SameKind(defs[0], kind) && !Named(defs[0])) {
    } else {
      var n := if SameKindAndName(defs[0], kind, name) then 1 else 0;
      if n < |defs| {
        var head, rest := defs[n], defs[n + 1..];
        RemovalKeepsDistinct(rest, kind, name);
        var tail := RemoveSkipping(rest, kind, name).defs;
        assert left == [head] + tail;
        forall k | 0 <= k < |tail| ensures IdentityOf(head) != IdentityOf(tail[k]) {
          assert tail[k] in rest;
          var j :| 0 <= j < |rest| && rest[j] == tail[k];
          assert defs[n + 1 + j] == rest[j];
        }
      }
    }
  }

  lemma {:induction false} StoredTargetAgrees(env: Env, st: State, d: Definition, mapping: string)
    requires Agrees(st.files, st.defs) && st.files == [] && Constructed(d)
    ensures var r := StoredTarget(env, st, d, mapping);
            && Agrees(r.st.files, r.st.defs) && r.st.files == []
            && (r.target.Resolved? ==> r.target.adjacent == [] && Constructed(r.target.definition))
  {
    var choice := ChooseStored(env.resolver, st.defs, d, mapping);
    assert DistinctIdentities(Popped(st.defs));
    if choice.LookedUp? && "name" in choice.definition.metadata {
      RemovalKeepsDistinct(Popped(st.defs), choice.definition.kind, choice.definition.metadata["name"]);
    }
  }

  /** What a chosen target and the record left behind have to do with each other. */
  ghost predicate TargetApart(r: Resolution, path: string) {
    && Agrees(r.st.files, r.st.defs)
    && !Has(r.st.files, path)
    && (r.target.Resolved? ==>
          var adjacent, d := r.target.adjacent, r.target.definition;
          && Constructed(d) && GoodEntries(adjacent) && Distinct(adjacent) && Apart(adjacent, r.st.files)
          && (forall e: Entry :: e in adjacent ==> e.path != path)
          && (forall e: Entry :: e in adjacent || e in r.st.files ==> IdentityOf(e.resource) != IdentityOf(Stored(d))))
  }

  lemma {:induction false} TargetOfApart(env: Env, st: State, taken: Retrieved, d: Definition, mapping: string,
          path: string)
    requires TakenApart(taken, path) && st.files == taken.files && st.defs == taken.defs && Constructed(d)
    ensures TargetApart(TargetOf(env, st, taken.outcome, d, mapping), path)
  {
    if taken.outcome.Found? {
      var res := taken.outcome.resource;
      if EitherVersion(res).Some? {
        var d' := Definition(LastSegment(res.kind.value), EitherVersion(res).value, res.metadata.value, map[]);
        CleanDictFixed(res.metadata.value);
        CleanIdentity(DictOf(d'));
      }
    } else {
      StoredTargetAgrees(env, st, d, mapping);
    }
  }

  /** With agreement, the given or last stored definition is resorted to only when no file
      object is recorded at all. */
  lemma {:induction false} FallbackOnlyWhenEmpty(env: Env, st: State, path: string, d: Definition, mapping: string)
    requires Agrees(st.files, st.defs) && Constructed(d)
    ensures TargetApart(ResolveTarget(env, st, path, d, mapping), path)
    ensures var r := RetrieveLastCreatePath(st.files, st.defs, path);
            && (r.outcome.NoResource? || r.outcome.Nothing? ==> st.files == [])
            && (r.outcome.Found? ==> r.outcome.resource.kind.Some? && r.outcome.resource.metadata.Some?)
            && !r.outcome.BadPath?
  {
    var r := RetrieveLastCreatePath(st.files, st.defs, path);
    RetrievalApart(st.files, st.defs, path);
    RetrievalLength(st.files, st.defs, path);
    TargetOfApart(env, st.(files := r.files, defs := r.defs), r, d, mapping, path);
  }

  lemma {:induction false} PutBackAgrees(st: State, d: Definition, path: string, adjacent: FileMap)
    requires Agrees(st.files, st.defs) && !Has(st.files, path) && Stem(path).Some? && Constructed(d)
    requires GoodEntries(adjacent) && Distinct(adjacent) && Apart(adjacent, st.files)
    requires forall e: Entry :: e in adjacent ==> e.path != path
    requires forall e: Entry :: e in adjacent || e in st.files ==> IdentityOf(e.resource) != IdentityOf(Stored(d))
    ensures var r := PutBack(st, Stored(d), path, adjacent);
            Agrees(r.st.files, r.st.defs)
  {
    CleanResourceFixed(DictOf(d));
    assert GoodResource(Stored(d));
    StoreResultAgrees(st, Stored(d), path);
    var s := StoreResult(st, Stored(d), path);
    if s.error.None? {
      forall e: Entry, f: Entry | e in adjacent && f in s.st.files ensures Separate(e, f) {
        if f !in st.files { assert f == Entry(path, Stored(d)); }
      }
      StoreEntriesAgrees(s.st, adjacent);
    }
  }

  lemma {:induction false} DeleteTargetAgrees(env: Env, st: State, mapping: string, d: Definition,
          path: string, adjacent: FileMap)
    requires Agrees(st.files, st.defs) && !Has(st.files, path) && Stem(path).Some? && Constructed(d)
    requires GoodEntries(adjacent) && Distinct(adjacent) && Apart(adjacent, st.files)
    requires forall e: Entry :: e in adjacent ==> e.path != path
    requires forall e: Entry :: e in adjacent || e in st.files ==> IdentityOf(e.resource) != IdentityOf(Stored(d))
    ensures var r := DeleteTarget(env, st, mapping, d, path, adjacent);
            Agrees(r.st.files, r.st.defs)
  {
    if "name" in d.metadata {
      var r := DoDelete(env, st, mapping, d);
      DoDeleteFrame(env, st, mapping, d);
      if r.response.Got? {
        DeleteAndPrepareFrame(env, r.st, mapping, d, r.response.obj);
        PutBackAgrees(DeleteAndPrepare(env, r.st, mapping, d, r.response.obj).st, d, path, adjacent);
      }
    }
  }

  /** Deleting from an agreeing record leaves an agreeing record, for every sequence of API
      answers and however the deletion ends; when it ends normally it has only taken entries out. */
  lemma {:induction false} DeleteFileAgrees(env: Env, st: State, mapping: string, d: Definition, path: string)
    requires Agrees(st.files, st.defs) && Stem(path).Some? && Constructed(d)
    ensures var r := DeleteFile(env, st, mapping, d, path);
            && Agrees(r.st.files, r.st.defs)
            && (r.out.Done? ==> Within(r.st.files, st.files))
    decreases |st.files|, 0
  {
    var chosen := ResolveTarget(env, st, path, d, mapping);
    ResolveTargetFrame(env, st, path, d, mapping);
    ResolveTargetWithin(env, st, path, d, mapping);
    FallbackOnlyWhenEmpty(env, st, path, d, mapping);
    if chosen.target.Resolved? {
      var adjacent, target, m := chosen.target.adjacent, chosen.target.definition, chosen.target.mapping;
      var read := Read(env, chosen.st, m, target);
      assert read.st.files == chosen.st.files && read.st.defs == chosen.st.defs;
      if ReadingOf(read.response).Missing? && adjacent != [] {
        DeleteInnerAgrees(env, read.st, adjacent, target, path);
        var inner := DeleteInner(env, read.st, adjacent, target, path);
        if inner.out.Done? { StoreEntriesAgrees(inner.st, adjacent); }
      } else if ReadingOf(read.response).Readable? {
        DeleteTargetAgrees(env, read.st, m, target, path, adjacent);
        DeleteTargetFrame(env, read.st, m, target, path, adjacent);
        var deleted := DeleteTarget(env, read.st, m, target, path, adjacent);
        if deleted.out.Done? && adjacent != [] { StoreEntriesAgrees(deleted.st, adjacent); }
      }
    }
  }

  lemma {:induction false} ResolveTargetWithin(env: Env, st: State, path: string, d: Definition, mapping: string)
    ensures Within(ResolveTarget(env, st, path, d, mapping).st.files, st.files)
  {
    var r := RetrieveLastCreatePath(st.files, st.defs, path);
    TargetOfFrame(env, st.(files := r.files, defs := r.defs), r.outcome, d, mapping);
    RetrievalLength(st.files, st.defs, path);
    if r.outcome.Found? {
      var i := if Has(st.files, path) then IndexOf(st.files, path) else MatchingEntry(st.files, st.defs[|st.defs| - 1]);
      TakeSplits(st.files, i, if Has(st.files, path) then st.defs else Popped(st.defs));
    }
  }

  lemma {:induction false} DeleteInnerAgrees(env: Env, st: State, adjacent: FileMap, outer: Definition, path: string)
    requires Agrees(st.files, st.defs) && Stem(path).Some?
    ensures var r := DeleteInner(env, st, adjacent, outer, path);
            && Agrees(r.st.files, r.st.defs)
            && (r.out.Done? ==> Within(r.st.files, st.files))
    decreases |st.files|, |adjacent| + 1
  {
    if adjacent != [] {
      var inner, m := InnerDefinition(adjacent[0].resource), env.mappingByKind(outer);
      if inner.None? {
        DeleteInnerAgrees(env, st, adjacent[1..], outer, path);
      } else if m.Some? {
        DeleteFileAgrees(env, st, m.value, inner.value, path);
        var r := DeleteFile(env, st, m.value, inner.value, path);
        if r.out.Done? { DeleteInnerAgrees(env, r.st, adjacent[1..], outer, path); }
      }
    }
  }

  lemma {:induction false} LastPopped(defs: seq<Resource>)
    requires DistinctIdentities(defs) && defs != []
    ensures forall id :: HasIdentity(Popped(defs), id) <==> HasIdentity(defs, id) && id != IdentityOf(defs[|defs| - 1])
  {
    var before, last := Popped(defs), defs[|defs| - 1];
    forall id ensures HasIdentity(before, id) <==> HasIdentity(defs, id) && id != IdentityOf(last) {
      if i :| 0 <= i < |before| && IdentityOf(before[i]) == id { assert IdentityOf(defs[i]) == id; }
      if i :| 0 <= i < |defs| && IdentityOf(defs[i]) == id && id != IdentityOf(last) { assert before[i] == defs[i]; }
    }
  }

  /** When the path of the chosen object has no stem, the deletion fails and the object stays.
      Its definition, if the fallback chose it by one, has been popped in place by then: the
      agreement survives exactly when the object was chosen by its path, or the definition
      popped matches no recorded object at all. */
  lemma {:induction false} BadPathLosesDefinition(env: Env, st: State, path: string, d: Definition, mapping: string)
    requires DistinctIdentities(st.defs) && Indexed(st.files, st.defs)
    requires RetrieveLastCreatePath(st.files, st.defs, path).outcome.BadPath?
    ensures var r := DeleteFile(env, st, mapping, d, path);
            && r.out == Fail(ValueError) && r.st.files == st.files && r.st.live == st.live
            && (Indexed(r.st.files, r.st.defs) <==>
                  Has(st.files, path) || forall e: Entry :: e in st.files ==>
                    !MatchResource(st.defs[|st.defs| - 1], e.resource))
  {
    if !Has(st.files, path) {
      LastPopped(st.defs);
      hide IdentityOf;
    }
  }
}
