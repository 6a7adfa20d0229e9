/**
 * The ordered map from file path to API object, and the lookup that takes an object and
 * its adjacent objects out of it.
 */
module FileMaps {
  import opened Options
  import opened Definitions
  import opened Paths
  import opened Record

  datatype Entry = Entry(path: string, resource: Resource)

  /** Insertion order; every path occurs once. */
  type FileMap = seq<Entry>

  ghost predicate DistinctPaths(m: FileMap) {
    forall i, j :: 0 <= i < j < |m| ==> m[i].path != m[j].path
  }

  function IndexOf(m: FileMap, path: string): (i: nat)
    ensures i <= |m|
    ensures i < |m| ==> m[i].path == path
    ensures forall j :: 0 <= j < i ==> m[j].path != path
  {
    if m == [] || m[0].path == path then 0 else 1 + IndexOf(m[1..], path)
  }

  predicate Has(m: FileMap, path: string) {
    IndexOf(m, path) < |m|
  }

  function Lookup(m: FileMap, path: string): Option<Resource> {
    var i := IndexOf(m, path);
    if i < |m| then Some(m[i].resource) else None
  }

  /** `m[path] = r`: an existing key keeps its place. */
  function Put(m: FileMap, path: string, r: Resource): FileMap {
    var i := IndexOf(m, path);
    if i < |m| then m[i := Entry(path, r)] else m + [Entry(path, r)]
  }

  function Without(m: FileMap, i: nat): FileMap
    requires i < |m|
  {
    m[..i] + m[i + 1..]
  }

  function Drop(m: FileMap, path: string): FileMap {
    var i := IndexOf(m, path);
    if i < |m| then Without(m, i) else m
  }

  lemma {:induction false} HasExactly(m: FileMap, path: string)
    ensures Has(m, path) <==> exists i :: 0 <= i < |m| && m[i].path == path
  {
  }

  lemma {:induction false} LookupAfterPut(m: FileMap, path: string, r: Resource, q: string)
    ensures Lookup(Put(m, path, r), q) == if q == path then Some(r) else Lookup(m, q)
    ensures DistinctPaths(m) ==> DistinctPaths(Put(m, path, r))
  {
    var i, n := IndexOf(m, path), Put(m, path, r);
    if q == path {
      assert n[i].path == path;
    } else if Has(m, q) {
      var k := IndexOf(m, q);
      assert n[k] == m[k];
      assert forall j :: 0 <= j < k ==> n[j].path != q;
    } else {
      assert forall j :: 0 <= j < |n| ==> n[j].path != q;
    }
  }

  // --------------------------------------------------------------- adjacency

  predicate IsAdjacent(stem: string, resource: Resource, e: Entry) {
    Contains(e.path, stem) && !MatchResource(e.resource, resource)
  }

  /** The adjacent entries, or those that are not, in order. */
  function Select(m: FileMap, stem: string, resource: Resource, adjacent: bool): FileMap {
    if m == [] then []
    else if IsAdjacent(stem, resource, m[0]) == adjacent then [m[0]] + Select(m[1..], stem, resource, adjacent)
    else Select(m[1..], stem, resource, adjacent)
  }

  lemma {:induction false} SelectSplits(m: FileMap, stem: string, resource: Resource)
    ensures var a, r := Select(m, stem, resource, true), Select(m, stem, resource, false);
            && multiset(m) == multiset(a) + multiset(r) && |m| == |a| + |r|
            && (forall e :: e in a ==> e in m && IsAdjacent(stem, resource, e))
            && (forall e :: e in r ==> e in m && !IsAdjacent(stem, resource, e))
  {
    if m != [] {
      SelectSplits(m[1..], stem, resource);
      assert m == [m[0]] + m[1..];
    }
  }

  ghost predicate PathsApart(m: FileMap, n: FileMap) {
    forall e, f :: e in m && f in n ==> e.path != f.path
  }

  lemma {:induction false} DistinctPathsCons(e: Entry, rest: FileMap)
    requires DistinctPaths(rest) && PathsApart([e], rest)
    ensures DistinctPaths([e] + rest)
  {
    var m := [e] + rest;
    assert e in [e];
    forall i, j | 0 <= i < j < |m| ensures m[i].path != m[j].path {
      assert m[j] == rest[j - 1] && m[j] in rest;
    }
  }

  lemma {:induction false} SelectKeepsDistinct(m: FileMap, stem: string, resource: Resource)
    requires DistinctPaths(m)
    ensures DistinctPaths(Select(m, stem, resource, true)) && DistinctPaths(Select(m, stem, resource, false))
    ensures PathsApart(Select(m, stem, resource, true), Select(m, stem, resource, false))
  {
    if m != [] {
      var head, rest := m[0], m[1..];
      var a, r := Select(rest, stem, resource, true), Select(rest, stem, resource, false);
      SelectKeepsDistinct(rest, stem, resource);
      SelectSplits(rest, stem, resource);
      forall e: Entry | e in rest ensures e.path != head.path {
        var k :| 0 <= k < |rest| && rest[k] == e;
        assert m[k + 1] == e;
      }
      DistinctPathsCons(head, a);
      DistinctPathsCons(head, r);
    }
  }

  // --------------------------------------------------------------- retrieval

  datatype Retrieval =
    | NoResource
    | BadPath
    | Nothing
    | Found(path: string, resource: Resource, adjacent: FileMap)

  datatype Retrieved = Retrieved(outcome: Retrieval, files: FileMap, defs: seq<Resource>)

  /** The first entry a stored definition matches; the last entry when it matches none. */
  function MatchingEntry(m: FileMap, d: Resource): (i: nat)
    requires m != []
    ensures i < |m|
    ensures forall j :: 0 <= j < i ==> !MatchResource(d, m[j].resource)
    ensures MatchResource(d, m[i].resource) || i == |m| - 1
  {
    if |m| == 1 || MatchResource(d, m[0].resource) then 0 else 1 + MatchingEntry(m[1..], d)
  }

  function Take(files: FileMap, i: nat, defs: seq<Resource>): Retrieved
    requires i < |files|
  {
    var e := files[i];
    if !TruthyResource(e.resource) then Retrieved(Nothing, files, defs)
    else
      var stem := Stem(e.path);
      if stem.None? then Retrieved(BadPath, files, defs)
      else
        var rest := Without(files, i);
        Retrieved(Found(e.path, e.resource, Select(rest, stem.value, e.resource, true)),
                  Select(rest, stem.value, e.resource, false), defs)
  }

  /** `retrieve_last_create_path(path, delete=True)`. */
  function RetrieveLastCreatePath(files: FileMap, defs: seq<Resource>, path: string): Retrieved {
    if Has(files, path) then Take(files, IndexOf(files, path), defs)
    else if defs == [] then Retrieved(NoResource, files, defs)
    else if files == [] then Retrieved(Nothing, files, Popped(defs))
    else Take(files, MatchingEntry(files, defs[|defs| - 1]), Popped(defs))
  }

  /** `retrieve_last_create_path(path, delete=False)`: the same search, nothing taken out. */
  function PeekLastCreatePath(files: FileMap, defs: seq<Resource>, path: string): Retrieval {
    if Has(files, path) then Found(path, Lookup(files, path).value, [])
    else if defs == [] then NoResource
    else if files == [] then Nothing
    else
      var e := files[MatchingEntry(files, defs[|defs| - 1])];
      if !TruthyResource(e.resource) then Nothing
      else if Stem(e.path).None? then BadPath
      else Found(e.path, e.resource, Select(files, Stem(e.path).value, e.resource, true))
  }

  lemma {:induction false} WithoutSplits(files: FileMap, i: nat)
    requires i < |files|
    ensures multiset(files) == multiset{files[i]} + multiset(Without(files, i))
    ensures DistinctPaths(files) ==> DistinctPaths(Without(files, i))
    ensures forall e :: e in Without(files, i) ==> e in files
    ensures DistinctPaths(files) ==> forall e: Entry :: e in Without(files, i) ==> e.path != files[i].path
  {
    assert files == files[..i] + [files[i]] + files[i + 1..];
  }

  /** What a successful retrieval has taken from the map, entry by entry. */
  lemma {:induction false} TakeSplits(files: FileMap, i: nat, defs: seq<Resource>)
    requires i < |files| && Take(files, i, defs).outcome.Found?
    ensures var r := Take(files, i, defs);
            var adjacent, stem := r.outcome.adjacent, Stem(files[i].path);
            && Entry(r.outcome.path, r.outcome.resource) == files[i] && r.defs == defs
            && TruthyResource(files[i].resource)
            && multiset(files) == multiset{files[i]} + multiset(adjacent) + multiset(r.files)
            && |files| == 1 + |adjacent| + |r.files|
            && stem.Some?
            && (forall e :: e in adjacent ==> e in files && IsAdjacent(stem.value, files[i].resource, e))
            && (forall e :: e in r.files ==> e in files && !IsAdjacent(stem.value, files[i].resource, e))
  {
    WithoutSplits(files, i);
    SelectSplits(Without(files, i), Stem(files[i].path).value, files[i].resource);
  }

  lemma {:induction false} RetrievalLength(files: FileMap, defs: seq<Resource>, path: string)
    ensures var r := RetrieveLastCreatePath(files, defs, path);
            if r.outcome.Found? then |files| == 1 + |r.outcome.adjacent| + |r.files| else r.files == files
  {
    var r := RetrieveLastCreatePath(files, defs, path);
    if r.outcome.Found? {
      var i := if Has(files, path) then IndexOf(files, path) else MatchingEntry(files, defs[|defs| - 1]);
      TakeSplits(files, i, if Has(files, path) then defs else Popped(defs));
    }
  }

  lemma {:induction false} TakeKeepsDistinct(files: FileMap, i: nat, defs: seq<Resource>)
    requires i < |files| && Take(files, i, defs).outcome.Found? && DistinctPaths(files)
    ensures var r := Take(files, i, defs);
            var adjacent := r.outcome.adjacent;
            && DistinctPaths(adjacent) && DistinctPaths(r.files) && PathsApart(adjacent, r.files)
            && PathsApart([files[i]], adjacent) && PathsApart([files[i]], r.files)
  {
    var rest, stem, res := Without(files, i), Stem(files[i].path).value, files[i].resource;
    WithoutSplits(files, i);
    SelectSplits(rest, stem, res);
    SelectKeepsDistinct(rest, stem, res);
  }

  /** A retrieval that finds something splits the map exactly into the entry returned, its
      adjacent entries and the rest, with pairwise different paths; the definitions are
      untouched on a path hit and lose exactly their last entry on the fallback. */
  lemma {:induction false} RetrievalSplits(files: FileMap, defs: seq<Resource>, path: string)
    requires DistinctPaths(files)
    requires RetrieveLastCreatePath(files, defs, path).outcome.Found?
    ensures var r := RetrieveLastCreatePath(files, defs, path);
            var hit := Entry(r.outcome.path, r.outcome.resource);
            var adjacent := r.outcome.adjacent;
            && multiset(files) == multiset{hit} + multiset(adjacent) + multiset(r.files)
            && DistinctPaths(adjacent) && DistinctPaths(r.files) && PathsApart(adjacent, r.files)
            && PathsApart([hit], adjacent) && PathsApart([hit], r.files)
            && Stem(hit.path).Some?
            && (forall e: Entry :: e in files && e != hit ==>
                  (e in adjacent <==>
                   Contains(e.path, Stem(hit.path).value) && IdentityOf(e.resource) != IdentityOf(hit.resource)))
            && (if Has(files, path) then hit.path == path && r.defs == defs
                else defs != [] && r.defs == defs[..|defs| - 1]
                     && ((exists e :: e in files && MatchResource(defs[|defs| - 1], e.resource)) ==>
                           MatchResource(defs[|defs| - 1], hit.resource)))
  {
    var i := if Has(files, path) then IndexOf(files, path) else MatchingEntry(files, defs[|defs| - 1]);
    var left := if Has(files, path) then defs else Popped(defs);
    TakeSplits(files, i, left);
    TakeKeepsDistinct(files, i, left);
    var r := Take(files, i, left);
    var hit, adjacent := Entry(r.outcome.path, r.outcome.resource), r.outcome.adjacent;
    forall e: Entry | e in files && e != hit ensures e in adjacent || e in r.files {
      assert e in multiset(files) && e !in multiset{hit};
    }
  }

  lemma {:induction false} SelectConcat(m: FileMap, n: FileMap, stem: string, resource: Resource, adjacent: bool)
    ensures Select(m + n, stem, resource, adjacent) == Select(m, stem, resource, adjacent) +
        Select(n, stem, resource, adjacent)
  {
    if m == [] {
      assert m + n == n;
    } else {
      assert (m + n)[0] == m[0] && (m + n)[1..] == m[1..] + n;
      SelectConcat(m[1..], n, stem, resource, adjacent);
    }
  }

  /** When the path is not recorded, looking without deleting finds exactly what deleting
      would take, adjacent entries included. */
  lemma {:induction false} PeekFindsWhatIsTaken(files: FileMap, defs: seq<Resource>, path: string)
    requires !Has(files, path)
    ensures PeekLastCreatePath(files, defs, path) == RetrieveLastCreatePath(files, defs, path).outcome
  {
    if defs != [] && files != [] {
      var i := MatchingEntry(files, defs[|defs| - 1]);
      var e := files[i];
      if Stem(e.path).Some? {
        var stem := Stem(e.path).value;
        assert files == files[..i] + ([e] + files[i + 1..]);
        SelectConcat(files[..i], [e] + files[i + 1..], stem, e.resource, true);
        SelectConcat([e], files[i + 1..], stem, e.resource, true);
        SelectConcat(files[..i], files[i + 1..], stem, e.resource, true);
        assert Select([e], stem, e.resource, true) == [];
      }
    }
  }
}
