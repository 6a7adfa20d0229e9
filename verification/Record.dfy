/**
 * The record a node instance keeps of what it created: the ordered map from file path to
 * API object (`kubernetes`), and the list of resource definitions.
 */
module Record {
  import opened Options
  import opened JsonValues
  import opened Definitions

  datatype Error =
    | NonRecoverableError
    | RecoverableError
    | ApiOperationError
    | MappingNotFoundError
    | InvalidDefinitionError
    | KeyError
    | ValueError
    | TypeError
    | BadStatusError

  /** A `KubernetesResourceDefinition` as the tasks use it: `rest` is what `to_dict` prints
      besides kind, apiVersion and metadata. */
  datatype Definition = Definition(kind: string, apiVersion: string, metadata: Dict, rest: Dict)

  /** A kind without dots is what the constructor leaves. */
  predicate Constructed(d: Definition) {
    '.' !in d.kind
  }

  function DictOf(d: Definition): Resource {
    Resource(Some(d.kind), Some(d.apiVersion), None, Some(d.metadata), d.rest)
  }

  function CleanMetadata(r: Resource): Resource {
    if r.metadata.Some? then r.(metadata := Some(CleanDict(r.metadata.value))) else r
  }

  function CleanResource(r: Resource): Resource {
    CleanMetadata(r).(body := CleanDict(r.body))
  }

  predicate CleanedResource(r: Resource) {
    (r.metadata.Some? ==> CleanedDict(r.metadata.value)) && CleanedDict(r.body)
  }

  lemma {:induction false} CleanResourceFixed(r: Resource)
    ensures CleanedResource(CleanResource(r))
    ensures CleanedResource(r) ==> CleanResource(r) == r
  {
    CleanDictFixed(r.body);
    if r.metadata.Some? { CleanDictFixed(r.metadata.value); }
  }

  predicate TruthyResource(r: Resource) {
    r != Resource(None, None, None, None, map[])
  }

  /** An object counts as there when it has any key at all. */
  lemma {:induction false} TruthyWithAnyKey(r: Resource)
    ensures TruthyResource(r) <==>
            r.kind.Some? || r.apiVersion.Some? || r.snakeVersion.Some? || r.metadata.Some? || exists k :: k in r.body
  {
    assert r.body == map[] <==> r.body.Keys == {};
  }

  lemma {:induction false} CleanTruthy(r: Resource)
    ensures TruthyResource(CleanResource(r)) <==> TruthyResource(r)
  {
    if r.body != map[] { var k :| k in r.body; assert k in CleanDict(r.body); }
  }

  /** `JsonCleanuper(definition).to_dict()`. */
  function Stored(d: Definition): Resource {
    CleanResource(DictOf(d))
  }

  /** `KubernetesResourceDefinition(**stored)`. */
  function Rebuilt(r: Resource): Option<Definition> {
    if r.kind.None? || r.apiVersion.None? || r.metadata.None? then None
    else Some(Definition(LastSegment(r.kind.value),
                         if r.snakeVersion.Some? then r.snakeVersion.value else r.apiVersion.value,
                         r.metadata.value, r.body))
  }

  /** The dict of this definition is that of the instance the constructor makes. */
  ghost predicate ConstructedFrom(d: Definition, r: Resource) {
    Construct(NAMING, r).Some? && ToDict(NAMING, Construct(NAMING, r).value) == DictOf(d)
  }

  lemma {:induction false} ConstructedPrints(naming: Naming, r: Resource)
    requires naming.Injective() && ReadsBack(naming, r.body)
    ensures Rebuilt(r).Some? <==> Construct(naming, r).Some?
    ensures Rebuilt(r).Some? ==> ToDict(naming, Construct(naming, r).value) == DictOf(Rebuilt(r).value)
  {
    PrintsBack(naming, r.body);
    hide PrintAttributes, ReadAttributes, ReadsBack, LastSegment;
  }

  /** With such names, `Rebuilt` prints what the constructor makes of a stored dict. */
  lemma {:induction false} RebuiltIsConstructed(r: Resource)
    requires ReadsBack(NAMING, r.body)
    ensures Rebuilt(r).Some? <==> Construct(NAMING, r).Some?
    ensures Rebuilt(r).Some? ==> ConstructedFrom(Rebuilt(r).value, r)
  {
    hide Construct, ToDict, Rebuilt, DictOf, ReadsBack;
    NamingInjective();
    ConstructedPrints(NAMING, r);
  }

  // ---------------------------------------------------------------- identity

  datatype Identity = Identity(name: Json, kind: Option<string>, namespace: Json)

  /** `metadata.get('namespace', 'default')`. */
  function NamespaceIn(metadata: Option<Dict>): Json {
    if metadata.Some? && "namespace" in metadata.value then metadata.value["namespace"] else Str("default")
  }

  function IdentityOf(r: Resource): Identity {
    Identity(NameIn(r.metadata), r.kind, NamespaceIn(r.metadata))
  }

  /** `match_resource`. */
  predicate MatchResource(left: Resource, right: Resource) {
    IdentityOf(left) == IdentityOf(right)
  }

  /** Two resources match exactly when name, kind and namespace are the same; where the metadata
      gives none, the namespace is `default`. */
  lemma {:induction false} MatchExactly(left: Resource, right: Resource)
    requires left.metadata.Some? && right.metadata.Some?
    ensures var l, r := left.metadata.value, right.metadata.value;
            MatchResource(left, right) <==>
            && left.kind == right.kind && (if "name" in l then l["name"] else Null) ==
               (if "name" in r then r["name"] else Null)
            && (if "namespace" in l && "namespace" in r then l["namespace"] == r["namespace"]
                else if "namespace" in l then l["namespace"] == Str("default")
                else "namespace" in r ==> r["namespace"] == Str("default"))
  {
  }

  lemma {:induction false} CleanIdentity(r: Resource)
    ensures IdentityOf(CleanResource(r)) == Identity(Clean(NameIn(r.metadata)), r.kind, Clean(NamespaceIn(r.metadata)))
    ensures IdentityOf(CleanMetadata(r)) == IdentityOf(CleanResource(r))
    ensures CleanedResource(r) ==> IdentityOf(CleanResource(r)) == IdentityOf(r)
  {
    CleanResourceFixed(r);
  }

  // ------------------------------------------------------- definition list

  /** The first entry with this identity, or the length of the list. */
  function FirstMatch(defs: seq<Resource>, id: Identity): (i: nat)
    ensures i <= |defs|
    ensures i < |defs| ==> IdentityOf(defs[i]) == id
    ensures forall j :: 0 <= j < i ==> IdentityOf(defs[j]) != id
  {
    if defs == [] || IdentityOf(defs[0]) == id then 0 else 1 + FirstMatch(defs[1..], id)
  }

  /** What `store_resource_definition` leaves: a match is replaced where it stands. */
  function StoreDefinition(defs: seq<Resource>, d: Definition): seq<Resource> {
    var i := FirstMatch(defs, IdentityOf(DictOf(d)));
    if i < |defs| then defs[i := Stored(d)] else defs + [Stored(d)]
  }

  ghost predicate DistinctIdentities(defs: seq<Resource>) {
    forall i, j :: 0 <= i < j < |defs| ==> IdentityOf(defs[i]) != IdentityOf(defs[j])
  }

  /** Cleaning does not change what the definition is matched by. */
  predicate IdentityStable(d: Definition) {
    IdentityOf(Stored(d)) == IdentityOf(DictOf(d))
  }

  lemma {:induction false} StoreKeepsDistinct(defs: seq<Resource>, d: Definition)
    requires DistinctIdentities(defs) && IdentityStable(d)
    ensures DistinctIdentities(StoreDefinition(defs, d))
  {
  }

  function StoreAllDefinitions(ds: seq<Definition>): seq<Resource> {
    if ds == [] then [] else StoreDefinition(StoreAllDefinitions(ds[..|ds| - 1]), ds[|ds| - 1])
  }

  /** The reference: identities in the order of their first definition... */
  function FirstIdentities(ds: seq<Definition>): seq<Identity> {
    if ds == [] then []
    else
      var before, id := FirstIdentities(ds[..|ds| - 1]), IdentityOf(DictOf(ds[|ds| - 1]));
      if id in before then before else before + [id]
  }

  /** ... each with its last definition. */
  function LastWith(ds: seq<Definition>, id: Identity): (d: Definition)
    requires exists i :: 0 <= i < |ds| && IdentityOf(DictOf(ds[i])) == id
    ensures d in ds && IdentityOf(DictOf(d)) == id
  {
    if IdentityOf(DictOf(ds[|ds| - 1])) == id then ds[|ds| - 1] else LastWith(ds[..|ds| - 1], id)
  }

  lemma {:induction false} FirstIdentitiesDefined(ds: seq<Definition>, id: Identity)
    ensures id in FirstIdentities(ds) <==> exists i :: 0 <= i < |ds| && IdentityOf(DictOf(ds[i])) == id
  {
    if ds != [] {
      var n := |ds| - 1;
      FirstIdentitiesDefined(ds[..n], id);
      if id in FirstIdentities(ds[..n]) {
        var i :| 0 <= i < n && IdentityOf(DictOf(ds[..n][i])) == id;
        assert IdentityOf(DictOf(ds[i])) == id;
      }
      if i :| 0 <= i < |ds| && IdentityOf(DictOf(ds[i])) == id && i < n {
        assert IdentityOf(DictOf(ds[..n][i])) == id;
      }
    }
  }

  /** Under any sequence of stores from the empty list, the list is a map keyed by identity
      in first-insertion order: one entry for each identity ever stored, holding the last
      definition stored under it. */
  lemma {:induction false} DefinitionsRefineMap(ds: seq<Definition>)
    requires forall d :: d in ds ==> IdentityStable(d)
    ensures var ids, defs := FirstIdentities(ds), StoreAllDefinitions(ds);
            && |defs| == |ids|
            && (forall i, j :: 0 <= i < j < |ids| ==> ids[i] != ids[j])
            && (forall i :: 0 <= i < |ids| ==>
                  (exists k :: 0 <= k < |ds| && IdentityOf(DictOf(ds[k])) == ids[i])
                  && IdentityOf(defs[i]) == ids[i] && defs[i] == Stored(LastWith(ds, ids[i])))
  {
    if ds != [] {
      var n := |ds| - 1;
      var init, d := ds[..n], ds[n];
      var id := IdentityOf(DictOf(d));
      DefinitionsRefineMap(init);
      var ids, defs := FirstIdentities(init), StoreAllDefinitions(init);
      var ids', defs' := FirstIdentities(ds), StoreAllDefinitions(ds);
      forall i | 0 <= i < |ids'|
        ensures exists k :: 0 <= k < |ds| && IdentityOf(DictOf(ds[k])) == ids'[i]
      {
        FirstIdentitiesDefined(ds, ids'[i]);
      }
      assert d in ds;
      var at := FirstMatch(defs, id);
      if at < |defs| { assert ids[at] == id; } else { assert id !in ids; }
      forall i | 0 <= i < |ids'|
        ensures IdentityOf(defs'[i]) == ids'[i] && defs'[i] == Stored(LastWith(ds, ids'[i]))
      {
        if i < |ids| && ids[i] != id {
          assert LastWith(ds, ids[i]) == LastWith(init, ids[i]);
        }
      }
    }
  }

  /** A definition whose metadata comes from a cleaned response or from the record. */
  lemma {:induction false} CleanedIsStable(d: Definition)
    requires CleanedDict(d.metadata)
    ensures IdentityStable(d)
  {
    CleanDictFixed(d.metadata);
    CleanIdentity(DictOf(d));
  }

  /** Storing a definition once more, as the first store has left it, adds no entry; a
      stable one leaves the list as it is. */
  lemma {:induction false} StoredAgainMatches(defs: seq<Resource>, d: Definition)
    ensures var once := StoreDefinition(defs, d);
            && |StoreDefinition(once, Tidied(d))| == |once|
            && (IdentityStable(d) ==> StoreDefinition(once, Tidied(d)) == once)
  {
    var once := StoreDefinition(defs, d);
    var at := FirstMatch(defs, IdentityOf(DictOf(d)));
    TidiedStored(d);
    CleanIdentity(DictOf(d));
    assert once[at] == Stored(d);
    assert IdentityOf(DictOf(Tidied(d))) == IdentityOf(Stored(d));
    assert FirstMatch(once, IdentityOf(Stored(d))) <= at;
    if IdentityStable(d) {
      forall j | 0 <= j < at ensures IdentityOf(once[j]) != IdentityOf(Stored(d)) { assert once[j] == defs[j]; }
    }
  }

  // --------------------------------------------- removal while iterating

  predicate SameKind(r: Resource, kind: string) {
    r.kind == Some(kind)
  }

  /** `list_item['metadata']['name']` exists. */
  predicate Named(r: Resource) {
    r.metadata.Some? && "name" in r.metadata.value
  }

  predicate SameKindAndName(r: Resource, kind: string, name: Json) {
    SameKind(r, kind) && Named(r) && r.metadata.value["name"] == name
  }

  /** The list left behind, and whether every name that was looked at existed. */
  datatype Removal = Removal(defs: seq<Resource>, ok: bool)

  /** What deleting from the list being iterated does: the entry after a deleted one moves
      into its place and is never looked at. */
  function RemoveSkipping(defs: seq<Resource>, kind: string, name: Json): Removal {
    if defs == [] then Removal([], true)
    else if SameKind(defs[0], kind) && !Named(defs[0]) then Removal(defs, false)
    else if SameKindAndName(defs[0], kind, name) then
      if |defs| == 1 then Removal([], true)
      else
        var r := RemoveSkipping(defs[2..], kind, name);
        Removal([defs[1]] + r.defs, r.ok)
    else
      var r := RemoveSkipping(defs[1..], kind, name);
      Removal([defs[0]] + r.defs, r.ok)
  }

  /** The same by index: the loop from position `c` on, deleting at the position it is at. */
  function RemoveFrom(defs: seq<Resource>, c: nat, kind: string, name: Json): Removal
    decreases |defs| - c
  {
    if c >= |defs| then Removal(defs, true)
    else if SameKind(defs[c], kind) && !Named(defs[c]) then Removal(defs, false)
    else if SameKindAndName(defs[c], kind, name) then RemoveFrom(defs[..c] + defs[c + 1..], c + 1, kind, name)
    else RemoveFrom(defs, c + 1, kind, name)
  }

  lemma {:induction false} RemoveSkippingCons(item: Resource, rest: seq<Resource>, kind: string, name: Json)
    requires !(SameKind(item, kind) && !Named(item))
    ensures RemoveSkipping([item] + rest, kind, name) ==
            if !SameKindAndName(item, kind, name) then
              var r := RemoveSkipping(rest, kind, name); Removal([item] + r.defs, r.ok)
            else if rest == [] then Removal([], true)
            else var r := RemoveSkipping(rest[1..], kind, name); Removal([rest[0]] + r.defs, r.ok)
  {
    var defs := [item] + rest;
    assert defs[1..] == rest;
    if rest != [] { assert defs[2..] == rest[1..]; }
  }

  /** The loop from position `c` on leaves what comes before it and skips through the rest. */
  ghost predicate SkipsFrom(defs: seq<Resource>, c: nat, kind: string, name: Json)
    requires c <= |defs|
  {
    var r := RemoveSkipping(defs[c..], kind, name);
    RemoveFrom(defs, c, kind, name) == Removal(defs[..c] + r.defs, r.ok)
  }

  lemma {:induction false} SkipsPastOther(defs: seq<Resource>, c: nat, kind: string, name: Json)
    requires c < |defs| && !(SameKind(defs[c], kind) && !Named(defs[c])) && !SameKindAndName(defs[c], kind, name)
    requires SkipsFrom(defs, c + 1, kind, name)
    ensures SkipsFrom(defs, c, kind, name)
  {
    assert defs[c..] == [defs[c]] + defs[c + 1..] && defs[..c + 1] == defs[..c] + [defs[c]];
    RemoveSkippingCons(defs[c], defs[c + 1..], kind, name);
    Reassociate(defs[..c], defs[c], RemoveSkipping(defs[c + 1..], kind, name).defs);
  }

  lemma {:induction false} SkipsPastMatch(defs: seq<Resource>, c: nat, kind: string, name: Json)
    requires c < |defs| - 1 && SameKindAndName(defs[c], kind, name)
    requires SkipsFrom(defs[..c] + defs[c + 1..], c + 1, kind, name)
    ensures SkipsFrom(defs, c, kind, name)
  {
    var head, rest := defs[..c], defs[c + 1..];
    var left := head + rest;
    assert defs[c..] == [defs[c]] + rest;
    assert left[c + 1..] == rest[1..] && left[..c + 1] == head + [rest[0]];
    RemoveSkippingCons(defs[c], rest, kind, name);
    Reassociate(head, rest[0], RemoveSkipping(rest[1..], kind, name).defs);
  }

  lemma {:induction false} SkipsLast(defs: seq<Resource>, c: nat, kind: string, name: Json)
    requires c == |defs| || (c < |defs| && SameKind(defs[c], kind) && !Named(defs[c]))
             || (c == |defs| - 1 && SameKindAndName(defs[c], kind, name))
    ensures SkipsFrom(defs, c, kind, name)
  {
    assert defs[..c] + defs[c..] == defs;
    if c < |defs| { assert defs[c..][0] == defs[c] && defs[..c] + defs[c + 1..] + [] == defs[..c] + defs[c + 1..]; }
  }

  lemma {:induction false} RemoveFromSkips(defs: seq<Resource>, c: nat, kind: string, name: Json)
    requires c <= |defs|
    ensures SkipsFrom(defs, c, kind, name)
    decreases |defs| - c
  {
    hide SkipsFrom;
    if c == |defs| || (SameKind(defs[c], kind) && !Named(defs[c])) {
      SkipsLast(defs, c, kind, name);
    } else if !SameKindAndName(defs[c], kind, name) {
      RemoveFromSkips(defs, c + 1, kind, name);
      SkipsPastOther(defs, c, kind, name);
    } else if c == |defs| - 1 {
      SkipsLast(defs, c, kind, name);
    } else {
      RemoveFromSkips(defs[..c] + defs[c + 1..], c + 1, kind, name);
      SkipsPastMatch(defs, c, kind, name);
    }
  }

  lemma {:induction false} Reassociate(a: seq<Resource>, x: Resource, b: seq<Resource>)
    ensures a + [x] + b == a + ([x] + b)
  {
  }

  function Filter(defs: seq<Resource>, kind: string, name: Json): seq<Resource> {
    if defs == [] then []
    else if SameKindAndName(defs[0], kind, name) then Filter(defs[1..], kind, name)
    else [defs[0]] + Filter(defs[1..], kind, name)
  }

  ghost predicate NoNeighbours(defs: seq<Resource>, kind: string, name: Json) {
    forall i :: 0 <= i < |defs| - 1 ==>
      !(SameKindAndName(defs[i], kind, name) && SameKindAndName(defs[i + 1], kind, name))
  }

  ghost predicate AllNamed(defs: seq<Resource>, kind: string) {
    forall r :: r in defs && SameKind(r, kind) ==> Named(r)
  }

  lemma {:induction false} RemovalLength(defs: seq<Resource>, kind: string, name: Json)
    ensures |Filter(defs, kind, name)| <= |RemoveSkipping(defs, kind, name).defs| <= |defs|
    ensures |Filter(defs, kind, name)| <= |defs|
    decreases |defs|
  {
    if defs != [] {
      RemovalLength(defs[1..], kind, name);
      if |defs| > 1 {
        RemovalLength(defs[2..], kind, name);
        assert defs[1..][1..] == defs[2..];
        assert defs[1..][0] == defs[1];
      }
    }
  }

  /** The removal filters out every entry of that kind and name exactly when no two
      neighbours both are. */
  lemma {:induction false} RemovalIsFilter(defs: seq<Resource>, kind: string, name: Json)
    requires AllNamed(defs, kind)
    ensures RemoveSkipping(defs, kind, name).ok
    ensures RemoveSkipping(defs, kind, name).defs == Filter(defs, kind, name) <==> NoNeighbours(defs, kind, name)
    decreases |defs|
  {
    if defs == [] {
    } else if SameKindAndName(defs[0], kind, name) && |defs| > 1 {
      var rest := defs[2..];
      assert defs[1..][1..] == rest && defs[1..][0] == defs[1];
      RemovalIsFilter(rest, kind, name);
      RemovalLength(rest, kind, name);
      if SameKindAndName(defs[1], kind, name) {
        assert Filter(defs, kind, name) == Filter(rest, kind, name);
        assert !NoNeighbours(defs, kind, name) by { assert SameKindAndName(defs[0 + 1], kind, name); }
      } else {
        var kept, left := Filter(rest, kind, name), RemoveSkipping(rest, kind, name).defs;
        assert Filter(defs, kind, name) == [defs[1]] + kept;
        assert ([defs[1]] + kept)[1..] == kept && ([defs[1]] + left)[1..] == left;
        NeighboursAfterOther(defs[1..], kind, name);
        NeighboursTail(defs, kind, name);
      }
    } else if !SameKindAndName(defs[0], kind, name) {
      var rest := defs[1..];
      RemovalIsFilter(rest, kind, name);
      var kept, left := Filter(rest, kind, name), RemoveSkipping(rest, kind, name).defs;
      assert ([defs[0]] + kept)[1..] == kept && ([defs[0]] + left)[1..] == left;
      assert defs[0] in defs;
      NeighboursAfterOther(defs, kind, name);
    }
  }

  lemma {:induction false} NeighboursAfterOther(defs: seq<Resource>, kind: string, name: Json)
    requires defs != [] && !SameKindAndName(defs[0], kind, name)
    ensures NoNeighbours(defs, kind, name) <==> NoNeighbours(defs[1..], kind, name)
  {
    if NoNeighbours(defs[1..], kind, name) {
      forall i | 0 <= i < |defs| - 1
        ensures !(SameKindAndName(defs[i], kind, name) && SameKindAndName(defs[i + 1], kind, name))
      {
        if i > 0 { assert defs[i] == defs[1..][i - 1] && defs[i + 1] == defs[1..][i - 1 + 1]; }
      }
    }
    if NoNeighbours(defs, kind, name) {
      forall i | 0 <= i < |defs[1..]| - 1
        ensures !(SameKindAndName(defs[1..][i], kind, name) && SameKindAndName(defs[1..][i + 1], kind, name))
      {
        assert defs[1..][i] == defs[i + 1] && defs[1..][i + 1] == defs[i + 1 + 1];
      }
    }
  }

  lemma {:induction false} NeighboursTail(defs: seq<Resource>, kind: string, name: Json)
    requires |defs| > 1 && !SameKindAndName(defs[1], kind, name)
    ensures NoNeighbours(defs, kind, name) <==> NoNeighbours(defs[1..], kind, name)
  {
    if NoNeighbours(defs[1..], kind, name) {
      forall i | 0 <= i < |defs| - 1
        ensures !(SameKindAndName(defs[i], kind, name) && SameKindAndName(defs[i + 1], kind, name))
      {
        if i > 0 { assert defs[i] == defs[1..][i - 1] && defs[i + 1] == defs[1..][i - 1 + 1]; }
      }
    }
    if NoNeighbours(defs, kind, name) {
      forall i | 0 <= i < |defs[1..]| - 1
        ensures !(SameKindAndName(defs[1..][i], kind, name) && SameKindAndName(defs[1..][i + 1], kind, name))
      {
        assert defs[1..][i] == defs[i + 1] && defs[1..][i + 1] == defs[i + 1 + 1];
      }
    }
  }

  /** `left` is what remains of `defs`, in order, once some entries of this kind and name are dropped. */
  ghost predicate DroppedSome(defs: seq<Resource>, left: seq<Resource>, kind: string, name: Json) {
    if defs == [] then left == []
    else (
      || (left != [] && left[0] == defs[0] && DroppedSome(defs[1..], left[1..], kind, name))
      || (SameKindAndName(defs[0], kind, name) && DroppedSome(defs[1..], left, kind, name)))
  }

  lemma {:induction false} NothingDropped(defs: seq<Resource>, kind: string, name: Json)
    ensures DroppedSome(defs, defs, kind, name)
  {
    if defs != [] { NothingDropped(defs[1..], kind, name); }
  }

  /** Whatever the neighbours, only entries of that kind and name go and order is kept. */
  lemma {:induction false} RemovalDropsOnlyMatches(defs: seq<Resource>, kind: string, name: Json)
    ensures DroppedSome(defs, RemoveSkipping(defs, kind, name).defs, kind, name)
    decreases |defs|
  {
    var left := RemoveSkipping(defs, kind, name).defs;
    if defs == [] {
    } else if SameKind(defs[0], kind) && !Named(defs[0]) {
      NothingDropped(defs, kind, name);
    } else if SameKindAndName(defs[0], kind, name) {
      if |defs| > 1 {
        RemovalDropsOnlyMatches(defs[2..], kind, name);
        assert defs[1..][1..] == defs[2..];
        assert left[1..] == RemoveSkipping(defs[2..], kind, name).defs;
      }
    } else {
      RemovalDropsOnlyMatches(defs[1..], kind, name);
      assert left[1..] == RemoveSkipping(defs[1..], kind, name).defs;
    }
  }

  // --------------------------------------------------- stored resource stack

  /** How definitions are resolved: whether a stored definition may replace the given one,
      and the API mapping found for a definition with the node's options. */
  datatype Resolver = Resolver(allowRedefinition: bool, mappingWithOptions: Definition -> Option<string>)

  datatype StoredLookup =
    | LookedUp(definition: Definition, mapping: string)
    | LookupFailed(error: Error)

  datatype StoredResult = StoredResult(defs: seq<Resource>, lookup: StoredLookup)

  function Popped(defs: seq<Resource>): seq<Resource> {
    if defs == [] then [] else defs[..|defs| - 1]
  }

  /** Cleaning a definition's dict cleans the dicts and lists it shares with the definition,
      its metadata among them; other values are replaced in the dict only. */
  function Tidied(d: Definition): Definition {
    d.(metadata := CleanDict(d.metadata),
       rest := map k | k in d.rest :: if Leaf(d.rest[k]) then d.rest[k] else Clean(d.rest[k]))
  }

  /** The definition and mapping that `retrieve_stored_resource` settles on. */
  function ChooseStored(env: Resolver, defs: seq<Resource>, d: Definition, mapping: string): StoredLookup {
    var stored := if defs == [] then Stored(d) else defs[|defs| - 1];
    if Stored(d) != stored && env.allowRedefinition then
      var r := Rebuilt(stored);
      if r.None? then LookupFailed(InvalidDefinitionError)
      else
        var m := env.mappingWithOptions(r.value);
        if m.None? then LookupFailed(MappingNotFoundError) else LookedUp(r.value, m.value)
    else LookedUp(Tidied(d), mapping)
  }

  function RetrieveStored(env: Resolver, defs: seq<Resource>, d: Definition, mapping: string,
        delete: bool): StoredResult {
    var choice := ChooseStored(env, defs, d, mapping);
    if choice.LookupFailed? || !delete then StoredResult(Popped(defs), choice)
    else if "name" !in choice.definition.metadata then StoredResult(Popped(defs), LookupFailed(KeyError))
    else
      var removal := RemoveSkipping(Popped(defs), choice.definition.kind, choice.definition.metadata["name"]);
      StoredResult(removal.defs, if removal.ok then choice else LookupFailed(KeyError))
  }

  /** Where the given definition comes back, it does so cleaned in place: its metadata, and the
      dicts and lists among its other values, but not those values that are leaves. */
  lemma {:induction false} GivenComesBack(env: Resolver, defs: seq<Resource>, d: Definition, mapping: string,
        delete: bool)
    requires !env.allowRedefinition || defs == [] || Stored(d) == defs[|defs| - 1]
    ensures var lookup := RetrieveStored(env, defs, d, mapping, delete).lookup;
            lookup.LookedUp? ==>
              && lookup.mapping == mapping && lookup.definition.kind == d.kind
              && lookup.definition.apiVersion == d.apiVersion
              && CleanedDict(lookup.definition.metadata)
              && SameShape(Object(d.metadata), Object(lookup.definition.metadata))
              && lookup.definition.rest.Keys == d.rest.Keys
              && (forall k :: k in d.rest && Leaf(d.rest[k]) ==> lookup.definition.rest[k] == d.rest[k])
              && (forall k :: k in d.rest && !Leaf(d.rest[k]) ==> Cleaned(lookup.definition.rest[k]))
  {
    CleanDictFixed(d.metadata);
    CleanKeepsShape(Object(d.metadata));
    assert d.metadata == map[] ==> CleanDict(d.metadata) == d.metadata;
    forall k | k in d.rest ensures Cleaned(Clean(d.rest[k])) { CleanIsClean(d.rest[k]); }
    hide RemoveSkipping, Clean, Cleaned;
  }

  /** A successful lookup that deletes drops the last definition, and of the others only such as
      have kind and name of the one it returns: all of these unless two of them are neighbours. */
  lemma {:induction false} LookupForgets(env: Resolver, defs: seq<Resource>, d: Definition, mapping: string)
    requires defs != []
    ensures var r, before := RetrieveStored(env, defs, d, mapping, true), defs[..|defs| - 1];
            r.lookup.LookedUp? ==>
              var t := r.lookup.definition;
              && "name" in t.metadata && DroppedSome(before, r.defs, t.kind, t.metadata["name"])
              && (AllNamed(before, t.kind) ==>
                    (r.defs == Filter(before, t.kind, t.metadata["name"]) <==>
                      NoNeighbours(before, t.kind, t.metadata["name"])))
  {
    var before, choice := Popped(defs), ChooseStored(env, defs, d, mapping);
    if choice.LookedUp? && "name" in choice.definition.metadata {
      var t := choice.definition;
      RemovalDropsOnlyMatches(before, t.kind, t.metadata["name"]);
      if AllNamed(before, t.kind) { RemovalIsFilter(before, t.kind, t.metadata["name"]); }
    }
    hide RemoveSkipping, ChooseStored, DroppedSome, Filter, AllNamed, NoNeighbours;
  }

  lemma {:induction false} RemovalKeepsUnmatched(defs: seq<Resource>, kind: string, name: Json)
    requires forall r :: r in defs ==> Named(r) && !SameKindAndName(r, kind, name)
    ensures RemoveSkipping(defs, kind, name) == Removal(defs, true)
    decreases |defs|
  {
    if defs != [] {
      assert defs[0] in defs;
      forall r | r in defs[1..] ensures r in defs {}
      RemovalKeepsUnmatched(defs[1..], kind, name);
      assert [defs[0]] + defs[1..] == defs;
    }
  }

  predicate NamedDefinition(d: Definition) {
    Constructed(d) && "name" in d.metadata
  }

  /** No two definitions have the same kind and the same name once cleaned. */
  ghost predicate DistinctKindAndName(ds: seq<Definition>) {
    forall i, j :: 0 <= i < j < |ds| ==>
      (ds[i].kind, Clean(NameIn(Some(ds[i].metadata)))) != (ds[j].kind, Clean(NameIn(Some(ds[j].metadata))))
  }

  lemma {:induction false} DistinctAreAppended(ds: seq<Definition>)
    requires DistinctKindAndName(ds)
    ensures |StoreAllDefinitions(ds)| == |ds|
    ensures forall i :: 0 <= i < |ds| ==> StoreAllDefinitions(ds)[i] == Stored(ds[i])
  {
    if ds != [] {
      var n := |ds| - 1;
      DistinctAreAppended(ds[..n]);
      var defs, id := StoreAllDefinitions(ds[..n]), IdentityOf(DictOf(ds[n]));
      forall i | 0 <= i < n ensures IdentityOf(defs[i]) != id {
        CleanIdentity(DictOf(ds[i]));
        CleanFixedPoints(NameIn(Some(ds[i].metadata)));
      }
    }
  }

  function RetrieveInReverse(env: Resolver, defs: seq<Resource>, asked: seq<Definition>, mapping: string, delete: bool)
    : Option<(seq<Definition>, seq<Resource>)>
    decreases |asked|
  {
    if asked == [] then Some(([], defs))
    else
      var r := RetrieveStored(env, defs, asked[|asked| - 1], mapping, delete);
      if r.lookup.LookupFailed? then None
      else
        var before := RetrieveInReverse(env, r.defs, asked[..|asked| - 1], mapping, delete);
        if before.None? then None else Some((before.value.0 + [r.lookup.definition], before.value.1))
  }

  lemma {:induction false} SameStoredName(d: Definition, e: Definition)
    requires Stored(d) == Stored(e) && NamedDefinition(e)
    ensures d.kind == e.kind && "name" in d.metadata
    ensures Clean(d.metadata["name"]) == Clean(e.metadata["name"])
  {
    assert CleanDict(d.metadata) == CleanDict(e.metadata);
    assert "name" in CleanDict(e.metadata);
    assert CleanDict(d.metadata)["name"] == CleanDict(e.metadata)["name"];
  }

  lemma {:induction false} RebuiltStored(d: Definition)
    requires Constructed(d)
    ensures Rebuilt(Stored(d)).Some? && Stored(Rebuilt(Stored(d)).value) == Stored(d)
  {
    CleanResourceFixed(DictOf(d));
    CleanResourceFixed(Stored(d));
    assert DictOf(Rebuilt(Stored(d)).value) == Stored(d);
  }

  /** A stored definition may replace the given one, and is read back as it was stored. */
  ghost predicate Redefinable(env: Resolver, d: Definition) {
    && env.allowRedefinition && ReadsBack(NAMING, Stored(d).body)
    && Rebuilt(Stored(d)).Some? && env.mappingWithOptions(Rebuilt(Stored(d)).value).Some?
  }

  lemma {:induction false} ChosenIsLast(env: Resolver, defs: seq<Resource>, last: Definition,
          asked: Definition, mapping: string)
    requires defs != [] && defs[|defs| - 1] == Stored(last) && Constructed(last)
    requires asked == last || Redefinable(env, last)
    ensures var choice := ChooseStored(env, defs, asked, mapping);
            && choice.LookedUp? && Stored(choice.definition) == Stored(last)
            && (asked == last ==> choice == LookedUp(Tidied(asked), mapping))
            && (Stored(asked) != Stored(last) ==> ConstructedFrom(choice.definition, Stored(last)))
  {
    hide ReadsBack, ConstructedFrom;
    if Redefinable(env, last) { RebuiltIsConstructed(Stored(last)); }
    RebuiltStored(last);
    TidiedStored(asked);
  }

  lemma {:induction false} TidiedRest(d: Definition)
    ensures CleanDict(Tidied(d).rest) == CleanDict(d.rest)
    ensures CleanedDict(d.rest) ==> Tidied(d).rest == d.rest
  {
    hide Clean;
    forall k | k in d.rest
      ensures Clean(Clean(d.rest[k])) == Clean(d.rest[k]) && (Cleaned(d.rest[k]) ==> Clean(d.rest[k]) == d.rest[k]) {
      CleanFixedPoints(d.rest[k]);
    }
  }

  lemma {:induction false} TidiedStored(d: Definition)
    ensures Stored(Tidied(d)) == Stored(d)
    ensures CleanedDict(d.metadata) && CleanedDict(d.rest) ==> Tidied(d) == d
  {
    TidiedRest(d);
    hide CleanDict;
    CleanDictFixed(d.metadata);
    CleanDictFixed(CleanDict(d.metadata));
  }

  lemma {:induction false} OthersDiffer(ds: seq<Definition>, d: Definition, r: Resource)
    requires ds != [] && DistinctKindAndName(ds) && NamedDefinition(ds[|ds| - 1])
    requires Stored(d) == Stored(ds[|ds| - 1]) && "name" in d.metadata
    requires exists i :: 0 <= i < |ds| - 1 && r == Stored(ds[i]) && NamedDefinition(ds[i])
    ensures Named(r) && !SameKindAndName(r, d.kind, d.metadata["name"])
  {
    var i :| 0 <= i < |ds| - 1 && r == Stored(ds[i]) && NamedDefinition(ds[i]);
    SameStoredName(d, ds[|ds| - 1]);
    CleanFixedPoints(NameIn(Some(ds[i].metadata)));
  }

  lemma {:induction false} RetrieveLast(env: Resolver, ds: seq<Definition>, asked: Definition, mapping: string,
          delete: bool)
    requires ds != [] && DistinctKindAndName(ds)
    requires forall d :: d in ds ==> NamedDefinition(d)
    requires asked == ds[|ds| - 1] || Redefinable(env, ds[|ds| - 1])
    ensures var r := RetrieveStored(env, StoreAllDefinitions(ds), asked, mapping, delete);
            && r.defs == StoreAllDefinitions(ds[..|ds| - 1])
            && r.lookup.LookedUp?
            && Stored(r.lookup.definition) == Stored(ds[|ds| - 1])
            && (asked == ds[|ds| - 1] ==> r.lookup == LookedUp(Tidied(asked), mapping))
            && (Stored(asked) != Stored(ds[|ds| - 1]) ==> ConstructedFrom(r.lookup.definition, Stored(ds[|ds| - 1])))
  {
    hide Redefinable, ConstructedFrom;
    var n := |ds| - 1;
    var defs, before := StoreAllDefinitions(ds), StoreAllDefinitions(ds[..n]);
    assert ds[n] in ds;
    DistinctAreAppended(ds);
    DistinctAreAppended(ds[..n]);
    assert Popped(defs) == before;
    ChosenIsLast(env, defs, ds[n], asked, mapping);
    var d := ChooseStored(env, defs, asked, mapping).definition;
    SameStoredName(d, ds[n]);
    forall r | r in before ensures Named(r) && !SameKindAndName(r, d.kind, d.metadata["name"]) {
      var i :| 0 <= i < n && r == before[i];
      assert ds[i] in ds;
      OthersDiffer(ds, d, r);
    }
    RemovalKeepsUnmatched(before, d.kind, d.metadata["name"]);
  }

  lemma {:induction false} RetrieveStep(env: Resolver, defs: seq<Resource>, asked: seq<Definition>,
          mapping: string, delete: bool)
    requires asked != []
    requires var r := RetrieveStored(env, defs, asked[|asked| - 1], mapping, delete);
             r.lookup.LookedUp? && RetrieveInReverse(env, r.defs, asked[..|asked| - 1], mapping, delete).Some?
    ensures var r := RetrieveStored(env, defs, asked[|asked| - 1], mapping, delete);
            var before := RetrieveInReverse(env, r.defs, asked[..|asked| - 1], mapping, delete).value;
            RetrieveInReverse(env, defs, asked, mapping, delete) == Some((before.0 + [r.lookup.definition], before.1))
  {
  }

  lemma {:induction false} StoredNothing()
    ensures StoreAllDefinitions([]) == [] && TidiedAll([]) == []
  {
  }

  ghost predicate SameStored(a: seq<Definition>, b: seq<Definition>) {
    |a| == |b| && forall i :: 0 <= i < |a| ==> Stored(a[i]) == Stored(b[i])
  }

  function TidiedAll(ds: seq<Definition>): seq<Definition> {
    seq(|ds|, i requires 0 <= i < |ds| => Tidied(ds[i]))
  }

  lemma {:induction false} SameStoredWithLast(ds: seq<Definition>, before: seq<Definition>, last: Definition)
    requires ds != [] && SameStored(before, ds[..|ds| - 1]) && Stored(last) == Stored(ds[|ds| - 1])
    ensures SameStored(before + [last], ds)
    ensures before == TidiedAll(ds[..|ds| - 1]) && last == Tidied(ds[|ds| - 1]) ==> before + [last] == TidiedAll(ds)
  {
    forall i | 0 <= i < |ds| ensures Stored((before + [last])[i]) == Stored(ds[i]) {
      if i < |ds| - 1 { assert ds[..|ds| - 1][i] == ds[i]; }
    }
  }

  /** Stored definitions come back in reverse order and leave nothing, whether each lookup
      also removes by kind and name or not: asking with the same definitions returns
      exactly them, with the metadata cleaned when they were stored, and where redefinition
      is allowed any question returns what was stored. */
  lemma {:induction false} LastInFirstOut(env: Resolver, ds: seq<Definition>, asked: seq<Definition>,
          mapping: string, delete: bool)
    requires DistinctKindAndName(ds) && |asked| == |ds|
    requires forall d :: d in ds ==> NamedDefinition(d)
    requires asked == ds || forall d :: d in ds ==> Redefinable(env, d)
    ensures var r := RetrieveInReverse(env, StoreAllDefinitions(ds), asked, mapping, delete);
            && r.Some? && r.value.1 == [] && SameStored(r.value.0, ds)
            && (asked == ds ==> r.value.0 == TidiedAll(ds))
  {
    hide RetrieveStored, Stored, StoreAllDefinitions, NamedDefinition, TidiedAll, Redefinable;
    if ds == [] {
      StoredNothing();
    } else {
      var n := |ds| - 1;
      RetrieveLast(env, ds, asked[n], mapping, delete);
      forall d | d in ds[..n] ensures d in ds {}
      LastInFirstOut(env, ds[..n], asked[..n], mapping, delete);
      RetrieveStep(env, StoreAllDefinitions(ds), asked, mapping, delete);
      var last := RetrieveStored(env, StoreAllDefinitions(ds), asked[n], mapping, delete).lookup.definition;
      var before := RetrieveInReverse(env, StoreAllDefinitions(ds[..n]), asked[..n], mapping, delete).value.0;
      SameStoredWithLast(ds, before, last);
    }
  }
}
