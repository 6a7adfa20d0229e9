/**
 * Deletion when no file object is recorded: what is looked for then, and how the deletion
 * ends.  The inner deletions of a file run this way, since everything recorded has been
 * taken out of the map before them.
 */
module Fallback {
  import opened Options
  import opened JsonValues
  import opened Definitions
  import opened Record
  import opened FileMaps
  import opened Cluster
  import opened FileDeletion
  import opened Convergence

  /** What is looked for: a definition, under a key. */
  datatype Sought = Sought(definition: Definition, key: Key)

  /** The stored or given definition a deletion resorts to, if it has a mapping and a name. */
  ghost function LookedFor(env: Env, defs: seq<Resource>, d: Definition, mapping: string): Option<Sought> {
    match RetrieveStored(env.resolver, Popped(defs), d, mapping, true).lookup
    case LookedUp(target, m) => if HasName(target) then Some(Sought(target, KeyOf(env, m, target))) else None
    case LookupFailed(_) => None
  }

  ghost function LeftDefinitions(env: Env, defs: seq<Resource>, d: Definition): seq<Resource> {
    RetrieveStored(env.resolver, Popped(defs), d, "", true).defs
  }

  lemma {:induction false} TargetWithoutFiles(env: Env, st: State, mapping: string, d: Definition, path: string)
    requires st.files == []
    ensures var r := RetrieveStored(env.resolver, Popped(st.defs), d, mapping, true);
            ResolveTarget(env, st, path, d, mapping) ==
            Resolution(st.(defs := LeftDefinitions(env, st.defs, d)),
                       match r.lookup case LookedUp(target, m) => Resolved([], target, m)
                         case LookupFailed(e) => Unresolved(e))
  {
    hide RemoveSkipping;
  }

  /** The definition stored when an object is put back by its definition. */
  function PutBackDefinition(d: Definition): Definition {
    Definition(LastSegment(d.kind), d.apiVersion, CleanDict(d.metadata), map[])
  }

  lemma {:induction false} PutBackAlone(st: State, d: Definition, path: string)
    requires path != ""
    ensures PutBack(st, Stored(d), path, []).out == Retry(false) && PutBack(st, Stored(d), path, []).st.live == st.live
    ensures PutBack(st, Stored(d), path, []).st.defs == StoreDefinition(st.defs, PutBackDefinition(d))
    ensures st.files == [] ==> PutBack(st, Stored(d), path, []).st.files == [Entry(path, Stored(d))]
  {
    CleanDictFixed(d.metadata);
    CleanDictFixed(CleanDict(d.metadata));
    assert CleanMetadata(Stored(d)) == Stored(d);
  }

  /** What lives under a key shows, in the response, the finalizer that protects claims. */
  ghost predicate ProtectedAt(env: Env, live: map<Key, Resource>, key: Key) {
    key in live && env.pvcProtected(CleanResource(live[key]))
  }

  /** Deleting a live target: one that is not the plugin's own stays, and is updated if it is
      a protected claim; any other is put back under the path, to be looked at again. */
  lemma {:induction false} DeleteLiveAlone(env: Env, st: State, mapping: string, d: Definition, path: string)
    requires AccurateApi(env) && HasName(d) && KeyOf(env, mapping, d) in st.live && path != ""
    ensures var r, key := DeleteTarget(env, st, mapping, d, path, []), KeyOf(env, mapping, d);
            if env.external then
              && r.out == Done && r.st.files == st.files && r.st.defs == st.defs
              && (TruthyResource(st.live[key]) ==>
                    r.st.calls == st.calls + (if ProtectedAt(env, st.live, key) then [UpdateCall(key, false)] else [])
                    && (!ProtectedAt(env, st.live, key) ==> r.st.live == st.live))
            else
              && r.out == Retry(false) && r.st.live.Keys == st.live.Keys - {key}
              && r.st.defs == StoreDefinition(st.defs, PutBackDefinition(d))
              && (st.files == [] ==> r.st.files == [Entry(path, Stored(d))])
  {
    DeleteLiveTarget(env, st, mapping, d);
    var key, deleted := KeyOf(env, mapping, d), DoDelete(env, st, mapping, d);
    PrepareKeepsKeys(env, deleted.st, mapping, d, deleted.response.obj);
    var prepared := DeleteAndPrepare(env, deleted.st, mapping, d, deleted.response.obj);
    PutBackAlone(prepared.st, d, path);
    ExternalTarget(env, st, mapping, d);
    hide DoDelete, PutBack;
  }

  lemma {:induction false} ExternalTarget(env: Env, st: State, mapping: string, d: Definition)
    requires AccurateApi(env) && HasName(d) && KeyOf(env, mapping, d) in st.live
    ensures var r, key := DoDelete(env, st, mapping, d), KeyOf(env, mapping, d);
            && r.response.Got?
            && (var prepared := DeleteAndPrepare(env, r.st, mapping, d, r.response.obj);
            && prepared.error.None?
            && (env.external && TruthyResource(st.live[key]) ==>
                  prepared.st.calls == st.calls +
                    (if ProtectedAt(env, st.live, key) then [UpdateCall(key, false)] else [])
                  && (!ProtectedAt(env, st.live, key) ==> prepared.st.live == st.live)))
  {
    ReadAccurately(env, st, mapping, d);
    var key := KeyOf(env, mapping, d);
    CleanTruthy(st.live[key]);
    CleanResourceFixed(st.live[key]);
    CleanResourceFixed(CleanResource(st.live[key]));
    var without := WithoutFinalizers(d);
    assert NameIn(Some(without.metadata)) == NameIn(Some(d.metadata));
    assert KeyOf(env, mapping, without) == key;
  }

  /** A deletion with no file object recorded, by what it looks for: it ends normally when
      that is not live, or not the plugin's own; it asks to be retried when it has deleted it. */
  lemma {:induction false} DeletionWithoutFiles(env: Env, st: State, mapping: string, d: Definition, path: string)
    requires AccurateApi(env) && st.files == [] && path != ""
    ensures var r, sought := DeleteFile(env, st, mapping, d, path), LookedFor(env, st.defs, d, mapping);
            match sought
            case None => r.out.Fail? && r.st.live == st.live && r.st.calls == st.calls && r.st.files == []
            case Some(Sought(target, key)) =>
              if key in st.live && !env.external then
                && r.out == Retry(false) && r.st.files == [Entry(path, Stored(target))]
                && r.st.live.Keys == st.live.Keys - {key}
                && r.st.defs == StoreDefinition(LeftDefinitions(env, st.defs, d), PutBackDefinition(target))
              else
                && r.out == Done && r.st.files == [] && r.st.defs == LeftDefinitions(env, st.defs, d)
                && (key !in st.live ==> r.st.live == st.live && r.st.calls == st.calls)
                && (key in st.live && TruthyResource(st.live[key]) ==>
                      r.st.calls == st.calls + (if ProtectedAt(env, st.live, key) then [UpdateCall(key, false)] else [])
                      && (!ProtectedAt(env, st.live, key) ==> r.st.live == st.live))
  {
    TargetWithoutFiles(env, st, mapping, d, path);
    var chosen := ResolveTarget(env, st, path, d, mapping);
    if chosen.target.Resolved? {
      var target, m := chosen.target.definition, chosen.target.mapping;
      ReadAccurately(env, chosen.st, m, target);
      var read := Read(env, chosen.st, m, target);
      assert read.st.files == [] && read.st.calls == st.calls && read.st.live == st.live;
      if HasName(target) && KeyOf(env, m, target) in st.live {
        DeleteLiveAlone(env, read.st, m, target, path);
      }
      hide DeleteTarget, ResolveTarget, RetrieveStored, Read;
    }
  }

  // ------------------------------------------------- is the given one found?

  /** With redefinition allowed and two or more definitions stored, the one before the last
      is looked for in place of a given one that differs, under a key of its own. */
  ghost predicate Shadowed(env: Env, defs: seq<Resource>, d: Definition, mapping: string) {
    && |defs| >= 2 && env.resolver.allowRedefinition
    && (var older := defs[|defs| - 2];
        && Stored(d) != older && Named(older) && Rebuilt(older).Some?
        && (var target := Rebuilt(older).value;
            && env.resolver.mappingWithOptions(target).Some? && HasName(target)
            && RemoveSkipping(Popped(Popped(defs)), target.kind, NameIn(older.metadata)).ok
            && KeyOf(env, env.resolver.mappingWithOptions(target).value, target) != KeyOf(env, mapping, Tidied(d))))
  }

  /** Exactly then is something else looked for. */
  lemma {:induction false} ShadowedExactly(env: Env, defs: seq<Resource>, d: Definition, mapping: string)
    ensures Shadowed(env, defs, d, mapping) <==>
            var sought := LookedFor(env, defs, d, mapping);
            sought.Some? && sought.value.key != KeyOf(env, mapping, Tidied(d))
    ensures |defs| <= 1 || !env.resolver.allowRedefinition || Stored(d) == defs[|defs| - 2] ==>
              LookedFor(env, defs, d, mapping).Some? ==>
                LookedFor(env, defs, d, mapping).value == Sought(Tidied(d), KeyOf(env, mapping, Tidied(d)))
  {
    hide RemoveSkipping;
  }

  /** A normal end of a deletion of the plugin's own objects, with no file object recorded,
      tells that the given one is gone, whatever may be live, exactly when it is not shadowed. */
  lemma {:induction false} NormalEndFindsGiven(env: Env, st: State, mapping: string, d: Definition, path: string)
    requires AccurateApi(env) && !env.external && st.files == [] && path != ""
    ensures (forall live :: DeleteFile(env, st.(live := live), mapping, d, path).out.Done? ==>
               HasName(Tidied(d)) && KeyOf(env, mapping, Tidied(d)) !in live)
            <==> !Shadowed(env, st.defs, d, mapping)
  {
    var key := KeyOf(env, mapping, Tidied(d));
    ShadowedExactly(env, st.defs, d, mapping);
    forall live ensures DeleteFile(env, st.(live := live), mapping, d, path).out.Done? <==>
                          LookedFor(env, st.defs, d, mapping).Some?
                            && LookedFor(env, st.defs, d, mapping).value.key !in live
    {
      DeletionWithoutFiles(env, st.(live := live), mapping, d, path);
    }
    SoughtHasName(env, st.defs, d, mapping);
    hide Shadowed, DeleteFile, LookedFor;
    var onlyGiven := map[key := Resource(None, None, None, None, map[])];
    assert Shadowed(env, st.defs, d, mapping) ==> DeleteFile(env, st.(live := onlyGiven), mapping, d, path).out.Done?;
  }

  lemma {:induction false} SoughtHasName(env: Env, defs: seq<Resource>, d: Definition, mapping: string)
    ensures var sought := LookedFor(env, defs, d, mapping);
            sought.Some? ==> Truthy(sought.value.key.name)
    ensures HasName(Tidied(d)) <==> Truthy(KeyOf(env, mapping, Tidied(d)).name)
  {
    hide RetrieveStored;
  }

  // --------------------------------------------------- the inner deletions

  /** What the inner deletions look for in turn, up to one that cannot be made out. */
  ghost function InnerTargets(env: Env, defs: seq<Resource>, adjacent: FileMap, outer: Definition): seq<Sought>
    decreases |adjacent|
  {
    if adjacent == [] then []
    else
      var inner := InnerDefinition(adjacent[0].resource);
      if inner.None? then InnerTargets(env, defs, adjacent[1..], outer)
      else if env.mappingByKind(outer).None? then []
      else
        var sought := LookedFor(env, defs, inner.value, env.mappingByKind(outer).value);
        if sought.None? then []
        else [sought.value] + InnerTargets(env, LeftDefinitions(env, defs, inner.value), adjacent[1..], outer)
  }

  ghost function FirstLive(targets: seq<Sought>, live: map<Key, Resource>): (r: Option<Sought>)
    ensures r.Some? <==> exists t :: t in targets && t.key in live
    ensures r.Some? ==> r.value in targets && r.value.key in live
  {
    if targets == [] then None
    else if targets[0].key in live then Some(targets[0])
    else FirstLive(targets[1..], live)
  }

  /** Inner deletions of the plugin's own objects are cut short by the first target that is
      live: it is deleted and alone put back, under the path of the outer deletion. */
  lemma {:induction false} InnerDeletions(env: Env, st: State, adjacent: FileMap, outer: Definition, path: string)
    requires AccurateApi(env) && !env.external && st.files == [] && path != ""
    ensures var r, first := DeleteInner(env, st, adjacent, outer, path),
        FirstLive(InnerTargets(env, st.defs, adjacent, outer), st.live);
            if first.Some? then
              && r.out == Retry(true) && r.st.files == [Entry(path, Stored(first.value.definition))]
              && r.st.live.Keys == st.live.Keys - {first.value.key}
            else !r.out.Retry? && r.st.files == [] && r.st.live.Keys == st.live.Keys
    decreases |adjacent|
  {
    hide LookedFor, DeleteFile, LeftDefinitions;
    if adjacent != [] {
      var inner, m := InnerDefinition(adjacent[0].resource), env.mappingByKind(outer);
      if inner.None? {
        InnerDeletions(env, st, adjacent[1..], outer, path);
      } else if m.Some? {
        DeletionWithoutFiles(env, st, m.value, inner.value, path);
        var r := DeleteFile(env, st, m.value, inner.value, path);
        var sought := LookedFor(env, st.defs, inner.value, m.value);
        if r.out.Done? {
          InnerDeletions(env, r.st, adjacent[1..], outer, path);
          var rest := InnerTargets(env, r.st.defs, adjacent[1..], outer);
          assert ([sought.value] + rest)[1..] == rest;
        }
      }
    }
  }

  /** Those of external objects never ask to be retried. */
  lemma {:induction false} ExternalInnerDeletions(env: Env, st: State, adjacent: FileMap, outer: Definition,
        path: string)
    requires AccurateApi(env) && env.external && st.files == [] && path != ""
    ensures var r := DeleteInner(env, st, adjacent, outer, path);
            !r.out.Retry? && r.st.files == []
    decreases |adjacent|
  {
    hide LookedFor, DeleteFile, LeftDefinitions;
    if adjacent != [] {
      var inner, m := InnerDefinition(adjacent[0].resource), env.mappingByKind(outer);
      if inner.None? {
        ExternalInnerDeletions(env, st, adjacent[1..], outer, path);
      } else if m.Some? {
        DeletionWithoutFiles(env, st, m.value, inner.value, path);
        var r := DeleteFile(env, st, m.value, inner.value, path);
        if r.out.Done? { ExternalInnerDeletions(env, r.st, adjacent[1..], outer, path); }
      }
    }
  }

  // -------------------------------------------------- without redefinition

  /** An adjacent object, complete enough to be deleted, is live under the outer mapping. */
  ghost predicate LiveAdjacent(env: Env, live: map<Key, Resource>, e: Entry, outer: Definition) {
    && InnerDefinition(e.resource).Some? && env.mappingByKind(outer).Some?
    && KeyOf(env, env.mappingByKind(outer).value, Tidied(InnerDefinition(e.resource).value)) in live
  }

  /** Without redefinition an inner deletion that comes to an end has met a live target
      exactly when one of the adjacent objects is live. */
  lemma {:induction false} InnerTargetsWithoutRedefinition(env: Env, st: State, adjacent: FileMap, outer: Definition,
          path: string)
    requires AccurateApi(env) && !env.external && st.files == [] && path != "" && !env.resolver.allowRedefinition
    requires !DeleteInner(env, st, adjacent, outer, path).out.Fail?
    ensures FirstLive(InnerTargets(env, st.defs, adjacent, outer), st.live).Some? <==>
            exists e :: e in adjacent && LiveAdjacent(env, st.live, e, outer)
    decreases |adjacent|
  {
    hide LookedFor, DeleteFile, LeftDefinitions, KeyOf, InnerDefinition, Tidied;
    if adjacent != [] {
      var head, rest := adjacent[0], adjacent[1..];
      assert adjacent == [head] + rest;
      var inner, m := InnerDefinition(head.resource), env.mappingByKind(outer);
      if inner.None? {
        InnerTargetsWithoutRedefinition(env, st, rest, outer, path);
      } else {
        DeletionWithoutFiles(env, st, m.value, inner.value, path);
        ShadowedExactly(env, st.defs, inner.value, m.value);
        var r := DeleteFile(env, st, m.value, inner.value, path);
        var sought := LookedFor(env, st.defs, inner.value, m.value);
        if r.out.Done? {
          InnerTargetsWithoutRedefinition(env, r.st, rest, outer, path);
          var left := InnerTargets(env, r.st.defs, rest, outer);
          assert ([sought.value] + left)[1..] == left;
        } else {
          assert LiveAdjacent(env, st.live, head, outer);
        }
      }
    }
  }
}
