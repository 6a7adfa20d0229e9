/**
 * What deleting does to objects declared external: nothing, except that protected volume
 * claims are updated.
 */
module External {
  import opened Options
  import opened JsonValues
  import opened Definitions
  import opened Record
  import opened FileMaps
  import opened Cluster
  import opened FileDeletion
  import opened Convergence
  import opened Agreement
  import opened Fallback
  import opened Conservation
  import opened Tasks
  import opened Safety
  import opened Creation
  import opened Retries

  // ------------------------------------------------- claims at the most

  /** The calls made between two states. */
  ghost function NewCalls(before: State, after: State): seq<Call> {
    if |before.calls| <= |after.calls| then after.calls[|before.calls|..] else []
  }

  /** Every change of the cluster is an update call to a live claim that was protected. */
  ghost predicate OnlyClaims(env: Env, before: State, after: State) {
    && before.calls <= after.calls && before.live.Keys == after.live.Keys
    && (forall c :: c in NewCalls(before, after) ==> c.UpdateCall? && ProtectedAt(env, before.live, c.key))
    && (forall k :: k in before.live && after.live[k] != before.live[k] ==>
         UpdateCall(k, false) in NewCalls(before, after))
    && TruthyCluster(after.live)
  }

  lemma {:induction false} OnlyClaimsChain(env: Env, a: State, b: State, c: State)
    requires OnlyClaims(env, a, b) && OnlyClaims(env, b, c)
    ensures OnlyClaims(env, a, c)
  {
    assert NewCalls(a, c) == NewCalls(a, b) + NewCalls(b, c);
    forall x | x in NewCalls(b, c) ensures ProtectedAt(env, a.live, x.key) {
      assert x.key in a.live;
      if b.live[x.key] != a.live[x.key] { assert UpdateCall(x.key, false) in NewCalls(a, b); }
    }
  }

  lemma {:induction false} SameClusterOnlyClaims(env: Env, before: State, after: State)
    requires after.live == before.live && after.calls == before.calls && TruthyCluster(before.live)
    ensures OnlyClaims(env, before, after)
  {
  }

  lemma {:induction false} ExternalDoDelete(env: Env, st: State, mapping: string, d: Definition)
    requires AccurateApi(env) && env.external && TruthyCluster(st.live)
    requires HasName(d) && KeyOf(env, mapping, d) in st.live
    ensures var r := DoDelete(env, st, mapping, d);
            r.response == Got(CleanResource(st.live[KeyOf(env, mapping, d)])) && r.st.live == st.live
              && r.st.calls == st.calls
  {
    ReadAccurately(env, st, mapping, d);
    var obj := st.live[KeyOf(env, mapping, d)];
    CleanTruthy(obj);
    CleanResourceFixed(obj);
    CleanResourceFixed(CleanResource(obj));
  }

  lemma {:induction false} ClaimUpdated(env: Env, before: State, after: State, key: Key, d: Definition)
    requires TruthyCluster(before.live) && TruthyServer(env) && key in before.live
    requires if ProtectedAt(env, before.live, key) then
               after.calls == before.calls + [UpdateCall(key, false)]
                 && after.live == before.live[key := env.revise(before.live[key], d)]
             else after.calls == before.calls && after.live == before.live
    ensures OnlyClaims(env, before, after)
  {
    hide CleanResource, TruthyResource;
  }

  /** Skipping the deletion of an external object is not quite leaving it alone: it is
      updated, without its finalizers, exactly when it is a protected volume claim. */
  lemma {:induction false} ExternalTargetUpdatedExactly(env: Env, st: State, mapping: string, d: Definition,
          path: string, adjacent: FileMap)
    requires AccurateApi(env) && env.external && TruthyCluster(st.live) && TruthyServer(env)
    requires HasName(d) && KeyOf(env, mapping, d) in st.live
    ensures var r, key := DeleteTarget(env, st, mapping, d, path, adjacent), KeyOf(env, mapping, d);
            && r.out == Done && r.st.files == st.files && OnlyClaims(env, st, r.st)
            && (if ProtectedAt(env, st.live, key) then
                  var without := Definition(d.kind, d.apiVersion, d.metadata["finalizers" := Null], map[]);
                  && r.st.calls == st.calls + [UpdateCall(key, false)]
                  && r.st.live == st.live[key := env.revise(st.live[key], without)]
                else r.st.calls == st.calls && r.st.live == st.live)
  {
    hide OnlyClaims;
    ExternalDoDelete(env, st, mapping, d);
    var key, r := KeyOf(env, mapping, d), DoDelete(env, st, mapping, d);
    var without := WithoutFinalizers(d);
    assert NameIn(Some(without.metadata)) == NameIn(Some(d.metadata));
    assert KeyOf(env, mapping, without) == key;
    DoDeleteFrame(env, st, mapping, d);
    hide DoDelete, KeyOf, WithoutFinalizers, CleanResource, PutBack, TruthyResource;
    ClaimUpdated(env, st, DeleteTarget(env, st, mapping, d, path, adjacent).st, key, without);
  }

  lemma {:induction false} DeleteFileOnlyClaims(env: Env, st: State, mapping: string, d: Definition, path: string)
    requires AccurateApi(env) && env.external && TruthyCluster(st.live) && TruthyServer(env)
    ensures OnlyClaims(env, st, DeleteFile(env, st, mapping, d, path).st)
    decreases |st.files|, 0
  {
    var chosen := ResolveTarget(env, st, path, d, mapping);
    ResolveTargetFrame(env, st, path, d, mapping);
    SameClusterOnlyClaims(env, st, chosen.st);
    if chosen.target.Resolved? {
      var adjacent, target, m := chosen.target.adjacent, chosen.target.definition, chosen.target.mapping;
      ReadAccurately(env, chosen.st, m, target);
      var read := Read(env, chosen.st, m, target);
      SameClusterOnlyClaims(env, st, read.st);
      if ReadingOf(read.response).Missing? && adjacent != [] {
        DeleteInnerOnlyClaims(env, read.st, adjacent, target, path);
        var inner := DeleteInner(env, read.st, adjacent, target, path);
        OnlyClaimsChain(env, st, read.st, inner.st);
        StoreEntriesFrame(inner.st, adjacent);
      } else if ReadingOf(read.response).Readable? {
        ExternalTargetUpdatedExactly(env, read.st, m, target, path, adjacent);
        var deleted := DeleteTarget(env, read.st, m, target, path, adjacent);
        OnlyClaimsChain(env, st, read.st, deleted.st);
        StoreEntriesFrame(deleted.st, adjacent);
      }
    }
  }

  lemma {:induction false} DeleteInnerOnlyClaims(env: Env, st: State, adjacent: FileMap, outer: Definition,
        path: string)
    requires AccurateApi(env) && env.external && TruthyCluster(st.live) && TruthyServer(env)
    ensures OnlyClaims(env, st, DeleteInner(env, st, adjacent, outer, path).st)
    decreases |st.files|, |adjacent| + 1
  {
    SameClusterOnlyClaims(env, st, st);
    if adjacent != [] {
      var inner, m := InnerDefinition(adjacent[0].resource), env.mappingByKind(outer);
      if inner.None? {
        DeleteInnerOnlyClaims(env, st, adjacent[1..], outer, path);
      } else if m.Some? {
        DeleteFileOnlyClaims(env, st, m.value, inner.value, path);
        var r := DeleteFile(env, st, m.value, inner.value, path);
        if r.out.Done? {
          DeleteInnerOnlyClaims(env, r.st, adjacent[1..], outer, path);
          OnlyClaimsChain(env, st, r.st, DeleteInner(env, r.st, adjacent[1..], outer, path).st);
        }
      }
    }
  }

  /** Deleting an external blueprint resource leaves the cluster as it is; a delete call, if
      one is made, goes to a key that is not live. */
  lemma {:induction false} SingleDeleteLeavesCluster(env: Env, st: State, mapping: string, d: Definition)
    requires AccurateApi(env) && env.external && TruthyCluster(st.live)
    ensures var r := RunSingleDelete(env, st, mapping, d);
            r.st.live == st.live && forall c :: c in NewCalls(st, r.st) ==> HarmlessCall(env, c)
  {
    ReadAccurately(env, st, mapping, d);
    var r := Read(env, st, mapping, d);
    if r.response.Got? {
      var stored := RetrieveStored(env.resolver, r.st.defs, d, mapping, true);
      var popped := r.st.(defs := stored.defs);
      if stored.lookup.LookedUp? {
        var target, m := stored.lookup.definition, stored.lookup.mapping;
        CheckAccurately(env, popped, m, target);
        var deleted := DoDelete(env, popped, m, target);
        StoreResultFrame(HandleDelete(env, deleted.st, TruthyResource(r.response.obj)), r.response.obj, "");
        hide RetrieveStored, CheckExists;
      }
    }
  }

  lemma {:induction false} StepOnlyClaims(env: Env, st: State, op: Operation, i: nat)
    requires AccurateApi(env) && env.external && TruthyCluster(st.live) && TruthyServer(env)
    requires op.task.FileDelete? && i < |op.definitions|
    ensures OnlyClaims(env, st, Step(env, st, op, i).st)
  {
    SameClusterOnlyClaims(env, st, st);
    var d, path := op.definitions[i], PathFor(op, i);
    var m := env.resolver.mappingWithOptions(d);
    if m.Some? {
      CurrentStateFrame(env, st, op, m.value, d, path);
      var current := CurrentState(env, st, op, m.value, d, path);
      SameClusterOnlyClaims(env, st, current.st);
      if !current.existence.Unknown? {
        var handled := HandleExisting(env, current.st, Exists(current.existence));
        SameClusterOnlyClaims(env, st, handled);
        DeleteFileOnlyClaims(env, handled, m.value, d, path);
        OnlyClaimsChain(env, st, handled, DeleteFile(env, handled, m.value, d, path).st);
        hide DeleteFile, CurrentState;
      }
    }
  }

  lemma {:induction false} NoClaimsNoCalls(env: Env, before: State, after: State)
    requires OnlyClaims(env, before, after)
    ensures (forall k :: !ProtectedAt(env, before.live, k)) ==> after.calls == before.calls && after.live == before.live
  {
    var calls := NewCalls(before, after);
    assert after.calls == before.calls + calls;
    assert calls == [] || ProtectedAt(env, before.live, calls[0].key);
  }

  /** A pass that deletes external file resources changes the cluster by update calls to
      protected claims and by nothing else; where no live object is one it changes nothing. */
  lemma {:induction false} PassOnlyClaims(env: Env, st: State, op: Operation, i: nat)
    requires AccurateApi(env) && env.external && TruthyCluster(st.live) && TruthyServer(env)
    requires op.task.FileDelete? && i <= |op.definitions|
    ensures OnlyClaims(env, st, Pass(env, st, op, i).st)
    ensures (forall k :: !ProtectedAt(env, st.live, k)) ==>
              Pass(env, st, op, i).st.calls == st.calls && Pass(env, st, op, i).st.live == st.live
    decreases |op.definitions| - i
  {
    hide Step;
    SameClusterOnlyClaims(env, st, st);
    if i < |op.definitions| {
      StepOnlyClaims(env, st, op, i);
      PassCases(env, st, op, i);
      var r := Step(env, st, op, i);
      if r.out.Done? {
        PassOnlyClaims(env, r.st, op, i + 1);
        OnlyClaimsChain(env, st, r.st, Pass(env, r.st, op, i + 1).st);
      }
    }
    NoClaimsNoCalls(env, st, Pass(env, st, op, i).st);
  }

  // -------------------------------------------------- which claims, exactly

  ghost predicate NoneProtected(env: Env, live: map<Key, Resource>, targets: seq<Sought>) {
    forall t :: t in targets ==> !ProtectedAt(env, live, t.key)
  }

  lemma {:induction false} InnerUntouchedExactly(env: Env, st: State, adjacent: FileMap, outer: Definition,
        path: string)
    requires AccurateApi(env) && env.external && TruthyCluster(st.live) && TruthyServer(env)
    requires st.files == [] && path != ""
    ensures DeleteInner(env, st, adjacent, outer, path).st.calls == st.calls <==>
            NoneProtected(env, st.live, InnerTargets(env, st.defs, adjacent, outer))
    decreases |adjacent|
  {
    hide LookedFor, DeleteFile, LeftDefinitions, ProtectedAt;
    if adjacent != [] {
      var inner, m := InnerDefinition(adjacent[0].resource), env.mappingByKind(outer);
      if inner.None? {
        InnerUntouchedExactly(env, st, adjacent[1..], outer, path);
      } else if m.Some? {
        DeletionWithoutFiles(env, st, m.value, inner.value, path);
        var r := DeleteFile(env, st, m.value, inner.value, path);
        var sought := LookedFor(env, st.defs, inner.value, m.value);
        if r.out.Done? {
          DeleteFileOnlyClaims(env, st, m.value, inner.value, path);
          DeleteInnerOnlyClaims(env, r.st, adjacent[1..], outer, path);
          InnerUntouchedExactly(env, r.st, adjacent[1..], outer, path);
          var rest := InnerTargets(env, r.st.defs, adjacent[1..], outer);
          ProtectedIsLive(env, st.live, sought.value.key);
          assert sought.value in [sought.value] + rest;
          if ProtectedAt(env, st.live, sought.value.key) {
            assert |r.st.calls| > |st.calls|;
          } else {
            assert forall t :: t in [sought.value] + rest <==> t == sought.value || t in rest;
          }
        }
      }
    }
  }

  lemma {:induction false} ProtectedIsLive(env: Env, live: map<Key, Resource>, key: Key)
    ensures ProtectedAt(env, live, key) ==> key in live
  {
  }

  /** The targets a deletion comes to: the object at the path while that is live, and the
      targets of the inner deletions once it is not. */
  ghost function Reached(env: Env, st: State, path: string): seq<Sought>
    requires Has(st.files, path) && GoodResource(Lookup(st.files, path).value)
    requires EitherVersion(Lookup(st.files, path).value).Some?
  {
    var target := TargetDefinition(Lookup(st.files, path).value);
    if env.mappingByKind(target).None? || !HasName(target) then []
    else if PrimaryLive(env, st, path) then [Sought(target, KeyOf(env, env.mappingByKind(target).value, target))]
    else InnerTargets(env, st.defs, Drop(st.files, path), target)
  }

  /** On the record of one file, a deletion of external objects makes no call that changes the
      cluster exactly when none of the targets it comes to is a protected claim. */
  lemma {:induction false} DeletionUntouchedExactly(env: Env, st: State, mapping: string, d: Definition, path: string)
    requires AccurateApi(env) && env.external && TruthyCluster(st.live) && TruthyServer(env)
    requires Agrees(st.files, st.defs) && Has(st.files, path) && OneFile(st.files, path)
    ensures var hit, r := Lookup(st.files, path).value, DeleteFile(env, st, mapping, d, path);
            && GoodResource(hit)
            && if EitherVersion(hit).None? then r.st.calls == st.calls
               else (r.st.calls == st.calls <==> NoneProtected(env, st.live, Reached(env, st, path)))
  {
    OneFileTarget(env, st, mapping, d, path);
    OthersAreAdjacent(st.files, st.defs, path);
    var hit, adjacent := Lookup(st.files, path).value, Drop(st.files, path);
    var chosen := ResolveTarget(env, st, path, d, mapping);
    if chosen.target.Resolved? {
      var target, m := chosen.target.definition, chosen.target.mapping;
      ReadAccurately(env, chosen.st, m, target);
      var read := Read(env, chosen.st, m, target);
      assert read.st.files == [] && read.st.defs == st.defs && read.st.live == st.live && read.st.calls == st.calls;
      if ReadingOf(read.response).Missing? {
        InnerUntouchedExactly(env, read.st, adjacent, target, path);
        StoreEntriesFrame(DeleteInner(env, read.st, adjacent, target, path).st, adjacent);
        hide DeleteInner, InnerTargets;
      } else if ReadingOf(read.response).Readable? {
        ExternalTargetUpdatedExactly(env, read.st, m, target, path, adjacent);
        StoreEntriesFrame(DeleteTarget(env, read.st, m, target, path, adjacent).st, adjacent);
        hide DeleteTarget;
      }
    }
  }
}
