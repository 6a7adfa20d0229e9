/**
 * Why retried deletions come to an end: with an accurate API, every retry uses up part of
 * what is recorded and live.
 */
module Convergence {
  import opened Definitions
  import opened Record
  import opened FileMaps
  import opened Cluster
  import opened FileDeletion

  /** Recorded paths count once, live objects twice: deleting an object may add one path. */
  ghost function Remaining(st: State): nat {
    |st.files| + 2 * |st.live.Keys|
  }

  lemma {:induction false} FewerKeys(a: set<Key>, b: set<Key>)
    requires a <= b
    ensures |a| <= |b|
    ensures a != b ==> |a| < |b|
    decreases b
  {
    if a != {} {
      var k :| k in a;
      assert a == (a - {k}) + {k} && b == (b - {k}) + {k};
      FewerKeys(a - {k}, b - {k});
    }
  }

  /** The progress one deletion makes, according to how it ends. */
  ghost predicate Progress(before: State, r: Result) {
    && r.st.live.Keys <= before.live.Keys
    && (r.out.Done? ==> |r.st.files| <= |before.files|)
    && (r.out.Retry? ==> Remaining(r.st) < Remaining(before))
  }

  lemma {:induction false} ReadAccurately(env: Env, st: State, mapping: string, d: Definition)
    requires AccurateApi(env)
    ensures var r := Read(env, st, mapping, d);
            && r.st == st.(tick := r.st.tick)
            && (r.response.Got? <==> HasName(d) && KeyOf(env, mapping, d) in st.live)
            && (ReadingOf(r.response).Missing? <==> HasName(d) && KeyOf(env, mapping, d) !in st.live)
            && (r.response.Got? ==> r.response.obj == CleanResource(st.live[KeyOf(env, mapping, d)]))
  {
  }

  lemma {:induction false} UpdateKeepsKeys(env: Env, st: State, mapping: string, d: Definition)
    requires AccurateApi(env)
    ensures var r := Update(env, st, mapping, d);
            r.st.live.Keys == st.live.Keys && r.st.files == st.files && r.st.defs == st.defs
              && r.st.perform == st.perform
  {
  }

  lemma {:induction false} PrepareKeepsKeys(env: Env, st: State, mapping: string, d: Definition, obj: Resource)
    requires AccurateApi(env)
    ensures var s := DeleteAndPrepare(env, st, mapping, d, obj);
            s.st.live.Keys == st.live.Keys && s.st.files == st.files && s.st.defs == st.defs
              && s.st.perform == !env.external
  {
    UpdateKeepsKeys(env, HandleDelete(env, st, true), mapping,
                    WithoutFinalizers(d));
  }

  lemma {:induction false} DeleteLiveTarget(env: Env, st: State, mapping: string, d: Definition)
    requires AccurateApi(env) && HasName(d) && KeyOf(env, mapping, d) in st.live
    ensures var r := DoDelete(env, st, mapping, d);
            && r.response.Got?
            && r.st.files == st.files && r.st.defs == st.defs
            && r.st.live == (if env.external && TruthyResource(CleanResource(st.live[KeyOf(env, mapping, d)]))
                             then st.live
                             else st.live - {KeyOf(env, mapping, d)})
  {
    ReadAccurately(env, st, mapping, d);
  }

  lemma {:induction false} DeleteTargetProgress(env: Env, st: State, mapping: string, d: Definition,
          path: string, adjacent: FileMap)
    requires AccurateApi(env) && HasName(d) && KeyOf(env, mapping, d) in st.live
    ensures var r := DeleteTarget(env, st, mapping, d, path, adjacent);
            && r.st.live.Keys <= st.live.Keys
            && (r.out.Retry? ==> |r.st.live.Keys| < |st.live.Keys| && |r.st.files| <= |st.files| + 1 + |adjacent|)
  {
    DeleteLiveTarget(env, st, mapping, d);
    var r := DoDelete(env, st, mapping, d);
    if r.response.Got? {
      PrepareKeepsKeys(env, r.st, mapping, d, r.response.obj);
      var prepared := DeleteAndPrepare(env, r.st, mapping, d, r.response.obj);
      StoreResultFrame(prepared.st, Stored(d), path);
      StoreEntriesFrame(StoreResult(prepared.st, Stored(d), path).st, adjacent);
      if prepared.st.perform {
        FewerKeys(r.st.live.Keys, st.live.Keys);
      }
    }
  }

  lemma {:induction false} DeleteFileProgress(env: Env, st: State, mapping: string, d: Definition, path: string)
    requires AccurateApi(env)
    ensures Progress(st, DeleteFile(env, st, mapping, d, path))
    decreases |st.files|, 0
  {
    var chosen := ResolveTarget(env, st, path, d, mapping);
    ResolveTargetFrame(env, st, path, d, mapping);
    if chosen.target.Resolved? {
      var adjacent, target, m := chosen.target.adjacent, chosen.target.definition, chosen.target.mapping;
      ReadAccurately(env, chosen.st, m, target);
      var read := Read(env, chosen.st, m, target);
      if ReadingOf(read.response).Missing? && adjacent != [] {
        DeleteInnerProgress(env, read.st, adjacent, target, path);
        var inner := DeleteInner(env, read.st, adjacent, target, path);
        FewerKeys(inner.st.live.Keys, st.live.Keys);
        StoreEntriesFrame(inner.st, adjacent);
      } else if ReadingOf(read.response).Readable? {
        DeleteTargetProgress(env, read.st, m, target, path, adjacent);
        DeleteTargetFrame(env, read.st, m, target, path, adjacent);
        var deleted := DeleteTarget(env, read.st, m, target, path, adjacent);
        FewerKeys(deleted.st.live.Keys, st.live.Keys);
        StoreEntriesFrame(deleted.st, adjacent);
      }
    }
  }

  lemma {:induction false} DeleteInnerProgress(env: Env, st: State, adjacent: FileMap, outer: Definition, path: string)
    requires AccurateApi(env)
    ensures Progress(st, DeleteInner(env, st, adjacent, outer, path))
    decreases |st.files|, |adjacent| + 1
  {
    if adjacent != [] {
      var inner, m := InnerDefinition(adjacent[0].resource), env.mappingByKind(outer);
      if inner.None? {
        DeleteInnerProgress(env, st, adjacent[1..], outer, path);
      } else if m.Some? {
        DeleteFileProgress(env, st, m.value, inner.value, path);
        var r := DeleteFile(env, st, m.value, inner.value, path);
        FewerKeys(r.st.live.Keys, st.live.Keys);
        if r.out.Done? {
          DeleteInnerProgress(env, r.st, adjacent[1..], outer, path);
        }
      }
    }
  }
}
