/**
 * Deleting the resources of a file: one object is taken out of the record together with
 * its adjacent objects, deleted or found missing, and what must be looked at again is put
 * back before the operation asks to be retried.
 */
module FileDeletion {
  import opened Options
  import opened JsonValues
  import opened Definitions
  import opened Record
  import opened FileMaps
  import opened Cluster

  /** How an operation ends: normally, by `OperationRetry` (`nested` when the exception
      comes out of an inner deletion and skips what the outer one still had to do), or by
      any other exception. */
  datatype Outcome = Done | Retry(nested: bool) | Fail(error: Error)

  datatype Result = Result(st: State, out: Outcome)

  // ------------------------------------------- choosing what to delete

  datatype Target =
    | Resolved(adjacent: FileMap, definition: Definition, mapping: string)
    | Unresolved(error: Error)

  datatype Resolution = Resolution(st: State, target: Target)

  /** `resource.get('apiVersion') or resource.get('api_version')`. */
  function EitherVersion(r: Resource): Option<string> {
    if r.apiVersion.Some? && r.apiVersion.value != "" then r.apiVersion
    else if r.snakeVersion.Some? && r.snakeVersion.value != "" then r.snakeVersion
    else None
  }

  function StoredTarget(env: Env, st: State, d: Definition, mapping: string): Resolution {
    var r := RetrieveStored(env.resolver, st.defs, d, mapping, true);
    Resolution(st.(defs := r.defs),
               match r.lookup
               case LookedUp(d', m) => Resolved([], d', m)
               case LookupFailed(e) => Unresolved(e))
  }

  /** The target made of what was retrieved. */
  function TargetOf(env: Env, st: State, found: Retrieval, d: Definition, mapping: string): Resolution {
    match found
    case BadPath => Resolution(st, Unresolved(ValueError))
    case NoResource => StoredTarget(env, st, d, mapping)
    case Nothing => StoredTarget(env, st, d, mapping)
    case Found(_, resource, adjacent) =>
      if resource.kind.None? || resource.metadata.None? then StoredTarget(env, st, d, mapping)
      else if EitherVersion(resource).None? then Resolution(st, Unresolved(NonRecoverableError))
      else
        var d' := Definition(LastSegment(resource.kind.value), EitherVersion(resource).value, resource.metadata.value,
          map[]);
        var m := env.mappingByKind(d');
        Resolution(st, if m.None? then Unresolved(MappingNotFoundError) else Resolved(adjacent, d', m.value))
  }

  /** `_get_path_with_adjacent_resources`: the object recorded at the path, or the one last
      defined, or, when none can be made out, the definition given. */
  function ResolveTarget(env: Env, st: State, path: string, d: Definition, mapping: string): Resolution {
    var r := RetrieveLastCreatePath(st.files, st.defs, path);
    TargetOf(env, st.(files := r.files, defs := r.defs), r.outcome, d, mapping)
  }

  // --------------------------------------------- reading and deleting it

  datatype Reading = Readable | Missing | Unreadable(error: Error)

  /** `_read_while_adjacent_resources`. */
  function ReadingOf(r: Response): Reading {
    match r
    case Got(_) => Readable
    case ApiError(Code404) => Missing
    case ApiError(_) => Unreadable(RecoverableError)
    case Raised(NonRecoverableError) => Unreadable(RecoverableError)
    case Raised(e) => Unreadable(e)
  }

  function WithoutFinalizers(d: Definition): Definition {
    Definition(d.kind, d.apiVersion, d.metadata["finalizers" := Null], map[])
  }

  /** `prepare_pvc_delete`: replaces the object without finalizers; API errors are ignored. */
  function PreparePvcDelete(env: Env, st: State, mapping: string, d: Definition): Storing {
    var r := Update(env, st, mapping, WithoutFinalizers(d));
    Storing(r.st, if r.response.Raised? then Some(r.response.error) else None)
  }

  /** After an accepted deletion: the flag is set anew, and a protected claim is prepared. */
  function DeleteAndPrepare(env: Env, st: State, mapping: string, d: Definition, obj: Resource): Storing {
    var handled := HandleDelete(env, st, true);
    if env.pvcProtected(obj) then PreparePvcDelete(env, handled, mapping, d) else Storing(handled, None)
  }

  /** `_delete_while_adjacent_resources`: testing an exception for '(404)' is a TypeError. */
  function DeleteTarget(env: Env, st: State, mapping: string, d: Definition, path: string, adjacent: FileMap): Result {
    if "name" !in d.metadata then Result(st, Fail(KeyError))
    else
      var r := DoDelete(env, st, mapping, d);
      match r.response
      case ApiError(_) => Result(r.st, Fail(TypeError))
      case Raised(e) => Result(r.st, Fail(e))
      case Got(obj) =>
        var prepared := DeleteAndPrepare(env, r.st, mapping, d, obj);
        if prepared.error.Some? then Result(prepared.st, Fail(prepared.error.value))
        else if prepared.st.perform then PutBack(prepared.st, Stored(d), path, adjacent)
        else Result(prepared.st, Done)
  }

  /** The object goes back under the path given, its adjacent objects under their own. */
  function PutBack(st: State, primary: Resource, path: string, adjacent: FileMap): Result {
    var s := StoreResult(st, primary, path);
    if s.error.Some? then Result(s.st, Fail(s.error.value)) else RestoreAndRetry(s.st, adjacent)
  }

  function RestoreAndRetry(st: State, adjacent: FileMap): Result {
    var s := StoreEntries(st, adjacent);
    Result(s.st, if s.error.Some? then Fail(s.error.value) else Retry(false))
  }

  // ------------------------------------------------------- the recursion

  /** The definition an adjacent object is deleted by, when it says enough about itself. */
  function InnerDefinition(r: Resource): Option<Definition> {
    if r.metadata.Some? && r.metadata.value != map[]
       && r.snakeVersion.Some? && r.snakeVersion.value != ""
       && r.kind.Some? && r.kind.value != ""
    then Some(Definition(LastSegment(r.kind.value), r.snakeVersion.value, r.metadata.value, map[]))
    else None
  }

  /** Storing changes the record only. */
  lemma {:induction false} StoreResultFrame(st: State, result: Resource, path: string)
    ensures StoreResult(st, result, path).st.live == st.live && StoreResult(st, result, path).st.calls == st.calls
    ensures |StoreResult(st, result, path).st.files| <= |st.files| + 1
    ensures Has(st.files, path) ==> |StoreResult(st, result, path).st.files| == |st.files|
  {
  }

  lemma {:induction false} StoreEntriesFrame(st: State, entries: FileMap)
    ensures StoreEntries(st, entries).st.live == st.live && StoreEntries(st, entries).st.calls == st.calls
    ensures |StoreEntries(st, entries).st.files| <= |st.files| + |entries|
    decreases |entries|
  {
    if entries != [] {
      StoreResultFrame(st, entries[0].resource, entries[0].path);
      var s := StoreResult(st, entries[0].resource, entries[0].path);
      if s.error.None? { StoreEntriesFrame(s.st, entries[1..]); }
    }
  }

  lemma {:induction false} TargetOfFrame(env: Env, st: State, found: Retrieval, d: Definition, mapping: string)
    ensures var r := TargetOf(env, st, found, d, mapping);
            && r.st == st.(defs := r.st.defs)
            && (r.target.Resolved? && r.target.adjacent != [] ==>
                  found.Found? && r.target.adjacent == found.adjacent && r.st == st)
  {
  }

  /** What choosing the target takes out of the map. */
  lemma {:induction false} ResolveTargetFrame(env: Env, st: State, path: string, d: Definition, mapping: string)
    ensures var r := ResolveTarget(env, st, path, d, mapping);
            && r.st == st.(files := r.st.files, defs := r.st.defs)
            && |r.st.files| <= |st.files|
            && (r.target.Resolved? && r.target.adjacent != [] ==> 1 + |r.target.adjacent| + |r.st.files| == |st.files|)
  {
    var r := RetrieveLastCreatePath(st.files, st.defs, path);
    RetrievalLength(st.files, st.defs, path);
    TargetOfFrame(env, st.(files := r.files, defs := r.defs), r.outcome, d, mapping);
  }

  /** API calls change no record. */
  ghost predicate SameRecord(before: State, after: State) {
    after.files == before.files && after.single == before.single && after.defs == before.defs
  }

  lemma {:induction false} DoDeleteFrame(env: Env, st: State, mapping: string, d: Definition)
    ensures SameRecord(st, DoDelete(env, st, mapping, d).st)
  {
  }

  lemma {:induction false} UpdateFrame(env: Env, st: State, mapping: string, d: Definition)
    ensures SameRecord(st, Update(env, st, mapping, d).st)
  {
  }

  lemma {:induction false} DeleteAndPrepareFrame(env: Env, st: State, mapping: string, d: Definition, obj: Resource)
    ensures SameRecord(st, DeleteAndPrepare(env, st, mapping, d, obj).st)
  {
    UpdateFrame(env, HandleDelete(env, st, true), mapping, WithoutFinalizers(d));
  }

  lemma {:induction false} DeleteTargetFrame(env: Env, st: State, mapping: string, d: Definition, path: string,
          adjacent: FileMap)
    ensures DeleteTarget(env, st, mapping, d, path, adjacent).out.Done? ==>
              DeleteTarget(env, st, mapping, d, path, adjacent).st.files == st.files
  {
    var r := DoDelete(env, st, mapping, d);
    DoDeleteFrame(env, st, mapping, d);
    if r.response.Got? { DeleteAndPrepareFrame(env, r.st, mapping, d, r.response.obj); }
  }

  /** `_file_resource_delete`.  It terminates for every record and every sequence of API
      answers: whatever is deleted by an inner call has first been taken out of the map, and
      a call that returns normally never leaves the map larger. */
  function DeleteFile(env: Env, st: State, mapping: string, d: Definition, path: string): (r: Result)
    ensures r.out.Done? ==> |r.st.files| <= |st.files|
    decreases |st.files|, 0
  {
    var chosen := ResolveTarget(env, st, path, d, mapping);
    ResolveTargetFrame(env, st, path, d, mapping);
    match chosen.target
    case Unresolved(e) => Result(chosen.st, Fail(e))
    case Resolved(adjacent, target, m) =>
      var read := Read(env, chosen.st, m, target);
      match ReadingOf(read.response)
      case Unreadable(e) => Result(read.st, Fail(e))
      case Missing =>
        if adjacent == [] then Result(read.st, Done)
        else
          var inner := DeleteInner(env, read.st, adjacent, target, path);
          if inner.out.Done? then RestoreAndRetry(inner.st, adjacent) else inner
      case Readable =>
        var deleted := DeleteTarget(env, read.st, m, target, path, adjacent);
        DeleteTargetFrame(env, read.st, m, target, path, adjacent);
        if deleted.out.Done? && adjacent != [] then RestoreAndRetry(deleted.st, adjacent) else deleted
  }

  /** The inner deletions, one for each adjacent object that is complete.  The mapping is
      that of the outer definition; any exception ends them all. */
  function DeleteInner(env: Env, st: State, adjacent: FileMap, outer: Definition, path: string): (r: Result)
    ensures r.out.Done? ==> |r.st.files| <= |st.files|
    decreases |st.files|, |adjacent| + 1
  {
    if adjacent == [] then Result(st, Done)
    else
      var inner := InnerDefinition(adjacent[0].resource);
      if inner.None? then DeleteInner(env, st, adjacent[1..], outer, path)
      else
        var m := env.mappingByKind(outer);
        if m.None? then Result(st, Fail(MappingNotFoundError))
        else
          var r := DeleteFile(env, st, m.value, inner.value, path);
          match r.out
          case Done => DeleteInner(env, r.st, adjacent[1..], outer, path)
          case Retry(_) => Result(r.st, Retry(true))
          case Fail(_) => r
  }
}
