/**
 * The operations as they run: a session over one node instance's runtime properties and
 * the cluster behind its client, updated in place, each method against the function that
 * specifies it.
 */
module Sessions {
  import opened Options
  import opened JsonValues
  import opened Definitions
  import opened Paths
  import opened Record
  import opened FileMaps
  import opened Cluster
  import opened FileDeletion
  import opened Tasks

  class Session {
    const env: Env

    // runtime properties
    var kubernetes: FileMap
    var single: Option<Resource>
    var resourceDefinitions: seq<Resource>
    var performTask: bool

    // the cluster, the number of calls answered so far, and the calls that change it
    var live: map<Key, Resource>
    var tick: nat
    var calls: seq<Call>

    ghost function View(): State
      reads this
    {
      State(kubernetes, single, resourceDefinitions, performTask, live, tick, calls)
    }

    constructor (env: Env, live: map<Key, Resource>)
      ensures this.env == env
      ensures View() == State([], None, [], false, live, 0, [])
    {
      this.env := env;
      kubernetes, single, resourceDefinitions, performTask := [], None, [], false;
      this.live, tick, calls := live, 0, [];
    }

    // -------------------------------------------------------------- record

    method StoreResourceDefinition(d: Definition)
      modifies this`resourceDefinitions
      ensures resourceDefinitions == StoreDefinition(old(resourceDefinitions), d)
    {
      var id := IdentityOf(DictOf(d));
      for index := 0 to |resourceDefinitions|
        invariant resourceDefinitions == old(resourceDefinitions)
        invariant forall j :: 0 <= j < index ==> IdentityOf(resourceDefinitions[j]) != id
      {
        if MatchResource(resourceDefinitions[index], DictOf(d)) {
          resourceDefinitions := resourceDefinitions[index := Stored(d)];
          return;
        }
      }
      resourceDefinitions := resourceDefinitions + [Stored(d)];
    }

    /** Deletes from the list that is being iterated; false when a name is missing. */
    method RemoveResourceDefinition(kind: string, name: Json) returns (ok: bool)
      modifies this`resourceDefinitions
      ensures RemoveSkipping(old(resourceDefinitions), kind, name) == Removal(resourceDefinitions, ok)
    {
      var c := 0;
      while c < |resourceDefinitions|
        invariant RemoveFrom(old(resourceDefinitions), 0, kind, name) == RemoveFrom(resourceDefinitions, c, kind, name)
        decreases |resourceDefinitions| - c
      {
        var item := resourceDefinitions[c];
        if SameKind(item, kind) {
          if !Named(item) {
            RemoveFromSkips(old(resourceDefinitions), 0, kind, name);
            return false;
          }
          if item.metadata.value["name"] == name {
            resourceDefinitions := resourceDefinitions[..c] + resourceDefinitions[c + 1..];
          }
        }
        c := c + 1;
      }
      RemoveFromSkips(old(resourceDefinitions), 0, kind, name);
      ok := true;
    }

    method RetrieveStoredResource(d: Definition, mapping: string, delete: bool) returns (r: StoredLookup)
      modifies this`resourceDefinitions
      ensures RetrieveStored(env.resolver, old(resourceDefinitions), d, mapping, delete) ==
          StoredResult(resourceDefinitions, r)
    {
      var json := Stored(d);
      var stored := json;
      if resourceDefinitions != [] {
        stored := resourceDefinitions[|resourceDefinitions| - 1];
        resourceDefinitions := resourceDefinitions[..|resourceDefinitions| - 1];
      }
      var definition, found := Tidied(d), mapping;
      if json != stored && env.resolver.allowRedefinition {
        var rebuilt := Rebuilt(stored);
        if rebuilt.None? { return LookupFailed(InvalidDefinitionError); }
        var m := env.resolver.mappingWithOptions(rebuilt.value);
        if m.None? { return LookupFailed(MappingNotFoundError); }
        definition, found := rebuilt.value, m.value;
      }
      if delete {
        if "name" !in definition.metadata { return LookupFailed(KeyError); }
        var ok := RemoveResourceDefinition(definition.kind, definition.metadata["name"]);
        if !ok { return LookupFailed(KeyError); }
      }
      r := LookedUp(definition, found);
    }

    /** The loop over the map's items that stops at the first match. */
    static method FindMatchingEntry(files: FileMap, d: Resource) returns (i: nat)
      requires files != []
      ensures i == MatchingEntry(files, d)
    {
      i := 0;
      while i < |files| - 1
        invariant i < |files|
        invariant MatchingEntry(files, d) == i + MatchingEntry(files[i..], d)
      {
        if MatchResource(d, files[i].resource) { return; }
        assert files[i..][1..] == files[i + 1..];
        i := i + 1;
      }
    }

    /** The loop that collects adjacent entries and deletes them from the map if asked to. */
    static method CollectAdjacent(files: FileMap, stem: string, resource: Resource) returns (adjacent: FileMap,
            left: FileMap)
      ensures adjacent == Select(files, stem, resource, true)
      ensures left == Select(files, stem, resource, false)
    {
      adjacent, left := [], [];
      for i := 0 to |files|
        invariant adjacent + Select(files[i..], stem, resource, true) == Select(files, stem, resource, true)
        invariant left + Select(files[i..], stem, resource, false) == Select(files, stem, resource, false)
      {
        assert files[i..][0] == files[i] && files[i..][1..] == files[i + 1..];
        if Contains(files[i].path, stem) && !MatchResource(files[i].resource, resource) {
          adjacent := adjacent + [files[i]];
        } else {
          left := left + [files[i]];
        }
      }
    }

    method RetrieveLastPath(path: string, delete: bool) returns (r: Retrieval)
      modifies this`kubernetes, this`resourceDefinitions
      ensures delete ==>
                RetrieveLastCreatePath(old(kubernetes), old(resourceDefinitions), path) ==
                Retrieved(r, kubernetes, resourceDefinitions)
      ensures !delete ==> kubernetes == old(kubernetes) && resourceDefinitions == old(resourceDefinitions)
      ensures !delete ==> r == PeekLastCreatePath(kubernetes, resourceDefinitions, path)
    {
      var files := kubernetes;
      var i: nat;
      if Has(files, path) {
        i := IndexOf(files, path);
        if !delete { return Found(path, files[i].resource, []); }
      } else {
        if resourceDefinitions == [] { return NoResource; }
        var last := resourceDefinitions[|resourceDefinitions| - 1];
        if delete { resourceDefinitions := resourceDefinitions[..|resourceDefinitions| - 1]; }
        if files == [] { return Nothing; }
        i := FindMatchingEntry(files, last);
      }
      var e := files[i];
      if !TruthyResource(e.resource) { return Nothing; }
      var stem := Stem(e.path);
      if stem.None? { return BadPath; }
      if delete { files := Without(files, i); }
      var adjacent, left := CollectAdjacent(files, stem.value, e.resource);
      if delete { kubernetes := left; }
      r := Found(e.path, e.resource, adjacent);
    }

    method StoreResultForRetrieveId(result: Resource, path: string) returns (error: Option<Error>)
      modifies this`kubernetes, this`single, this`resourceDefinitions
      ensures StoreResult(old(View()), result, path) == Storing(View(), error)
    {
      if result.kind.None? || result.metadata.None? { return Some(KeyError); }
      var version := VersionOf(result);
      if version.None? { return Some(InvalidDefinitionError); }
      StoreResourceDefinition(Definition(LastSegment(result.kind.value), version.value, result.metadata.value, map[]));
      if path != "" {
        kubernetes := Put(kubernetes, path, CleanMetadata(result));
      } else {
        single := Some(CleanMetadata(result));
      }
      error := None;
    }

    method RestoreAdjacent(adjacent: FileMap) returns (error: Option<Error>)
      modifies this`kubernetes, this`single, this`resourceDefinitions
      ensures StoreEntries(old(View()), adjacent) == Storing(View(), error)
    {
      for i := 0 to |adjacent|
        invariant StoreEntries(old(View()), adjacent) == StoreEntries(View(), adjacent[i..])
      {
        assert adjacent[i..][0] == adjacent[i] && adjacent[i..][1..] == adjacent[i + 1..];
        error := StoreResultForRetrieveId(adjacent[i].resource, adjacent[i].path);
        if error.Some? { return; }
      }
      error := None;
    }

    // ----------------------------------------------------------- API calls

    method ReadResource(mapping: string, d: Definition) returns (r: Response)
      modifies this`tick
      ensures Read(env, old(View()), mapping, d) == Reply(View(), r)
    {
      if "name" !in d.metadata { return Raised(KeyError); }
      if !HasName(d) { return ApiError(OtherCode); }
      var key, answer := KeyOf(env, mapping, d), env.script(tick);
      tick := tick + 1;
      if !answer.Accurate? {
        r := Failure(answer);
      } else if key in live {
        r := Got(CleanResource(live[key]));
      } else {
        r := ApiError(Code404);
      }
    }

    method CreateResource(mapping: string, d: Definition) returns (r: Response)
      modifies this`tick, this`calls, this`live
      ensures Create(env, old(View()), mapping, d) == Reply(View(), r)
    {
      var key := KeyOf(env, mapping, d);
      if !HasName(d) { key := key.(name := env.generated(tick)); }
      var answer := env.script(tick);
      tick := tick + 1;
      var wasLive := key in live;
      if !answer.Accurate? {
        r := Failure(answer);
      } else if key in live {
        r := ApiError(Code409);
      } else {
        live := live[key := env.render(d)];
        r := Got(CleanResource(live[key]));
      }
      calls := calls + [CreateCall(key, wasLive, !r.Got?)];
    }

    method UpdateResource(mapping: string, d: Definition) returns (r: Response)
      modifies this`tick, this`calls, this`live
      ensures Update(env, old(View()), mapping, d) == Reply(View(), r)
    {
      if "name" !in d.metadata { return Raised(KeyError); }
      if !HasName(d) { return ApiError(OtherCode); }
      var key, answer := KeyOf(env, mapping, d), env.script(tick);
      tick := tick + 1;
      if !answer.Accurate? {
        r := Failure(answer);
      } else if key in live {
        live := live[key := env.revise(live[key], d)];
        r := Got(CleanResource(live[key]));
      } else {
        r := ApiError(Code404);
      }
      calls := calls + [UpdateCall(key, !r.Got?)];
    }

    method DeleteResource(mapping: string, d: Definition) returns (r: Response)
      modifies this`tick, this`calls, this`live
      ensures Delete(env, old(View()), mapping, d) == Reply(View(), r)
    {
      if !HasName(d) { return ApiError(OtherCode); }
      var key, answer := KeyOf(env, mapping, d), env.script(tick);
      tick := tick + 1;
      var wasLive := key in live;
      if !answer.Accurate? {
        r := Failure(answer);
      } else if key in live {
        r := Got(CleanResource(live[key]));
        live := live - {key};
      } else {
        r := ApiError(Code404);
      }
      calls := calls + [DeleteCall(key, wasLive, !r.Got?)];
    }

    method CheckIfResourceExists(mapping: string, d: Definition) returns (e: Existence)
      modifies this`tick
      ensures CheckExists(env, old(View()), mapping, d) == Check(View(), e)
    {
      var r := ReadResource(mapping, d);
      match r {
        case Got(obj) => e := Present(obj);
        case ApiError(_) => e := Absent;
        case Raised(error) => e := Unknown(error);
      }
    }

    method HandleExistingResource(found: bool)
      modifies this`performTask
      ensures View() == HandleExisting(env, old(View()), found)
    {
      if (found && env.external) || (found && !env.external && env.useIfExists) {
        performTask := false;
      } else if (!found && !env.external) || (!found && env.external && env.createIfMissing) {
        performTask := true;
      } else {
        performTask := false;
      }
    }

    method HandleDeleteResource(found: bool)
      modifies this`performTask
      ensures View() == HandleDelete(env, old(View()), found)
    {
      performTask := !(found && env.external);
    }

    method DoResourceCreate(mapping: string, d: Definition) returns (r: Response)
      modifies this`tick, this`calls, this`live
      ensures DoCreate(env, old(View()), mapping, d) == Reply(View(), r)
    {
      if !performTask {
        r := ReadResource(mapping, d);
      } else {
        r := CreateResource(mapping, d);
      }
    }

    method DoResourceDelete(mapping: string, d: Definition) returns (r: Response)
      modifies this`tick, this`calls, this`live, this`performTask
      ensures DoDelete(env, old(View()), mapping, d) == Reply(View(), r)
    {
      var e := CheckIfResourceExists(mapping, d);
      if e.Unknown? { return Raised(e.error); }
      HandleDeleteResource(Exists(e));
      if !performTask && e.Present? { return Got(CleanResource(e.obj)); }
      r := DeleteResource(mapping, d);
    }

    // ------------------------------------------------------- file deletion

    method GetPathWithAdjacentResources(path: string, d: Definition, mapping: string) returns (t: Target)
      modifies this`kubernetes, this`resourceDefinitions
      ensures ResolveTarget(env, old(View()), path, d, mapping) == Resolution(View(), t)
    {
      var found := RetrieveLastPath(path, true);
      if found.BadPath? { return Unresolved(ValueError); }
      if found.Found? && found.resource.kind.Some? && found.resource.metadata.Some? {
        var version := EitherVersion(found.resource);
        if version.None? { return Unresolved(NonRecoverableError); }
        var target := Definition(LastSegment(found.resource.kind.value), version.value, found.resource.metadata.value,
          map[]);
        var m := env.mappingByKind(target);
        if m.None? { return Unresolved(MappingNotFoundError); }
        return Resolved(found.adjacent, target, m.value);
      }
      var lookup := RetrieveStoredResource(d, mapping, true);
      match lookup {
        case LookedUp(definition, m) => t := Resolved([], definition, m);
        case LookupFailed(e) => t := Unresolved(e);
      }
    }

    method PreparePvc(mapping: string, d: Definition) returns (error: Option<Error>)
      modifies this`tick, this`calls, this`live
      ensures PreparePvcDelete(env, old(View()), mapping, d) == Storing(View(), error)
    {
      var r := UpdateResource(mapping, WithoutFinalizers(d));
      error := if r.Raised? then Some(r.error) else None;
    }

    method DeleteWhileAdjacentResources(mapping: string, d: Definition, path: string,
            adjacent: FileMap) returns (out: Outcome)
      modifies this
      ensures DeleteTarget(env, old(View()), mapping, d, path, adjacent) == Result(View(), out)
    {
      if "name" !in d.metadata { return Fail(KeyError); }
      var r := DoResourceDelete(mapping, d);
      match r {
        case ApiError(_) => return Fail(TypeError);
        case Raised(e) => return Fail(e);
        case Got(obj) =>
          HandleDeleteResource(true);
          if env.pvcProtected(obj) {
            var error := PreparePvc(mapping, d);
            if error.Some? { return Fail(error.value); }
          }
          if !performTask { return Done; }
          var error := StoreResultForRetrieveId(Stored(d), path);
          if error.Some? { return Fail(error.value); }
          error := RestoreAdjacent(adjacent);
          if error.Some? { return Fail(error.value); }
          out := Retry(false);
      }
    }

    method FileResourceDelete(mapping: string, d: Definition, path: string) returns (out: Outcome)
      modifies this
      ensures DeleteFile(env, old(View()), mapping, d, path) == Result(View(), out)
      decreases |kubernetes|, 0
    {
      ghost var start := View();
      ResolveTargetFrame(env, start, path, d, mapping);
      var target := GetPathWithAdjacentResources(path, d, mapping);
      if target.Unresolved? { return Fail(target.error); }
      var adjacent := target.adjacent;
      var answer := ReadResource(target.mapping, target.definition);
      match ReadingOf(answer) {
        case Unreadable(e) =>
          return Fail(e);
        case Missing =>
          if adjacent == [] { return Done; }
          out := DeleteAdjacentResources(adjacent, target.definition, path);
          if !out.Done? { return; }
        case Readable =>
          out := DeleteWhileAdjacentResources(target.mapping, target.definition, path, adjacent);
          if !out.Done? || adjacent == [] { return; }
      }
      var error := RestoreAdjacent(adjacent);
      out := if error.Some? then Fail(error.value) else Retry(false);
    }

    /** The loop over adjacent resources: complete ones are deleted by inner calls. */
    method DeleteAdjacentResources(adjacent: FileMap, outer: Definition, path: string) returns (out: Outcome)
      modifies this
      ensures DeleteInner(env, old(View()), adjacent, outer, path) == Result(View(), out)
      decreases |kubernetes|, 1
    {
      for i := 0 to |adjacent|
        invariant DeleteInner(env, old(View()), adjacent, outer, path) ==
            DeleteInner(env, View(), adjacent[i..], outer, path)
        invariant |kubernetes| <= old(|kubernetes|)
      {
        assert adjacent[i..][0] == adjacent[i] && adjacent[i..][1..] == adjacent[i + 1..];
        var inner := InnerDefinition(adjacent[i].resource);
        if inner.Some? {
          var m := env.mappingByKind(outer);
          if m.None? { return Fail(MappingNotFoundError); }
          out := FileResourceDelete(m.value, inner.value, path);
          if out.Retry? { return Retry(true); }
          if out.Fail? { return; }
        }
      }
      out := Done;
    }

    // --------------------------------------------------------------- tasks

    method StoreResponse(r: Response, path: string) returns (out: Outcome)
      modifies this`kubernetes, this`single, this`resourceDefinitions
      ensures StoreAnswer(Reply(old(View()), r), path) == Result(View(), out)
    {
      if !r.Got? { return Fail(ErrorOf(r)); }
      var error := StoreResultForRetrieveId(r.obj, path);
      out := if error.Some? then Fail(error.value) else Done;
    }

    method FileResourceCreate(mapping: string, d: Definition, path: string) returns (out: Outcome)
      modifies this
      ensures RunFileCreate(env, old(View()), mapping, d, path) == Result(View(), out)
    {
      var e := CheckIfResourceExists(mapping, d);
      if e.Unknown? { return Fail(e.error); }
      HandleExistingResource(Exists(e));
      if performTask {
        var r := DoResourceCreate(mapping, d);
        out := StoreResponse(r, path);
      } else if e.Present? {
        out := StoreResponse(Got(e.obj), path);
      } else {
        out := Fail(TypeError);
      }
    }

    method ResourceUpdate(mapping: string, d: Definition, path: string) returns (out: Outcome)
      modifies this
      ensures StoreAnswer(Update(env, old(View()), mapping, d), path) == Result(View(), out)
    {
      var r := UpdateResource(mapping, d);
      out := StoreResponse(r, path);
    }

    method ReadAndWatch(mapping: string, d: Definition, path: string) returns (out: Outcome)
      modifies this
      ensures var r := Read(env, old(View()), mapping, d);
              (if r.response.Got? then WatchStatus(env, StoreAnswer(r, path), d.kind, r.response.obj)
                else StoreAnswer(r, path))
              == Result(View(), out)
    {
      var r := ReadResource(mapping, d);
      out := StoreResponse(r, path);
      if r.Got? && out.Done? && d.kind != "" {
        match env.status(d.kind, r.obj) {
          case Pending => out := Retry(false);
          case Broken => out := Fail(KeyError);
          case _ =>
        }
      }
    }

    method FileResourceRead(mapping: string, d: Definition, path: string) returns (out: Outcome)
      modifies this
      ensures RunFileRead(env, old(View()), mapping, d, path) == Result(View(), out)
    {
      var found := RetrieveLastPath(path, false);
      if found.NoResource? { return Fail(NonRecoverableError); }
      if found.BadPath? { return Fail(ValueError); }
      out := ReadAndWatch(mapping, d, path);
    }

    method CreateResourceOnce(mapping: string, d: Definition) returns (r: Response)
      modifies this`tick, this`calls, this`live
      ensures CreateOnce(env, old(View()), mapping, d) == Reply(View(), r)
    {
      r := DoResourceCreate(mapping, d);
      if r == ApiError(Code409) { r := Raised(NonRecoverableError); }
    }

    method ResourceCheckStatus(mapping: string, d: Definition, heal: bool) returns (out: Outcome)
      modifies this
      ensures RunCheckStatus(env, old(View()), mapping, d, heal) == Result(View(), out)
    {
      var r := ReadResource(mapping, d);
      match r {
        case Got(obj) =>
          if d.kind == "" { return Done; }
          match env.status(d.kind, obj) {
            case Ready => out := Done;
            case Bad => out := Fail(BadStatusError);
            case Pending => out := Retry(false);
            case Broken => out := Fail(KeyError);
          }
        case ApiError(_) =>
          if !heal { return Fail(ApiOperationError); }
          performTask := true;
          var c := CreateResourceOnce(mapping, d);
          out := if c.Got? then Retry(false) else Fail(ErrorOf(c));
        case Raised(e) =>
          out := Fail(e);
      }
    }

    method ResourceDelete(mapping: string, d: Definition) returns (out: Outcome)
      modifies this
      ensures RunSingleDelete(env, old(View()), mapping, d) == Result(View(), out)
    {
      var r := ReadResource(mapping, d);
      if r.Raised? { return Fail(r.error); }
      if r.ApiError? { return if r.code.Code404? then Done else Fail(RecoverableError); }
      var stored := RetrieveStoredResource(d, mapping, true);
      if stored.LookupFailed? { return Fail(stored.error); }
      var deleted := DoResourceDelete(stored.mapping, stored.definition);
      if !deleted.Got? { return Fail(ErrorOf(deleted)); }
      HandleDeleteResource(TruthyResource(r.obj));
      if !performTask { return Done; }
      var error := StoreResultForRetrieveId(r.obj, "");
      out := if error.Some? then Fail(error.value) else Retry(false);
    }

    method Perform(t: Task, mapping: string, d: Definition, path: string) returns (out: Outcome)
      modifies this
      ensures RunTask(env, old(View()), t, mapping, d, path) == Result(View(), out)
    {
      match t {
        case FileCreate => out := FileResourceCreate(mapping, d, path);
        case FileUpdate => out := ResourceUpdate(mapping, d, path);
        case FileRead => out := FileResourceRead(mapping, d, path);
        case FileDelete => out := FileResourceDelete(mapping, d, path);
        case SingleCreate =>
          var r := CreateResourceOnce(mapping, d);
          out := StoreResponse(r, "");
        case SingleUpdate => out := ResourceUpdate(mapping, d, "");
        case SingleRead => out := ReadAndWatch(mapping, d, "");
        case SingleDelete => out := ResourceDelete(mapping, d);
        case CheckStatus(heal) => out := ResourceCheckStatus(mapping, d, heal);
      }
    }

    method CurrentStateOf(op: Operation, mapping: string, d: Definition, path: string) returns (e: Existence)
      modifies this`tick
      ensures CurrentState(env, old(View()), op, mapping, d, path) == Check(View(), e)
    {
      if StateChecked(op.task) && HasName(d) {
        e := CheckIfResourceExists(mapping, d);
      } else {
        var recorded := if path != "" then Lookup(kubernetes, path) else single;
        e := if recorded.Some? then Present(recorded.value) else Absent;
      }
    }

    /** One definition: find its mapping, check the state, perform, clean up. */
    method OneDefinition(op: Operation, d: Definition, path: string, ghost i: nat) returns (out: Outcome)
      requires i < |op.definitions| && d == op.definitions[i] && path == PathFor(op, i)
      modifies this
      ensures Step(env, old(View()), op, i) == Result(View(), out)
    {
      var mapping := env.resolver.mappingWithOptions(d);
      if mapping.None? { return Fail(MappingNotFoundError); }
      var current := CurrentStateOf(op, mapping.value, d, path);
      if current.Unknown? { return Fail(current.error); }
      HandleExistingResource(Exists(current));
      out := Perform(op.task, mapping.value, d, path);
      if !out.Done? { return; }
      performTask := false;
      if Exists(current) && CleansUp(op.task) {
        if path != "" && Has(kubernetes, path) {
          kubernetes := Drop(kubernetes, path);
        } else {
          kubernetes, single := [], None;
        }
      }
    }

    /** `_multidefinition_resource_task`: the definitions in turn, numbered under the origin
        path when there is one; the first exception ends the pass. */
    method MultidefinitionResourceTask(op: Operation) returns (out: Outcome)
      modifies this
      ensures Pass(env, old(View()), op, 0) == Result(View(), out)
    {
      var currNum := 0;
      for i := 0 to |op.definitions|
        invariant Pass(env, old(View()), op, 0) == Pass(env, View(), op, i)
        invariant op.origin.Some? && op.origin.value != "" ==> currNum == i
      {
        var path := op.path;
        if op.origin.Some? && op.origin.value != "" {
          path := NumberedPath(op.origin.value, currNum);
          currNum := currNum + 1;
        }
        out := OneDefinition(op, op.definitions[i], path, i);
        if !out.Done? { return; }
      }
      out := Done;
    }
  }
}
