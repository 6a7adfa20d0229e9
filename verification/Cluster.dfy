/**
 * The state an operation works on (record and cluster together), the Kubernetes client's
 * calls, and the decisions of `tasks/api_calls.py` to perform or to skip them.
 */
module Cluster {
  import opened Options
  import opened JsonValues
  import opened Definitions
  import opened Record
  import opened FileMaps

  /** Where an object lives: the mapping its API calls go through, the namespace sent with
      them (none for cluster-wide calls), and its name. */
  datatype Key = Key(mapping: string, namespace: Option<Json>, name: Json)

  /** How the API answers one call: accurately, with an error, or with a stale object and
      no effect (an accepted deletion that has not happened yet, say). */
  datatype Answer = Accurate | Answer404 | AnswerOther | AnswerNamespaceClash | Stale(obj: Resource)

  /** What a status check makes of a response: ready, bad, not there yet, or no answer. */
  datatype Status = Ready | Bad | Pending | Broken

  /** Node properties and foreign code.  `render` is what the server makes of a definition,
      `revise` what it makes of a live object updated with one (replaced or patched, as the
      mapping goes), `shownNamespace` the namespace its objects show (null for cluster-wide
      ones, whatever was sent), `generated` the name it makes up for a nameless one, `pvcProtected` tells whether a
      response mentions the finalizer that protects volume claims. */
  datatype Env = Env(
    script: nat -> Answer,
    namespace: Option<Json>,
    external: bool,
    createIfMissing: bool,
    useIfExists: bool,
    resolver: Resolver,
    mappingByKind: Definition -> Option<string>,
    render: Definition -> Resource,
    revise: (Resource, Definition) -> Resource,
    shownNamespace: Definition -> Json,
    generated: nat -> Json,
    pvcProtected: Resource -> bool,
    status: (string, Resource) -> Status)

  ghost predicate AccurateApi(env: Env) {
    forall n :: env.script(n) == Accurate
  }

  /** The calls that can change the cluster, with whether their key was live, and whether
      they were answered with an error. */
  datatype Call =
    | CreateCall(key: Key, wasLive: bool, refused: bool)
    | UpdateCall(key: Key, refused: bool)
    | DeleteCall(key: Key, wasLive: bool, refused: bool)

  /** `files` is the `kubernetes` map of file nodes, `single` the one object of blueprint
      nodes, `perform` the `__perform_task` flag. */
  datatype State = State(
    files: FileMap,
    single: Option<Resource>,
    defs: seq<Resource>,
    perform: bool,
    live: map<Key, Resource>,
    tick: nat,
    calls: seq<Call>)

  datatype Code = Code404 | Code409 | OtherCode

  datatype Response =
    | Got(obj: Resource)
    | ApiError(code: Code)
    | Raised(error: Error)

  datatype Reply = Reply(st: State, response: Response)

  /** The namespace of the request: that of the metadata when there is one and namespaces
      are sent at all, otherwise the node's option. */
  function NamespaceSent(env: Env, metadata: Dict): Option<Json> {
    if env.namespace.Some? && "namespace" in metadata && Truthy(metadata["namespace"]) then Some(metadata["namespace"])
    else env.namespace
  }

  function KeyOf(env: Env, mapping: string, d: Definition): Key {
    Key(mapping, NamespaceSent(env, d.metadata), NameIn(Some(d.metadata)))
  }

  /** Without a name the call lacks a mandatory argument. */
  predicate HasName(d: Definition) {
    Truthy(NameIn(Some(d.metadata)))
  }

  function Failure(a: Answer): Response
    requires !a.Accurate?
  {
    match a
    case Answer404 => ApiError(Code404)
    case AnswerOther => ApiError(OtherCode)
    case AnswerNamespaceClash => Raised(NonRecoverableError)
    case Stale(obj) => Got(CleanResource(obj))
  }

  /** A call made, and how it is answered. */
  function Called(st: State, call: Call, response: Response): Reply
    requires call.refused == !response.Got?
  {
    Reply(st.(tick := st.tick + 1, calls := st.calls + [call]), response)
  }

  function Read(env: Env, st: State, mapping: string, d: Definition): Reply {
    if "name" !in d.metadata then Reply(st, Raised(KeyError))
    else if !HasName(d) then Reply(st, ApiError(OtherCode))
    else
      var key, answer := KeyOf(env, mapping, d), env.script(st.tick);
      Reply(st.(tick := st.tick + 1),
            if !answer.Accurate? then Failure(answer)
            else if key in st.live then Got(CleanResource(st.live[key]))
            else ApiError(Code404))
  }

  function Create(env: Env, st: State, mapping: string, d: Definition): Reply {
    var key := if HasName(d) then KeyOf(env, mapping, d) else KeyOf(env, mapping, d).(name := env.generated(st.tick));
    var answer := env.script(st.tick);
    if !answer.Accurate? then Called(st, CreateCall(key, key in st.live, !Failure(answer).Got?), Failure(answer))
    else if key in st.live then Called(st, CreateCall(key, true, true), ApiError(Code409))
    else
      Called(st.(live := st.live[key := env.render(d)]), CreateCall(key, false, false),
        Got(CleanResource(env.render(d))))
  }

  function Update(env: Env, st: State, mapping: string, d: Definition): Reply {
    if "name" !in d.metadata then Reply(st, Raised(KeyError))
    else if !HasName(d) then Reply(st, ApiError(OtherCode))
    else
      var key, answer := KeyOf(env, mapping, d), env.script(st.tick);
      if !answer.Accurate? then Called(st, UpdateCall(key, !Failure(answer).Got?), Failure(answer))
      else if key in st.live then
        var revised := env.revise(st.live[key], d);
        Called(st.(live := st.live[key := revised]), UpdateCall(key, false), Got(CleanResource(revised)))
      else Called(st, UpdateCall(key, true), ApiError(Code404))
  }

  /** Deletion answers with the object it deletes. */
  function Delete(env: Env, st: State, mapping: string, d: Definition): Reply {
    if !HasName(d) then Reply(st, ApiError(OtherCode))
    else
      var key, answer := KeyOf(env, mapping, d), env.script(st.tick);
      if !answer.Accurate? then Called(st, DeleteCall(key, key in st.live, !Failure(answer).Got?), Failure(answer))
      else if key in st.live then
        Called(st.(live := st.live - {key}), DeleteCall(key, true, false), Got(CleanResource(st.live[key])))
      else Called(st, DeleteCall(key, false, true), ApiError(Code404))
  }

  // ---------------------------------------------------- perform or skip

  /** `_check_if_resource_exists`: any API error reads as "not there". */
  datatype Existence = Present(obj: Resource) | Absent | Unknown(error: Error)

  datatype Check = Check(st: State, existence: Existence)

  function CheckExists(env: Env, st: State, mapping: string, d: Definition): Check {
    var r := Read(env, st, mapping, d);
    Check(r.st,
          match r.response
          case Got(obj) => Present(obj)
          case ApiError(_) => Absent
          case Raised(e) => Unknown(e))
  }

  predicate Exists(e: Existence) {
    e.Present? && TruthyResource(e.obj)
  }

  /** `handle_existing_resource`: its flag table. */
  function HandleExisting(env: Env, st: State, found: bool): State {
    var noCreate := (found && env.external) || (found && !env.external && env.useIfExists);
    var create := (!found && !env.external) || (!found && env.external && env.createIfMissing);
    st.(perform := if noCreate then false else create)
  }

  /** The table says: perform exactly when nothing was found and, for external resources,
      creation of missing ones is asked for; `use_if_exists` never makes a difference. */
  lemma {:induction false} PerformsExactly(env: Env, st: State, found: bool)
    ensures HandleExisting(env, st, found).perform <==> !found && (env.external ==> env.createIfMissing)
  {
  }

  /** `handle_delete_resource`. */
  function HandleDelete(env: Env, st: State, found: bool): State {
    st.(perform := !(found && env.external))
  }

  /** `_do_resource_create`. */
  function DoCreate(env: Env, st: State, mapping: string, d: Definition): Reply {
    if !st.perform then Read(env, st, mapping, d) else Create(env, st, mapping, d)
  }

  /** `_do_resource_delete`. */
  function DoDelete(env: Env, st: State, mapping: string, d: Definition): Reply {
    var c := CheckExists(env, st, mapping, d);
    if c.existence.Unknown? then Reply(c.st, Raised(c.existence.error))
    else
      var handled := HandleDelete(env, c.st, Exists(c.existence));
      if !handled.perform && c.existence.Present? then Reply(handled, Got(CleanResource(c.existence.obj)))
      else Delete(env, handled, mapping, d)
  }

  // --------------------------------------------------------- storing results

  datatype Storing = Storing(st: State, error: Option<Error>)

  /** `result.get('api_version', result.get('apiVersion'))`. */
  function VersionOf(result: Resource): Option<string> {
    if result.snakeVersion.Some? then result.snakeVersion else result.apiVersion
  }

  /** `store_result_for_retrieve_id`.  The stored definition shares its metadata with the
      result, so cleaning the one cleans the other. */
  function StoreResult(st: State, result: Resource, path: string): Storing {
    if result.kind.None? || result.metadata.None? then Storing(st, Some(KeyError))
    else if VersionOf(result).None? then Storing(st, Some(InvalidDefinitionError))
    else
      var d := Definition(LastSegment(result.kind.value), VersionOf(result).value, result.metadata.value, map[]);
      var stored := st.(defs := StoreDefinition(st.defs, d));
      Storing(if path != "" then stored.(files := Put(st.files, path, CleanMetadata(result)))
              else stored.(single := Some(CleanMetadata(result))), None)
  }

  /** Storing entries back one after the other, up to the first failure. */
  function StoreEntries(st: State, entries: FileMap): Storing
    decreases |entries|
  {
    if entries == [] then Storing(st, None)
    else
      var s := StoreResult(st, entries[0].resource, entries[0].path);
      if s.error.Some? then s else StoreEntries(s.st, entries[1..])
  }
}
