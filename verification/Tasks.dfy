/**
 * The operations on one definition, and the pass of an operation over all definitions of
 * a node: path numbering, state check, task, clean-up.
 */
module Tasks {
  import opened Options
  import opened Definitions
  import opened Paths
  import opened Record
  import opened FileMaps
  import opened Cluster
  import opened FileDeletion

  /** File operations, and those of blueprint-defined resources.  `heal` says that a status
      check runs as the first try of a heal workflow. */
  datatype Task =
    | FileCreate | FileUpdate | FileRead | FileDelete
    | SingleCreate | SingleUpdate | SingleRead | SingleDelete
    | CheckStatus(heal: bool)

  /** Operations registered with `resource_state_function`. */
  predicate StateChecked(t: Task) {
    t.FileDelete? || t.SingleCreate? || t.SingleUpdate? || t.SingleRead? || t.SingleDelete?
  }

  /** Operations registered with `cleanup_runtime_properties`. */
  predicate CleansUp(t: Task) {
    t.FileDelete? || t.SingleDelete?
  }

  function ErrorOf(r: Response): Error
    requires !r.Got?
  {
    if r.Raised? then r.error else ApiOperationError
  }

  function Stop(st: State, e: Error): Result {
    Result(st, Fail(e))
  }

  function StoreAnswer(r: Reply, path: string): Result {
    if !r.response.Got? then Stop(r.st, ErrorOf(r.response))
    else
      var s := StoreResult(r.st, r.response.obj, path);
      Result(s.st, if s.error.Some? then Fail(s.error.value) else Done)
  }

  /** `_do_resource_status_check` after a read whose verdict is not looked at. */
  function WatchStatus(env: Env, r: Result, kind: string, obj: Resource): Result {
    if !r.out.Done? || kind == "" then r
    else match env.status(kind, obj)
      case Pending => Result(r.st, Retry(false))
      case Broken => Stop(r.st, KeyError)
      case _ => r
  }

  function RunFileCreate(env: Env, st: State, mapping: string, d: Definition, path: string): Result {
    var c := CheckExists(env, st, mapping, d);
    if c.existence.Unknown? then Stop(c.st, c.existence.error)
    else
      var handled := HandleExisting(env, c.st, Exists(c.existence));
      if handled.perform then StoreAnswer(DoCreate(env, handled, mapping, d), path)
      else if c.existence.Present? then StoreAnswer(Reply(handled, Got(c.existence.obj)), path)
      else Stop(handled, TypeError)
  }

  function RunFileRead(env: Env, st: State, mapping: string, d: Definition, path: string): Result {
    var found := PeekLastCreatePath(st.files, st.defs, path);
    if found.NoResource? then Stop(st, NonRecoverableError)
    else if found.BadPath? then Stop(st, ValueError)
    else
      var r := Read(env, st, mapping, d);
      if r.response.Got? then WatchStatus(env, StoreAnswer(r, path), d.kind, r.response.obj) else StoreAnswer(r, path)
  }

  function RunSingleRead(env: Env, st: State, mapping: string, d: Definition): Result {
    var r := Read(env, st, mapping, d);
    if r.response.Got? then WatchStatus(env, StoreAnswer(r, ""), d.kind, r.response.obj) else StoreAnswer(r, "")
  }

  /** `_resource_create`: a conflict is not recoverable. */
  function CreateOnce(env: Env, st: State, mapping: string, d: Definition): Reply {
    var r := DoCreate(env, st, mapping, d);
    if r.response == ApiError(Code409) then Reply(r.st, Raised(NonRecoverableError)) else r
  }

  /** `_resource_check_status`: while healing, an object that cannot be read is created. */
  function RunCheckStatus(env: Env, st: State, mapping: string, d: Definition, heal: bool): Result {
    var r := Read(env, st, mapping, d);
    match r.response
    case Got(obj) =>
      if d.kind == "" then Result(r.st, Done)
      else (match env.status(d.kind, obj)
            case Ready => Result(r.st, Done)
            case Bad => Stop(r.st, BadStatusError)
            case Pending => Result(r.st, Retry(false))
            case Broken => Stop(r.st, KeyError))
    case ApiError(_) =>
      if !heal then Stop(r.st, ApiOperationError)
      else
        var c := CreateOnce(env, r.st.(perform := true), mapping, d);
        if c.response.Got? then Result(c.st, Retry(false)) else Stop(c.st, ErrorOf(c.response))
    case Raised(e) => Stop(r.st, e)
  }

  /** `resource_delete`. */
  function RunSingleDelete(env: Env, st: State, mapping: string, d: Definition): Result {
    var r := Read(env, st, mapping, d);
    match r.response
    case ApiError(Code404) => Result(r.st, Done)
    case ApiError(_) => Stop(r.st, RecoverableError)
    case Raised(e) => Stop(r.st, e)
    case Got(obj) =>
      var stored := RetrieveStored(env.resolver, r.st.defs, d, mapping, true);
      var popped := r.st.(defs := stored.defs);
      if stored.lookup.LookupFailed? then Stop(popped, stored.lookup.error)
      else
        var deleted := DoDelete(env, popped, stored.lookup.mapping, stored.lookup.definition);
        if !deleted.response.Got? then Stop(deleted.st, ErrorOf(deleted.response))
        else
          var handled := HandleDelete(env, deleted.st, TruthyResource(obj));
          if !handled.perform then Result(handled, Done)
          else
            var s := StoreResult(handled, obj, "");
            Result(s.st, if s.error.Some? then Fail(s.error.value) else Retry(false))
  }

  function RunTask(env: Env, st: State, t: Task, mapping: string, d: Definition, path: string): Result {
    match t
    case FileCreate => RunFileCreate(env, st, mapping, d, path)
    case FileUpdate => StoreAnswer(Update(env, st, mapping, d), path)
    case FileRead => RunFileRead(env, st, mapping, d, path)
    case FileDelete => DeleteFile(env, st, mapping, d, path)
    case SingleCreate => StoreAnswer(CreateOnce(env, st, mapping, d), "")
    case SingleUpdate => StoreAnswer(Update(env, st, mapping, d), "")
    case SingleRead => RunSingleRead(env, st, mapping, d)
    case SingleDelete => RunSingleDelete(env, st, mapping, d)
    case CheckStatus(heal) => RunCheckStatus(env, st, mapping, d, heal)
  }

  // ---------------------------------------------- the pass over definitions

  /** An operation: its task, its definitions, the path the definitions are numbered under
      (if they are), and the path otherwise in use ("" for blueprint resources). */
  datatype Operation = Operation(task: Task, definitions: seq<Definition>, origin: Option<string>, path: string)

  function PathFor(op: Operation, i: nat): string {
    if op.origin.Some? && op.origin.value != "" then NumberedPath(op.origin.value, i) else op.path
  }

  /** The state that decides whether the task performs, and whether it was found. */
  function CurrentState(env: Env, st: State, op: Operation, mapping: string, d: Definition, path: string): Check {
    if StateChecked(op.task) && HasName(d) then CheckExists(env, st, mapping, d)
    else
      var recorded := if path != "" then Lookup(st.files, path) else st.single;
      Check(st, if recorded.Some? then Present(recorded.value) else Absent)
  }

  /** After a successful task that found something: its path goes, or the whole map. */
  function CleanUp(st: State, op: Operation, found: bool, path: string): State {
    if !found || !CleansUp(op.task) then st
    else if path != "" && Has(st.files, path) then st.(files := Drop(st.files, path))
    else st.(files := [], single := None)
  }

  /** One definition of the pass. */
  function Step(env: Env, st: State, op: Operation, i: nat): Result
    requires i < |op.definitions|
  {
    var d, path := op.definitions[i], PathFor(op, i);
    var m := env.resolver.mappingWithOptions(d);
    if m.None? then Stop(st, MappingNotFoundError)
    else
      var current := CurrentState(env, st, op, m.value, d, path);
      if current.existence.Unknown? then Stop(current.st, current.existence.error)
      else
        var found := Exists(current.existence);
        var r := RunTask(env, HandleExisting(env, current.st, found), op.task, m.value, d, path);
        if r.out.Done? then Result(CleanUp(r.st.(perform := false), op, found, path), Done) else r
  }

  /** The rest of the pass, from definition `i` on; it stops at the first exception. */
  function Pass(env: Env, st: State, op: Operation, i: nat): Result
    requires i <= |op.definitions|
    decreases |op.definitions| - i
  {
    if i == |op.definitions| then Result(st, Done)
    else
      var r := Step(env, st, op, i);
      if r.out.Done? then Pass(env, r.st, op, i + 1) else r
  }

  /** A run executes operations one after the other, whatever each of them ends with: a
      retry is an operation that comes again. */
  function Run(env: Env, st: State, ops: seq<Operation>): State
    decreases |ops|
  {
    if ops == [] then st else Run(env, Pass(env, st, ops[0], 0).st, ops[1..])
  }
}
