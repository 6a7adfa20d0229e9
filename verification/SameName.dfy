/**
 * A file of two objects of one kind and name in two namespaces, neither of them the configured
 * one: they are created and deleted apart.
 */
module SameName {
  import opened Options
  import opened JsonValues
  import opened Definitions
  import opened Paths
  import opened Record
  import opened Cluster
  import opened FileDeletion
  import opened Convergence
  import opened Fallback
  import opened Tasks
  import opened Agreement
  import opened Conservation
  import opened Creation
  import opened Retries
  import opened RecordKeeping
  import opened Lifecycle
  import opened FullRemoval
  import opened Leftovers
  import opened Examples

  /** A config map of a name and a namespace. */
  function Placed(name: string, namespace: string): Definition {
    Definition("ConfigMap", "v1", map["name" := Str(name), "namespace" := Str(namespace)], map[])
  }

  /** The server of the examples, with `default` configured; its objects show their namespace. */
  function Spaces(): Env {
    Server(false, true).(namespace := Some(Str("default")),
      shownNamespace := (d: Definition) => NamespaceIn(Some(d.metadata)))
  }

  const PROD := Placed("a", "prod")
  const TEST := Placed("a", "test")
  const BOTH := Operation(FileDelete, [PROD, TEST], Some("one.yaml"), "one.yaml")

  function PlaceIn(namespace: string): Key {
    Key("ConfigMap", Some(Str(namespace)), Str("a"))
  }

  lemma {:induction false} PlacedClean(d: Definition, namespace: string)
    requires d == Placed("a", namespace)
    ensures CleanDict(d.metadata) == d.metadata && CleanedDict(d.metadata)
    ensures CleanResource(Shown(d)) == Shown(d)
  {
    assert Clean(Str("a")) == Str("a") && Clean(Str(namespace)) == Str(namespace);
    assert CleanDict(d.metadata) == d.metadata;
    CleanDictFixed(d.metadata);
    assert CleanDict(map[]) == map[];
    hide LastSegment;
  }

  lemma {:induction false} PlacedKey(d: Definition, namespace: string)
    requires d == Placed("a", namespace) && namespace != ""
    ensures KeyBy(Spaces(), d) == PlaceIn(namespace)
  {
    hide LastSegment;
  }

  lemma {:induction false} PlacedFacts(d: Definition, namespace: string)
    requires d == Placed("a", namespace) && namespace != ""
    ensures CleanDict(d.metadata) == d.metadata && CleanedDict(d.metadata)
    ensures PutBackDefinition(d) == d && Plain(Spaces(), d) && KeyBy(Spaces(), d) == PlaceIn(namespace)
    ensures CleanResource(Shown(d)) == Shown(d)
  {
    PlacedClean(d, namespace);
    PlacedKey(d, namespace);
    PlacedComplete(d, namespace);
    hide *;
  }

  lemma {:induction false} PlacedComplete(d: Definition, namespace: string)
    requires d == Placed("a", namespace) && CleanDict(d.metadata) == d.metadata && CleanedDict(d.metadata)
    ensures PutBackDefinition(d) == d && Plain(Spaces(), d)
  {
    PlacedBare(d, namespace);
    assert NameIn(Some(d.metadata)) == Str("a");
    hide KeyOf, CleanDict, CleanedDict, CleanResource, LastSegment, PutBackDefinition;
  }

  lemma {:induction false} PlacedBare(d: Definition, namespace: string)
    requires d == Placed("a", namespace) && CleanDict(d.metadata) == d.metadata
    ensures PutBackDefinition(d) == d
  {
    hide LastSegment, CleanDict;
  }

  lemma {:induction false} PlacedServed(d: Definition, namespace: string)
    requires d == Placed("a", namespace) && namespace != ""
    ensures Served(Spaces(), d) && MappedKey(Spaces(), d) == PlaceIn(namespace)
    ensures Spaces().shownNamespace(d) == Str(namespace)
    ensures InnerDefinition(CleanResource(Spaces().render(d))).Some?
  {
    PlacedFacts(d, namespace);
    assert TargetDefinition(Shown(d)) == d;
    hide Plain, KeyBy, PutBackDefinition, CleanDict;
  }

  lemma {:induction false} ShownIsPlaced(d: Definition, namespace: string, obj: Resource)
    requires d == Placed("a", namespace) && namespace != "" && Shows(Spaces(), obj, d)
    ensures PlainObject(Spaces(), obj) && ObjectKey(Spaces(), obj) == KeyBy(Spaces(), d)
  {
    PlacedFacts(d, namespace);
    hide LastSegment, IdentityOf;
  }

  lemma {:induction false} BothAreFile()
    ensures PlainFile(Spaces(), BOTH) && ClientForm(Spaces(), BOTH) && NotCreated(Spaces(), BOTH, map[])
    ensures KeyBy(Spaces(), PROD) == PlaceIn("prod") && KeyBy(Spaces(), TEST) == PlaceIn("test")
  {
    OnePaths();
    PlacedIsServed(PROD, "prod");
    PlacedIsServed(TEST, "test");
    assert PlaceIn("prod") != PlaceIn("test");
    TwoAreFile(Spaces(), BOTH);
    hide *;
  }

  /** Two definitions that differ are a file. */
  lemma {:induction false} TwoAreFile(env: Env, op: Operation)
    requires |op.definitions| == 2 && op.origin.Some? && op.origin.value != "" && Stem(op.origin.value).Some?
    requires var d, e := op.definitions[0], op.definitions[1];
             && Served(env, d) && Served(env, e) && PlainlyServed(env, d) && PlainlyServed(env, e)
             && MappedKey(env, d) != MappedKey(env, e) && env.shownNamespace(d) != env.shownNamespace(e)
             && InnerDefinition(CleanResource(env.render(d))).Some?
             && InnerDefinition(CleanResource(env.render(e))).Some?
    ensures PlainFile(env, op) && ClientForm(env, op) && NotCreated(env, op, map[])
  {
    hide Served, PlainlyServed, Stem, InnerDefinition, MappedKey, CleanResource;
    assert Different(env, op.definitions[0], op.definitions[1]);
    forall d | d in op.definitions ensures d == op.definitions[0] || d == op.definitions[1] {
      var i :| 0 <= i < 2 && op.definitions[i] == d;
    }
  }

  lemma {:induction false} PlacedIsServed(d: Definition, namespace: string)
    requires d == Placed("a", namespace) && namespace != ""
    ensures Served(Spaces(), d) && MappedKey(Spaces(), d) == KeyBy(Spaces(), d) == PlaceIn(namespace)
    ensures PlainlyServed(Spaces(), d) && Spaces().shownNamespace(d) == Str(namespace)
    ensures InnerDefinition(CleanResource(Spaces().render(d))).Some?
  {
    PlacedServed(d, namespace);
    PlacedFacts(d, namespace);
    hide Served, Shows, PlainObject, KeyBy, Spaces, Plain, InnerDefinition, Placed;
    forall obj | Shows(Spaces(), obj, d)
      ensures PlainObject(Spaces(), obj) && ObjectKey(Spaces(), obj) == KeyBy(Spaces(), d) {
      ShownIsPlaced(d, namespace, obj);
    }
  }

  /** One pass creates both objects, under keys that differ in their namespace; the first delete
      pass removes the first object alone, and in the end both are gone. */
  lemma {:induction false} SameNameApart(run: nat -> State)
    requires run(0) == Pass(Spaces(), EMPTY, BOTH.(task := FileCreate), 0).st
    requires forall i: nat :: run(i + 1) == Pass(Spaces(), run(i), BOTH, 0).st
    ensures Pass(Spaces(), EMPTY, BOTH.(task := FileCreate), 0).out == Done
    ensures PlaceIn("prod") in run(0).live && PlaceIn("test") in run(0).live && PlaceIn("prod") != PlaceIn("test")
    ensures run(1).live.Keys == run(0).live.Keys - {PlaceIn("prod")}
    ensures File(Spaces(), BOTH) && exists n: nat :: RemovedCompletelyAt(Spaces(), BOTH, run, n)
  {
    BothAreFile();
    var env := Spaces();
    assert Deleting(env, BOTH) && env.namespace == Some(Str("default"));
    hide Pass, PlainFile, KeyBy, Begins, FitToDelete, AccurateApi, NotCreated, ClientForm, Spaces, Placed, File,
      DeleteFile;
    CreatedBegins(env, BOTH, EMPTY);
    BothBegin(run(0));
    FirstGoesAlone(env, BOTH, run(0));
    BothEnd(run);
  }

  /** When everything recorded is live, the first delete pass removes the object of the first
      definition and no other. */
  lemma {:induction false} FirstGoesAlone(env: Env, op: Operation, st: State)
    requires Deleting(env, op) && op.definitions != [] && Begins(env, op, st) && FitToDelete(env, op, st)
    ensures Pass(env, st, op, 0).st.live.Keys == st.live.Keys - {KeyBy(env, op.definitions[0])}
  {
    BeginsEntry(env, op, st, 0);
    FitAgrees(env, op, st);
    hide Pass, PlainFile, KeyBy, FitToDelete, AccurateApi, DeleteFile, Agrees, OneFile, SameStem, PathFor,
      PlainObject, LiveEntry, Stored, Aligned, FileRecord;
    var start, m := FirstStepRetries(env, op, st);
    FullRemoval.FirstDeletion(env, op, st, start, m);
  }

  lemma {:induction false} BothBegin(st: State)
    requires PlainFile(Spaces(), BOTH) && Begins(Spaces(), BOTH, st) && |st.files| == 2
    ensures KeyBy(Spaces(), PROD) in st.live && KeyBy(Spaces(), TEST) in st.live
    ensures AllAsCreated(Spaces(), BOTH, st)
  {
    assert BOTH.definitions[0] == PROD && BOTH.definitions[1] == TEST;
    hide KeyBy, Spaces, InnerDefinition, PlainFile, FileRecord, Aligned;
  }

  lemma {:induction false} BothEnd(run: nat -> State)
    requires Deleting(Spaces(), BOTH) && AllAsCreated(Spaces(), BOTH, run(0))
    requires run(0) == Pass(Spaces(), EMPTY, BOTH.(task := FileCreate), 0).st
    requires forall i: nat :: run(i + 1) == Pass(Spaces(), run(i), BOTH, 0).st
    ensures exists n: nat :: RemovedCompletelyAt(Spaces(), BOTH, run, n)
  {
    var create := BOTH.(task := FileCreate);
    var ops := [create];
    assert EMPTY.files == [] && EMPTY.defs == [] && EMPTY.live == map[];
    hide Pass, PlainFile, AccurateApi, Spaces, RemovedCompletelyAt, AllAsCreated, Placed, Remaining;
    assert ops[1..] == [] && forall o :: o in ops ==> OnFile(BOTH, o);
    LifeEndsWithNothing(Spaces(), BOTH, EMPTY, ops, run);
  }
}
