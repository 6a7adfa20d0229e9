/**
 * Small clusters and records in which what a deletion loses can be seen.
 */
module Examples {
  import opened Options
  import opened JsonValues
  import opened Definitions
  import opened Paths
  import opened Record
  import opened FileMaps
  import opened Cluster
  import opened FileDeletion
  import opened Convergence
  import opened Tasks
  import opened Safety
  import opened Agreement
  import opened Fallback
  import opened Conservation
  import opened Twins
  import opened Creation
  import opened External
  import opened Endings
  import opened Lifecycle
  import opened Removal
  import opened FullRemoval
  import opened Leftovers

  function Sample(kind: string, name: string): Definition {
    Definition(kind, "v1", map["name" := Str(name)], map[])
  }

  /** The server shows a definition under the client's version key. */
  function Shown(d: Definition): Resource {
    Resource(Some(d.kind), None, Some(d.apiVersion), Some(d.metadata), map[])
  }

  function Place(d: Definition): Key {
    Key(d.kind, None, NameIn(Some(d.metadata)))
  }

  /** A table of two kinds, each mapped to itself. */
  function MappingIn(d: Definition): Option<string> {
    if d.kind == "ConfigMap" || d.kind == "PersistentVolumeClaim" then Some(d.kind) else None
  }

  /** An accurate API. */
  function Server(external: bool, allowRedefinition: bool): Env {
    Env(_ => Accurate, None, external, false, false,
        Resolver(allowRedefinition, MappingIn), MappingIn,
        Shown, (r: Resource, d: Definition) => Shown(d), (d: Definition) => Str("default"), n => Str("generated"),
        (r: Resource) => r.metadata.Some? && "finalizers" in r.metadata.value, (k, r) => Ready)
  }

  const A := Sample("ConfigMap", "a")
  const B := Sample("ConfigMap", "b")
  const C := Sample("ConfigMap", "c")

  lemma {:induction false} CleanShown(kind: string, name: string)
    ensures CleanDict(map["name" := Str(name)]) == map["name" := Str(name)]
    ensures CleanResource(Shown(Sample(kind, name))) == Shown(Sample(kind, name))
    ensures CleanMetadata(Shown(Sample(kind, name))) == Shown(Sample(kind, name))
    ensures Stored(Sample(kind, name)) == DictOf(Sample(kind, name))
    ensures CleanMetadata(DictOf(Sample(kind, name))) == DictOf(Sample(kind, name))
    ensures Tidied(Sample(kind, name)) == Sample(kind, name)
  {
    assert Clean(Str(name)) == Str(name);
  }

  lemma {:induction false} OnePaths()
    ensures NumberedPath("one.yaml", 0) == "one.yaml#0" && NumberedPath("one.yaml", 1) == "one.yaml#1"
    ensures NumberedPath("one.yaml", 2) == "one.yaml#2"
    ensures Stem("one.yaml#0") == Stem("one.yaml#1") == Stem("one.yaml#2") == Some("one")
    ensures Stem("one.yaml") == Some("one") && Contains("one.yaml#0", "one") && Contains("one.yaml#1", "one")
    ensures Contains("one.yaml#2", "one")
  {
    assert YamlAt("one.yaml", 3) && forall j :: YamlAt("one.yaml", j) ==> j == 3;
    assert "one.yaml"[..3] == "one";
    StemAt("one.yaml", 3);
    assert Stem("one.yaml") == Some("one");
    NumberedPathStem("one.yaml", 0);
    NumberedPathStem("one.yaml", 1);
    NumberedPathStem("one.yaml", 2);
  }

  const CREATE := Operation(FileCreate, [A, B, C], Some("one.yaml"), "one.yaml")
  const DELETE := CREATE.(task := FileDelete)

  const EMPTY := State([], None, [], false, map[], 0, [])

  const ALL := [Entry("one.yaml#0", Shown(A)), Entry("one.yaml#1", Shown(B)), Entry("one.yaml#2", Shown(C))]

  lemma {:induction false} StoreShown(st: State, name: string, path: string)
    requires name != "" && path != "" && !Has(st.files, path)
    requires FirstMatch(st.defs, IdentityOf(DictOf(Sample("ConfigMap", name)))) == |st.defs|
    ensures var d := Sample("ConfigMap", name);
            StoreResult(st, Shown(d), path) ==
            Storing(st.(files := st.files + [Entry(path, Shown(d))], defs := st.defs + [DictOf(d)]), None)
  {
    CleanShown("ConfigMap", name);
    var d := Sample("ConfigMap", name);
    hide IdentityOf, LastSegment, FirstMatch, IndexOf;
    assert Definition(LastSegment("ConfigMap"), "v1", map["name" := Str(name)], map[]) == d;
    assert VersionOf(Shown(d)) == Some("v1") && Stored(d) == DictOf(d);
    hide Stored, DictOf;
  }

  lemma {:induction false} RunCreates(allow: bool, env: Env, st: State, name: string, path: string)
    requires env == Server(false, allow) && name != "" && path != "" && !Has(st.files, path)
    requires var d := Sample("ConfigMap", name);
             Place(d) !in st.live && FirstMatch(st.defs, IdentityOf(DictOf(d))) == |st.defs|
    ensures var d := Sample("ConfigMap", name);
            var r := RunFileCreate(env, st, "ConfigMap", d, path);
            && r.out == Done && r.st.files == st.files + [Entry(path, Shown(d))] && r.st.defs == st.defs + [DictOf(d)]
            && r.st.live == st.live[Place(d) := Shown(d)]
  {
    var d := Sample("ConfigMap", name);
    CleanShown("ConfigMap", name);
    ReadAccurately(env, st, "ConfigMap", d);
    var c := CheckExists(env, st, "ConfigMap", d);
    var handled := HandleExisting(env, c.st, Exists(c.existence));
    assert handled.perform;
    var r := Create(env, handled, "ConfigMap", d);
    assert KeyOf(env, "ConfigMap", d) == Place(d);
    assert r.response == Got(Shown(d)) && r.st.live == st.live[Place(d) := Shown(d)];
    StoreShown(r.st, name, path);
    hide StoreResult, FirstMatch, IndexOf;
  }

  const NAMES := ["a", "b", "c"]
  const DEFINED := [DictOf(A), DictOf(B), DictOf(C)]

  /** The state after the first definitions have been created. */
  ghost predicate CreatedUpTo(st: State, n: nat)
    requires n <= 3
  {
    && st.files == ALL[..n] && st.defs == DEFINED[..n]
    && st.live == LiveUpTo(n)
  }

  ghost function LiveUpTo(n: nat): map<Key, Resource>
    requires n <= 3
  {
    if n == 0 then map[]
    else var d := CREATE.definitions[n - 1]; LiveUpTo(n - 1)[Place(d) := Shown(d)]
  }

  lemma {:induction false} LiveKeys(n: nat)
    requires n <= 3
    ensures forall k :: k in LiveUpTo(n) ==> exists j :: 0 <= j < n && k == Place(CREATE.definitions[j])
  {
    if n > 0 { LiveKeys(n - 1); }
  }

  lemma {:induction false} Numbered(i: nat)
    requires i < 3
    ensures CREATE.definitions[i] == Sample("ConfigMap", NAMES[i]) && NAMES[i] != "" && PathFor(CREATE, i) != ""
    ensures ALL[i] == Entry(PathFor(CREATE, i), Shown(CREATE.definitions[i]))
    ensures DEFINED[i] == DictOf(CREATE.definitions[i])
    ensures forall j :: 0 <= j < i ==> ALL[j].path != PathFor(CREATE, i) && NAMES[j] != NAMES[i]
  {
    OnePaths();
    assert i == 0 || i == 1 || i == 2;
  }

  lemma {:induction false} NotYet(st: State, i: nat)
    requires i < 3 && CreatedUpTo(st, i)
    ensures var d := CREATE.definitions[i];
            && Place(d) !in st.live && !Has(st.files, PathFor(CREATE, i))
            && FirstMatch(st.defs, IdentityOf(DictOf(d))) == |st.defs|
  {
    Numbered(i);
    forall j | 0 <= j < i
      ensures Place(CREATE.definitions[j]) != Place(CREATE.definitions[i])
      ensures IdentityOf(st.defs[j]) != IdentityOf(DictOf(CREATE.definitions[i]))
    {
      Numbered(j);
    }
    HasExactly(st.files, PathFor(CREATE, i));
    LiveKeys(i);
  }

  lemma {:induction false} OneMore(before: State, after: State, i: nat)
    requires i < 3 && CreatedUpTo(before, i)
    requires after.files == before.files + [ALL[i]] && after.defs == before.defs + [DEFINED[i]]
    requires var d := CREATE.definitions[i]; after.live == before.live[Place(d) := Shown(d)]
    ensures CreatedUpTo(after, i + 1)
  {
    hide Place, Shown, Sample, DictOf;
    assert ALL[..i + 1] == ALL[..i] + [ALL[i]] && DEFINED[..i + 1] == DEFINED[..i] + [DEFINED[i]];
  }

  lemma {:induction false} StepCreates(allow: bool, st: State, i: nat)
    requires i < 3 && CreatedUpTo(st, i)
    ensures var r := Step(Server(false, allow), st, CREATE, i);
            r.out == Done && CreatedUpTo(r.st, i + 1)
  {
    var env, d := Server(false, allow), CREATE.definitions[i];
    Numbered(i);
    NotYet(st, i);
    StepOf(env, st, CREATE, i);
    assert env.resolver.mappingWithOptions(d) == Some("ConfigMap");
    hide Step, CreatedUpTo, RunFileCreate, Place, PathFor, IdentityOf, FirstMatch, IndexOf, Sample, DictOf, Shown,
      Server;
    var current := CurrentState(env, st, CREATE, "ConfigMap", d, PathFor(CREATE, i));
    var handled := HandleExisting(env, current.st, Exists(current.existence));
    RunCreates(allow, env, handled, NAMES[i], PathFor(CREATE, i));
    OneMore(st, Step(env, st, CREATE, i).st, i);
  }

  /** A file of three definitions, created. */
  lemma {:induction false} Created(allow: bool, st: State, i: nat)
    requires i <= 3 && CreatedUpTo(st, i)
    ensures var r := Pass(Server(false, allow), st, CREATE, i);
            r.out == Done && CreatedUpTo(r.st, 3)
    decreases 3 - i
  {
    hide Step, CreatedUpTo, Server;
    if i < 3 {
      StepCreates(allow, st, i);
      PassCases(Server(false, allow), st, CREATE, i);
      Created(allow, Step(Server(false, allow), st, CREATE, i).st, i + 1);
    }
  }

  // ------------------------------------------- a retry that loses entries

  /** The record the creation leaves, and the one after the first retry, which shows the
      primary object by its definition. */
  ghost predicate Recorded(st: State, first: Resource) {
    && (first == Shown(A) || first == DictOf(A))
    && st.files == [Entry("one.yaml#0", first), ALL[1], ALL[2]] && Agrees(st.files, st.defs)
    && CompleteRecord(Server(false, false), st)
  }

  lemma {:induction false} ItemIdentity(d: Definition, name: string)
    requires d == Sample("ConfigMap", name)
    ensures IdentityOf(Shown(d)) == IdentityOf(DictOf(d)) == Identity(Str(name), Some("ConfigMap"), Str("default"))
    ensures CleanedDict(d.metadata)
  {
  }

  lemma {:induction false} DefinedDistinct()
    ensures DistinctIdentities(DEFINED)
    ensures forall id :: HasIdentity(DEFINED, id) <==>
        id in {IdentityOf(DictOf(A)), IdentityOf(DictOf(B)), IdentityOf(DictOf(C))}
  {
    ItemIdentity(A, "a");
    ItemIdentity(B, "b");
    ItemIdentity(C, "c");
    assert forall i :: 0 <= i < 3 ==> DEFINED[i] == if i == 0 then DictOf(A) else if i == 1 then DictOf(B)
      else DictOf(C);
    assert IdentityOf(DEFINED[0]) == IdentityOf(DictOf(A));
    assert IdentityOf(DEFINED[1]) == IdentityOf(DictOf(B));
    assert IdentityOf(DEFINED[2]) == IdentityOf(DictOf(C));
  }

  lemma {:induction false} EntryFacts(e: Entry, d: Definition, name: string)
    requires d == Sample("ConfigMap", name) && (e.resource == Shown(d) || e.resource == DictOf(d))
    requires Stem(e.path).Some?
    ensures GoodEntry(e)
    ensures IdentityOf(e.resource) == IdentityOf(DictOf(d)) == Identity(Str(name), Some("ConfigMap"), Str("default"))
    ensures EitherVersion(e.resource).Some? && TargetDefinition(e.resource) == d
  {
    ItemIdentity(d, name);
  }

  lemma {:induction false} ThreeAgree(e0: Entry, e1: Entry, e2: Entry, defs: seq<Resource>, stem: string)
    requires GoodEntry(e0) && GoodEntry(e1) && GoodEntry(e2) && Separate(e0, e1) && Separate(e0, e2) && Separate(e1, e2)
    requires DistinctIdentities(defs) && HasIdentity(defs, IdentityOf(e0.resource))
    requires HasIdentity(defs, IdentityOf(e1.resource))
    requires HasIdentity(defs, IdentityOf(e2.resource)) && Stem(e0.path) == Some(stem)
    requires Contains(e0.path, stem) && Contains(e1.path, stem) && Contains(e2.path, stem)
    ensures Agrees([e0, e1, e2], defs) && OneFile([e0, e1, e2], e0.path)
  {
    hide Stem, Contains, IdentityOf, GoodEntry, Separate, HasIdentity, DistinctIdentities;
  }

  lemma {:induction false} AllAgree()
    ensures Agrees(ALL, DEFINED)
  {
    OnePaths();
    var e0, e1, e2 := ALL[0], ALL[1], ALL[2];
    EntryFacts(e0, A, "a");
    EntryFacts(e1, B, "b");
    EntryFacts(e2, C, "c");
    DefinedDistinct();
    ThreeAgree(e0, e1, e2, DEFINED, "one");
    assert ALL == [e0, e1, e2];
    hide Stem, Contains, IdentityOf, HasIdentity, Agrees, OneFile;
  }

  lemma {:induction false} CreatedIsRecorded(st: State)
    requires CreatedUpTo(st, 3)
    ensures Recorded(st, Shown(A)) && st.live.Keys == {Place(A), Place(B), Place(C)}
  {
    assert st.files == ALL && st.defs == DEFINED;
    AllAgree();
    AllComplete(st);
    assert LiveUpTo(3) == LiveUpTo(2)[Place(C) := Shown(C)] && LiveUpTo(2) == LiveUpTo(1)[Place(B) := Shown(B)];
    hide Agrees, CompleteRecord, Place, Shown;
  }

  lemma {:induction false} SampleFacts(d: Definition, name: string)
    requires d == Sample("ConfigMap", name) && name != ""
    ensures Complete(Server(false, false), Shown(d)) && Complete(Server(false, false), DictOf(d))
    ensures DictOf(d).apiVersion.Some? && DictOf(d).snakeVersion.None?
    ensures CompleteDefinition(Server(false, false), d) && HasName(d) && InnerDefinition(Shown(d)) == Some(d)
    ensures !Server(false, false).resolver.allowRedefinition && KeyOf(Server(false, false), "ConfigMap", d) == Place(d)
  {
    hide LastSegment;
    assert NameIn(Some(d.metadata)) == Str(name);
    assert Complete(Server(false, false), Shown(d)) && Complete(Server(false, false), DictOf(d));
    assert InnerDefinition(Shown(d)) == Some(d);
    hide Complete, InnerDefinition, NameIn, Shown;
  }

  lemma {:induction false} ThreeComplete(files: FileMap, defs: seq<Resource>)
    requires |files| == |defs| == 3
    requires forall i :: 0 <= i < 3 ==> Complete(Server(false, false), files[i].resource) && Stem(files[i].path).Some?
    requires forall i :: 0 <= i < 3 ==>
               Complete(Server(false, false), defs[i]) && defs[i].apiVersion.Some? && defs[i].snakeVersion.None?
    ensures CompleteEntries(Server(false, false), files) && CompleteDefinitions(Server(false, false), defs)
  {
    hide Complete, Stem;
  }

  lemma {:induction false} AllComplete(st: State)
    requires st.files == ALL && st.defs == DEFINED
    ensures CompleteRecord(Server(false, false), st)
  {
    OnePaths();
    hide Complete, Stem, Contains, Sample, CompleteEntries, CompleteDefinitions;
    forall i | 0 <= i < 3
      ensures Complete(Server(false, false), ALL[i].resource) && Stem(ALL[i].path).Some?
      ensures Complete(Server(false, false), DEFINED[i]) && DEFINED[i].apiVersion.Some? && DEFINED[i].snakeVersion.None?
    {
      ItemComplete(i);
    }
    ThreeComplete(ALL, DEFINED);
  }

  lemma {:induction false} ItemComplete(i: nat)
    requires i < 3
    ensures Complete(Server(false, false), ALL[i].resource) && Stem(ALL[i].path).Some?
    ensures Complete(Server(false, false), DEFINED[i]) && DEFINED[i].apiVersion.Some? && DEFINED[i].snakeVersion.None?
  {
    OnePaths();
    Numbered(i);
    SampleFacts(CREATE.definitions[i], NAMES[i]);
    hide Complete, Stem, Contains, Sample, Shown, DictOf;
  }

  lemma {:induction false} RecordedDrop(st: State, first: Resource)
    requires Recorded(st, first)
    ensures Has(st.files, "one.yaml#0") && Lookup(st.files, "one.yaml#0") == Some(first)
    ensures Drop(st.files, "one.yaml#0") == ALL[1..] && OneFile(st.files, "one.yaml#0")
    ensures GoodResource(first) && EitherVersion(first).Some? && TargetDefinition(first) == A
  {
    OnePaths();
    hide Stem, Contains, Agrees, CompleteRecord, IdentityOf;
    EntryFacts(Entry("one.yaml#0", first), A, "a");
    assert ALL[1].path == "one.yaml#1" && ALL[2].path == "one.yaml#2";
    WithTail(Entry("one.yaml#0", first));
    assert st.files[0].path == "one.yaml#0" && st.files[1..] == ALL[1..] && IndexOf(st.files, "one.yaml#0") == 0;
    hide Sample, Shown, DictOf, GoodEntry, GoodResource, EitherVersion, TargetDefinition;
    forall e | e in st.files ensures Contains(e.path, "one") {
      assert e == st.files[0] || e == ALL[1] || e == ALL[2];
    }
  }

  lemma {:induction false} ServerFacts()
    ensures AccurateApi(Server(false, false)) && KnownKind(Server(false, false), "ConfigMap")
    ensures CompleteDefinition(Server(false, false), A) && HasName(A) && PathFor(DELETE, 0) == "one.yaml#0"
    ensures forall name ::
              KeyOf(Server(false, false), "ConfigMap", Sample("ConfigMap", name)) == Place(Sample("ConfigMap", name))
  {
    OnePaths();
    hide Stem, Contains, CompleteDefinition, HasName;
    SampleFacts(A, "a");
  }

  /** A delete pass over such a record asks to be retried at its first definition. */
  lemma {:induction false} PassRetries(st: State, first: Resource) returns (start: State)
    requires Recorded(st, first)
    ensures SameRecord(st, start) && start.live == st.live && Recorded(start, first)
    ensures var r := DeleteFile(Server(false, false), start, "ConfigMap", A, "one.yaml#0");
            && Pass(Server(false, false), st, DELETE, 0) == r && r.out.Retry?
            && Agrees(r.st.files, r.st.defs) && CompleteRecord(Server(false, false), r.st)
  {
    var env := Server(false, false);
    ServerFacts();
    start := StepDeletes(env, DELETE, st, 0, "ConfigMap");
    RecordedDrop(st, first);
    OnePaths();
    AdjacentMeansRetry(env, start, "ConfigMap", A, "one.yaml#0");
    DeleteFileAgrees(env, start, "ConfigMap", A, "one.yaml#0");
    DeleteFileEnds(env, start, "ConfigMap", A, "one.yaml#0");
    PassCases(env, st, DELETE, 0);
    hide Step, Pass, DeleteFile, Agrees, OneFile, AccurateApi, KnownKind, CompleteEntries, CompleteDefinitions;
  }

  /** Whether the first object is still live decides what the pass does. */
  lemma {:induction false} PrimaryIsFirst(st: State, first: Resource)
    requires Recorded(st, first)
    ensures PrimaryLive(Server(false, false), st, "one.yaml#0") <==> Place(A) in st.live
    ensures Place(A) in st.live ==> PrimaryKey(Server(false, false), st, "one.yaml#0") == Place(A)
  {
    RecordedDrop(st, first);
    ServerFacts();
    assert Server(false, false).mappingByKind(A) == Some("ConfigMap")
      && KeyOf(Server(false, false), "ConfigMap", A) == Place(A);
    hide Recorded, KeyOf, Place, Sample, GoodResource, EitherVersion, TargetDefinition, OneFile, Server, AccurateApi,
      KnownKind, Lookup, Has, CompleteDefinition;
  }

  lemma {:induction false} WithTail(e: Entry)
    ensures [e] + ALL[1..] == [e, ALL[1], ALL[2]]
  {
    hide Shown, Sample;
  }

  lemma {:induction false} FirstDeletion(st: State, first: Resource)
    requires Recorded(st, first) && Place(A) in st.live
    requires DeleteFile(Server(false, false), st, "ConfigMap", A, "one.yaml#0").out.Retry?
    ensures var r := DeleteFile(Server(false, false), st, "ConfigMap", A, "one.yaml#0");
            && r.out == Retry(false) && r.st.files == [Entry("one.yaml#0", DictOf(A)), ALL[1], ALL[2]]
            && r.st.live.Keys == st.live.Keys - {Place(A)}
  {
    var env := Server(false, false);
    ServerFacts();
    CleanShown("ConfigMap", "a");
    hide Sample, DictOf;
    RecordedDrop(st, first);
    PrimaryIsFirst(st, first);
    assert Agrees(st.files, st.defs) && !env.external;
    WithTail(Entry("one.yaml#0", DictOf(A)));
    hide Recorded, KeyOf, DeleteFile, Agrees, OneFile, AccurateApi, PrimaryLive, PrimaryKey, InnerTargets, FirstLive,
      Place, Shown, Stored, CompleteRecord, Server, TargetDefinition, GoodResource, EitherVersion, IdentityOf, Drop,
      Lookup, Has;
    RetryConserves(env, st, "ConfigMap", A, "one.yaml#0");
  }

  /** The first retry has deleted the first object and keeps the record. */
  lemma {:induction false} FirstRetry(st: State)
    requires CreatedUpTo(st, 3)
    ensures var r := Pass(Server(false, false), st, DELETE, 0);
            r.out == Retry(false) && Recorded(r.st, DictOf(A)) && r.st.live.Keys == {Place(B), Place(C)}
  {
    CreatedIsRecorded(st);
    PlacesDiffer();
    hide CreatedUpTo, Pass, DeleteFile, Agrees, CompleteRecord, Place, Shown, Server;
    var start := PassRetries(st, Shown(A));
    FirstDeletion(start, Shown(A));
  }

  lemma {:induction false} PlacesDiffer()
    ensures Place(A) != Place(B) && Place(B) != Place(C) && Place(A) != Place(C)
  {
  }

  lemma {:induction false} SecondSought(defs: seq<Resource>)
    requires CompleteDefinitions(Server(false, false), defs)
    ensures LookedFor(Server(false, false), defs, B, "ConfigMap") == Some(Sought(B, Place(B)))
    ensures InnerDefinition(Shown(B)) == Some(B)
  {
    var env := Server(false, false);
    CleanShown("ConfigMap", "b");
    ServerFacts();
    SampleFacts(B, "b");
    hide CompleteDefinitions, CompleteDefinition, Server, KnownKind, LookedFor, Place, Sample;
    GivenIsSought(env, defs, B, "ConfigMap");
  }

  lemma {:induction false} SecondIsFirstLive(defs: seq<Resource>, live: map<Key, Resource>)
    requires CompleteDefinitions(Server(false, false), defs) && Place(B) in live
    ensures FirstLive(InnerTargets(Server(false, false), defs, ALL[1..], A), live) == Some(Sought(B, Place(B)))
  {
    var env, rest := Server(false, false), ALL[1..][1..];
    assert ALL[1..][0] == Entry("one.yaml#1", Shown(B)) && env.mappingByKind(A) == Some("ConfigMap");
    SecondSought(defs);
    hide LookedFor, LeftDefinitions, Place, InnerDefinition, Shown, Server, FirstLive;
    assert InnerTargets(env, defs, ALL[1..], A) == [Sought(B, Place(B))] +
      InnerTargets(env, LeftDefinitions(env, defs, B), rest, A);
    FirstIsLive(Sought(B, Place(B)), InnerTargets(env, LeftDefinitions(env, defs, B), rest, A), live);
  }

  lemma {:induction false} FirstIsLive(t: Sought, rest: seq<Sought>, live: map<Key, Resource>)
    requires t.key in live
    ensures FirstLive([t] + rest, live) == Some(t)
  {
  }

  lemma {:induction false} SecondIsCutShort(st: State)
    requires Recorded(st, DictOf(A)) && Place(A) !in st.live && Place(B) in st.live
    ensures CutShort(Server(false, false), st, "one.yaml#0") == Some(Sought(B, Place(B)))
  {
    RecordedDrop(st, DictOf(A));
    PrimaryIsFirst(st, DictOf(A));
    hide InnerTargets, LookedFor, LeftDefinitions, PrimaryLive, Place, TargetDefinition, GoodResource, Agrees,
      FirstLive, EitherVersion, OneFile, CompleteEntries, Lookup, Drop, Has;
    SecondIsFirstLive(st.defs, st.live);
  }

  lemma {:induction false} SecondDeletion(st: State)
    requires Recorded(st, DictOf(A)) && Place(A) !in st.live && Place(B) in st.live
    requires DeleteFile(Server(false, false), st, "ConfigMap", A, "one.yaml#0").out.Retry?
    ensures var r := DeleteFile(Server(false, false), st, "ConfigMap", A, "one.yaml#0");
            && r.out == Retry(true) && r.st.files == [Entry("one.yaml#0", DictOf(B))]
            && r.st.live.Keys == st.live.Keys - {Place(B)}
  {
    ServerFacts();
    CleanShown("ConfigMap", "b");
    RecordedDrop(st, DictOf(A));
    SecondIsCutShort(st);
    hide DeleteFile, Agrees, OneFile, AccurateApi, PrimaryLive, PrimaryKey, CutShort, Place, Shown, Stored,
      CompleteRecord, TargetDefinition, GoodResource, EitherVersion, IdentityOf, Drop, Lookup, Has;
    RetryConserves(Server(false, false), st, "ConfigMap", A, "one.yaml#0");
  }

  lemma {:induction false} SecondRetry(st: State)
    requires Recorded(st, DictOf(A)) && st.live.Keys == {Place(B), Place(C)}
    ensures var r := Pass(Server(false, false), st, DELETE, 0);
            r.out == Retry(true) && r.st.files == [Entry("one.yaml#0", DictOf(B))] && r.st.live.Keys == {Place(C)}
  {
    PlacesDiffer();
    hide Pass, DeleteFile, Agrees, CompleteRecord, Place, Shown, Server, Recorded;
    var start := PassRetries(st, DictOf(A));
    SecondDeletion(start);
  }

  /** A file of three definitions is created and then deleted: the second delete pass is cut
      short by an inner deletion, and loses the entry of the third object, which is live. */
  lemma {:induction false} SecondRetryLosesLiveObject()
    ensures var env := Server(false, false);
            var created := Pass(env, EMPTY, CREATE, 0);
            var first := Pass(env, created.st, DELETE, 0);
            var second := Pass(env, first.st, DELETE, 0);
            && created.out == Done && created.st.files == ALL
            && first.out == Retry(false) && |first.st.files| == 3
            && second.out == Retry(true) && second.st.files == [Entry("one.yaml#0", DictOf(B))]
            && second.st.live.Keys == {Place(C)}
  {
    var env := Server(false, false);
    assert CreatedUpTo(EMPTY, 0);
    Created(false, EMPTY, 0);
    var created := Pass(env, EMPTY, CREATE, 0).st;
    assert created.files == ALL;
    hide Pass, CreatedUpTo, Place, Shown, Server, Agrees, CompleteRecord;
    FirstRetry(created);
    SecondRetry(Pass(env, created, DELETE, 0).st);
  }

  lemma {:induction false} SampleServed(allow: bool, d: Definition, name: string)
    requires d == Sample("ConfigMap", name) && name != ""
    ensures Served(Server(false, allow), d)
    ensures MappedKey(Server(false, allow), d) == Place(d) && Server(false, allow).shownNamespace(d) == Str("default")
  {
    CleanShown("ConfigMap", name);
    SampleShows(allow, d, name);
    assert Cleaned(NamespaceIn(Some(d.metadata))) && NameIn(Some(d.metadata)) == Str(name);
    hide Shows, Shown, CleanResource, CleanDict, IdentityOf, LastSegment;
  }

  lemma {:induction false} SampleShows(allow: bool, d: Definition, name: string)
    requires d == Sample("ConfigMap", name) && name != ""
    ensures Shows(Server(false, allow), Shown(d), d)
  {
    ItemIdentity(d, name);
    assert TargetDefinition(Shown(d)) == d;
    hide IdentityOf, TargetDefinition, CleanedDict;
  }

  lemma {:induction false} SamplesDiffer(allow: bool, d: Definition, e: Definition, name: string, other: string)
    requires d == Sample("ConfigMap", name) && e == Sample("ConfigMap", other) && name != "" && other != ""
    requires name != other
    ensures Served(Server(false, allow), d) && Served(Server(false, allow), e) && Different(Server(false, allow), d, e)
  {
    SampleServed(allow, d, name);
    SampleServed(allow, e, other);
    assert Place(d) != Place(e) && NameIn(Some(d.metadata)) != NameIn(Some(e.metadata));
    hide Served, Server, Place, NameIn;
  }

  lemma {:induction false} SampleIsPlain(allow: bool, d: Definition, name: string)
    requires d == Sample("ConfigMap", name) && name != ""
    ensures PlainlyServed(Server(false, allow), d) && KeyBy(Server(false, allow), d) == Place(d)
  {
    var env := Server(false, allow);
    SampleBare(allow, d, name);
    SampleKnown(allow, d, name);
    hide Shows, PlainObject, Plain, Sample, Server, KeyBy, Place;
    forall obj | Shows(env, obj, d) ensures PlainObject(env, obj) && ObjectKey(env, obj) == KeyBy(env, d) {
      ShownIsPlain(allow, d, name, obj);
    }
  }

  lemma {:induction false} SampleBare(allow: bool, d: Definition, name: string)
    requires d == Sample("ConfigMap", name) && name != ""
    ensures PutBackDefinition(d) == d && KeyBy(Server(false, allow), d) == Place(d)
  {
    CleanShown("ConfigMap", name);
    hide LastSegment;
  }

  lemma {:induction false} SampleKnown(allow: bool, d: Definition, name: string)
    requires d == Sample("ConfigMap", name) && name != ""
    ensures Plain(Server(false, allow), d)
  {
    assert Cleaned(Str(name)) && NameIn(Some(d.metadata)) == Str(name);
  }

  lemma {:induction false} ShownIsPlain(allow: bool, d: Definition, name: string, obj: Resource)
    requires d == Sample("ConfigMap", name) && name != "" && Shows(Server(false, allow), obj, d)
    ensures PlainObject(Server(false, allow), obj)
    ensures ObjectKey(Server(false, allow), obj) == KeyBy(Server(false, allow), d)
  {
    assert NameIn(obj.metadata) == Str(name) && obj.kind == Some("ConfigMap");
    hide LastSegment, IdentityOf;
  }

  /** The definitions of an operation are config maps of these names. */
  ghost predicate Samples(op: Operation, names: seq<string>) {
    && op.origin == Some("one.yaml") && |names| == |op.definitions|
    && (forall i :: 0 <= i < |names| ==> names[i] != "" && op.definitions[i] == Sample("ConfigMap", names[i]))
    && (forall i, j :: 0 <= i < j < |names| ==> names[i] != names[j])
  }

  /** They are a file in the sense of `LifeEnds` and `LifeEndsWithNothing`. */
  lemma {:induction false} SamplesAreFile(allow: bool, op: Operation, names: seq<string>)
    requires Samples(op, names)
    ensures PlainFile(Server(false, allow), op)
  {
    var env, ds := Server(false, allow), op.definitions;
    OnePaths();
    hide Served, PlainlyServed, Different, Server, Sample, Stem, Contains;
    forall d | d in ds ensures Served(env, d) && PlainlyServed(env, d) {
      var i :| 0 <= i < |names| && ds[i] == d;
      SampleServed(allow, d, names[i]);
      SampleIsPlain(allow, d, names[i]);
    }
    forall i, j | 0 <= i < j < |ds| ensures ds[i] in ds && ds[j] in ds && Different(env, ds[i], ds[j]) {
      SamplesDiffer(allow, ds[i], ds[j], names[i], names[j]);
    }
  }

  lemma {:induction false} ThreeArePlain(allow: bool)
    ensures PlainFile(Server(false, allow), DELETE)
  {
    SamplesAreFile(allow, DELETE, NAMES);
  }

  lemma {:induction false} CreatedSize(st: State)
    requires CreatedUpTo(st, 3)
    ensures st.files != [] && Remaining(st) == 9
  {
    CreatedIsRecorded(st);
    PlacesDiffer();
    hide Place;
    assert |st.live.Keys| == 3;
  }

  lemma {:induction false} RunOfCreation(allow: bool)
    ensures Run(Server(false, allow), EMPTY, [CREATE]) == Pass(Server(false, allow), EMPTY, CREATE, 0).st
    ensures OnFile(DELETE, CREATE) && CreatedUpTo(EMPTY, 0)
  {
    hide Pass;
    var after := Pass(Server(false, allow), EMPTY, CREATE, 0).st;
    assert [CREATE][1..] == [] && Run(Server(false, allow), after, []) == after;
  }

  lemma {:induction false} CreatedAsCreated(allow: bool, st: State)
    requires CreatedUpTo(st, 3)
    ensures AllAsCreated(Server(false, allow), DELETE, st)
  {
    CreatedIsRecorded(st);
    forall j | 0 <= j < 3
      ensures KeyBy(Server(false, allow), DELETE.definitions[j]) in st.live && InnerDefinition(ALL[j].resource).Some?
    {
      Numbered(j);
      SampleIsPlain(allow, DELETE.definitions[j], NAMES[j]);
      SampleFacts(DELETE.definitions[j], NAMES[j]);
      hide PlainlyServed, KeyBy, Sample, Shown, Server, InnerDefinition, Recorded, CreatedUpTo;
      assert j == 0 || j == 1 || j == 2;
    }
    assert st.files == ALL;
  }

  /** So, for all the entries lost on the way, the file ends up removed; with redefinition too. */
  lemma {:induction false} ThreeAreRemoved(allow: bool, run: nat -> State)
    requires run(0) == Pass(Server(false, allow), EMPTY, CREATE, 0).st
    requires forall i: nat :: run(i + 1) == Pass(Server(false, allow), run(i), DELETE, 0).st
    ensures File(Server(false, allow), DELETE)
    ensures exists n: nat :: n <= 9 && RemovedCompletelyAt(Server(false, allow), DELETE, run, n)
  {
    var env := Server(false, allow);
    ThreeArePlain(allow);
    RunOfCreation(allow);
    assert AccurateApi(env) && !env.external && EMPTY.files == [] && EMPTY.defs == [] && EMPTY.live == map[];
    hide Pass, File, RemovedCompletelyAt, Server, Place, CreatedUpTo, AccurateApi, Remaining, Run, OnFile,
      PlainlyServed, AllAsCreated;
    Created(allow, EMPTY, 0);
    CreatedSize(run(0));
    CreatedAsCreated(allow, run(0));
    var ops := [CREATE];
    assert forall o :: o in ops ==> o == CREATE;
    LifeEndsWithNothing(env, DELETE, EMPTY, ops, run);
  }

  // ----------------------------------------- five, one of which vanishes

  const FIVE := DELETE.(definitions := [A, B, C, Sample("ConfigMap", "d"), Sample("ConfigMap", "e")])
  const FIVE_NAMES := ["a", "b", "c", "d", "e"]

  lemma {:induction false} FiveSamples()
    ensures Samples(FIVE, FIVE_NAMES)
  {
  }

  lemma {:induction false} FiveFacts()
    ensures var env := Server(false, true);
            Deleting(env, FIVE) && FiveNames(env, FIVE) && ClientForm(env, FIVE) && NotCreated(env, FIVE, map[])
  {
    var env := Server(false, true);
    FiveSamples();
    SamplesAreFile(true, FIVE, FIVE_NAMES);
    assert AccurateApi(env);
    hide PlainFile, KeyBy, File;
    forall i | 0 <= i < 5
      ensures KeyBy(env, FIVE.definitions[i]).name == Str(FIVE_NAMES[i])
      ensures InnerDefinition(CleanResource(env.render(FIVE.definitions[i]))).Some?
    {
      SampleKey(FIVE.definitions[i], FIVE_NAMES[i]);
    }
    hide InnerDefinition, Server, Sample;
  }

  lemma {:induction false} SampleKey(d: Definition, name: string)
    requires d == Sample("ConfigMap", name) && name != ""
    ensures KeyBy(Server(false, true), d).name == Str(name)
    ensures InnerDefinition(CleanResource(Server(false, true).render(d))).Some?
  {
    CleanShown("ConfigMap", name);
    SampleBare(true, d, name);
    SampleFacts(d, name);
    hide InnerDefinition, KeyBy, CleanResource;
  }

  /** Five objects are created, the last vanishes, and the file is deleted with redefinition: the
      fourth pass ends normally, and the second object is still live. */
  lemma {:induction false} SecondIsLeft()
    ensures var env := Server(false, true);
            var created := Pass(env, EMPTY, FIVE.(task := FileCreate), 0);
            var vanished := created.st.(live := created.st.live - {KeyBy(env, FIVE.definitions[4])});
            var one := Pass(env, vanished, FIVE, 0);
            var two := Pass(env, one.st, FIVE, 0);
            var three := Pass(env, two.st, FIVE, 0);
            var four := Pass(env, three.st, FIVE, 0);
            && created.out.Done? && one.out.Retry? && two.out.Retry? && three.out.Retry? && four.out.Done?
            && KeyBy(env, FIVE.definitions[1]) in four.st.live
  {
    FiveFacts();
    hide Pass, Server, KeyBy, Deleting, FiveNames, ClientForm, NotCreated, Sample;
    CreatedThenVanished(Server(false, true), FIVE, EMPTY);
  }

  // ------------------------------------- a definition that is not looked for

  const DELETE_A := Operation(FileDelete, [A], Some("one.yaml"), "one.yaml")

  /** No file object is recorded, definitions of two other objects are, and `A` is live. */
  ghost predicate Shadowing(st: State) {
    st.files == [] && st.defs == [DictOf(B), DictOf(C)] && st.live == map[Place(A) := Shown(A)]
  }

  lemma {:induction false} ChosenIsOther(resolver: Resolver)
    requires resolver == Server(false, true).resolver
    ensures ChooseStored(resolver, [DictOf(B)], A, "ConfigMap") == LookedUp(B, "ConfigMap")
  {
    CleanShown("ConfigMap", "a");
    assert DictOf(A) != DictOf(B) by { assert A.metadata["name"] != B.metadata["name"]; }
    BIsRebuilt(resolver);
    assert Stored(A) == DictOf(A);
    hide Rebuilt, DictOf, Stored, Server, Clean, CleanDict, Tidied, CleanMetadata, CleanResource, Shown;
  }

  lemma {:induction false} BIsRebuilt(resolver: Resolver)
    requires resolver == Server(false, true).resolver
    ensures Rebuilt(DictOf(B)) == Some(B) && resolver.mappingWithOptions(B) == Some("ConfigMap")
    ensures resolver.allowRedefinition
  {
  }

  lemma {:induction false} OtherSought(defs: seq<Resource>)
    requires defs == [DictOf(B), DictOf(C)]
    ensures LookedFor(Server(false, true), defs, A, "ConfigMap") == Some(Sought(B, Place(B)))
  {
    var env, popped := Server(false, true), Popped(defs);
    CleanShown("ConfigMap", "a");
    assert popped == [DictOf(B)] && Popped(popped) == [];
    ChosenIsOther(env.resolver);
    assert HasName(B) && KeyOf(env, "ConfigMap", B) == Place(B);
    hide ChooseStored, KeyOf, Place, Server, DictOf;
  }

  lemma {:induction false} ShadowedDeletion(st: State)
    requires Shadowing(st)
    ensures var r := DeleteFile(Server(false, true), st, "ConfigMap", A, "one.yaml#0");
            r.out == Done && r.st.live == st.live
  {
    OtherSought(st.defs);
    PlacesDiffer();
    assert AccurateApi(Server(false, true));
    hide LookedFor, LeftDefinitions, DeleteFile, Place, Shown, Server;
    DeletionWithoutFiles(Server(false, true), st, "ConfigMap", A, "one.yaml#0");
  }

  lemma {:induction false} DeleteAFacts(allowRedefinition: bool, external: bool)
    ensures var env := Server(external, allowRedefinition);
            AccurateApi(env) && HasName(A) && PathFor(DELETE_A, 0) == "one.yaml#0"
            && env.resolver.mappingWithOptions(A) == Some("ConfigMap") && DELETE_A.definitions == [A]
  {
    OnePaths();
    hide Stem, Contains;
  }

  /** With redefinition, and two definitions of other objects still stored, deleting a live
      object ends normally and leaves it live. */
  lemma {:induction false} ShadowedObjectStays(st: State)
    requires Shadowing(st)
    ensures var r := Pass(Server(false, true), st, DELETE_A, 0);
            r.out == Done && r.st.live == st.live && Place(A) in r.st.live
  {
    var env := Server(false, true);
    DeleteAFacts(true, false);
    hide Step, DeleteFile, Place, Shown, Server, PathFor, DictOf, AccurateApi;
    var start := StepDeletes(env, DELETE_A, st, 0, "ConfigMap");
    ShadowedDeletion(start);
    PassCases(env, st, DELETE_A, 0);
    hide Shadowing;
  }

  // --------------------------------------------- an external volume claim

  const CLAIM := Sample("PersistentVolumeClaim", "claim")

  const PROTECTED := Resource(Some("PersistentVolumeClaim"), None, Some("v1"),
                              Some(map["name" := Str("claim"),
                                "finalizers" := List([Str("kubernetes.io/pvc-protection")])]), map[])

  lemma {:induction false} CleanProtected()
    ensures CleanResource(PROTECTED) == PROTECTED
  {
    assert Clean(Str("claim")) == Str("claim")
      && Clean(Str("kubernetes.io/pvc-protection")) == Str("kubernetes.io/pvc-protection");
    var finalizers := [Str("kubernetes.io/pvc-protection")];
    assert CleanList(finalizers) == finalizers && Clean(List(finalizers)) == List(finalizers);
    assert CleanDict(PROTECTED.metadata.value) == PROTECTED.metadata.value;
  }

  /** Deleting an external claim that is live and protected replaces it by one that is not. */
  lemma {:induction false} ExternalClaimLosesProtection(st: State)
    requires st.files == [] && st.defs == [] && st.live == map[Place(CLAIM) := PROTECTED]
    ensures var env := Server(true, false);
            var r := DeleteFile(env, st, "PersistentVolumeClaim", CLAIM, "one.yaml#0");
            r.out == Done && r.st.calls == st.calls + [UpdateCall(Place(CLAIM), false)]
  {
    var env := Server(true, false);
    CleanProtected();
    CleanShown("PersistentVolumeClaim", "claim");
    assert AccurateApi(env) && KeyOf(env, "PersistentVolumeClaim", CLAIM) == Place(CLAIM);
    assert ChooseStored(env.resolver, [], CLAIM, "PersistentVolumeClaim") == LookedUp(CLAIM, "PersistentVolumeClaim");
    assert LookedFor(env, st.defs, CLAIM, "PersistentVolumeClaim") == Some(Sought(CLAIM, Place(CLAIM)));
    assert ProtectedAt(env, st.live, Place(CLAIM)) && TruthyResource(PROTECTED);
    hide LookedFor, LeftDefinitions, DeleteFile, Place, Server;
    DeletionWithoutFiles(env, st, "PersistentVolumeClaim", CLAIM, "one.yaml#0");
  }

  // ------------------------------------------------ two files in one record

  const TWO_FILES := State([Entry("one.yaml#0", Shown(A)), Entry("two.yaml#0", Shown(B))], None, [DictOf(A), DictOf(B)],
                           false, map[Place(A) := Shown(A), Place(B) := Shown(B)], 0, [])

  const SECOND := Entry("two.yaml#0", Shown(B))

  lemma {:induction false} PartStarts(s: string, part: string, i: nat)
    ensures PartAt(s, part, i) && |part| >= 2 ==> s[i] == part[0] && s[i + 1] == part[1]
  {
    assert PartAt(s, part, i) && |part| >= 2 ==> s[i..i + |part|][0] == s[i] && s[i..i + |part|][1] == s[i + 1];
  }

  lemma {:induction false} TwoPath()
    ensures Stem("two.yaml#0") == Some("two") && !Contains("two.yaml#0", "one")
  {
    var s := "two.yaml#0";
    TwoStem(s);
    hide Stem;
    forall i | 0 <= i <= |s| ensures !PartAt(s, "one", i) {
      PartStarts(s, "one", i);
    }
  }

  lemma {:induction false} TwoStem(s: string)
    requires s == "two.yaml#0"
    ensures Stem(s) == Some("two")
  {
    assert YamlAt(s, 3);
    forall j: nat | YamlAt(s, j) ensures j == 3 { assert s[j] == '.'; }
    StemAt(s, 3);
    assert s[..3] == "two";
    hide Stem, FindYaml;
  }

  lemma {:induction false} OneTaken()
    ensures RetrieveLastCreatePath(TWO_FILES.files, TWO_FILES.defs, "one.yaml#0") ==
            Retrieved(Found("one.yaml#0", Shown(A), []), TWO_FILES.files[1..], TWO_FILES.defs)
  {
    OnePaths();
    TwoPath();
    var rest := Without(TWO_FILES.files, 0);
    assert rest == TWO_FILES.files[1..] && rest[0] == Entry("two.yaml#0", Shown(B));
    assert TruthyResource(Shown(A)) && IndexOf(TWO_FILES.files, "one.yaml#0") == 0;
    hide Stem, Contains, Shown, Sample, IdentityOf;
    SelectNone(rest, "one", Shown(A));
  }

  lemma {:induction false} OneResolved(env: Env, st: State)
    requires env == Server(true, false) && st.files == TWO_FILES.files && st.defs == TWO_FILES.defs
    ensures ResolveTarget(env, st, "one.yaml#0", A, "ConfigMap") ==
            Resolution(st.(files := TWO_FILES.files[1..]), Resolved([], A, "ConfigMap"))
  {
    OneTaken();
    hide RetrieveLastCreatePath;
    var left := st.(files := TWO_FILES.files[1..], defs := TWO_FILES.defs);
    FoundA(env, left);
    hide TargetOf;
  }

  lemma {:induction false} FoundA(env: Env, left: State)
    requires env == Server(true, false)
    ensures TargetOf(env, left, Found("one.yaml#0", Shown(A), []), A, "ConfigMap") ==
        Resolution(left, Resolved([], A, "ConfigMap"))
  {
    assert env.mappingByKind(A) == Some("ConfigMap");
    OnePaths();
    hide StoredTarget, LastSegment, Shown, Server, Sample, EitherVersion, IdentityOf, Stem;
    EntryFacts(Entry("one.yaml#0", Shown(A)), A, "a");
  }

  lemma {:induction false} OneDeleted(env: Env, st: State)
    requires env == Server(true, false) && st.files == TWO_FILES.files && st.defs == TWO_FILES.defs
    requires st.live == TWO_FILES.live
    ensures var r := DeleteFile(env, st, "ConfigMap", A, "one.yaml#0");
            r.out == Done && r.st.files == [SECOND] && r.st.live.Keys == st.live.Keys
  {
    OneResolved(env, st);
    assert TWO_FILES.files[1..] == [SECOND];
    var chosen := ResolveTarget(env, st, "one.yaml#0", A, "ConfigMap").st;
    assert AccurateApi(env) && TruthyServer(env) && KeyOf(env, "ConfigMap", A) == Place(A);
    ReadAccurately(env, chosen, "ConfigMap", A);
    ExternalTargetUpdatedExactly(env, Read(env, chosen, "ConfigMap", A).st, "ConfigMap", A, "one.yaml#0", []);
    hide ResolveTarget, DeleteTarget, Place, KeyOf, Server;
  }

  lemma {:induction false} FoundLive(st: State)
    requires st.live == TWO_FILES.live
    ensures var c := CurrentState(Server(true, false), st, DELETE_A, "ConfigMap", A, "one.yaml#0");
            c.st == st.(tick := c.st.tick) && Exists(c.existence)
  {
    var env := Server(true, false);
    assert AccurateApi(env) && KeyOf(env, "ConfigMap", A) == Place(A);
    CheckAccurately(env, st, "ConfigMap", A);
    hide CheckExists, Place, KeyOf;
  }

  lemma {:induction false} ForgetsAll(st: State)
    requires st.files == [SECOND]
    ensures CleanUp(st, DELETE_A, true, "one.yaml#0") == st.(files := [], single := None)
  {
    assert !Has(st.files, "one.yaml#0");
  }

  ghost predicate TwoFiles(st: State) {
    st.files == TWO_FILES.files && st.defs == TWO_FILES.defs && st.live == TWO_FILES.live
  }

  lemma {:induction false} ForgettingTask(st: State)
    requires TwoFiles(st)
    ensures var r := RunTask(Server(true, false), st, FileDelete, "ConfigMap", A, "one.yaml#0");
            && r.out == Done && r.st.live.Keys == st.live.Keys
            && CleanUp(r.st.(perform := false), DELETE_A, true, "one.yaml#0").files == []
  {
    OneDeleted(Server(true, false), st);
    hide DeleteFile, Server, CleanUp, TwoFiles, Place, Shown, Sample, DictOf;
    ForgetsAll(DeleteFile(Server(true, false), st, "ConfigMap", A, "one.yaml#0").st.(perform := false));
  }

  lemma {:induction false} ForgettingStep(st: State)
    requires TwoFiles(st)
    ensures var r := Step(Server(true, false), st, DELETE_A, 0);
            r.out == Done && r.st.files == [] && r.st.live.Keys == st.live.Keys
  {
    var env := Server(true, false);
    DeleteAFacts(false, true);
    FoundLive(st);
    hide RunTask, CurrentState, CleanUp, Server, PathFor, AccurateApi, Exists, HasName;
    var current := CurrentState(env, st, DELETE_A, "ConfigMap", A, "one.yaml#0");
    var handled := HandleExisting(env, current.st, true);
    assert TwoFiles(handled);
    hide TwoFiles;
    ForgettingTask(handled);
  }

  /** Deleting the first of two files, whose object is external and stays, forgets the object
      of the second. */
  lemma {:induction false} OtherFileForgotten()
    ensures var r := Pass(Server(true, false), TWO_FILES, DELETE_A, 0);
            r.out == Done && r.st.files == [] && r.st.live.Keys == {Place(A), Place(B)}
  {
    assert TwoFiles(TWO_FILES);
    ForgettingStep(TWO_FILES);
    assert TWO_FILES.live.Keys == {Place(A), Place(B)};
    hide Step, Server, Place;
    PassCases(Server(true, false), TWO_FILES, DELETE_A, 0);
  }

  // --------------------------------------------- one object under two paths

  const TWINS := State([Entry("one.yaml#0", Shown(A)), Entry("one.yaml#1", Shown(A))], None, [DictOf(A)], false,
    map[], 0, [])

  lemma {:induction false} TwinsTaken(env: Env)
    requires env == Server(false, false)
    ensures TakenTwin(env, TWINS, "two.yaml#0", 1)
    ensures Indexed(TWINS.files, TWINS.defs) && DistinctIdentities(TWINS.defs) && TWINS.live == map[]
  {
    OnePaths();
    TwoPath();
    hide Stem, Contains;
    EntryFacts(TWINS.files[0], A, "a");
    assert TWINS.defs[0] == DictOf(A) && TWINS.files[1].resource == TWINS.files[0].resource == Shown(A);
    assert HasName(A) && env.mappingByKind(A).Some? && MatchResource(DictOf(A), Shown(A));
    assert MatchingEntry(TWINS.files, DictOf(A)) == 0;
    assert !Has(TWINS.files, "two.yaml#0");
    hide Stem, Contains, IdentityOf, TargetDefinition, EitherVersion, GoodEntry, Shown, Sample, DictOf, MatchingEntry,
      Server, Has;
    assert forall f :: f in TWINS.files ==> !IsAdjacent("one", Shown(A), f);
    assert HasIdentity(TWINS.defs, IdentityOf(Shown(A)));
  }

  /** One object recorded under two paths, and gone: deleting under a new path ends normally
      and leaves one of the two without a definition. */
  lemma {:induction false} TwinLosesDefinition()
    ensures var r := DeleteFile(Server(false, false), TWINS, "ConfigMap", A, "two.yaml#0");
            Indexed(TWINS.files, TWINS.defs) && !Indexed(r.st.files, r.st.defs)
  {
    var env := Server(false, false);
    TwinsTaken(env);
    assert AccurateApi(env);
    hide DeleteFile, TakenTwin, Indexed, DistinctIdentities, Server;
    LoneTwinLosesDefinition(env, TWINS, "ConfigMap", A, "two.yaml#0", 1);
  }

  // ------------------------------------------------ a path without `.yaml`

  const NO_YAML := State([Entry("one.json", Shown(A))], None, [DictOf(A)], false, map[], 0, [])

  /** An object recorded under a path without `.yaml`: deleting under a new path fails and
      leaves it without a definition. */
  lemma {:induction false} NoYamlLosesDefinition()
    ensures var r := DeleteFile(Server(false, false), NO_YAML, "ConfigMap", A, "two.yaml#0");
            Indexed(NO_YAML.files, NO_YAML.defs) && r.out == Fail(ValueError) && !Indexed(r.st.files, r.st.defs)
  {
    var e := NO_YAML.files[0];
    ItemIdentity(A, "a");
    assert Stem("one.json") == None by { assert forall j :: !YamlAt("one.json", j); }
    assert NO_YAML.defs[0] == DictOf(A) && e == Entry("one.json", Shown(A)) && TruthyResource(Shown(A));
    hide Stem, IdentityOf, DeleteFile, Sample, Shown, DictOf;
    assert !Has(NO_YAML.files, "two.yaml#0");
    assert HasIdentity(NO_YAML.defs, IdentityOf(Shown(A))) && e in NO_YAML.files;
    assert RetrieveLastCreatePath(NO_YAML.files, NO_YAML.defs, "two.yaml#0").outcome == BadPath;
    BadPathLosesDefinition(Server(false, false), NO_YAML, "two.yaml#0", A, "ConfigMap");
  }
}
