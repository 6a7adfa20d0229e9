/**
 * Where the API calls for a definition go: objects of one kind and name in two namespaces
 * are two objects.
 */
module Addressing {
  import opened Options
  import opened JsonValues
  import opened Record
  import opened Definitions
  import opened Cluster

  /** The definition names a namespace itself. */
  predicate NamesNamespace(d: Definition) {
    "namespace" in d.metadata && Truthy(d.metadata["namespace"])
  }

  /** Mapping and name tell keys apart, however the calls are addressed. */
  lemma {:induction false} KeyTellsMappingAndName(env: Env, m: string, d: Definition, n: string, e: Definition)
    ensures KeyOf(env, m, d) == KeyOf(env, n, e) ==> m == n && NameIn(Some(d.metadata)) == NameIn(Some(e.metadata))
    ensures KeyOf(env, m, d).mapping == m && KeyOf(env, m, d).name == NameIn(Some(d.metadata))
  {
  }

  /** Where a namespace is configured, each definition that names one is addressed there, and
      the configured one makes no difference to it: two such definitions have one key exactly
      when mapping, name and namespace are the same. */
  lemma {:induction false} NamedNamespacesApart(env: Env, m: string, d: Definition, n: string, e: Definition)
    requires env.namespace.Some? && NamesNamespace(d)
    ensures KeyOf(env, m, d).namespace == Some(d.metadata["namespace"])
    ensures forall other: Json :: KeyOf(env.(namespace := Some(other)), m, d) == KeyOf(env, m, d)
    ensures NamesNamespace(e) ==>
              (KeyOf(env, m, d) == KeyOf(env, n, e) <==>
               && m == n && NameIn(Some(d.metadata)) == NameIn(Some(e.metadata))
               && d.metadata["namespace"] == e.metadata["namespace"])
  {
  }

  /** One that names none is addressed in the configured namespace: beside one that does, it
      is the same object exactly when that one names the configured namespace. */
  lemma {:induction false} ConfiguredNamespace(env: Env, m: string, d: Definition, e: Definition)
    requires env.namespace.Some? && !NamesNamespace(d)
    ensures KeyOf(env, m, d).namespace == env.namespace
    ensures forall other: Json :: other != env.namespace.value ==>
        KeyOf(env.(namespace := Some(other)), m, d) != KeyOf(env, m, d)
    ensures NamesNamespace(e) && NameIn(Some(d.metadata)) == NameIn(Some(e.metadata)) ==>
              (KeyOf(env, m, d) == KeyOf(env, m, e) <==> e.metadata["namespace"] == env.namespace.value)
  {
  }

  /** Where none is configured, none is sent, whatever the metadata says. */
  lemma {:induction false} NoNamespaceSent(env: Env, m: string, d: Definition, namespace: Json)
    requires env.namespace.None?
    ensures KeyOf(env, m, d).namespace == None
    ensures KeyOf(env, m, d.(metadata := d.metadata["namespace" := namespace])) == KeyOf(env, m, d)
  {
  }

  // ------------------------------------------- options that are overwritten

  /** The namespaces of calls made for these definitions one after the other, where a namespace
      taken from the metadata overwrites the one in the options, as `match_namespace` does. */
  function SentInTurn(options: Option<Json>, ds: seq<Definition>): (sent: seq<Option<Json>>)
    ensures |sent| == |ds|
    decreases |ds|
  {
    if ds == [] then []
    else
      var namespace := if options.Some? && NamesNamespace(ds[0]) then Some(ds[0].metadata["namespace"]) else options;
      [namespace] + SentInTurn(namespace, ds[1..])
  }

  /** A definition that names a namespace other than the configured one. */
  predicate Strays(namespace: Json, d: Definition) {
    NamesNamespace(d) && d.metadata["namespace"] != namespace
  }

  /** Each is addressed as it would be alone exactly when none that names no namespace follows
      immediately on one that names another than the configured one. */
  lemma {:induction false} InTurnExactly(env: Env, m: string, ds: seq<Definition>)
    requires env.namespace.Some?
    ensures (forall j :: 0 <= j < |ds| ==> SentInTurn(env.namespace, ds)[j] == KeyOf(env, m, ds[j]).namespace) <==>
            (forall j :: 0 < j < |ds| && Strays(env.namespace.value, ds[j - 1]) ==> NamesNamespace(ds[j]))
  {
    FirstStrayed(env, m, ds);
    forall j | 0 <= j < |ds| ensures SentInTurn(env.namespace, ds)[j] == SentAt(env.namespace, ds, j) {
      SentInTurnAt(env.namespace, ds, j);
    }
    if forall j :: 0 < j < |ds| && Strays(env.namespace.value, ds[j - 1]) ==> NamesNamespace(ds[j]) {
      forall j | 0 <= j < |ds| ensures SentAt(env.namespace, ds, j) == KeyOf(env, m, ds[j]).namespace {
        NoneStrayed(env, m, ds, j);
      }
    }
  }

  /** The namespace sent for one of them: its own, or that of the one before it. */
  function SentAt(options: Option<Json>, ds: seq<Definition>, j: nat): Option<Json>
    requires j < |ds|
  {
    if options.Some? && NamesNamespace(ds[j]) then Some(ds[j].metadata["namespace"])
    else if j == 0 then options else SentAt(options, ds, j - 1)
  }

  lemma {:induction false} SentInTurnAt(options: Option<Json>, ds: seq<Definition>, j: nat)
    requires j < |ds|
    ensures SentInTurn(options, ds)[j] == SentAt(options, ds, j)
    decreases |ds|
  {
    var first := SentInTurn(options, ds)[0];
    if j > 0 {
      SentInTurnAt(first, ds[1..], j - 1);
      SentAtShifted(options, ds, j);
    }
  }

  lemma {:induction false} SentAtShifted(options: Option<Json>, ds: seq<Definition>, j: nat)
    requires 0 < j < |ds|
    ensures SentAt(SentAt(options, ds, 0), ds[1..], j - 1) == SentAt(options, ds, j)
    decreases j
  {
    if j > 1 { SentAtShifted(options, ds, j - 1); }
  }

  lemma {:induction false} NoneStrayed(env: Env, m: string, ds: seq<Definition>, j: nat)
    requires env.namespace.Some? && j < |ds|
    requires forall k :: 0 < k < |ds| && Strays(env.namespace.value, ds[k - 1]) ==> NamesNamespace(ds[k])
    ensures SentAt(env.namespace, ds, j) == KeyOf(env, m, ds[j]).namespace
    decreases j
  {
    if j > 0 { NoneStrayed(env, m, ds, j - 1); }
  }

  /** One that strays leads the next astray. */
  lemma {:induction false} FirstStrayed(env: Env, m: string, ds: seq<Definition>)
    requires env.namespace.Some?
    ensures forall j :: 0 < j < |ds| && Strays(env.namespace.value, ds[j - 1]) && !NamesNamespace(ds[j]) ==>
              SentInTurn(env.namespace, ds)[j] != KeyOf(env, m, ds[j]).namespace
  {
    forall j | 0 < j < |ds| && Strays(env.namespace.value, ds[j - 1]) && !NamesNamespace(ds[j])
      ensures SentInTurn(env.namespace, ds)[j] != KeyOf(env, m, ds[j]).namespace
    {
      SentInTurnAt(env.namespace, ds, j);
      assert SentAt(env.namespace, ds, j) == SentAt(env.namespace, ds, j - 1);
    }
  }
}
