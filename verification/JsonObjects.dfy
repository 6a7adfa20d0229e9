/**
 * Nested dicts and lists as objects that may be shared, and `JsonCleanuper`, which cleans
 * them where they are.
 */
module JsonObjects {
  import opened JsonValues

  /** A value: a leaf, or a reference to a dict or list. */
  datatype Value = Plain(leaf: Json) | DictAt(id: nat) | ListAt(id: nat)

  datatype Heap = Heap(dicts: map<nat, map<string, Value>>, lists: map<nat, seq<Value>>)

  function RankOf(rank: nat -> nat, v: Value): nat {
    if v.Plain? then 0 else rank(v.id) + 1
  }

  ghost predicate Known(h: Heap, v: Value) {
    match v
    case Plain(leaf) => Leaf(leaf)
    case DictAt(i) => i in h.dicts
    case ListAt(i) => i in h.lists
  }

  /** Every object holds known values of lower rank only, so nesting comes to an end. */
  ghost predicate Acyclic(h: Heap, rank: nat -> nat) {
    && (forall i, k :: i in h.dicts && k in h.dicts[i] ==>
          Known(h, h.dicts[i][k]) && RankOf(rank, h.dicts[i][k]) <= rank(i))
    && (forall i, n :: i in h.lists && 0 <= n < |h.lists[i]| ==>
          Known(h, h.lists[i][n]) && RankOf(rank, h.lists[i][n]) <= rank(i))
  }

  /** The nested value that a reference stands for. */
  ghost function View(h: Heap, rank: nat -> nat, v: Value): Json
    requires Acyclic(h, rank) && Known(h, v)
    decreases RankOf(rank, v)
  {
    match v
    case Plain(leaf) => leaf
    case DictAt(i) => Object(map k | k in h.dicts[i] :: View(h, rank, h.dicts[i][k]))
    case ListAt(i) => List(seq(|h.lists[i]|, n requires 0 <= n < |h.lists[i]| => View(h, rank, h.lists[i][n])))
  }

  // ------------------------------------------------------- what cleaning changes

  ghost predicate CleanerValue(v: Value, w: Value) {
    w == v || (v.Plain? && v.leaf.Other? && v.leaf.truthy && w == Plain(Str(v.leaf.text)))
  }

  /** The same objects, in which some leaves that are truthy and neither numbers nor strings
      have been replaced by their text. */
  ghost predicate Cleaner(before: Heap, after: Heap) {
    && after.dicts.Keys == before.dicts.Keys && after.lists.Keys == before.lists.Keys
    && (forall i :: i in before.dicts ==> after.dicts[i].Keys == before.dicts[i].Keys)
    && (forall i :: i in before.lists ==> |after.lists[i]| == |before.lists[i]|)
    && (forall i, k :: i in before.dicts && k in before.dicts[i] ==>
         CleanerValue(before.dicts[i][k], after.dicts[i][k]))
    && (forall i, n :: i in before.lists && 0 <= n < |before.lists[i]| ==>
         CleanerValue(before.lists[i][n], after.lists[i][n]))
  }

  lemma {:induction false} CleanerChain(a: Heap, b: Heap, c: Heap)
    requires Cleaner(a, b) && Cleaner(b, c)
    ensures Cleaner(a, c)
  {
    forall i, k | i in a.dicts && k in a.dicts[i] ensures CleanerValue(a.dicts[i][k], c.dicts[i][k]) {
      assert CleanerValue(b.dicts[i][k], c.dicts[i][k]);
    }
    forall i, n | i in a.lists && 0 <= n < |a.lists[i]| ensures CleanerValue(a.lists[i][n], c.lists[i][n]) {
      assert CleanerValue(b.lists[i][n], c.lists[i][n]);
    }
  }

  lemma {:induction false} CleanerAcyclic(before: Heap, after: Heap, rank: nat -> nat)
    requires Acyclic(before, rank) && Cleaner(before, after)
    ensures Acyclic(after, rank)
  {
    forall i, k | i in after.dicts && k in after.dicts[i]
      ensures Known(after, after.dicts[i][k]) && RankOf(rank, after.dicts[i][k]) <= rank(i)
    {
      assert CleanerValue(before.dicts[i][k], after.dicts[i][k]);
    }
    forall i, n | i in after.lists && 0 <= n < |after.lists[i]|
      ensures Known(after, after.lists[i][n]) && RankOf(rank, after.lists[i][n]) <= rank(i)
    {
      assert CleanerValue(before.lists[i][n], after.lists[i][n]);
    }
  }

  /** What a reference stands for cleans to the same as before, and is the same if it was
      clean: so objects may be shared, and cleaned more than once. */
  lemma {:induction false} CleanerView(before: Heap, after: Heap, rank: nat -> nat, v: Value)
    requires Acyclic(before, rank) && Acyclic(after, rank) && Cleaner(before, after) && Known(before, v)
    ensures SameClean(View(before, rank, v), View(after, rank, v))
    decreases RankOf(rank, v), 0
  {
    hide Clean, Cleaned, View;
    match v
    case Plain(_) => PlainView(before, after, rank, v);
    case DictAt(i) =>
      forall k | k in before.dicts[i]
        ensures SameClean(View(before, rank, before.dicts[i][k]), View(after, rank, after.dicts[i][k])) {
        CleanerCell(before, after, rank, before.dicts[i][k], after.dicts[i][k]);
      }
      DictSameClean(before, after, rank, i);
    case ListAt(i) =>
      forall n | 0 <= n < |before.lists[i]|
        ensures SameClean(View(before, rank, before.lists[i][n]), View(after, rank, after.lists[i][n])) {
        CleanerCell(before, after, rank, before.lists[i][n], after.lists[i][n]);
      }
      ListSameClean(before, after, rank, i);
  }

  ghost predicate SameClean(b: Json, a: Json) {
    Clean(a) == Clean(b) && (Cleaned(b) ==> a == b)
  }

  lemma {:induction false} PlainView(before: Heap, after: Heap, rank: nat -> nat, v: Value)
    requires Acyclic(before, rank) && Acyclic(after, rank) && Known(before, v) && Known(after, v) && v.Plain?
    ensures SameClean(View(before, rank, v), View(after, rank, v))
  {
  }

  lemma {:induction false} DictSameClean(before: Heap, after: Heap, rank: nat -> nat, i: nat)
    requires Acyclic(before, rank) && Acyclic(after, rank) && i in before.dicts && i in after.dicts
    requires after.dicts[i].Keys == before.dicts[i].Keys
    requires forall k :: k in before.dicts[i] ==>
        SameClean(View(before, rank, before.dicts[i][k]), View(after, rank, after.dicts[i][k]))
    ensures SameClean(View(before, rank, DictAt(i)), View(after, rank, DictAt(i)))
  {
    hide SameClean;
    FieldsSameClean(View(before, rank, DictAt(i)).fields, View(after, rank, DictAt(i)).fields);
  }

  lemma {:induction false} FieldsSameClean(b: Dict, a: Dict)
    requires a.Keys == b.Keys && forall k :: k in b ==> SameClean(b[k], a[k])
    ensures SameClean(Object(b), Object(a))
  {
    assert CleanDict(a) == CleanDict(b) by { hide Clean; assert forall k :: k in b ==> Clean(a[k]) == Clean(b[k]); }
    assert CleanedDict(b) ==> a == b by {
      hide Clean, Cleaned;
      assert forall k :: k in b && Cleaned(b[k]) ==> a[k] == b[k];
    }
    hide CleanDict, SameClean;
    assert Cleaned(Object(b)) ==> b == map[] || CleanedDict(b);
    assert (a == map[]) == (b == map[]) by {
      if a == map[] { assert b.Keys == {}; }
      if b == map[] { assert a.Keys == {}; }
    }
  }

  lemma {:induction false} ListSameClean(before: Heap, after: Heap, rank: nat -> nat, i: nat)
    requires Acyclic(before, rank) && Acyclic(after, rank) && i in before.lists && i in after.lists
    requires |after.lists[i]| == |before.lists[i]|
    requires forall n :: 0 <= n < |before.lists[i]| ==>
        SameClean(View(before, rank, before.lists[i][n]), View(after, rank, after.lists[i][n]))
    ensures SameClean(View(before, rank, ListAt(i)), View(after, rank, ListAt(i)))
  {
    var b, a := View(before, rank, ListAt(i)).items, View(after, rank, ListAt(i)).items;
    assert forall n :: 0 <= n < |b| ==> SameClean(b[n], a[n]);
    assert CleanList(a) == CleanList(b);
  }

  lemma {:induction false} CleanerCell(before: Heap, after: Heap, rank: nat -> nat, v: Value, w: Value)
    requires Acyclic(before, rank) && Acyclic(after, rank) && Cleaner(before, after) && Known(before, v)
    requires Known(after, w)
    requires CleanerValue(v, w)
    ensures SameClean(View(before, rank, v), View(after, rank, w))
    decreases RankOf(rank, v), 1
  {
    if w == v { CleanerView(before, after, rank, v); }
  }

  /** Objects that come out clean have become what cleaning makes of them. */
  lemma {:induction false} CleanedInPlace(before: Heap, after: Heap, rank: nat -> nat, v: Value)
    requires Acyclic(before, rank) && Acyclic(after, rank) && Cleaner(before, after) && Known(before, v)
    requires Known(after, v)
    requires Cleaned(View(after, rank, v))
    ensures View(after, rank, v) == Clean(View(before, rank, v))
  {
    hide View, Clean, Cleaned;
    CleanerView(before, after, rank, v);
    CleanFixed(View(after, rank, v));
  }

  /** A dict or list nested in a cleaned dict is cleaned itself, for everyone who refers to
      it: so a definition's metadata is cleaned with the dict made of the definition. */
  lemma {:induction false} SharedIsCleaned(before: Heap, after: Heap, rank: nat -> nat, i: nat, k: string)
    requires Acyclic(before, rank) && Acyclic(after, rank) && Cleaner(before, after)
    requires i in before.dicts && k in before.dicts[i] && !before.dicts[i][k].Plain?
    requires Cleaned(View(after, rank, DictAt(i)))
    ensures var shared := before.dicts[i][k];
            Known(after, shared) && View(after, rank, shared) == Clean(View(before, rank, shared))
  {
    var shared := before.dicts[i][k];
    assert CleanerValue(shared, after.dicts[i][k]) && after.dicts[i][k] == shared;
    var fields := View(after, rank, DictAt(i)).fields;
    assert k in fields && fields[k] == View(after, rank, shared) && Cleaned(fields[k]);
    CleanedInPlace(before, after, rank, shared);
  }

  // ------------------------------------------------------------- the cleaner

  /** The values of a dict are clean, but for those still to do. */
  ghost predicate DictDone(h: Heap, rank: nat -> nat, i: nat, todo: set<string>)
    requires Acyclic(h, rank) && i in h.dicts
  {
    forall k :: k in h.dicts[i] && k !in todo ==> Cleaned(View(h, rank, h.dicts[i][k]))
  }

  ghost predicate ListDone(h: Heap, rank: nat -> nat, i: nat, done: nat)
    requires Acyclic(h, rank) && i in h.lists
  {
    forall n :: 0 <= n < |h.lists[i]| && n < done ==> Cleaned(View(h, rank, h.lists[i][n]))
  }

  lemma {:induction false} DoneStays(before: Heap, after: Heap, rank: nat -> nat, i: nat, todo: set<string>, done: nat)
    requires Acyclic(before, rank) && Acyclic(after, rank) && Cleaner(before, after)
    ensures i in before.dicts && DictDone(before, rank, i, todo) ==> DictDone(after, rank, i, todo)
    ensures i in before.lists && ListDone(before, rank, i, done) ==> ListDone(after, rank, i, done)
  {
    hide View, Cleaned, Clean;
    if i in before.dicts {
      forall k | k in before.dicts[i] { CleanerCell(before, after, rank, before.dicts[i][k], after.dicts[i][k]); }
    }
    if i in before.lists {
      forall n | 0 <= n < |before.lists[i]| { CleanerCell(before, after, rank, before.lists[i][n], after.lists[i][n]); }
    }
  }

  lemma {:induction false} AllDone(h: Heap, rank: nat -> nat, i: nat)
    requires Acyclic(h, rank)
    ensures i in h.dicts && DictDone(h, rank, i, {}) ==> Cleaned(View(h, rank, DictAt(i)))
    ensures i in h.lists && ListDone(h, rank, i, |h.lists[i]|) ==> Cleaned(View(h, rank, ListAt(i)))
  {
  }

  lemma {:induction false} EmptyIsClean(h: Heap, rank: nat -> nat, i: nat)
    requires Acyclic(h, rank)
    ensures i in h.dicts && h.dicts[i] == map[] ==> Cleaned(View(h, rank, DictAt(i)))
    ensures i in h.lists && h.lists[i] == [] ==> Cleaned(View(h, rank, ListAt(i)))
  {
  }

  lemma {:induction false} TextInDict(h: Heap, rank: nat -> nat, i: nat, k: string, text: string)
    requires Acyclic(h, rank) && i in h.dicts && k in h.dicts[i] && h.dicts[i][k] == Plain(Other(true, text))
    ensures var after := h.(dicts := h.dicts[i := h.dicts[i][k := Plain(Str(text))]]);
            Cleaner(h, after) && Acyclic(after, rank) && Cleaned(View(after, rank, Plain(Str(text))))
  {
    CleanerAcyclic(h, h.(dicts := h.dicts[i := h.dicts[i][k := Plain(Str(text))]]), rank);
  }

  lemma {:induction false} TextInList(h: Heap, rank: nat -> nat, i: nat, n: nat, text: string)
    requires Acyclic(h, rank) && i in h.lists && n < |h.lists[i]| && h.lists[i][n] == Plain(Other(true, text))
    ensures var after := h.(lists := h.lists[i := h.lists[i][n := Plain(Str(text))]]);
            Cleaner(h, after) && Acyclic(after, rank) && Cleaned(View(after, rank, Plain(Str(text))))
  {
    CleanerAcyclic(h, h.(lists := h.lists[i := h.lists[i][n := Plain(Str(text))]]), rank);
  }

  lemma {:induction false} OneMoreDone(h: Heap, rank: nat -> nat, i: nat, todo: set<string>, k: string, n: nat)
    requires Acyclic(h, rank)
    ensures i in h.dicts && k in h.dicts[i] && DictDone(h, rank, i, todo) && Cleaned(View(h, rank, h.dicts[i][k])) ==>
              DictDone(h, rank, i, todo - {k})
    ensures i in h.lists && n < |h.lists[i]| && ListDone(h, rank, i, n) && Cleaned(View(h, rank, h.lists[i][n])) ==>
              ListDone(h, rank, i, n + 1)
  {
  }

  lemma {:induction false} LeafIsClean(h: Heap, rank: nat -> nat, v: Value)
    requires Acyclic(h, rank) && Known(h, v) && v.Plain?
    ensures Cleaned(View(h, rank, v)) <==> !(v.leaf.Other? && v.leaf.truthy)
  {
  }

  lemma {:induction false} CellKnown(h: Heap, rank: nat -> nat, i: nat)
    requires Acyclic(h, rank)
    ensures i in h.dicts ==>
              forall k :: k in h.dicts[i] ==> Known(h, h.dicts[i][k]) && RankOf(rank, h.dicts[i][k]) <= rank(i)
    ensures i in h.lists ==>
              forall n :: 0 <= n < |h.lists[i]| ==> Known(h, h.lists[i][n]) && RankOf(rank, h.lists[i][n]) <= rank(i)
  {
  }

  lemma {:induction false} SameReference(before: Heap, after: Heap, i: nat)
    requires Cleaner(before, after)
    ensures i in before.dicts <==> i in after.dicts
    ensures i in before.lists <==> i in after.lists
    ensures i in before.dicts ==> after.dicts[i].Keys == before.dicts[i].Keys
    ensures i in before.lists ==> |after.lists[i]| == |before.lists[i]|
    ensures i in before.dicts ==> forall k :: k in before.dicts[i] ==>
        CleanerValue(before.dicts[i][k], after.dicts[i][k])
    ensures i in before.lists ==> forall n :: 0 <= n < |before.lists[i]| ==>
        CleanerValue(before.lists[i][n], after.lists[i][n])
  {
  }

  /** Objects that refer to none but each other: whatever can be reached from one of them. */
  ghost predicate Closed(h: Heap, own: set<nat>) {
    && (forall i, k :: i in own && i in h.dicts && k in h.dicts[i] ==> Inside(h.dicts[i][k], own))
    && (forall i, n :: i in own && i in h.lists && 0 <= n < |h.lists[i]| ==> Inside(h.lists[i][n], own))
  }

  predicate Inside(v: Value, own: set<nat>) {
    v.Plain? || v.id in own
  }

  /** Everything else is as it was. */
  ghost predicate SameOutside(before: Heap, after: Heap, own: set<nat>) {
    && (forall i :: i in before.dicts && i !in own ==> i in after.dicts && after.dicts[i] == before.dicts[i])
    && (forall i :: i in before.lists && i !in own ==> i in after.lists && after.lists[i] == before.lists[i])
  }

  lemma {:induction false} OutsideChain(a: Heap, b: Heap, c: Heap, own: set<nat>)
    requires SameOutside(a, b, own) && SameOutside(b, c, own)
    ensures SameOutside(a, c, own)
  {
  }

  lemma {:induction false} StaysClosed(before: Heap, after: Heap, own: set<nat>)
    requires Cleaner(before, after) && Closed(before, own)
    ensures Closed(after, own)
  {
    forall i, k | i in own && i in after.dicts && k in after.dicts[i] ensures Inside(after.dicts[i][k], own) {
      assert CleanerValue(before.dicts[i][k], after.dicts[i][k]) && Inside(before.dicts[i][k], own);
    }
    forall i, n | i in own && i in after.lists && 0 <= n < |after.lists[i]| ensures Inside(after.lists[i][n], own) {
      assert CleanerValue(before.lists[i][n], after.lists[i][n]) && Inside(before.lists[i][n], own);
    }
  }

  lemma {:induction false} CellInside(h: Heap, own: set<nat>, i: nat)
    requires Closed(h, own) && i in own
    ensures i in h.dicts ==> forall k :: k in h.dicts[i] ==> Inside(h.dicts[i][k], own)
    ensures i in h.lists ==> forall n :: 0 <= n < |h.lists[i]| ==> Inside(h.lists[i][n], own)
  {
  }

  /** All dicts and lists in use; what is to be cleaned is one of them. */
  class JsonCleanuper {
    var dicts: map<nat, map<string, Value>>
    var lists: map<nat, seq<Value>>

    ghost function Objects(): Heap
      reads this
    {
      Heap(dicts, lists)
    }

    method CleanedUpDict(resource: nat, ghost rank: nat -> nat, ghost own: set<nat>)
      requires Acyclic(Objects(), rank) && resource in dicts && Closed(Objects(), own) && resource in own
      modifies this
      ensures Acyclic(Objects(), rank) && Cleaner(old(Objects()), Objects())
      ensures SameOutside(old(Objects()), Objects(), own)
      ensures Cleaned(View(Objects(), rank, DictAt(resource)))
      ensures View(Objects(), rank, DictAt(resource)) == Clean(old(View(Objects(), rank, DictAt(resource))))
      decreases rank(resource) + 1, 0
    {
      ghost var start := Objects();
      hide View, Cleaned, Clean, Acyclic, DictDone, Known, RankOf;
      var todo := dicts[resource].Keys;
      assert DictDone(Objects(), rank, resource, todo) by { NothingDone(Objects(), rank, resource); }
      assert Cleaner(old(Objects()), Objects());
      hide Cleaner, Closed, Inside;
      while todo != {}
        invariant Acyclic(Objects(), rank) && Cleaner(old(Objects()), Objects())
        invariant SameOutside(old(Objects()), Objects(), own) && Closed(Objects(), own)
        invariant resource in dicts && todo <= dicts[resource].Keys && DictDone(Objects(), rank, resource, todo)
      {
        var k :| k in todo;
        ghost var before := Objects();
        CellKnown(before, rank, resource);
        CellInside(before, own, resource);
        var v := dicts[resource][k];
        if v.Plain? {
          LeafIsClean(before, rank, v);
          SameCleaner(before);
          if Truthy(v.leaf) && v.leaf.Other? {
            TextInDict(before, rank, resource, k, v.leaf.text);
            dicts := dicts[resource := dicts[resource][k := Plain(Str(v.leaf.text))]];
          }
        } else {
          CleanedUpNested(v, rank, own);
        }
        SameReference(before, Objects(), resource);
        CleanerChain(old(Objects()), before, Objects());
        OutsideChain(old(Objects()), before, Objects(), own);
        StaysClosed(before, Objects(), own);
        DoneStays(before, Objects(), rank, resource, todo, 0);
        OneMoreDone(Objects(), rank, resource, todo, k, 0);
        todo := todo - {k};
      }
      AllDone(Objects(), rank, resource);
      KnownDict(start, resource);
      KnownDict(Objects(), resource);
      CleanedInPlace(start, Objects(), rank, DictAt(resource));
    }

    method CleanedUpList(resource: nat, ghost rank: nat -> nat, ghost own: set<nat>)
      requires Acyclic(Objects(), rank) && resource in lists && Closed(Objects(), own) && resource in own
      modifies this
      ensures Acyclic(Objects(), rank) && Cleaner(old(Objects()), Objects())
      ensures SameOutside(old(Objects()), Objects(), own)
      ensures Cleaned(View(Objects(), rank, ListAt(resource)))
      ensures View(Objects(), rank, ListAt(resource)) == Clean(old(View(Objects(), rank, ListAt(resource))))
      decreases rank(resource) + 1, 0
    {
      ghost var start := Objects();
      hide View, Cleaned, Clean, Acyclic, ListDone;
      assert ListDone(Objects(), rank, resource, 0) by { NothingDone(Objects(), rank, resource); }
      assert Cleaner(old(Objects()), Objects());
      hide Cleaner, Closed, Inside;
      for k := 0 to |lists[resource]|
        invariant Acyclic(Objects(), rank) && Cleaner(old(Objects()), Objects())
        invariant SameOutside(old(Objects()), Objects(), own) && Closed(Objects(), own)
        invariant resource in lists && |lists[resource]| == |old(lists[resource])|
        invariant ListDone(Objects(), rank, resource, k)
      {
        ghost var before := Objects();
        CellKnown(before, rank, resource);
        CellInside(before, own, resource);
        var v := lists[resource][k];
        if v.Plain? {
          LeafIsClean(before, rank, v);
          SameCleaner(before);
          if Truthy(v.leaf) && v.leaf.Other? {
            TextInList(before, rank, resource, k, v.leaf.text);
            lists := lists[resource := lists[resource][k := Plain(Str(v.leaf.text))]];
          }
        } else {
          CleanedUpNested(v, rank, own);
        }
        SameReference(before, Objects(), resource);
        CleanerChain(old(Objects()), before, Objects());
        OutsideChain(old(Objects()), before, Objects(), own);
        StaysClosed(before, Objects(), own);
        DoneStays(before, Objects(), rank, resource, {}, k);
        OneMoreDone(Objects(), rank, resource, {}, "", k);
      }
      AllDone(Objects(), rank, resource);
      CleanedInPlace(start, Objects(), rank, ListAt(resource));
    }

    /** A nested dict or list, unless it is empty. */
    method CleanedUpNested(v: Value, ghost rank: nat -> nat, ghost own: set<nat>)
      requires Acyclic(Objects(), rank) && Known(Objects(), v) && !v.Plain? && Closed(Objects(), own) && v.id in own
      modifies this
      ensures Acyclic(Objects(), rank) && Cleaner(old(Objects()), Objects())
      ensures SameOutside(old(Objects()), Objects(), own)
      ensures Known(Objects(), v) && Cleaned(View(Objects(), rank, v))
      decreases RankOf(rank, v), 1
    {
      hide View, Cleaned, Acyclic;
      SameCleaner(Objects());
      EmptyIsClean(Objects(), rank, v.id);
      if v.DictAt? && dicts[v.id] != map[] { CleanedUpDict(v.id, rank, own); }
      if v.ListAt? && lists[v.id] != [] { CleanedUpList(v.id, rank, own); }
    }
  }

  lemma {:induction false} KnownDict(h: Heap, i: nat)
    ensures i in h.dicts ==> Known(h, DictAt(i))
  {
  }

  lemma {:induction false} SameCleaner(h: Heap)
    ensures Cleaner(h, h)
  {
  }

  lemma {:induction false} NothingDone(h: Heap, rank: nat -> nat, i: nat)
    requires Acyclic(h, rank)
    ensures i in h.dicts ==> DictDone(h, rank, i, h.dicts[i].Keys)
    ensures i in h.lists ==> ListDone(h, rank, i, 0)
  {
  }
}
