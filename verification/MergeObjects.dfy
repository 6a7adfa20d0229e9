/**
 * `merge_definitions` on dicts as objects: the old dict is updated where it is, and takes
 * over nested objects of the new one.
 */
module MergeObjects {
  import opened JsonValues
  import opened JsonObjects

  /** All objects that can be reached from a value. */
  ghost function Reach(h: Heap, rank: nat -> nat, v: Value): set<nat>
    requires Acyclic(h, rank) && Known(h, v)
    decreases RankOf(rank, v)
  {
    match v
    case Plain(_) => {}
    case DictAt(i) => {i} + set k, j | k in h.dicts[i] && j in Reach(h, rank, h.dicts[i][k]) :: j
    case ListAt(i) => {i} + set n, j | 0 <= n < |h.lists[i]| && j in Reach(h, rank, h.lists[i][n]) :: j
  }

  /** No object is reached through two keys of a dict or of a dict nested in it. */
  ghost predicate Unshared(h: Heap, rank: nat -> nat, v: Value)
    requires Acyclic(h, rank) && Known(h, v)
    decreases RankOf(rank, v)
  {
    v.DictAt? ==>
      var cells := h.dicts[v.id];
      && (forall k, l :: k in cells && l in cells && k != l ==> Reach(h, rank, cells[k]) !! Reach(h, rank, cells[l]))
      && (forall k :: k in cells ==> Unshared(h, rank, cells[k]))
  }

  /** The objects of an area are as before. */
  ghost predicate SameIn(before: Heap, after: Heap, area: set<nat>) {
    forall i :: i in area ==>
      && (i in before.dicts ==> i in after.dicts && after.dicts[i] == before.dicts[i])
      && (i in before.lists ==> i in after.lists && after.lists[i] == before.lists[i])
  }

  lemma {:induction false} ReachBelow(h: Heap, rank: nat -> nat, v: Value)
    requires Acyclic(h, rank) && Known(h, v)
    ensures forall j :: j in Reach(h, rank, v) ==> rank(j) < RankOf(rank, v)
    decreases RankOf(rank, v)
  {
    match v
    case Plain(_) =>
    case DictAt(i) => forall k | k in h.dicts[i] { ReachBelow(h, rank, h.dicts[i][k]); }
    case ListAt(i) => forall n | 0 <= n < |h.lists[i]| { ReachBelow(h, rank, h.lists[i][n]); }
  }

  /** What a value reaches and stands for, and whether dicts are shared in it, stay. */
  ghost predicate SameValue(before: Heap, rank: nat -> nat, after: Heap, other: nat -> nat, v: Value)
    requires Acyclic(before, rank) && Acyclic(after, other) && Known(before, v)
  {
    && Known(after, v) && Reach(after, other, v) == Reach(before, rank, v)
    && View(after, other, v) == View(before, rank, v) && Unshared(after, other, v) == Unshared(before, rank, v)
  }

  /** So they do if every object reached is as before. */
  lemma {:induction false} SameRanked(before: Heap, rank: nat -> nat, after: Heap, other: nat -> nat, v: Value)
    requires Acyclic(before, rank) && Acyclic(after, other) && Known(before, v)
    requires SameIn(before, after, Reach(before, rank, v))
    ensures SameValue(before, rank, after, other, v)
    decreases RankOf(rank, v)
  {
    hide SameValue, View, Unshared, Acyclic;
    match v
    case Plain(_) => SamePlain(before, rank, after, other, v);
    case DictAt(i) =>
      assert i in Reach(before, rank, v) && after.dicts[i] == before.dicts[i];
      CellsKnown(before, rank, i);
      forall k | k in before.dicts[i] ensures SameValue(before, rank, after, other, before.dicts[i][k]) {
        CellReach(before, rank, i, k);
        SameRanked(before, rank, after, other, before.dicts[i][k]);
      }
      SameDict(before, rank, after, other, i);
    case ListAt(i) =>
      assert i in Reach(before, rank, v) && after.lists[i] == before.lists[i];
      CellsKnown(before, rank, i);
      forall n | 0 <= n < |before.lists[i]| ensures SameValue(before, rank, after, other, before.lists[i][n]) {
        assert Reach(before, rank, before.lists[i][n]) <= Reach(before, rank, v);
        SameRanked(before, rank, after, other, before.lists[i][n]);
      }
      SameList(before, rank, after, other, i);
  }

  lemma {:induction false} SameReach(before: Heap, after: Heap, rank: nat -> nat, v: Value)
    requires Acyclic(before, rank) && Acyclic(after, rank) && Known(before, v)
    requires SameIn(before, after, Reach(before, rank, v))
    ensures SameValue(before, rank, after, rank, v)
  {
    SameRanked(before, rank, after, rank, v);
  }

  lemma {:induction false} CellsKnown(h: Heap, rank: nat -> nat, i: nat)
    requires Acyclic(h, rank)
    ensures i in h.dicts ==>
              forall k :: k in h.dicts[i] ==> Known(h, h.dicts[i][k]) && RankOf(rank, h.dicts[i][k]) <= rank(i)
    ensures i in h.lists ==>
              forall n :: 0 <= n < |h.lists[i]| ==> Known(h, h.lists[i][n]) && RankOf(rank, h.lists[i][n]) <= rank(i)
  {
  }

  lemma {:induction false} SamePlain(before: Heap, rank: nat -> nat, after: Heap, other: nat -> nat, v: Value)
    requires Acyclic(before, rank) && Acyclic(after, other) && Known(before, v) && v.Plain?
    ensures SameValue(before, rank, after, other, v)
  {
  }

  lemma {:induction false} SameDict(before: Heap, rank: nat -> nat, after: Heap, other: nat -> nat, i: nat)
    requires Acyclic(before, rank) && Acyclic(after, other) && i in before.dicts && i in after.dicts
    requires after.dicts[i] == before.dicts[i]
    requires forall k :: k in before.dicts[i] ==> SameValue(before, rank, after, other, before.dicts[i][k])
    ensures SameValue(before, rank, after, other, DictAt(i))
  {
    SameSharing(before, rank, after, other, i);
    SameObjects(before, rank, after, other, i);
    SameView(before, rank, after, other, i);
    hide Acyclic, View, Reach, Unshared;
  }

  lemma {:induction false} SameObjects(before: Heap, rank: nat -> nat, after: Heap, other: nat -> nat, i: nat)
    requires Acyclic(before, rank) && Acyclic(after, other) && i in before.dicts && i in after.dicts
    requires after.dicts[i] == before.dicts[i]
    requires forall k :: k in before.dicts[i] ==> SameValue(before, rank, after, other, before.dicts[i][k])
    ensures Reach(after, other, DictAt(i)) == Reach(before, rank, DictAt(i))
  {
    var cells := before.dicts[i];
    CellsKnown(before, rank, i);
    CellsKnown(after, other, i);
    assert forall k :: k in cells ==> Reach(after, other, cells[k]) == Reach(before, rank, cells[k]);
    hide Acyclic, View, Unshared, SameValue;
  }

  lemma {:induction false} SameView(before: Heap, rank: nat -> nat, after: Heap, other: nat -> nat, i: nat)
    requires Acyclic(before, rank) && Acyclic(after, other) && i in before.dicts && i in after.dicts
    requires after.dicts[i] == before.dicts[i]
    requires forall k :: k in before.dicts[i] ==> SameValue(before, rank, after, other, before.dicts[i][k])
    ensures View(after, other, DictAt(i)) == View(before, rank, DictAt(i))
  {
    var cells := before.dicts[i];
    CellsKnown(before, rank, i);
    CellsKnown(after, other, i);
    assert forall k :: k in cells ==> View(after, other, cells[k]) == View(before, rank, cells[k]);
    hide Acyclic, Reach, Unshared, SameValue;
  }

  lemma {:induction false} SameSharing(before: Heap, rank: nat -> nat, after: Heap, other: nat -> nat, i: nat)
    requires Acyclic(before, rank) && Acyclic(after, other) && i in before.dicts && i in after.dicts
    requires after.dicts[i] == before.dicts[i]
    requires forall k :: k in before.dicts[i] ==> SameValue(before, rank, after, other, before.dicts[i][k])
    ensures Unshared(after, other, DictAt(i)) == Unshared(before, rank, DictAt(i))
  {
    var cells := before.dicts[i];
    CellsKnown(before, rank, i);
    CellsKnown(after, other, i);
    assert forall k :: k in cells ==> Reach(after, other, cells[k]) == Reach(before, rank, cells[k]);
    assert forall k :: k in cells ==> Unshared(after, other, cells[k]) == Unshared(before, rank, cells[k]);
    hide Acyclic, View, Reach, SameValue;
  }

  lemma {:induction false} SameList(before: Heap, rank: nat -> nat, after: Heap, other: nat -> nat, i: nat)
    requires Acyclic(before, rank) && Acyclic(after, other) && i in before.lists && i in after.lists
    requires after.lists[i] == before.lists[i]
    requires forall n :: 0 <= n < |before.lists[i]| ==> SameValue(before, rank, after, other, before.lists[i][n])
    ensures SameValue(before, rank, after, other, ListAt(i))
  {
    var cells := before.lists[i];
    assert forall n :: 0 <= n < |cells| ==> Reach(after, other, cells[n]) == Reach(before, rank, cells[n]);
    assert forall n :: 0 <= n < |cells| ==> View(after, other, cells[n]) == View(before, rank, cells[n]);
    assert Reach(after, other, ListAt(i)) == Reach(before, rank, ListAt(i));
    assert View(after, other, ListAt(i)) == View(before, rank, ListAt(i));
  }

  lemma {:induction false} CellReach(h: Heap, rank: nat -> nat, i: nat, k: string)
    requires Acyclic(h, rank) && i in h.dicts && k in h.dicts[i]
    ensures Reach(h, rank, h.dicts[i][k]) <= Reach(h, rank, DictAt(i)) && i !in Reach(h, rank, h.dicts[i][k])
    ensures RankOf(rank, h.dicts[i][k]) <= rank(i)
  {
    ReachBelow(h, rank, h.dicts[i][k]);
  }

  // -------------------------------------------------------------- merging

  /** The old dict shares no object with itself or with the new one. */
  ghost predicate Separate(h: Heap, rank: nat -> nat, base: Value, patch: nat)
    requires Acyclic(h, rank) && Known(h, base) && patch in h.dicts
  {
    && Unshared(h, rank, base) && Reach(h, rank, base) !! Reach(h, rank, DictAt(patch))
    && forall j :: j in Reach(h, rank, base) ==> rank(patch) < rank(j)
  }

  ghost predicate DictsMeet(h: Heap, base: nat, patch: nat, k: string)
    requires base in h.dicts && patch in h.dicts
  {
    k in h.dicts[base] && h.dicts[base][k].DictAt? && k in h.dicts[patch] && h.dicts[patch][k].DictAt?
  }

  /** What an entry of the old dict reaches. */
  ghost function Territory(h: Heap, rank: nat -> nat, base: nat, k: string): set<nat>
    requires Acyclic(h, rank) && base in h.dicts
  {
    if k in h.dicts[base] then Reach(h, rank, h.dicts[base][k]) else {}
  }

  /** The entry written for a key of the new dict. */
  ghost predicate EntryMerged(start: Heap, now: Heap, rank: nat -> nat, base: nat, patch: nat, k: string, v: Value)
    requires Acyclic(start, rank) && Acyclic(now, rank) && base in start.dicts && patch in start.dicts
    requires k in start.dicts[patch]
  {
    && Known(now, v) && RankOf(rank, v) <= rank(base)
    && Reach(now, rank, v) <= Territory(start, rank, base, k) + Reach(start, rank, DictAt(patch))
    && (if DictsMeet(start, base, patch, k) then
          && v == start.dicts[base][k]
          && View(now, rank, v) == Object(Merge(View(start, rank, start.dicts[base][k]).fields,
                                                View(start, rank, start.dicts[patch][k]).fields))
        else
          v == start.dicts[patch][k] && View(now, rank, v) == View(start, rank, start.dicts[patch][k]))
  }

  /** What the loop keeps: entries still to do, and those the new dict does not have, are as
      they were; the others are merged. */
  ghost predicate Merging(start: Heap, now: Heap, rank: nat -> nat, base: nat, patch: nat, todo: set<string>)
    requires Acyclic(start, rank) && Acyclic(now, rank) && base in start.dicts && patch in start.dicts
  {
    && now.dicts.Keys == start.dicts.Keys && now.lists.Keys == start.lists.Keys
    && SameOutside(start, now, Reach(start, rank, DictAt(base)))
    && now.dicts[base].Keys == start.dicts[base].Keys + (start.dicts[patch].Keys - todo)
    && forall k :: k in now.dicts[base] ==> EntryKept(start, now, rank, base, patch, todo, k)
  }

  ghost predicate EntryKept(start: Heap, now: Heap, rank: nat -> nat, base: nat, patch: nat, todo: set<string>,
        k: string)
    requires Acyclic(start, rank) && Acyclic(now, rank) && base in start.dicts && patch in start.dicts
    requires base in now.dicts && k in now.dicts[base]
  {
    if k in start.dicts[patch] && k !in todo then EntryMerged(start, now, rank, base, patch, k, now.dicts[base][k])
    else
      && k in start.dicts[base] && now.dicts[base][k] == start.dicts[base][k]
      && SameIn(start, now, Territory(start, rank, base, k))
  }

  /** A rank for it is no further demand: any can be lifted above the new dict. */
  lemma {:induction false} RankForMerging(h: Heap, rank: nat -> nat, base: Value,
        patch: nat) returns (lifted: nat -> nat)
    requires Acyclic(h, rank) && Known(h, base) && patch in h.dicts && Unshared(h, rank, base)
    requires h.dicts.Keys !! h.lists.Keys
    requires Reach(h, rank, base) !! Reach(h, rank, DictAt(patch))
    ensures Acyclic(h, lifted) && Separate(h, lifted, base, patch)
    ensures View(h, lifted, base) == View(h, rank, base)
    ensures View(h, lifted, DictAt(patch)) == View(h, rank, DictAt(patch))
  {
    var area := Reach(h, rank, DictAt(patch));
    lifted := i => if i in area then rank(i) else rank(i) + rank(patch) + 1;
    LiftedAcyclic(h, rank, lifted, patch);
    SameRanked(h, rank, h, lifted, base);
    SameRanked(h, rank, h, lifted, DictAt(patch));
    assert patch in area;
  }

  lemma {:induction false} LiftedAcyclic(h: Heap, rank: nat -> nat, lifted: nat -> nat, patch: nat)
    requires Acyclic(h, rank) && patch in h.dicts && h.dicts.Keys !! h.lists.Keys
    requires forall i :: lifted(i) == if i in Reach(h, rank, DictAt(patch)) then rank(i) else rank(i) + rank(patch) + 1
    ensures Acyclic(h, lifted)
  {
    ReachBelow(h, rank, DictAt(patch));
    ReachClosed(h, rank, DictAt(patch));
  }

  lemma {:induction false} ReachClosed(h: Heap, rank: nat -> nat, v: Value)
    requires Acyclic(h, rank) && Known(h, v) && h.dicts.Keys !! h.lists.Keys
    ensures Closed(h, Reach(h, rank, v))
    decreases RankOf(rank, v)
  {
    match v
    case Plain(_) =>
    case DictAt(i) => forall k | k in h.dicts[i] { ReachClosed(h, rank, h.dicts[i][k]); }
    case ListAt(i) => forall n | 0 <= n < |h.lists[i]| { ReachClosed(h, rank, h.lists[i][n]); }
  }

  lemma {:induction false} NothingMerged(h: Heap, rank: nat -> nat, base: nat, patch: nat)
    requires Acyclic(h, rank) && base in h.dicts && patch in h.dicts
    ensures Merging(h, h, rank, base, patch, h.dicts[patch].Keys)
  {
    hide View, Reach, Acyclic;
  }

  /** A step at one key touches nothing but what the old entry reaches and the old dict, and
      there no other entry: the others are kept. */
  lemma {:induction false} OthersKept(start: Heap, before: Heap, after: Heap, rank: nat -> nat, base: nat, patch: nat,
        todo: set<string>, k: string, l: string)
    requires Acyclic(start, rank) && Acyclic(before, rank) && Acyclic(after, rank) && base in start.dicts
    requires patch in start.dicts
    requires Separate(start, rank, DictAt(base), patch) && k in todo && l != k
    requires base in before.dicts && l in before.dicts[base] && EntryKept(start, before, rank, base, patch, todo, l)
    requires base in after.dicts && l in after.dicts[base] && after.dicts[base][l] == before.dicts[base][l]
    requires SameOutside(before, after, Territory(start, rank, base, k) + {base})
    requires before.dicts.Keys == start.dicts.Keys && before.lists.Keys == start.lists.Keys
    ensures EntryKept(start, after, rank, base, patch, todo - {k}, l)
  {
    Apart(start, rank, base, patch, k, l);
    if l in start.dicts[patch] && l !in todo {
      MergedStays(start, before, after, rank, base, patch, k, l, before.dicts[base][l]);
    } else {
      var area, touched := Territory(start, rank, base, l), Territory(start, rank, base, k) + {base};
      hide *;
      SameApart(start, before, after, area, touched);
    }
  }

  lemma {:induction false} SameApart(start: Heap, before: Heap, after: Heap, area: set<nat>, touched: set<nat>)
    requires SameIn(start, before, area) && SameOutside(before, after, touched) && area !! touched
    ensures SameIn(start, after, area)
  {
  }

  lemma {:induction false} MergedStays(start: Heap, before: Heap, after: Heap, rank: nat -> nat, base: nat, patch: nat,
        k: string, l: string, v: Value)
    requires Acyclic(start, rank) && Acyclic(before, rank) && Acyclic(after, rank) && base in start.dicts
    requires patch in start.dicts
    requires l in start.dicts[patch] && EntryMerged(start, before, rank, base, patch, l, v)
    requires SameOutside(before, after, Territory(start, rank, base, k) + {base})
    requires Territory(start, rank, base, l) !! Territory(start, rank, base, k) + {base}
    requires Reach(start, rank, DictAt(patch)) !! Territory(start, rank, base, k) + {base}
    ensures EntryMerged(start, after, rank, base, patch, l, v)
  {
    hide View, Reach, Acyclic, Unshared, Territory;
    assert Reach(before, rank, v) !! Territory(start, rank, base, k) + {base};
    SameApart(before, before, after, Reach(before, rank, v), Territory(start, rank, base, k) + {base});
    SameReach(before, after, rank, v);
  }

  lemma {:induction false} Apart(h: Heap, rank: nat -> nat, base: nat, patch: nat, k: string, l: string)
    requires Acyclic(h, rank) && base in h.dicts && patch in h.dicts && Separate(h, rank, DictAt(base), patch) && k != l
    ensures Territory(h, rank, base, l) !! Territory(h, rank, base, k) + {base}
    ensures Territory(h, rank, base, k) + {base} <= Reach(h, rank, DictAt(base))
    ensures Reach(h, rank, DictAt(patch)) !! Territory(h, rank, base, k) + {base}
  {
    if k in h.dicts[base] { CellReach(h, rank, base, k); }
    if l in h.dicts[base] { CellReach(h, rank, base, l); }
  }

  /** The new dict, and each entry of it, is as at the start. */
  lemma {:induction false} PatchStays(start: Heap, now: Heap, rank: nat -> nat, base: nat, patch: nat, k: string)
    requires Acyclic(start, rank) && Acyclic(now, rank) && base in start.dicts && patch in start.dicts
    requires Separate(start, rank, DictAt(base), patch) && SameOutside(start, now, Reach(start, rank, DictAt(base)))
    ensures patch in now.dicts && now.dicts[patch] == start.dicts[patch]
    ensures SameValue(start, rank, now, rank, DictAt(patch))
    ensures k in start.dicts[patch] ==>
              Known(start, start.dicts[patch][k]) && SameValue(start, rank, now, rank, start.dicts[patch][k])
    ensures k in start.dicts[patch] ==>
              && Reach(start, rank, start.dicts[patch][k]) <= Reach(start, rank, DictAt(patch))
              && RankOf(rank, start.dicts[patch][k]) <= rank(patch)
  {
    var area := Reach(start, rank, DictAt(base));
    assert patch in Reach(start, rank, DictAt(patch));
    CellsKnown(start, rank, patch);
    hide View, Unshared, Acyclic;
    SameApart(start, start, now, Reach(start, rank, DictAt(patch)), area);
    SameReach(start, now, rank, DictAt(patch));
    if k in start.dicts[patch] {
      CellReach(start, rank, patch, k);
      SameApart(start, start, now, Reach(start, rank, start.dicts[patch][k]), area);
      SameReach(start, now, rank, start.dicts[patch][k]);
    }
  }

  /** Where dicts meet, they can be merged themselves. */
  lemma {:induction false} NestedSeparate(start: Heap, now: Heap, rank: nat -> nat, base: nat, patch: nat,
        todo: set<string>, k: string)
    requires Acyclic(start, rank) && Acyclic(now, rank) && base in start.dicts && patch in start.dicts
    requires Separate(start, rank, DictAt(base), patch) && Merging(start, now, rank, base, patch, todo)
    requires k in todo && DictsMeet(start, base, patch, k)
    ensures var v, w := start.dicts[base][k], start.dicts[patch][k];
            && base in now.dicts && k in now.dicts[base] && now.dicts[base][k] == v
            && patch in now.dicts && now.dicts[patch] == start.dicts[patch]
            && Known(now, v) && Known(now, w) && Separate(now, rank, v, w.id) && rank(w.id) < rank(patch)
            && SameValue(start, rank, now, rank, v) && SameValue(start, rank, now, rank, w)
  {
    PatchStays(start, now, rank, base, patch, k);
    PendingStays(start, now, rank, base, patch, todo, k);
    CellReach(start, rank, base, k);
    assert Unshared(start, rank, start.dicts[base][k]);
    hide View, Acyclic, Unshared, Reach, Merging;
  }

  lemma {:induction false} PendingStays(start: Heap, now: Heap, rank: nat -> nat, base: nat, patch: nat,
        todo: set<string>, k: string)
    requires Acyclic(start, rank) && Acyclic(now, rank) && base in start.dicts && patch in start.dicts
    requires Merging(start, now, rank, base, patch, todo) && k in todo && k in start.dicts[base]
    ensures base in now.dicts && k in now.dicts[base] && now.dicts[base][k] == start.dicts[base][k]
    ensures Known(start, start.dicts[base][k]) && SameValue(start, rank, now, rank, start.dicts[base][k])
  {
    assert EntryKept(start, now, rank, base, patch, todo, k);
    CellsKnown(start, rank, base);
    hide View, Acyclic, Unshared, Reach;
    SameReach(start, now, rank, start.dicts[base][k]);
  }

  /** A step at one key leaves the loop's invariant. */
  lemma {:induction false} StepKept(start: Heap, before: Heap, after: Heap, rank: nat -> nat, base: nat, patch: nat,
        todo: set<string>, k: string, v: Value)
    requires Acyclic(start, rank) && Acyclic(before, rank) && Acyclic(after, rank) && base in start.dicts
    requires patch in start.dicts
    requires Separate(start, rank, DictAt(base), patch) && Merging(start, before, rank, base, patch, todo)
    requires k in todo && k in start.dicts[patch]
    requires SameOutside(before, after, Territory(start, rank, base, k) + {base})
    requires after.dicts.Keys == before.dicts.Keys && after.lists.Keys == before.lists.Keys
    requires base in before.dicts && base in after.dicts && after.dicts[base] == before.dicts[base][k := v]
    requires EntryMerged(start, after, rank, base, patch, k, v)
    ensures Merging(start, after, rank, base, patch, todo - {k})
  {
    TerritoryInside(start, rank, base, k);
    EntriesKept(start, before, after, rank, base, patch, todo, k, v);
    Widened(start, before, after, Territory(start, rank, base, k) + {base}, Reach(start, rank, DictAt(base)));
    KeysDone(start, before, after, base, patch, todo, k, v);
    hide EntryKept, EntryMerged, View, Acyclic, Unshared, Reach, Separate, Territory, SameOutside, SameIn;
  }

  lemma {:induction false} TerritoryInside(h: Heap, rank: nat -> nat, base: nat, k: string)
    requires Acyclic(h, rank) && base in h.dicts
    ensures Territory(h, rank, base, k) + {base} <= Reach(h, rank, DictAt(base))
  {
    if k in h.dicts[base] { CellReach(h, rank, base, k); }
  }

  lemma {:induction false} KeysDone(start: Heap, before: Heap, after: Heap, base: nat, patch: nat, todo: set<string>,
        k: string, v: Value)
    requires base in start.dicts && patch in start.dicts && base in before.dicts && base in after.dicts
    requires before.dicts[base].Keys == start.dicts[base].Keys + (start.dicts[patch].Keys - todo)
    requires k in todo && k in start.dicts[patch] && after.dicts[base] == before.dicts[base][k := v]
    ensures after.dicts[base].Keys == start.dicts[base].Keys + (start.dicts[patch].Keys - (todo - {k}))
  {
    assert after.dicts[base].Keys == before.dicts[base].Keys + {k};
  }

  lemma {:induction false} EntriesKept(start: Heap, before: Heap, after: Heap, rank: nat -> nat, base: nat, patch: nat,
        todo: set<string>, k: string, v: Value)
    requires Acyclic(start, rank) && Acyclic(before, rank) && Acyclic(after, rank) && base in start.dicts
    requires patch in start.dicts
    requires Separate(start, rank, DictAt(base), patch) && Merging(start, before, rank, base, patch, todo)
    requires k in todo && k in start.dicts[patch]
    requires SameOutside(before, after, Territory(start, rank, base, k) + {base})
    requires base in before.dicts && base in after.dicts && after.dicts[base] == before.dicts[base][k := v]
    requires EntryMerged(start, after, rank, base, patch, k, v)
    ensures forall l :: l in after.dicts[base] ==> EntryKept(start, after, rank, base, patch, todo - {k}, l)
  {
    hide EntryKept, EntryMerged, View, Acyclic, Unshared, Reach, Separate, Territory, SameOutside, SameIn;
    forall l | l in after.dicts[base] ensures EntryKept(start, after, rank, base, patch, todo - {k}, l) {
      if l == k {
        StepDone(start, after, rank, base, patch, todo, k);
      } else {
        OthersKept(start, before, after, rank, base, patch, todo, k, l);
      }
    }
  }

  lemma {:induction false} StepDone(start: Heap, after: Heap, rank: nat -> nat, base: nat, patch: nat,
        todo: set<string>,
        k: string)
    requires Acyclic(start, rank) && Acyclic(after, rank) && base in start.dicts && patch in start.dicts
    requires base in after.dicts && k in after.dicts[base] && k in start.dicts[patch]
    requires EntryMerged(start, after, rank, base, patch, k, after.dicts[base][k])
    ensures EntryKept(start, after, rank, base, patch, todo - {k}, k)
  {
  }

  lemma {:induction false} Widened(start: Heap, before: Heap, after: Heap, touched: set<nat>, area: set<nat>)
    requires SameOutside(start, before, area) && SameOutside(before, after, touched) && touched <= area
    ensures SameOutside(start, after, area)
  {
  }

  /** When nothing is left to do the old dict stands for the merge. */
  lemma {:induction false} AllMerged(start: Heap, now: Heap, rank: nat -> nat, base: nat, patch: nat)
    requires Acyclic(start, rank) && Acyclic(now, rank) && base in start.dicts && patch in start.dicts
    requires Merging(start, now, rank, base, patch, {})
    ensures View(now, rank, DictAt(base)) ==
            Object(Merge(View(start, rank, DictAt(base)).fields, View(start, rank, DictAt(patch)).fields))
  {
    FieldsOf(start, rank, base);
    FieldsOf(start, rank, patch);
    FieldsOf(now, rank, base);
    EntryViews(start, now, rank, base, patch);
    hide View, Acyclic, Merging, Reach, Unshared, Merge;
    MergeByEntries(View(start, rank, DictAt(base)).fields, View(start, rank, DictAt(patch)).fields,
                   View(now, rank, DictAt(base)).fields);
  }

  lemma {:induction false} MergeByEntries(base: Dict, patch: Dict, merged: Dict)
    requires merged.Keys == base.Keys + patch.Keys && forall k :: k in merged ==> merged[k] == Merge(base, patch)[k]
    ensures merged == Merge(base, patch)
  {
  }

  lemma {:induction false} EntryViews(start: Heap, now: Heap, rank: nat -> nat, base: nat, patch: nat)
    requires Acyclic(start, rank) && Acyclic(now, rank) && base in start.dicts && patch in start.dicts
    requires Merging(start, now, rank, base, patch, {})
    ensures base in now.dicts && now.dicts[base].Keys == start.dicts[base].Keys + start.dicts[patch].Keys
    ensures forall k :: k in now.dicts[base] ==>
              && Known(now, now.dicts[base][k])
              && k in Merge(View(start, rank, DictAt(base)).fields, View(start, rank, DictAt(patch)).fields)
              && View(now, rank, now.dicts[base][k]) ==
                 Merge(View(start, rank, DictAt(base)).fields, View(start, rank, DictAt(patch)).fields)[k]
  {
    forall k | k in now.dicts[base]
      ensures Known(now, now.dicts[base][k])
      ensures k in Merge(View(start, rank, DictAt(base)).fields, View(start, rank, DictAt(patch)).fields)
      ensures View(now, rank, now.dicts[base][k]) ==
              Merge(View(start, rank, DictAt(base)).fields, View(start, rank, DictAt(patch)).fields)[k]
    {
      EntryView(start, now, rank, base, patch, k);
    }
    hide *;
  }

  lemma {:induction false} FieldsOf(h: Heap, rank: nat -> nat, i: nat)
    requires Acyclic(h, rank) && i in h.dicts
    ensures View(h, rank, DictAt(i)).Object? && View(h, rank, DictAt(i)).fields.Keys == h.dicts[i].Keys
    ensures forall k :: k in h.dicts[i] ==>
              Known(h, h.dicts[i][k]) && View(h, rank, DictAt(i)).fields[k] == View(h, rank, h.dicts[i][k])
  {
  }

  lemma {:induction false} EntryView(start: Heap, now: Heap, rank: nat -> nat, base: nat, patch: nat, k: string)
    requires Acyclic(start, rank) && Acyclic(now, rank) && base in start.dicts && patch in start.dicts
    requires Merging(start, now, rank, base, patch, {}) && k in now.dicts[base]
    ensures Known(now, now.dicts[base][k])
    ensures View(now, rank, now.dicts[base][k]) ==
            Merge(View(start, rank, DictAt(base)).fields, View(start, rank, DictAt(patch)).fields)[k]
  {
    assert EntryKept(start, now, rank, base, patch, {}, k);
    if k !in start.dicts[patch] { SameReach(start, now, rank, start.dicts[base][k]); }
  }

  /** The entry is replaced by that of the new dict, which both dicts hold from then on. */
  lemma {:induction false} TakenOver(start: Heap, before: Heap, rank: nat -> nat, base: nat, patch: nat,
        todo: set<string>, k: string)
    requires Acyclic(start, rank) && Acyclic(before, rank) && base in start.dicts && patch in start.dicts
    requires Separate(start, rank, DictAt(base), patch) && Merging(start, before, rank, base, patch, todo)
    requires k in todo && k in start.dicts[patch] && !DictsMeet(start, base, patch, k)
    ensures base in before.dicts && patch in before.dicts && k in before.dicts[patch]
    ensures var v := before.dicts[patch][k];
            var after := before.(dicts := before.dicts[base := before.dicts[base][k := v]]);
            Acyclic(after, rank) && v == start.dicts[patch][k] && Merging(start, after, rank, base, patch, todo - {k})
  {
    PatchStays(start, before, rank, base, patch, k);
    InArea(start, before, rank, base, patch, todo);
    var v := before.dicts[patch][k];
    OneEntrySet(before, rank, base, k, v);
    hide *;
    TakenStep(start, before, before.(dicts := before.dicts[base := before.dicts[base][k := v]]), rank, base, patch,
      todo, k, v);
  }

  lemma {:induction false} InArea(start: Heap, now: Heap, rank: nat -> nat, base: nat, patch: nat, todo: set<string>)
    requires Acyclic(start, rank) && Acyclic(now, rank) && base in start.dicts && patch in start.dicts
    requires Separate(start, rank, DictAt(base), patch) && Merging(start, now, rank, base, patch, todo)
    ensures base in now.dicts && rank(patch) < rank(base) && SameOutside(start, now, Reach(start, rank, DictAt(base)))
    ensures now.dicts.Keys == start.dicts.Keys && now.lists.Keys == start.lists.Keys
  {
    assert base in Reach(start, rank, DictAt(base));
  }

  lemma {:induction false} TakenStep(start: Heap, before: Heap, after: Heap, rank: nat -> nat, base: nat, patch: nat,
        todo: set<string>, k: string, v: Value)
    requires Acyclic(start, rank) && Acyclic(before, rank) && Acyclic(after, rank) && base in start.dicts
    requires patch in start.dicts
    requires Separate(start, rank, DictAt(base), patch) && Merging(start, before, rank, base, patch, todo)
    requires k in todo && k in start.dicts[patch] && !DictsMeet(start, base, patch, k) && v == start.dicts[patch][k]
    requires base in before.dicts && after == before.(dicts := before.dicts[base := before.dicts[base][k := v]])
    ensures Merging(start, after, rank, base, patch, todo - {k})
  {
    assert SameOutside(before, after, {base}) && SameOutside(before, after, Territory(start, rank, base, k) + {base});
    InArea(start, before, rank, base, patch, todo);
    TakenEntry(start, before, after, rank, base, patch, k);
    StepKept(start, before, after, rank, base, patch, todo, k, v);
    hide *;
  }

  lemma {:induction false} OneEntrySet(h: Heap, rank: nat -> nat, base: nat, k: string, v: Value)
    requires Acyclic(h, rank) && base in h.dicts && Known(h, v) && RankOf(rank, v) <= rank(base)
    ensures Acyclic(h.(dicts := h.dicts[base := h.dicts[base][k := v]]), rank)
  {
  }

  lemma {:induction false} TakenEntry(start: Heap, before: Heap, after: Heap, rank: nat -> nat, base: nat, patch: nat,
        k: string)
    requires Acyclic(start, rank) && Acyclic(before, rank) && Acyclic(after, rank) && base in start.dicts
    requires patch in start.dicts
    requires Separate(start, rank, DictAt(base), patch) && SameOutside(start, before, Reach(start, rank, DictAt(base)))
    requires SameOutside(before, after, {base})
    requires k in start.dicts[patch] && !DictsMeet(start, base, patch, k)
    ensures EntryMerged(start, after, rank, base, patch, k, start.dicts[patch][k])
  {
    assert base in Reach(start, rank, DictAt(base));
    Widened(start, before, after, {base}, Reach(start, rank, DictAt(base)));
    PatchStays(start, after, rank, base, patch, k);
    hide View, Reach, Unshared, Acyclic, Known;
  }

  /** Where dicts meet, the nested ones have been merged: the entry itself stays what it was. */
  lemma {:induction false} NestedMerged(start: Heap, before: Heap, after: Heap, rank: nat -> nat, base: nat, patch: nat,
        todo: set<string>, k: string)
    requires Acyclic(start, rank) && Acyclic(before, rank) && Acyclic(after, rank) && base in start.dicts
    requires patch in start.dicts
    requires Separate(start, rank, DictAt(base), patch) && Merging(start, before, rank, base, patch, todo)
    requires k in todo && DictsMeet(start, base, patch, k)
    requires after.dicts.Keys == before.dicts.Keys && after.lists.Keys == before.lists.Keys
    requires var v, w := start.dicts[base][k], start.dicts[patch][k];
             && Known(before, v) && Known(before, w) && Known(after, v)
             && SameOutside(before, after, Reach(before, rank, v))
             && Reach(after, rank, v) <= Reach(before, rank, v) + Reach(before, rank, w)
             && View(after, rank, v) == Object(Merge(View(before, rank, v).fields, View(before, rank, w).fields))
    ensures base in after.dicts
    ensures after.(dicts := after.dicts[base := after.dicts[base][k := start.dicts[base][k]]]) == after
    ensures Merging(start, after, rank, base, patch, todo - {k})
  {
    var v := start.dicts[base][k];
    NestedSeparate(start, before, rank, base, patch, todo, k);
    NestedEntry(start, before, after, rank, base, patch, k);
    CellReach(start, rank, base, k);
    SetAgain(before, after, base, k, v);
    hide EntryKept, EntryMerged, View, Acyclic, Unshared, Reach, Separate, Merging;
    StepKept(start, before, after, rank, base, patch, todo, k, v);
  }

  lemma {:induction false} SetAgain(before: Heap, after: Heap, base: nat, k: string, v: Value)
    requires base in before.dicts && base in after.dicts && after.dicts[base] == before.dicts[base]
    requires k in before.dicts[base] && before.dicts[base][k] == v
    ensures after.dicts[base] == before.dicts[base][k := v]
    ensures after.(dicts := after.dicts[base := after.dicts[base][k := v]]) == after
  {
    assert after.dicts[base][k := v] == after.dicts[base];
    assert after.dicts[base := after.dicts[base]] == after.dicts;
  }

  lemma {:induction false} NestedEntry(start: Heap, before: Heap, after: Heap, rank: nat -> nat, base: nat, patch: nat,
        k: string)
    requires Acyclic(start, rank) && Acyclic(before, rank) && Acyclic(after, rank) && base in start.dicts
    requires patch in start.dicts
    requires Separate(start, rank, DictAt(base), patch) && DictsMeet(start, base, patch, k)
    requires var v, w := start.dicts[base][k], start.dicts[patch][k];
             && Known(start, v) && Known(start, w) && Known(before, v) && Known(before, w) && Known(after, v)
             && SameValue(start, rank, before, rank, v) && SameValue(start, rank, before, rank, w)
             && Reach(after, rank, v) <= Reach(before, rank, v) + Reach(before, rank, w)
             && View(after, rank, v) == Object(Merge(View(before, rank, v).fields, View(before, rank, w).fields))
    ensures EntryMerged(start, after, rank, base, patch, k, start.dicts[base][k])
    ensures Territory(start, rank, base, k) == Reach(before, rank, start.dicts[base][k])
  {
    CellReach(start, rank, base, k);
    CellReach(start, rank, patch, k);
    hide View, Reach, Unshared, Acyclic, Separate;
  }

  lemma {:induction false} AllReached(start: Heap, now: Heap, rank: nat -> nat, base: nat, patch: nat)
    requires Acyclic(start, rank) && Acyclic(now, rank) && base in start.dicts && patch in start.dicts
    requires Merging(start, now, rank, base, patch, {})
    ensures base in now.dicts
    ensures Reach(now, rank, DictAt(base)) <= Reach(start, rank, DictAt(base)) + Reach(start, rank, DictAt(patch))
  {
    assert base in Reach(start, rank, DictAt(base));
    forall k | k in now.dicts[base]
      ensures Reach(now, rank, now.dicts[base][k]) <= Reach(start, rank, DictAt(base)) +
          Reach(start, rank, DictAt(patch))
    {
      assert EntryKept(start, now, rank, base, patch, {}, k);
      TerritoryInside(start, rank, base, k);
      if k !in start.dicts[patch] { SameReach(start, now, rank, start.dicts[base][k]); }
    }
  }

  /** All dicts and lists in use. */
  class Dicts {
    var dicts: map<nat, map<string, Value>>
    var lists: map<nat, seq<Value>>

    ghost function Objects(): Heap
      reads this
    {
      Heap(dicts, lists)
    }

    /** `merge_definitions`: entries of the new dict are written over those of the old one, a
        key at a time and in any order; an old value that is no dict is replaced. */
    method MergeDefinitions(base: Value, patch: nat, ghost rank: nat -> nat) returns (r: Value)
      requires Acyclic(Objects(), rank) && Known(Objects(), base) && patch in dicts
      requires base.DictAt? ==> Separate(Objects(), rank, base, patch)
      modifies this`dicts
      ensures r == if base.DictAt? then base else DictAt(patch)
      ensures Acyclic(Objects(), rank) && Known(Objects(), r) && dicts.Keys == old(dicts.Keys)
      ensures SameOutside(old(Objects()), Objects(), if base.DictAt? then old(Reach(Objects(), rank, base)) else {})
      ensures Reach(Objects(), rank, r) <=
              old(Reach(Objects(), rank, base)) + old(Reach(Objects(), rank, DictAt(patch)))
      ensures var was, patched := old(View(Objects(), rank, base)), old(View(Objects(), rank, DictAt(patch)));
              View(Objects(), rank, r) == if base.DictAt? then Object(Merge(was.fields, patched.fields)) else patched
      ensures base.DictAt? ==> forall k :: k in old(dicts[patch]) && !DictsMeet(old(Objects()), base.id, patch, k) ==>
                k in dicts[base.id] && dicts[base.id][k] == old(dicts[patch])[k]
      decreases rank(patch)
    {
      if !base.DictAt? { return DictAt(patch); }
      ghost var start := Objects();
      hide View, Reach, Unshared, Acyclic, Separate, EntryKept, EntryMerged, Territory, SameIn, SameOutside, Merging;
      var todo := dicts[patch].Keys;
      NothingMerged(start, rank, base.id, patch);
      while todo != {}
        invariant Acyclic(Objects(), rank) && todo <= start.dicts[patch].Keys
        invariant Merging(start, Objects(), rank, base.id, patch, todo)
      {
        var k :| k in todo;
        ghost var before := Objects();
        EntriesAt(start, before, rank, base.id, patch, todo, k);
        if k in dicts[base.id] && dicts[base.id][k].DictAt? && dicts[patch][k].DictAt? {
          NestedSeparate(start, before, rank, base.id, patch, todo, k);
          var nested := MergeDefinitions(dicts[base.id][k], dicts[patch][k].id, rank);
          NestedMerged(start, before, Objects(), rank, base.id, patch, todo, k);
          assert nested == start.dicts[base.id][k];
          dicts := dicts[base.id := dicts[base.id][k := nested]];
        } else {
          TakenOver(start, before, rank, base.id, patch, todo, k);
          dicts := dicts[base.id := dicts[base.id][k := dicts[patch][k]]];
        }
        todo := todo - {k};
      }
      AllMerged(start, Objects(), rank, base.id, patch);
      AllReached(start, Objects(), rank, base.id, patch);
      AllShared(start, Objects(), rank, base.id, patch);
      r := base;
    }
  }

  lemma {:induction false} EntriesAt(start: Heap, now: Heap, rank: nat -> nat, base: nat, patch: nat, todo: set<string>,
        k: string)
    requires Acyclic(start, rank) && Acyclic(now, rank) && base in start.dicts && patch in start.dicts
    requires Separate(start, rank, DictAt(base), patch) && Merging(start, now, rank, base, patch, todo)
    requires k in todo && k in start.dicts[patch]
    ensures base in now.dicts && patch in now.dicts && now.dicts[patch] == start.dicts[patch]
    ensures DictsMeet(now, base, patch, k) == DictsMeet(start, base, patch, k)
  {
    PatchStays(start, now, rank, base, patch, k);
    assert k in now.dicts[base] ==> EntryKept(start, now, rank, base, patch, todo, k);
  }

  lemma {:induction false} AllShared(start: Heap, now: Heap, rank: nat -> nat, base: nat, patch: nat)
    requires Acyclic(start, rank) && Acyclic(now, rank) && base in start.dicts && patch in start.dicts
    requires Merging(start, now, rank, base, patch, {})
    ensures base in now.dicts && now.dicts.Keys == start.dicts.Keys
    ensures SameOutside(start, now, Reach(start, rank, DictAt(base)))
    ensures forall k :: k in start.dicts[patch] && !DictsMeet(start, base, patch, k) ==>
              k in now.dicts[base] && now.dicts[base][k] == start.dicts[patch][k]
  {
    forall k | k in now.dicts[base] ensures EntryKept(start, now, rank, base, patch, {}, k) {}
  }
}
