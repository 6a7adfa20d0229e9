/**
 * Python values as the plugin sees them once YAML or the Kubernetes client has
 * produced them: nested dicts and lists over scalar leaves.
 */
module JsonValues {
  import opened Options

  /** `Other` is any leaf that is neither a boolean, an integer nor a string (a float or
      a date, say): all that matters of it is its truth value and its text. */
  datatype Json =
    | Null
    | Bool(b: bool)
    | Int(n: int)
    | Str(s: string)
    | Other(truthy: bool, text: string)
    | List(items: seq<Json>)
    | Object(fields: map<string, Json>)

  type Dict = map<string, Json>

  /** Python's truth value. */
  predicate Truthy(j: Json) {
    match j
    case Null => false
    case Bool(b) => b
    case Int(n) => n != 0
    case Str(s) => s != ""
    case Other(t, _) => t
    case List(xs) => xs != []
    case Object(m) => m != map[]
  }

  /** Falsy are null, false, zero, the empty string, list and dict, and leaves that say so. */
  lemma {:induction false} FalsyExactly(j: Json)
    ensures !Truthy(j) <==>
            || j == Null || j == Bool(false) || j == Int(0) || j == Str("") || j == List([]) || j == Object(map[])
            || (j.Other? && !j.truthy)
  {
  }

  predicate Leaf(j: Json) {
    !j.List? && !j.Object?
  }

  // ---------------------------------------------------------------- cleaning

  /** What `JsonCleanuper` leaves in the place of one value. */
  function Clean(j: Json): Json {
    if !Truthy(j) then j else
    match j
    case List(xs) => List(CleanList(xs))
    case Object(m) => Object(CleanDict(m))
    case Other(_, t) => Str(t)
    case _ => j
  }

  function CleanList(xs: seq<Json>): seq<Json>
    decreases List(xs), 0
  {
    seq(|xs|, i requires 0 <= i < |xs| => Clean(xs[i]))
  }

  function CleanDict(m: Dict): Dict
    decreases Object(m), 0
  {
    map k | k in m :: Clean(m[k])
  }

  /** Every truthy leaf, at any depth, is an int (or bool) or a string. */
  predicate Cleaned(j: Json) {
    Truthy(j) ==>
      match j
      case List(xs) => forall x :: x in xs ==> Cleaned(x)
      case Object(m) => forall k :: k in m ==> Cleaned(m[k])
      case Other(_, _) => false
      case _ => true
  }

  /** Same nesting, same keys and list lengths; falsy values, numbers, booleans and strings are
      untouched, and any other leaf is its text. */
  ghost predicate SameShape(a: Json, b: Json) {
    if !Truthy(a) then b == a else
    match a
    case List(xs) => b.List? && |b.items| == |xs| && forall i :: 0 <= i < |xs| ==> SameShape(xs[i], b.items[i])
    case Object(m) => b.Object? && b.fields.Keys == m.Keys && forall k :: k in m ==> SameShape(m[k], b.fields[k])
    case Other(_, text) => b == Str(text)
    case _ => b == a
  }

  lemma {:induction false} CleanIsClean(j: Json)
    ensures Cleaned(Clean(j))
  {
    match j
    case List(xs) => forall i | 0 <= i < |xs| ensures Cleaned(CleanList(xs)[i]) { CleanIsClean(xs[i]); }
    case Object(m) => forall k | k in m { CleanIsClean(m[k]); }
    case _ =>
  }

  lemma {:induction false} CleanKeepsShape(j: Json)
    ensures SameShape(j, Clean(j))
  {
    match j
    case List(xs) => forall i | 0 <= i < |xs| { CleanKeepsShape(xs[i]); }
    case Object(m) => forall k | k in m { CleanKeepsShape(m[k]); }
    case _ =>
  }

  /** The fixed points of cleaning are exactly the clean values, so cleaning is a
      projection: a second pass changes nothing. */
  lemma {:induction false} CleanFixedPoints(j: Json)
    ensures Clean(j) == j <==> Cleaned(j)
    ensures Clean(Clean(j)) == Clean(j)
  {
    CleanFixed(j);
    CleanIsClean(j);
    CleanFixed(Clean(j));
  }

  lemma {:induction false} CleanFixed(j: Json)
    ensures Clean(j) == j <==> Cleaned(j)
  {
    match j
    case List(xs) =>
      forall i | 0 <= i < |xs| { CleanFixed(xs[i]); }
      if Clean(j) == j {
        forall i | 0 <= i < |xs| ensures Clean(xs[i]) == xs[i] { assert CleanList(xs)[i] == Clean(xs[i]); }
      }
    case Object(m) =>
      forall k | k in m { CleanFixed(m[k]); }
      if Clean(j) == j { forall k | k in m ensures Clean(m[k]) == m[k] { assert CleanDict(m)[k] == Clean(m[k]); } }
    case _ =>
  }

  /** A dict holding clean values only, as one level of `Cleaned`. */
  predicate CleanedDict(m: Dict) {
    forall k :: k in m ==> Cleaned(m[k])
  }

  lemma {:induction false} CleanDictFixed(m: Dict)
    ensures CleanedDict(CleanDict(m))
    ensures CleanedDict(m) ==> CleanDict(m) == m
  {
    forall k | k in m ensures Cleaned(Clean(m[k])) && (Cleaned(m[k]) ==> Clean(m[k]) == m[k]) {
      CleanIsClean(m[k]);
      CleanFixed(m[k]);
    }
  }

  // ----------------------------------------------------------------- merging

  predicate BothDicts(base: Dict, patch: Dict, k: string) {
    k in base && base[k].Object? && k in patch && patch[k].Object?
  }

  /** The dict that deep-merging `patch` into `base` leaves behind. */
  function Merge(base: Dict, patch: Dict): Dict
    decreases Object(patch)
  {
    map k | k in base.Keys + patch.Keys ::
      if k !in patch then base[k]
      else if BothDicts(base, patch, k) then Object(Merge(base[k].fields, patch[k].fields))
      else patch[k]
  }

  /** The value found by following a path of keys through nested dicts. */
  function At(j: Json, path: seq<string>): Option<Json> {
    if path == [] then Some(j)
    else if j.Object? && path[0] in j.fields then At(j.fields[path[0]], path[1..])
    else None
  }

  /** On the way to `path`, strictly above it, the patch holds a value at a place where
      the two are not both dicts: from there down only the patch counts. */
  ghost predicate Overridden(base: Json, patch: Json, path: seq<string>) {
    exists i :: 0 < i < |path| && CutAt(base, patch, path, i)
  }

  ghost predicate CutAt(base: Json, patch: Json, path: seq<string>, i: nat)
    requires i <= |path|
  {
    var above := path[..i];
    At(patch, above).Some? && !(At(patch, above).value.Object? && At(base, above).Some?
      && At(base, above).value.Object?)
  }

  /** The path-wise law: below an overridden point the patch alone decides; elsewhere the
      patch wins where it has a non-dict or base has no dict, and base is kept where the
      patch is silent. */
  lemma {:induction false} MergePathwise(base: Dict, patch: Dict, path: seq<string>)
    requires path != []
    ensures At(Object(Merge(base, patch)), path) ==
            var old_, new_ := At(Object(base), path), At(Object(patch), path);
            if Overridden(Object(base), Object(patch), path) then new_
            else if new_.None? then old_
            else if new_.value.Object? && old_.Some? && old_.value.Object? then
              Some(Object(Merge(old_.value.fields, new_.value.fields)))
            else new_
    decreases |path|
  {
    var k, rest := path[0], path[1..];
    if |path| > 1 {
      forall i | 0 < i < |path| ensures path[..i] == [k] + rest[..i - 1] && path[..i][1..] == rest[..i - 1] {}
      if BothDicts(base, patch, k) {
        MergePathwise(base[k].fields, patch[k].fields, rest);
        forall i | 1 < i < |path|
          ensures CutAt(Object(base), Object(patch), path, i) <==> CutAt(base[k], patch[k], rest, i - 1)
        {
        }
        assert [k][1..] == [] && At(base[k], []) == Some(base[k]) && At(patch[k], []) == Some(patch[k]);
        assert path[..1] == [k] && At(Object(base), [k]) == Some(base[k]) && At(Object(patch), [k]) == Some(patch[k]);
        assert !CutAt(Object(base), Object(patch), path, 1);
        if Overridden(base[k], patch[k], rest) {
          var i :| 0 < i < |rest| && CutAt(base[k], patch[k], rest, i);
          assert CutAt(Object(base), Object(patch), path, i + 1);
        }
        assert Overridden(Object(base), Object(patch), path) <==> Overridden(base[k], patch[k], rest);
      } else if k in patch {
        assert path[..1] == [k];
        assert CutAt(Object(base), Object(patch), path, 1);
      }
    }
  }

  lemma {:induction false} MergeIdempotent(base: Dict, patch: Dict)
    ensures Merge(Merge(base, patch), patch) == Merge(base, patch)
    decreases Object(patch)
  {
    MergeSelf(patch);
    forall k | k in patch && BothDicts(base, patch, k) {
      MergeIdempotent(base[k].fields, patch[k].fields);
    }
    forall k | k in patch && patch[k].Object? {
      MergeSelf(patch[k].fields);
    }
  }

  lemma {:induction false} MergeSelf(patch: Dict)
    ensures Merge(patch, patch) == patch
    decreases Object(patch)
  {
    forall k | k in patch && patch[k].Object? { MergeSelf(patch[k].fields); }
  }

  lemma {:induction false} MergeIdentities(d: Dict)
    ensures Merge(map[], d) == d == Merge(d, map[])
  {
  }

  /** Merging `c` over `a` leaves nothing of `a` visible: every key of `a` is in `c`, and so
      on down wherever both hold dicts. */
  predicate CoveredBy(a: Dict, c: Dict)
    decreases Object(a)
  {
    forall k :: k in a ==> k in c && (a[k].Object? && c[k].Object? ==> CoveredBy(a[k].fields, c[k].fields))
  }

  /** Wherever dicts of `a` and `c` meet around a non-dict of `b`, `c` covers `a`. */
  predicate AssociativeAt(a: Dict, b: Dict, c: Dict)
    decreases Object(a)
  {
    forall k :: k in a && k in b && BothDicts(a, c, k) ==>
      if b[k].Object? then AssociativeAt(a[k].fields, b[k].fields, c[k].fields)
      else CoveredBy(a[k].fields, c[k].fields)
  }

  lemma {:induction false} CoveredExactly(a: Dict, c: Dict)
    ensures CoveredBy(a, c) <==> Merge(a, c) == c
    decreases Object(a)
  {
    forall k | BothDicts(a, c, k) { CoveredExactly(a[k].fields, c[k].fields); }
    if Merge(a, c) == c {
      forall k | k in a ensures k in c { assert k in Merge(a, c); }
      forall k | BothDicts(a, c, k) ensures CoveredBy(a[k].fields, c[k].fields) {
        assert Merge(a, c)[k] == Object(Merge(a[k].fields, c[k].fields));
      }
    }
  }

  function Get(d: Dict, k: string): Option<Json> {
    if k in d then Some(d[k]) else None
  }

  /** What merging makes of one key. */
  function Combine(base: Option<Json>, patch: Option<Json>): Option<Json> {
    if patch.None? then base
    else if base.Some? && base.value.Object? && patch.value.Object? then
      Some(Object(Merge(base.value.fields, patch.value.fields)))
    else patch
  }

  lemma {:induction false} MergeGet(base: Dict, patch: Dict, k: string)
    ensures Get(Merge(base, patch), k) == Combine(Get(base, k), Get(patch, k))
  {
  }

  /** The condition of `AssociativeAt` at one key. */
  predicate AssociativeKey(a: Dict, b: Dict, c: Dict, k: string) {
    k in a && k in b && BothDicts(a, c, k) ==>
      if b[k].Object? then AssociativeAt(a[k].fields, b[k].fields, c[k].fields)
      else CoveredBy(a[k].fields, c[k].fields)
  }

  lemma {:induction false} MergeAssociativeKey(a: Dict, b: Dict, c: Dict, k: string)
    ensures Get(Merge(Merge(a, b), c), k) == Get(Merge(a, Merge(b, c)), k) <==> AssociativeKey(a, b, c, k)
    decreases Object(a), 0
  {
    MergeGet(Merge(a, b), c, k);
    MergeGet(a, b, k);
    MergeGet(a, Merge(b, c), k);
    MergeGet(b, c, k);
    if BothDicts(a, c, k) && k in b {
      if b[k].Object? {
        MergeAssociative(a[k].fields, b[k].fields, c[k].fields);
      } else {
        CoveredExactly(a[k].fields, c[k].fields);
      }
    }
  }

  /** Associativity holds exactly when no dict of `a` shows through a dict of `c` around a
      non-dict of `b`; in particular whenever there is no such clash at all. */
  lemma {:induction false} MergeAssociative(a: Dict, b: Dict, c: Dict)
    ensures Merge(Merge(a, b), c) == Merge(a, Merge(b, c)) <==> AssociativeAt(a, b, c)
    decreases Object(a), 1
  {
    forall k { MergeAssociativeKey(a, b, c, k); }
    SameEntries(Merge(Merge(a, b), c), Merge(a, Merge(b, c)));
    if forall k :: AssociativeKey(a, b, c, k) {
      forall k | k in a && k in b && BothDicts(a, c, k) ensures AssociativeKey(a, b, c, k) {}
    }
  }

  lemma {:induction false} SameEntries(d: Dict, e: Dict)
    ensures d == e <==> forall k :: Get(d, k) == Get(e, k)
  {
    if forall k :: Get(d, k) == Get(e, k) {
      forall k ensures k in d <==> k in e { assert Get(d, k) == Get(e, k); }
      forall k | k in d ensures d[k] == e[k] { assert Get(d, k) == Get(e, k); }
    }
  }

  /** A clash on one key is enough to break associativity. */
  lemma {:induction false} MergeNotAssociative()
    ensures var a: Dict, b: Dict, c: Dict := map["k" := Object(map["x" := Int(1)])], map["k" := Int(5)],
        map["k" := Object(map[])];
            Merge(Merge(a, b), c) != Merge(a, Merge(b, c))
  {
    var a: Dict, b: Dict, c: Dict := map["k" := Object(map["x" := Int(1)])], map["k" := Int(5)],
      map["k" := Object(map[])];
    MergeAssociative(a, b, c);
    assert !CoveredBy(a["k"].fields, c["k"].fields) by { assert "x" in a["k"].fields; }
    assert BothDicts(a, c, "k");
  }
}
