/**
 * Resource dicts and `KubernetesResourceDefinition`: building an instance from the keys of
 * a dict, and printing the instance back as a dict.
 */
module Definitions {
  import opened Options
  import opened JsonValues
  import opened Names

  /** A dict describing an API object.  `apiVersion` is the key of YAML definitions,
      `snakeVersion` the key `api_version` of objects returned by the client; `body` holds
      all other keys. */
  datatype Resource = Resource(
    kind: Option<string>,
    apiVersion: Option<string>,
    snakeVersion: Option<string>,
    metadata: Option<Dict>,
    body: Dict)

  /** The attributes of an instance; `attrs` holds those besides the three required. */
  datatype Instance = Instance(kind: string, apiVersion: string, metadata: Dict, attrs: Dict)

  /** `kind.split('.')[-1]`. */
  function LastSegment(s: string): (r: string)
    ensures '.' !in r
    ensures '.' !in s ==> r == s
  {
    if '.' in s then LastSegment(s[1..]) else s
  }

  /** It is what follows the last dot, if there is one. */
  lemma {:induction false} LastSegmentEnds(s: string)
    ensures '.' in s ==> exists i :: 0 <= i < |s| && s[i] == '.' && LastSegment(s) == s[i + 1..]
  {
    if '.' in s {
      var rest := s[1..];
      if '.' in rest {
        LastSegmentEnds(rest);
        var i :| 0 <= i < |rest| && rest[i] == '.' && LastSegment(rest) == rest[i + 1..];
        assert s[i + 1] == '.' && s[i + 2..] == rest[i + 1..];
      } else {
        assert s == [s[0]] + rest && s[0] == '.';
      }
    }
  }

  /** The names of the optional attributes and the printer of names; an optional attribute
      is set from the constructor parameter that has its printed name. */
  datatype Naming = Naming(optional: set<string>, printed: string -> string) {
    ghost predicate Injective() {
      forall a, b :: a in optional && b in optional && printed(a) == printed(b) ==> a == b
    }
  }

  predicate IsParameter(naming: Naming, key: string) {
    exists a :: a in naming.optional && naming.printed(a) == key
  }

  /** The attributes the constructor sets from the keys besides the required ones: truthy
      optional parameters, then every unexposed key under its own name. */
  ghost function ReadAttributes(naming: Naming, body: Dict): Dict {
    (map a | a in naming.optional && naming.printed(a) in body && Truthy(body[naming.printed(a)])
      :: body[naming.printed(a)])
    + (map k | k in body && !IsParameter(naming, k) :: body[k])
  }

  ghost function PrintedNames(naming: Naming, attrs: Dict): set<string> {
    set a | a in attrs :: naming.printed(a)
  }

  /** The attribute whose value is printed under a key: any one of those that print alike. */
  ghost function PrintedFrom(naming: Naming, attrs: Dict, key: string): (a: string)
    requires key in PrintedNames(naming, attrs)
    ensures a in attrs && naming.printed(a) == key
  {
    var a :| a in attrs && naming.printed(a) == key; a
  }

  /** The keys `to_dict` prints. */
  ghost function PrintAttributes(naming: Naming, attrs: Dict): Dict {
    map key | key in PrintedNames(naming, attrs) :: attrs[PrintedFrom(naming, attrs, key)]
  }

  /** The constructor: `None` is the "incorrect format" error. */
  ghost function Construct(naming: Naming, args: Resource): Option<Instance> {
    if args.kind.None? || args.apiVersion.None? || args.metadata.None? then None
    else Some(Instance(
      LastSegment(args.kind.value),
      if args.snakeVersion.Some? then args.snakeVersion.value else args.apiVersion.value,
      args.metadata.value,
      ReadAttributes(naming, args.body)))
  }

  ghost function ToDict(naming: Naming, d: Instance): Resource {
    Resource(Some(d.kind), Some(d.apiVersion), None, Some(d.metadata), PrintAttributes(naming, d.attrs))
  }

  predicate Unexposed(naming: Naming, attrs: Dict, k: string) {
    k in attrs && k !in naming.optional
  }

  /** What every constructed instance satisfies. */
  ghost predicate Built(naming: Naming, d: Instance) {
    '.' !in d.kind && forall k :: Unexposed(naming, d.attrs, k) ==> !IsParameter(naming, k)
  }

  lemma {:induction false} ConstructedIsBuilt(naming: Naming, args: Resource)
    ensures Construct(naming, args).Some? ==> Built(naming, Construct(naming, args).value)
  {
  }

  /** No optional attribute is set to a falsy value, as an unexposed key of its own name may do. */
  ghost predicate OptionalTruthy(naming: Naming, attrs: Dict) {
    forall a :: a in naming.optional && a in attrs ==> Truthy(attrs[a])
  }

  ghost predicate WellBuilt(naming: Naming, d: Instance) {
    Built(naming, d) && OptionalTruthy(naming, d.attrs)
  }

  /** Every unexposed name is its own printed form. */
  ghost predicate FixedNames(naming: Naming, attrs: Dict) {
    forall k :: Unexposed(naming, attrs, k) ==> naming.printed(k) == k
  }

  lemma {:induction false} PrintedApart(naming: Naming, d: Instance, a: string, b: string)
    requires naming.Injective() && WellBuilt(naming, d) && FixedNames(naming, d.attrs)
    requires a in d.attrs && b in d.attrs && naming.printed(a) == naming.printed(b)
    ensures a == b
  {
    if a in naming.optional && b in naming.optional {
    } else {
      assert a in naming.optional || Unexposed(naming, d.attrs, a);
      assert b in naming.optional || Unexposed(naming, d.attrs, b);
      assert IsParameter(naming, naming.printed(a)) <==> a in naming.optional;
      assert IsParameter(naming, naming.printed(b)) <==> b in naming.optional;
    }
  }

  lemma {:induction false} PrintedValue(naming: Naming, d: Instance, a: string)
    requires naming.Injective() && WellBuilt(naming, d) && FixedNames(naming, d.attrs) && a in d.attrs
    ensures naming.printed(a) in PrintAttributes(naming, d.attrs)
    ensures PrintAttributes(naming, d.attrs)[naming.printed(a)] == d.attrs[a]
  {
    PrintedApart(naming, d, a, PrintedFrom(naming, d.attrs, naming.printed(a)));
  }

  /** Under fixed names a printed key comes from a parameter's attribute or is unexposed. */
  lemma {:induction false} PrintedKey(naming: Naming, d: Instance, key: string)
    requires naming.Injective() && WellBuilt(naming, d) && FixedNames(naming, d.attrs)
    requires key in PrintAttributes(naming, d.attrs)
    ensures var a := PrintedFrom(naming, d.attrs, key);
            if IsParameter(naming, key) then a in naming.optional else Unexposed(naming, d.attrs, key) && a == key
  {
    var a := PrintedFrom(naming, d.attrs, key);
    assert a in naming.optional || Unexposed(naming, d.attrs, a);
  }

  lemma {:induction false} ReadBackFixed(naming: Naming, d: Instance)
    requires naming.Injective() && WellBuilt(naming, d) && FixedNames(naming, d.attrs)
    ensures ReadAttributes(naming, PrintAttributes(naming, d.attrs)) == d.attrs
  {
    var body := PrintAttributes(naming, d.attrs);
    forall a ensures Get(ReadAttributes(naming, body), a) == Get(d.attrs, a) {
      ReadGet(naming, body, a);
      if a in d.attrs {
        PrintedValue(naming, d, a);
        assert a in naming.optional || Unexposed(naming, d.attrs, a);
      } else {
        if a in body { PrintedKey(naming, d, a); }
        if naming.printed(a) in body { PrintedKey(naming, d, naming.printed(a)); }
      }
    }
    SameEntries(ReadAttributes(naming, body), d.attrs);
  }

  lemma {:induction false} ReadGet(naming: Naming, body: Dict, a: string)
    ensures Get(ReadAttributes(naming, body), a) ==
            var key := naming.printed(a);
            if a in body && !IsParameter(naming, a) then Some(body[a])
            else if a in naming.optional && key in body && Truthy(body[key]) then Some(body[key])
            else None
  {
  }

  /** Keys that are printed as they are read: parameters with a value, and unexposed ones in
      printed form. */
  ghost predicate ReadsBack(naming: Naming, body: Dict) {
    forall k :: k in body ==>
      if IsParameter(naming, k) then Truthy(body[k]) else k !in naming.optional && naming.printed(k) == k
  }

  lemma {:induction false} PrintsBackKey(naming: Naming, d: Instance, body: Dict, k: string)
    requires naming.Injective() && ReadsBack(naming, body) && d.attrs == ReadAttributes(naming, body)
    requires WellBuilt(naming, d) && FixedNames(naming, d.attrs)
    ensures Get(PrintAttributes(naming, d.attrs), k) == Get(body, k)
  {
    var printed := PrintAttributes(naming, d.attrs);
    if k in printed { PrintedKey(naming, d, k); }
    if k in body {
      ReadGet(naming, body, k);
      if IsParameter(naming, k) {
        var a :| a in naming.optional && naming.printed(a) == k;
        ReadGet(naming, body, a);
        PrintedValue(naming, d, a);
      } else {
        PrintedValue(naming, d, k);
      }
    }
  }

  lemma {:induction false} PrintsBack(naming: Naming, body: Dict)
    requires naming.Injective() && ReadsBack(naming, body)
    ensures PrintAttributes(naming, ReadAttributes(naming, body)) == body
  {
    var d := Instance("", "", map[], ReadAttributes(naming, body));
    assert WellBuilt(naming, d) && FixedNames(naming, d.attrs);
    hide ReadAttributes, PrintAttributes, ReadsBack, WellBuilt, FixedNames;
    forall k ensures Get(PrintAttributes(naming, d.attrs), k) == Get(body, k) { PrintsBackKey(naming, d, body, k); }
    SameEntries(PrintAttributes(naming, d.attrs), body);
  }

  /** Printing a name that is not in printed form uses up weight, or makes it longer if it is
      made of underscores alone, and keeps it so. */
  ghost predicate PrintingSettles(naming: Naming) {
    forall k :: naming.printed(k) != k ==> PrintedOnward(naming, k)
  }

  ghost predicate PrintedOnward(naming: Naming, k: string) {
    && (Blank(naming.printed(k)) <==> Blank(k))
    && (if Blank(k) then |naming.printed(k)| > |k| else Weight(naming.printed(k)) < Weight(k))
  }

  /** A name is printed as that of an attribute only where that is a parameter. */
  ghost predicate PrintsParameters(naming: Naming) {
    forall k :: naming.printed(k) in naming.optional ==> IsParameter(naming, naming.printed(k))
  }

  ghost function Heavier(attrs: Dict, k: string): set<string> {
    set x | x in attrs && Weight(x) > Weight(k)
  }

  /** If the names are read back unchanged, an unexposed name was printed from an unexposed name. */
  lemma {:induction false} PrintedFromUnexposed(naming: Naming, d: Instance, k: string)
    requires Built(naming, d) && ReadAttributes(naming, PrintAttributes(naming, d.attrs)) == d.attrs
    requires Unexposed(naming, d.attrs, k)
    ensures k in PrintedNames(naming, d.attrs)
    ensures Unexposed(naming, d.attrs, PrintedFrom(naming, d.attrs, k))
  {
    ReadGet(naming, PrintAttributes(naming, d.attrs), k);
    var k1 := PrintedFrom(naming, d.attrs, k);
    assert k1 in naming.optional ==> IsParameter(naming, naming.printed(k1));
  }

  /** A name not in printed form was printed from another one of more weight, and that one
      from another: no finite set of names allows it. */
  lemma {:induction false} NoEndlessPrinting(naming: Naming, d: Instance, k: string)
    requires Built(naming, d) && ReadAttributes(naming, PrintAttributes(naming, d.attrs)) == d.attrs
    requires PrintingSettles(naming)
    requires Unexposed(naming, d.attrs, k) && naming.printed(k) != k
    ensures false
    decreases if Blank(k) then |k| else |Heavier(d.attrs, k)|
  {
    PrintedFromUnexposed(naming, d, k);
    var k1 := PrintedFrom(naming, d.attrs, k);
    assert PrintedOnward(naming, k1);
    if !Blank(k) { HeavierShrinks(d.attrs, k, k1); }
    NoEndlessPrinting(naming, d, k1);
  }

  lemma {:induction false} HeavierShrinks(attrs: Dict, k: string, k1: string)
    requires k1 in attrs && Weight(k) < Weight(k1)
    ensures |Heavier(attrs, k1)| < |Heavier(attrs, k)|
  {
    FewerElements(Heavier(attrs, k1), Heavier(attrs, k), k1);
  }

  lemma {:induction false} FewerElements(s: set<string>, t: set<string>, x: string)
    requires x in t && s <= t - {x}
    ensures |s| < |t|
    decreases s
  {
    if s != {} {
      var y :| y in s;
      FewerElements(s - {y}, t - {y}, x);
    }
  }

  /** What is read back from a printed dict is truthy where it is an optional attribute. */
  lemma {:induction false} ReadBackTruthy(naming: Naming, attrs: Dict)
    requires PrintsParameters(naming) && ReadAttributes(naming, PrintAttributes(naming, attrs)) == attrs
    ensures OptionalTruthy(naming, attrs)
  {
    var body := PrintAttributes(naming, attrs);
    forall a | a in naming.optional && a in attrs ensures Truthy(attrs[a]) {
      ReadGet(naming, body, a);
      if a in body { assert naming.printed(PrintedFrom(naming, attrs, a)) == a; }
    }
  }

  lemma {:induction false} RoundTripIffFixed(naming: Naming, d: Instance)
    requires naming.Injective() && Built(naming, d) && PrintingSettles(naming) && PrintsParameters(naming)
    ensures Construct(naming, ToDict(naming, d)) == Some(d) <==>
            FixedNames(naming, d.attrs) && OptionalTruthy(naming, d.attrs)
  {
    if Construct(naming, ToDict(naming, d)) == Some(d) {
      ReadBackTruthy(naming, d.attrs);
      if !FixedNames(naming, d.attrs) {
        var k :| Unexposed(naming, d.attrs, k) && naming.printed(k) != k;
        NoEndlessPrinting(naming, d, k);
      }
    } else if FixedNames(naming, d.attrs) && OptionalTruthy(naming, d.attrs) {
      ReadBackFixed(naming, d);
    }
  }

  lemma {:induction false} SplitOneWord(k: string)
    requires '_' !in k
    ensures Split(k) == [k]
  {
    if k != "" {
      assert k[0] in k && forall c :: c in k[1..] ==> c in k;
      SplitOneWord(k[1..]);
      assert [k[0]] + k[1..] == k;
    }
  }

  // ------------------------------------------------- additions to an update

  /** `metadata.get('name')`, null when there is none. */
  function NameIn(metadata: Option<Dict>): Json {
    if metadata.Some? && "name" in metadata.value then metadata.value["name"] else Null
  }

  /** `dict.update` on resource dicts. */
  ghost function UpdatedWith(r: Resource, additions: Resource): Resource {
    Resource(
      if additions.kind.Some? then additions.kind else r.kind,
      if additions.apiVersion.Some? then additions.apiVersion else r.apiVersion,
      if additions.snakeVersion.Some? then additions.snakeVersion else r.snakeVersion,
      if additions.metadata.Some? then additions.metadata else r.metadata,
      r.body + additions.body)
  }

  /** Whether additions are meant for this definition: same name, same kind. */
  predicate AdditionsMatch(d: Instance, additions: Resource) {
    NameIn(Some(d.metadata)) == NameIn(additions.metadata) && additions.kind == Some(d.kind)
  }

  ghost function UpdateWithAdditions(naming: Naming, d: Instance, additions: Resource): Resource {
    if AdditionsMatch(d, additions) then UpdatedWith(ToDict(naming, d), additions) else ToDict(naming, d)
  }

  lemma {:induction false} ReadOverwritten(naming: Naming, d: Instance, more: Dict)
    requires naming.Injective() && WellBuilt(naming, d) && FixedNames(naming, d.attrs)
    ensures ReadAttributes(naming, PrintAttributes(naming, d.attrs) + more) ==
            (map a | a in d.attrs && naming.printed(a) !in more :: d.attrs[a]) + ReadAttributes(naming, more)
  {
    var body := PrintAttributes(naming, d.attrs);
    var l := ReadAttributes(naming, body + more);
    var kept := map a | a in d.attrs && naming.printed(a) !in more :: d.attrs[a];
    var r := kept + ReadAttributes(naming, more);
    forall a ensures Get(l, a) == Get(r, a) {
      ReadBackFixed(naming, d);
      ReadGet(naming, body, a);
      ReadGet(naming, more, a);
      ReadGet(naming, body + more, a);
      assert Get(r, a) == if a in ReadAttributes(naming, more) then Get(ReadAttributes(naming, more), a)
        else Get(kept, a);
      if Unexposed(naming, d.attrs, a) {
        assert naming.printed(a) == a;
      }
    }
    SameEntries(l, r);
  }

  /** The instance that matching additions lead to: what their keys are about is replaced,
      everything else is kept. */
  ghost function Replaced(naming: Naming, d: Instance, additions: Resource): Instance {
    Instance(
      d.kind,
      if additions.snakeVersion.Some? then additions.snakeVersion.value
      else if additions.apiVersion.Some? then additions.apiVersion.value
      else d.apiVersion,
      if additions.metadata.Some? then additions.metadata.value else d.metadata,
      (map a | a in d.attrs && naming.printed(a) !in additions.body :: d.attrs[a])
      + ReadAttributes(naming, additions.body))
  }

  /** Additions meant for another resource leave the definition of this update unchanged;
      matching ones replace exactly what their keys are about. */
  lemma {:induction false} AdditionsReachOnlyTheirResource(naming: Naming, d: Instance, additions: Resource)
    requires naming.Injective() && WellBuilt(naming, d) && FixedNames(naming, d.attrs)
    ensures Construct(naming, UpdateWithAdditions(naming, d, additions)) ==
            Some(if additions.kind == Some(d.kind) && NameIn(additions.metadata) == NameIn(Some(d.metadata))
                 then Replaced(naming, d, additions) else d)
  {
    if AdditionsMatch(d, additions) {
      ReadOverwritten(naming, d, additions.body);
    } else {
      ReadBackFixed(naming, d);
    }
  }

  // ------------------------------------------------ the names of the plugin

  const OPTIONAL_ATTRIBUTES: set<string> := {
    "spec", "parameters", "provisioner", "data", "role_ref", "subjects",
    "automount_service_account_token", "image_pull_secrets", "secrets", "type",
    "string_data", "rules" }

  const NAMING := Naming(OPTIONAL_ATTRIBUTES, UnderscoreToCamelcase)

  lemma {:induction false} SplitWords(word: string, rest: string)
    requires '_' !in word
    ensures Split(word + "_" + rest) == [word] + Split(rest)
  {
    var s := word + "_" + rest;
    if word == "" {
      assert s[1..] == rest;
    } else {
      assert word[0] in word && forall c :: c in word[1..] ==> c in word;
      assert s[1..] == word[1..] + "_" + rest;
      SplitWords(word[1..], rest);
      assert [word[0]] + word[1..] == word;
    }
  }

  predicate Word(w: string) {
    w != "" && forall c :: c in w ==> LowerLetter(c)
  }

  /** Lower-case words separated by single underscores. */
  predicate Words(a: string) {
    forall w :: w in Split(a) ==> Word(w)
  }

  lemma {:induction false} OneWord(w: string)
    requires Word(w)
    ensures Words(w)
  {
    SplitOneWord(w);
  }

  lemma {:induction false} MoreWords(w: string, rest: string)
    requires Word(w) && Words(rest)
    ensures Words(w + "_" + rest)
  {
    SplitWords(w, rest);
  }

  lemma {:induction false} WordsArePrintable(a: string)
    requires Words(a)
    ensures Printable(Split(a))
  {
    var parts := Split(a);
    forall p | p in parts ensures !HasUpper(p) && StartsWithLetter(p) && p != "" {
      assert Word(p) && forall i :: 0 <= i < |p| ==> p[i] in p;
    }
    assert parts[0] in parts;
    assert FirstWord(parts) == 0;
  }

  /** One lower-case word is in printed form. */
  lemma {:induction false} OneWordIsFixed(k: string)
    requires k != "" && '_' !in k && !HasUpper(k)
    ensures UnderscoreToCamelcase(k) == k
  {
    SplitOneWord(k);
    LowerOf(k);
    assert Camel([], false) == "";
  }

  lemma {:induction false} TwoWords(u: string, v: string, a: string)
    requires Word(u) && Word(v) && a == u + "_" + v
    ensures Words(a)
  {
    OneWord(v);
    MoreWords(u, v);
  }

  lemma {:induction false} ThreeWords(t: string, u: string, v: string, a: string)
    requires Word(t) && Word(u) && Word(v) && a == t + "_" + u + "_" + v
    ensures Words(a)
  {
    TwoWords(u, v, u + "_" + v);
    MoreWords(t, u + "_" + v);
    assert a == t + "_" + (u + "_" + v);
  }

  lemma {:induction false} FourWords(s: string, t: string, u: string, v: string, a: string)
    requires Word(s) && Word(t) && Word(u) && Word(v) && a == s + "_" + t + "_" + u + "_" + v
    ensures Words(a)
  {
    ThreeWords(t, u, v, t + "_" + u + "_" + v);
    MoreWords(s, t + "_" + u + "_" + v);
    assert a == s + "_" + (t + "_" + u + "_" + v);
  }

  lemma {:induction false} WordFacts()
    ensures Word("role") && Word("ref") && Word("string") && Word("data") && Word("image") && Word("pull")
    ensures Word("automount") && Word("service") && Word("account") && Word("token") && Word("secrets")
  {
  }

  lemma {:induction false} RoleRef(a: string)
    requires a == "role_ref"
    ensures Words(a)
  {
    WordFacts();
    TwoWords("role", "ref", a);
  }

  lemma {:induction false} StringData(a: string)
    requires a == "string_data"
    ensures Words(a)
  {
    WordFacts();
    TwoWords("string", "data", a);
  }

  lemma {:induction false} ImagePullSecrets(a: string)
    requires a == "image_pull_secrets"
    ensures Words(a)
  {
    WordFacts();
    assert "image" + "_" + "pull" == "image_pull";
    assert "image_pull" + "_" + "secrets" == "image_pull_secrets";
    ThreeWords("image", "pull", "secrets", a);
  }

  lemma {:induction false} AutomountServiceAccountToken(a: string)
    requires a == "automount_service_account_token"
    ensures Words(a)
  {
    WordFacts();
    assert "automount" + "_" + "service" == "automount_service";
    assert "automount_service" + "_" + "account" == "automount_service_account";
    assert "automount_service_account" + "_" + "token" == "automount_service_account_token";
    FourWords("automount", "service", "account", "token", a);
  }

  lemma {:induction false} AttributesAreWords(a: string)
    requires a in OPTIONAL_ATTRIBUTES
    ensures Words(a)
  {
    if a == "role_ref" {
      RoleRef(a);
    } else if a == "string_data" {
      StringData(a);
    } else if a == "image_pull_secrets" {
      ImagePullSecrets(a);
    } else if a == "automount_service_account_token" {
      AutomountServiceAccountToken(a);
    } else {
      ShortAttribute(a);
    }
  }

  lemma {:induction false} ShortAttribute(a: string)
    requires a in {"spec", "parameters", "provisioner", "data", "subjects", "secrets", "type", "rules"}
    ensures Words(a)
  {
    assert Word(a);
    OneWord(a);
  }

  lemma {:induction false} NamingInjective()
    ensures NAMING.Injective()
  {
    forall a, b | a in OPTIONAL_ATTRIBUTES && b in OPTIONAL_ATTRIBUTES && NAMING.printed(a) == NAMING.printed(b)
      ensures a == b
    {
      SamePrintSameAttribute(a, b);
    }
  }

  lemma {:induction false} SamePrintSameAttribute(a: string, b: string)
    requires a in OPTIONAL_ATTRIBUTES && b in OPTIONAL_ATTRIBUTES
    requires UnderscoreToCamelcase(a) == UnderscoreToCamelcase(b)
    ensures a == b
  {
    AttributesAreWords(a);
    AttributesAreWords(b);
    WordsArePrintable(a);
    WordsArePrintable(b);
    CamelcaseInjective(a, b);
  }

  lemma {:induction false} NamesSettle()
    ensures PrintingSettles(NAMING)
  {
    forall k | NAMING.printed(k) != k ensures PrintedOnward(NAMING, k) {
      BlankPrints(k);
      BlankParts(k);
      if !Blank(k) { PrintingUsesUpWeight(k); }
    }
  }

  /** The attribute names in snake case are printed by no name. */
  lemma {:induction false} NamesPrintParameters()
    ensures PrintsParameters(NAMING)
  {
    forall k | UnderscoreToCamelcase(k) in OPTIONAL_ATTRIBUTES ensures IsParameter(NAMING, UnderscoreToCamelcase(k)) {
      NeverSnakeCase(k);
      NotSnakeCase(UnderscoreToCamelcase(k));
    }
  }

  lemma {:induction false} NotSnakeCase(a: string)
    requires a in OPTIONAL_ATTRIBUTES && !SnakeCase(a)
    ensures IsParameter(NAMING, a)
  {
    if '_' in a {
      SnakeCaseAttribute(a);
    } else {
      AttributesAreWords(a);
      assert a in {"spec", "parameters", "provisioner", "data", "subjects", "secrets", "type", "rules"};
      LowerAttribute(a);
      OneWordIsFixed(a);
      assert NAMING.printed(a) == a;
    }
  }

  lemma {:induction false} LowerAttribute(a: string)
    requires a in {"spec", "parameters", "provisioner", "data", "subjects", "secrets", "type", "rules"}
    ensures a != "" && '_' !in a && !HasUpper(a)
  {
  }

  lemma {:induction false} SnakeCaseAttribute(a: string)
    requires a in OPTIONAL_ATTRIBUTES && '_' in a
    ensures SnakeCase(a)
  {
    Underscored(a);
    SnakeCaseLiterals();
    hide *;
  }

  lemma {:induction false} SnakeCaseLiterals()
    ensures SnakeCase("role_ref") && SnakeCase("automount_service_account_token")
    ensures SnakeCase("image_pull_secrets") && SnakeCase("string_data")
  {
    hide SnakeCase;
    UnderscoreAt("role_ref", 4);
    UnderscoreAt("automount_service_account_token", 9);
    UnderscoreAt("image_pull_secrets", 5);
    UnderscoreAt("string_data", 6);
  }

  lemma {:induction false} Underscored(a: string)
    requires a in OPTIONAL_ATTRIBUTES && '_' in a
    ensures a in {"role_ref", "automount_service_account_token", "image_pull_secrets", "string_data"}
  {
  }

  lemma {:induction false} UnderscoreAt(a: string, j: nat)
    requires 0 < j < |a| - 1 && a[0] != '_' && a[j] == '_' && LowerLetter(a[j + 1])
    ensures SnakeCase(a)
  {
  }

  /** Building an instance from its own dict gives it back exactly when every unexposed key is in
      printed form already (one lower-case word, say) and no optional attribute is falsy: a key
      such as `reclaimPolicy` comes back as `reclaimpolicy`. */
  lemma {:induction false} DefinitionRoundTrip(d: Instance)
    requires Built(NAMING, d)
    ensures Construct(NAMING, ToDict(NAMING, d)) == Some(d) <==>
            FixedNames(NAMING, d.attrs) && OptionalTruthy(NAMING, d.attrs)
  {
    NamingInjective();
    NamesSettle();
    NamesPrintParameters();
    RoundTripIffFixed(NAMING, d);
  }

  /** A camel-case key that the constructor does not name is lost by the round trip. */
  lemma {:induction false} CamelCaseKeyIsLost(d: Instance, k: string)
    requires Built(NAMING, d)
    requires Unexposed(NAMING, d.attrs, k) && '_' !in k && HasUpper(k)
    ensures Construct(NAMING, ToDict(NAMING, d)) != Some(d)
  {
    SplitOneWord(k);
    LowerOf(k);
    assert Camel([], false) == "";
    assert NAMING.printed(k) == Lower(k) != k;
    DefinitionRoundTrip(d);
  }
}
