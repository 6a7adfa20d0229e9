/**
 * Attribute names and the dict keys they are printed under: `underscore_to_camelcase`
 * and what it keeps of a name.  Letters are ASCII letters.
 */
module Names {

  predicate Upper(c: char) { 'A' <= c <= 'Z' }

  predicate LowerLetter(c: char) { 'a' <= c <= 'z' }

  function ToLower(c: char): char {
    if Upper(c) then c - 'A' + 'a' else c
  }

  function ToUpper(c: char): char {
    if LowerLetter(c) then c - 'a' + 'A' else c
  }

  function Lower(s: string): string {
    seq(|s|, i requires 0 <= i < |s| => ToLower(s[i]))
  }

  function Capitalize(s: string): string {
    if s == "" then "" else [ToUpper(s[0])] + Lower(s[1..])
  }

  /** `value.split("_")`. */
  function Split(s: string): (parts: seq<string>)
    ensures |parts| >= 1
  {
    if s == "" then [""]
    else
      var rest := Split(s[1..]);
      if s[0] == '_' then [""] + rest else [[s[0]] + rest[0]] + rest[1..]
  }

  /** `"_".join(parts)`. */
  function Join(parts: seq<string>): string {
    if parts == [] then "" else parts[0] + Separated(parts[1..])
  }

  /** Every part after its separator. */
  function Separated(parts: seq<string>): string {
    if parts == [] then "" else "_" + parts[0] + Separated(parts[1..])
  }

  /** The first non-empty part is lowered, later ones capitalised, empty parts print `_`. */
  function Camel(parts: seq<string>, first: bool): string {
    if parts == [] then ""
    else if parts[0] == "" then "_" + Camel(parts[1..], first)
    else (if first then Lower(parts[0]) else Capitalize(parts[0])) + Camel(parts[1..], false)
  }

  function UnderscoreToCamelcase(value: string): string {
    Camel(Split(value), true)
  }

  /** The inverse printer: an upper-case letter becomes `_` and its lower case. */
  function CamelcaseToUnderscore(s: string): string {
    if s == "" then ""
    else (if Upper(s[0]) then ['_', ToLower(s[0])] else [s[0]]) + CamelcaseToUnderscore(s[1..])
  }

  predicate NoUnderscore(parts: seq<string>) {
    forall p :: p in parts ==> '_' !in p
  }

  lemma {:induction false} SplitJoin(s: string)
    ensures Join(Split(s)) == s && NoUnderscore(Split(s))
  {
    if s != "" {
      SplitJoin(s[1..]);
      var rest := Split(s[1..]);
      assert rest == [rest[0]] + rest[1..];
      if s[0] != '_' {
        assert Split(s)[1..] == rest[1..];
        forall p | p in Split(s) ensures '_' !in p { if p != Split(s)[0] { assert p in rest[1..]; } }
      } else {
        assert Split(s)[1..] == rest;
      }
    }
  }

  lemma {:induction false} InverseOfConcat(s: string, t: string)
    ensures CamelcaseToUnderscore(s + t) == CamelcaseToUnderscore(s) + CamelcaseToUnderscore(t)
  {
    if s == "" {
      assert s + t == t;
    } else {
      assert (s + t)[1..] == s[1..] + t;
      InverseOfConcat(s[1..], t);
    }
  }

  lemma {:induction false} InverseOfLower(s: string)
    ensures CamelcaseToUnderscore(Lower(s)) == Lower(s)
  {
    if s != "" {
      assert Lower(s)[1..] == Lower(s[1..]);
      InverseOfLower(s[1..]);
    }
  }

  predicate HasUpper(s: string) {
    exists i :: 0 <= i < |s| && Upper(s[i])
  }

  lemma {:induction false} LowerOf(s: string)
    ensures Lower(s) == s <==> !HasUpper(s)
  {
    if Lower(s) == s {
      forall i | 0 <= i < |s| ensures !Upper(s[i]) { assert Lower(s)[i] == ToLower(s[i]); }
    }
  }

  lemma {:induction false} InverseOfInitial(c: char)
    ensures CamelcaseToUnderscore([ToUpper(c)]) ==
            if LowerLetter(c) || Upper(c) then ['_', ToLower(c)] else [ToLower(c)]
  {
    assert [ToUpper(c)][1..] == "" && CamelcaseToUnderscore("") == "";
    assert ToLower(ToUpper(c)) == ToLower(c);
  }

  lemma {:induction false} LowerCons(p: string)
    requires p != ""
    ensures Lower(p) == [ToLower(p[0])] + Lower(p[1..])
  {
  }

  lemma {:induction false} PrefixAssoc(c: char, tail: string)
    ensures ['_', c] + tail == "_" + ([c] + tail)
  {
  }

  /** What the inverse makes of one capitalised part. */
  lemma {:induction false} InverseOfCapitalized(p: string)
    requires p != ""
    ensures CamelcaseToUnderscore(Capitalize(p)) ==
            if LowerLetter(p[0]) || Upper(p[0]) then "_" + Lower(p) else Lower(p)
  {
    var c, tail := p[0], Lower(p[1..]);
    assert CamelcaseToUnderscore([ToUpper(c)] + tail) == CamelcaseToUnderscore([ToUpper(c)]) + tail by {
      InverseOfConcat([ToUpper(c)], tail);
      InverseOfLower(p[1..]);
    }
    InverseOfInitial(c);
    LowerCons(p);
    PrefixAssoc(ToLower(c), tail);
  }

  /** A part whose separator survives: empty, or starting with a letter. */
  predicate StartsWithLetter(p: string) {
    p == "" || LowerLetter(p[0])
  }

  predicate Lowercase(parts: seq<string>) {
    forall p :: p in parts ==> !HasUpper(p)
  }

  lemma {:induction false} InverseOfLaterParts(parts: seq<string>)
    requires Lowercase(parts)
    ensures |CamelcaseToUnderscore(Camel(parts, false))| <= |Separated(parts)|
    ensures CamelcaseToUnderscore(Camel(parts, false)) == Separated(parts) <==> forall p :: p in parts ==>
        StartsWithLetter(p)
    ensures |CamelcaseToUnderscore(Camel(parts, false))| == |Separated(parts)| <==> forall p :: p in parts ==>
        StartsWithLetter(p)
  {
    if parts != [] {
      var p, rest := parts[0], parts[1..];
      assert parts == [p] + rest && p in parts;
      assert (forall q :: q in parts ==> StartsWithLetter(q)) <==>
          StartsWithLetter(p) && forall q :: q in rest ==> StartsWithLetter(q);
      InverseOfLaterParts(rest);
      var head, tail, sep := "_" + p, CamelcaseToUnderscore(Camel(rest, false)), Separated(rest);
      assert Separated(parts) == head + sep;
      if p == "" {
        InverseOfConcat("_", Camel(rest, false));
        assert CamelcaseToUnderscore(Camel(parts, false)) == head + tail;
      } else {
        InverseOfConcat(Capitalize(p), Camel(rest, false));
        InverseOfCapitalized(p);
        LowerOf(p);
        assert CamelcaseToUnderscore(Camel(parts, false)) == (if StartsWithLetter(p) then head else p) + tail;
      }
      hide Separated, CamelcaseToUnderscore, Camel, StartsWithLetter;
      assert (head + tail)[|head|..] == tail && (head + sep)[|head|..] == sep;
    }
  }

  /** Where the first non-empty part is, if any. */
  function FirstWord(parts: seq<string>): (i: nat)
    ensures i <= |parts|
  {
    if parts == [] || parts[0] != "" then 0 else 1 + FirstWord(parts[1..])
  }

  /** The names `underscore_to_camelcase` prints without loss: some part is non-empty, no
      letter is upper case, and every later non-empty part starts with a letter. */
  predicate Printable(parts: seq<string>) {
    var i := FirstWord(parts);
    i < |parts| && Lowercase(parts) && forall p :: p in parts[i + 1..] ==> StartsWithLetter(p)
  }

  lemma {:induction false} InverseOfParts(parts: seq<string>)
    requires Lowercase(parts) && parts != []
    ensures CamelcaseToUnderscore(Camel(parts, true)) == Join(parts) <==> Printable(parts)
  {
    var p, rest := parts[0], parts[1..];
    assert parts == [p] + rest;
    if p == "" {
      InverseOfConcat("_", Camel(rest, true));
      if rest != [] {
        InverseOfParts(rest);
        assert Join(parts) == "_" + Join(rest);
        assert FirstWord(parts) == 1 + FirstWord(rest);
        if FirstWord(rest) < |rest| { assert parts[FirstWord(parts) + 1..] == rest[FirstWord(rest) + 1..]; }
        assert ("_" + CamelcaseToUnderscore(Camel(rest, true)))[1..] == CamelcaseToUnderscore(Camel(rest, true));
        assert ("_" + Join(rest))[1..] == Join(rest);
      }
    } else {
      InverseOfConcat(Lower(p), Camel(rest, false));
      InverseOfLower(p);
      LowerOf(p);
      InverseOfLaterParts(rest);
      var r := CamelcaseToUnderscore(Camel(rest, false));
      assert (p + r)[|p|..] == r && (p + Separated(rest))[|p|..] == Separated(rest);
      assert parts[1..] == rest;
    }
  }

  lemma {:induction false} InverseHasNoUpper(s: string)
    ensures !HasUpper(CamelcaseToUnderscore(s))
  {
    if s != "" { InverseHasNoUpper(s[1..]); }
  }

  lemma {:induction false} UpperOfParts(parts: seq<string>)
    ensures HasUpper(Separated(parts)) <==> !Lowercase(parts)
  {
    if parts != [] {
      UpperOfParts(parts[1..]);
      UpperOfConcat("_" + parts[0], Separated(parts[1..]));
      UpperOfConcat("_", parts[0]);
      assert parts == [parts[0]] + parts[1..];
    }
  }

  lemma {:induction false} UpperOfConcat(s: string, t: string)
    ensures HasUpper(s + t) <==> HasUpper(s) || HasUpper(t)
  {
    if HasUpper(s) {
      var i :| 0 <= i < |s| && Upper(s[i]);
      assert Upper((s + t)[i]);
    }
    if HasUpper(t) {
      var i :| 0 <= i < |t| && Upper(t[i]);
      assert Upper((s + t)[|s| + i]);
    }
  }

  /** `underscore_to_camelcase` has a left inverse on exactly the printable names. */
  lemma {:induction false} CamelcaseLeftInverse(name: string)
    ensures CamelcaseToUnderscore(UnderscoreToCamelcase(name)) == name <==> Printable(Split(name))
  {
    var parts := Split(name);
    SplitJoin(name);
    assert parts == [parts[0]] + parts[1..];
    UpperOfParts(parts[1..]);
    UpperOfConcat(parts[0], Separated(parts[1..]));
    if Lowercase(parts) {
      InverseOfParts(parts);
    } else {
      InverseHasNoUpper(UnderscoreToCamelcase(name));
    }
  }

  lemma {:induction false} CamelcaseInjective(a: string, b: string)
    requires Printable(Split(a)) && Printable(Split(b))
    requires UnderscoreToCamelcase(a) == UnderscoreToCamelcase(b)
    ensures a == b
  {
    CamelcaseLeftInverse(a);
    CamelcaseLeftInverse(b);
  }

  // ------------------------------------------ printing a printed name again

  /** Underscores count twice, capitals once: what printing can only use up. */
  function Weight(s: string): nat {
    if s == "" then 0
    else (if s[0] == '_' then 2 else if Upper(s[0]) then 1 else 0) + Weight(s[1..])
  }

  lemma {:induction false} WeightOfConcat(s: string, t: string)
    ensures Weight(s + t) == Weight(s) + Weight(t)
  {
    if s == "" {
      assert s + t == t;
    } else {
      assert (s + t)[1..] == s[1..] + t;
      WeightOfConcat(s[1..], t);
    }
  }

  lemma {:induction false} WeightOfLower(p: string)
    requires '_' !in p
    ensures Weight(Lower(p)) == 0
    ensures Weight(p) == 0 ==> Lower(p) == p
  {
    if p != "" {
      WeightOfLower(p[1..]);
      assert Lower(p)[1..] == Lower(p[1..]);
      assert p[0] in p && (forall c :: c in p[1..] ==> c in p);
      assert Lower(p) == [ToLower(p[0])] + Lower(p[1..]);
    }
  }

  lemma {:induction false} WeightOfLaterParts(parts: seq<string>)
    requires NoUnderscore(parts)
    ensures Weight(Camel(parts, false)) <= Weight(Separated(parts))
    ensures Weight(Camel(parts, false)) == Weight(Separated(parts)) ==> Camel(parts, false) == Separated(parts)
  {
    if parts != [] {
      var p, rest := parts[0], parts[1..];
      WeightOfLaterParts(rest);
      WeightOfConcat("_" + p, Separated(rest));
      WeightOfConcat("_", p);
      assert ("_")[1..] == "";
      if p == "" {
        WeightOfConcat("_", Camel(rest, false));
      } else {
        WeightOfConcat(Capitalize(p), Camel(rest, false));
        WeightOfConcat([ToUpper(p[0])], Lower(p[1..]));
        assert p[0] in p && (forall c :: c in p[1..] ==> c in p);
        WeightOfLower(p[1..]);
        assert [ToUpper(p[0])][1..] == "";
        assert Weight(Capitalize(p)) < Weight("_" + p);
        assert Camel(parts, false) == Capitalize(p) + Camel(rest, false);
      }
      assert Separated(parts) == ("_" + p) + Separated(rest);
      hide Weight, Camel, Separated, Capitalize, Lower;
    }
  }

  lemma {:induction false} JoinAfterEmpty(parts: seq<string>)
    requires |parts| > 1 && parts[0] == ""
    ensures Join(parts) == "_" + Join(parts[1..])
  {
    var rest := parts[1..];
    assert rest != [] && Separated(rest) == "_" + rest[0] + Separated(rest[1..]);
    assert "_" + rest[0] + Separated(rest[1..]) == "_" + (rest[0] + Separated(rest[1..]));
    assert Join(parts) == Separated(rest);
  }

  lemma {:induction false} WeightOfParts(parts: seq<string>)
    requires NoUnderscore(parts) && FirstWord(parts) < |parts|
    ensures Weight(Camel(parts, true)) <= Weight(Join(parts))
    ensures Weight(Camel(parts, true)) == Weight(Join(parts)) ==> Camel(parts, true) == Join(parts)
  {
    var p, rest := parts[0], parts[1..];
    if p == "" {
      JoinAfterEmpty(parts);
      WeightOfParts(rest);
      WeightOfConcat("_", Join(rest));
      WeightOfConcat("_", Camel(rest, true));
    } else {
      assert p in parts;
      WeightOfLaterParts(rest);
      WeightOfLower(p);
      WeightOfConcat(Lower(p), Camel(rest, false));
      WeightOfConcat(p, Separated(rest));
    }
  }

  /** Printing a name that is not already in its printed form uses up weight, so a name can
      never come back by being printed again and again. */
  lemma {:induction false} PrintingUsesUpWeight(name: string)
    requires FirstWord(Split(name)) < |Split(name)|
    requires UnderscoreToCamelcase(name) != name
    ensures Weight(UnderscoreToCamelcase(name)) < Weight(name)
  {
    SplitJoin(name);
    WeightOfParts(Split(name));
  }

  // ------------------------------------------------- what is never printed

  /** A name of underscores alone, or the empty one. */
  predicate Blank(s: string) {
    forall i :: 0 <= i < |s| ==> s[i] == '_'
  }

  lemma {:induction false} BlankCons(c: char, rest: string)
    ensures Blank([c] + rest) <==> c == '_' && Blank(rest)
  {
    BlankConcat([c], rest);
    assert [c][0] == c;
  }

  lemma {:induction false} BlankConcat(s: string, t: string)
    ensures Blank(s + t) <==> Blank(s) && Blank(t)
  {
    assert forall i :: 0 <= i < |s| ==> s[i] == (s + t)[i];
    assert forall i :: 0 <= i < |t| ==> t[i] == (s + t)[|s| + i];
  }

  /** A name is blank when all its parts are empty. */
  lemma {:induction false} BlankParts(s: string)
    ensures Blank(s) <==> FirstWord(Split(s)) == |Split(s)|
    ensures Blank(s) ==> |Split(s)| == |s| + 1
  {
    if s != "" {
      BlankParts(s[1..]);
      BlankCons(s[0], s[1..]);
      var rest := Split(s[1..]);
      assert [s[0]] + s[1..] == s;
      if s[0] == '_' { assert ([""] + rest)[1..] == rest; }
    }
  }

  lemma {:induction false} BlankCamel(parts: seq<string>, first: bool)
    requires NoUnderscore(parts)
    ensures Blank(Camel(parts, first)) <==> FirstWord(parts) == |parts|
    ensures FirstWord(parts) == |parts| ==> |Camel(parts, first)| == |parts|
  {
    if parts != [] {
      var p, rest := parts[0], parts[1..];
      assert p in parts && forall q :: q in rest ==> q in parts;
      BlankCamel(rest, if p == "" then first else false);
      if p == "" {
        BlankCons('_', Camel(rest, first));
      } else {
        var word := if first then Lower(p) else Capitalize(p);
        assert p[0] in p && word[0] != '_';
        BlankConcat(word, Camel(rest, false));
      }
    }
  }

  /** Exactly blank names are printed as blank names, one underscore longer. */
  lemma {:induction false} BlankPrints(name: string)
    ensures Blank(UnderscoreToCamelcase(name)) <==> Blank(name)
    ensures Blank(name) ==> |UnderscoreToCamelcase(name)| == |name| + 1
  {
    SplitJoin(name);
    BlankParts(name);
    BlankCamel(Split(name), true);
  }

  /** Words joined by an underscore: a lower-case letter after an underscore after something. */
  ghost predicate SnakeCase(s: string) {
    exists i, j :: 0 <= i < j < |s| - 1 && s[i] != '_' && s[j] == '_' && LowerLetter(s[j + 1])
  }

  ghost predicate NoLowerAfter(s: string) {
    && (s != "" ==> !LowerLetter(s[0]))
    && forall j :: 0 <= j < |s| - 1 && s[j] == '_' ==> !LowerLetter(s[j + 1])
  }

  lemma {:induction false} LaterPartsPrinted(parts: seq<string>)
    requires NoUnderscore(parts)
    ensures NoLowerAfter(Camel(parts, false))
  {
    if parts != [] {
      var p, rest := parts[0], parts[1..];
      assert p in parts && forall q :: q in rest ==> q in parts;
      LaterPartsPrinted(rest);
      var tail := Camel(rest, false);
      if p != "" {
        var word := Capitalize(p);
        forall i | 0 <= i < |word| ensures word[i] != '_' { assert p[i] in p; }
        NoLowerConcat(word, tail);
      } else {
        NoLowerConcat("_", tail);
      }
    }
  }

  lemma {:induction false} NoLowerConcat(s: string, t: string)
    requires NoLowerAfter(t) && s != "" && !LowerLetter(s[0])
    requires s == "_" || forall i :: 0 <= i < |s| ==> s[i] != '_'
    ensures NoLowerAfter(s + t)
  {
    var u := s + t;
    forall j | 0 <= j < |u| - 1 && u[j] == '_' ensures !LowerLetter(u[j + 1]) {
      if j >= |s| { assert u[j] == t[j - |s|] && u[j + 1] == t[j - |s| + 1]; }
      if j == |s| - 1 { assert u[j + 1] == t[0]; }
    }
  }

  lemma {:induction false} PartsPrinted(parts: seq<string>)
    requires NoUnderscore(parts)
    ensures !SnakeCase(Camel(parts, true))
  {
    if parts != [] {
      var p, rest := parts[0], parts[1..];
      assert p in parts && forall q :: q in rest ==> q in parts;
      var s := Camel(parts, true);
      if p == "" {
        PartsPrinted(rest);
        assert forall i :: 0 < i < |s| ==> s[i] == Camel(rest, true)[i - 1];
      } else {
        LaterPartsPrinted(rest);
        var word, tail := Lower(p), Camel(rest, false);
        forall i | 0 <= i < |word| ensures word[i] != '_' { assert p[i] in p; }
        forall j | 0 <= j < |s| - 1 && s[j] == '_' ensures !LowerLetter(s[j + 1]) {
          assert j >= |word| && s[j] == tail[j - |word|] && s[j + 1] == tail[j - |word| + 1];
        }
      }
    }
  }

  /** No name is printed in snake case. */
  lemma {:induction false} NeverSnakeCase(name: string)
    ensures !SnakeCase(UnderscoreToCamelcase(name))
  {
    SplitJoin(name);
    PartsPrinted(Split(name));
  }
}
