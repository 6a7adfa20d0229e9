/**
 * Record paths: the numbered path given to each definition of a file, and the file stem
 * that tells which recorded paths belong together.
 */
module Paths {
  import opened Options

  function Digit(n: nat): char
    requires n < 10
  {
    "0123456789"[n]
  }

  /** `str(n)`. */
  function Decimal(n: nat): string {
    if n < 10 then [Digit(n)] else Decimal(n / 10) + [Digit(n % 10)]
  }

  function Numeral(s: string): nat {
    if s == "" then 0
    else 10 * Numeral(s[..|s| - 1]) + (if '0' <= s[|s| - 1] <= '9' then s[|s| - 1] as nat - '0' as nat else 0)
  }

  lemma {:induction false} DecimalReadsBack(n: nat)
    ensures Numeral(Decimal(n)) == n
  {
    if n >= 10 {
      DecimalReadsBack(n / 10);
      var s := Decimal(n);
      assert s[..|s| - 1] == Decimal(n / 10);
    }
  }

  /** `"{name}#{curr_num}"`. */
  function NumberedPath(origin: string, n: nat): string {
    origin + "#" + Decimal(n)
  }

  lemma {:induction false} NumberedPathInjective(origin: string, m: nat, n: nat)
    requires NumberedPath(origin, m) == NumberedPath(origin, n)
    ensures m == n
  {
    var k := |origin| + 1;
    assert NumberedPath(origin, m)[k..] == Decimal(m) && NumberedPath(origin, n)[k..] == Decimal(n);
    DecimalReadsBack(m);
    DecimalReadsBack(n);
  }

  /** `part in s`. */
  predicate Contains(s: string, part: string) {
    exists i :: 0 <= i <= |s| && PartAt(s, part, i)
  }

  predicate PartAt(s: string, part: string, i: nat) {
    i + |part| <= |s| && s[i..i + |part|] == part
  }

  predicate YamlAt(s: string, i: nat) {
    i + 5 <= |s| && s[i] == '.' && s[i + 1] == 'y' && s[i + 2] == 'a' && s[i + 3] == 'm' && s[i + 4] == 'l'
  }

  function FindYaml(s: string, from: nat): (r: Option<nat>)
    ensures r.None? ==> forall i :: i >= from ==> !YamlAt(s, i)
    ensures r.Some? ==> r.value >= from && YamlAt(s, r.value) && forall i :: from <= i < r.value ==> !YamlAt(s, i)
    decreases |s| - from
  {
    if from >= |s| then None else if YamlAt(s, from) then Some(from) else FindYaml(s, from + 1)
  }

  /** `stem, _ = s.split('.yaml')`; none when the split has not exactly two pieces. */
  function Stem(s: string): Option<string> {
    var i := FindYaml(s, 0);
    if i.None? || FindYaml(s, i.value + 5).Some? then None else Some(s[..i.value])
  }

  lemma {:induction false} StemAt(s: string, i: nat)
    requires YamlAt(s, i)
    ensures Stem(s) == if forall j :: YamlAt(s, j) ==> j == i then Some(s[..i]) else None
  {
    var first := FindYaml(s, 0).value;
    forall j | YamlAt(s, j) ensures j == first || j >= first + 5 {}
  }

  /** A stem can be taken exactly when the suffix occurs exactly once. */
  lemma {:induction false} StemExactlyOnce(s: string)
    ensures Stem(s).Some? <==> exists i :: YamlAt(s, i) && forall j :: YamlAt(s, j) ==> j == i
  {
    if i :| YamlAt(s, i) && forall j :: YamlAt(s, j) ==> j == i {
      StemAt(s, i);
    } else if Stem(s).Some? {
      StemAt(s, FindYaml(s, 0).value);
    }
  }

  lemma {:induction false} DecimalDigits(n: nat)
    ensures forall c :: c in Decimal(n) ==> '0' <= c <= '9'
  {
    if n >= 10 { DecimalDigits(n / 10); }
  }

  /** Numbering a path keeps its stem, so all definitions of a file are adjacent. */
  lemma {:induction false} NumberedPathStem(origin: string, n: nat)
    requires Stem(origin).Some?
    ensures Stem(NumberedPath(origin, n)) == Stem(origin)
    ensures Contains(NumberedPath(origin, n), Stem(origin).value)
  {
    var s := NumberedPath(origin, n);
    DecimalDigits(n);
    forall j: nat ensures YamlAt(s, j) <==> YamlAt(origin, j) {
      assert s[|origin|] == '#' && forall k :: 0 <= k < |origin| ==> s[k] == origin[k];
      assert forall k :: |origin| < k < |s| ==> s[k] in Decimal(n);
    }
    var i := FindYaml(origin, 0).value;
    StemAt(origin, i);
    StemAt(s, i);
    assert s[..i] == origin[..i];
    assert PartAt(s, origin[..i], 0);
  }
}
