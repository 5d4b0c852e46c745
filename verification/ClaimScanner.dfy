/** The clause-wise claim and secret scanner (`_contains_affirming` and `_contains_affirming_secret`
    of validate_e2_research_product.py).

    Lower-casing, the grammar of direct negation and the claim-verb test are unknown functions of
    one unit; the find-loops are modelled, and the cutting into units is in `ClaimUnits`. */
module ClaimScanner {
  import opened ClaimUnits
  import opened Text

  // ----- the find-loops -----

  /** Some occurrence of the needle is not suppressed. */
  ghost predicate Uncovered(lower: string, needle: string, suppressed: nat -> bool) {
    exists p: nat :: p <= |lower| && MatchesAt(needle, lower, p) && !suppressed(p)
  }

  method ScanUnit(lower: string, needle: string, suppressed: nat -> bool) returns (found: bool)
    ensures found <==> Uncovered(lower, needle, suppressed)
  {
    var start := Find(needle, lower, 0);
    while start != -1
      invariant start == -1 || (0 <= start <= |lower| && MatchesAt(needle, lower, start))
      invariant forall p: nat :: p <= |lower| && MatchesAt(needle, lower, p) && (start == -1 || p < start) ==>
        suppressed(p)
      decreases if start == -1 then 0 else |lower| + 1 - start
    {
      if !suppressed(start) {
        return true;
      }
      start := Find(needle, lower, start + 1);
    }
    found := false;
  }

  /** What the scanner is not told: how text is lower-cased, which occurrences the surrounding
      grammar negates, and which units hold a claim verb. */
  datatype Language = Language(lower: string -> string, negated: (string, nat) -> bool, hasVerb: string -> bool)

  function NotAClaim(l: Language, lower: string): nat -> bool {
    (p: nat) => l.negated(lower, p) || !l.hasVerb(lower)
  }

  /** Some occurrence of the phrase in a unit with a claim verb is not negated. */
  ghost predicate Claims(unit: string, phrase: string, l: Language) {
    var lower, needle := l.lower(unit), l.lower(phrase);
    l.hasVerb(lower) && exists p: nat :: p <= |lower| && MatchesAt(needle, lower, p) && !l.negated(lower, p)
  }

  lemma ClaimsAsScanned(unit: string, phrase: string, l: Language)
    ensures Claims(unit, phrase, l) <==> Uncovered(l.lower(unit), l.lower(phrase), NotAClaim(l, l.lower(unit)))
  {
    var lower, needle := l.lower(unit), l.lower(phrase);
    if Claims(unit, phrase, l) {
      var p: nat :| p <= |lower| && MatchesAt(needle, lower, p) && !l.negated(lower, p);
      assert !NotAClaim(l, lower)(p);
    }
    if Uncovered(lower, needle, NotAClaim(l, lower)) {
      var p: nat :| p <= |lower| && MatchesAt(needle, lower, p) && !NotAClaim(l, lower)(p);
    }
  }

  ghost predicate Affirms(units: seq<string>, phrase: string, l: Language) {
    exists u :: u in units && Claims(u, phrase, l)
  }

  method ContainsAffirming(text: string, phrase: string, l: Language) returns (found: bool)
    ensures found <==> Affirms(Units(text), phrase, l)
  {
    var units, needle := Units(text), l.lower(phrase);
    for i := 0 to |units|
      invariant forall j :: 0 <= j < i ==> !Claims(units[j], phrase, l)
    {
      var lower := l.lower(units[i]);
      var here := ScanUnit(lower, needle, NotAClaim(l, lower));
      ClaimsAsScanned(units[i], phrase, l);
      if here {
        assert units[i] in units;
        return true;
      }
    }
    found := false;
  }

  // ----- secrets -----

  const NEEDLES := ["password", "secret", "api-key", "api_key", "credential", "private_key", "private-key"]

  function Window(lower: string, from: int, to: int): string
  {
    var lo := if from < 0 then 0 else from;
    var hi := if to > |lower| then |lower| else to;
    if lo <= hi then lower[lo..hi] else []
  }

  function SecretSuppressed(l: Language, lower: string, needle: string): nat -> bool {
    (p: nat) =>
      Occurs("leakage", Window(lower, p - 20, p + |needle| + 20))
      || (IsStructural(Window(lower, p - 40, p)) && ListGoverns(lower, p))
      || l.negated(lower, p)
  }

  lemma SliceOfSlice(s: string, lo: nat, hi: nat, k: nat, n: nat)
    requires lo <= hi <= |s| && k + n <= hi - lo
    ensures s[lo..hi][k..k + n] == s[lo + k..lo + k + n]
  {
    var a, b := s[lo..hi][k..k + n], s[lo + k..lo + k + n];
    assert |a| == |b| == n;
    assert forall i :: 0 <= i < n ==> a[i] == s[lo + k + i] == b[i];
  }

  lemma MatchInSlice(needle: string, s: string, lo: nat, hi: nat, k: nat)
    requires lo <= hi <= |s|
    ensures MatchesAt(needle, s[lo..hi], k) <==> MatchesAt(needle, s, lo + k) && lo + k + |needle| <= hi
  {
    if k + |needle| <= hi - lo { SliceOfSlice(s, lo, hi, k, |needle|); }
  }

  lemma OccursInWindow(needle: string, lower: string, from: int, to: int)
    requires needle != []
    ensures Occurs(needle, Window(lower, from, to)) <==> Near(needle, lower, from, to)
  {
    var lo := if from < 0 then 0 else from;
    var hi := if to > |lower| then |lower| else to;
    if lo <= hi {
      if Occurs(needle, lower[lo..hi]) {
        var k: nat :| k <= hi - lo && MatchesAt(needle, lower[lo..hi], k);
        MatchInSlice(needle, lower, lo, hi, k);
      }
      if Near(needle, lower, from, to) {
        var j: nat :| from <= j && j + |needle| <= to && MatchesAt(needle, lower, j);
        MatchInSlice(needle, lower, lo, hi, j - lo);
      }
    }
  }

  /** The phrase stands somewhere from `from` on and ends no later than `to`. */
  ghost predicate Near(phrase: string, lower: string, from: int, to: int) {
    exists j: nat :: from <= j && j + |phrase| <= to && MatchesAt(phrase, lower, j)
  }

  /** Where the suppressing words of a secret at `p` must stand. */
  lemma SuppressedMeans(l: Language, lower: string, needle: string, p: nat)
    requires p <= |lower|
    ensures SecretSuppressed(l, lower, needle)(p) <==>
      || Near("leakage", lower, p - 20, p + |needle| + 20)
      || l.negated(lower, p)
      || ((Near("non-claim", lower, p - 40, p) || Near("not claimed", lower, p - 40, p)
           || Near("explicitly not", lower, p - 40, p))
          && Near("include", lower, 0, p)
          && (Occurs("non-claim", lower) ==> exists i: nat :: i < p && MatchesAt("non-claim", lower, i))
          && (Near(":", lower, 0, p) || Near("include", lower, p - 60, p)))
  {
    OccursInWindow("leakage", lower, p - 20, p + |needle| + 20);
    StructuralMeans(lower, p);
    ListMeans(lower, p);
  }

  lemma StructuralMeans(lower: string, p: nat)
    ensures IsStructural(Window(lower, p - 40, p)) <==>
      Near("non-claim", lower, p - 40, p) || Near("not claimed", lower, p - 40, p)
      || Near("explicitly not", lower, p - 40, p)
  {
    OccursInWindow("non-claim", lower, p - 40, p);
    OccursInWindow("not claimed", lower, p - 40, p);
    OccursInWindow("explicitly not", lower, p - 40, p);
  }

  /** `find` answers -1 when there is no such word, which is below `p` as well. */
  lemma ListMeans(lower: string, p: nat)
    requires p <= |lower|
    ensures ListGoverns(lower, p) <==>
      && Near("include", lower, 0, p)
      && (Occurs("non-claim", lower) ==> exists i: nat :: i < p && MatchesAt("non-claim", lower, i))
      && (Near(":", lower, 0, p) || Near("include", lower, p - 60, p))
  {
    OccursInWindow("include", lower, 0, p);
    OccursInWindow(":", lower, 0, p);
    OccursInWindow("include", lower, p - 60, p);
    var k := Find("non-claim", lower, 0);
    if k >= p { assert MatchesAt("non-claim", lower, k); }
  }

  predicate IsStructural(prefix: string) {
    Occurs("non-claim", prefix) || Occurs("not claimed", prefix) || Occurs("explicitly not", prefix)
  }

  predicate ListGoverns(lower: string, p: nat) {
    && Occurs("include", Window(lower, 0, p))
    && Find("non-claim", lower, 0) < p
    && (Occurs(":", Window(lower, 0, p)) || Occurs("include", Window(lower, p - 60, p)))
  }

  ghost predicate LeaksHere(lower: string, needles: seq<string>, l: Language) {
    exists n :: n in needles && Uncovered(lower, n, SecretSuppressed(l, lower, n))
  }

  ghost predicate Leaks(units: seq<string>, l: Language) {
    exists u :: u in units && LeaksHere(l.lower(u), NEEDLES, l)
  }

  method ScanForSecrets(lower: string, l: Language) returns (found: bool)
    ensures found <==> LeaksHere(lower, NEEDLES, l)
  {
    var needles := NEEDLES;
    for j := 0 to |needles|
      invariant !LeaksHere(lower, needles[..j], l)
    {
      found := ScanUnit(lower, needles[j], SecretSuppressed(l, lower, needles[j]));
      assert needles[j] in needles;
      if found {
        return;
      }
      assert needles[..j + 1] == needles[..j] + [needles[j]];
    }
    assert needles[..|needles|] == needles;
    found := false;
  }

  lemma LeaksNext(units: seq<string>, i: nat, l: Language)
    requires i < |units|
    ensures Leaks(units[..i + 1], l) <==> Leaks(units[..i], l) || LeaksHere(l.lower(units[i]), NEEDLES, l)
    ensures LeaksHere(l.lower(units[i]), NEEDLES, l) ==> Leaks(units, l)
  {
    assert units[..i + 1] == units[..i] + [units[i]];
    assert units[i] in units;
  }

  method ContainsAffirmingSecret(text: string, l: Language) returns (found: bool)
    ensures found <==> Leaks(Units(text), l)
  {
    var units := Units(text);
    for i := 0 to |units|
      invariant !Leaks(units[..i], l)
    {
      LeaksNext(units, i, l);
      found := ScanForSecrets(l.lower(units[i]), l);
      if found {
        return;
      }
    }
    assert units[..|units|] == units;
    found := false;
  }

  // ----- main results -----

  /** Both scanners answer for joined texts what they answer for either text alone: nothing in
      one line, a negation least of all, hides a claim or a secret in another. */
  lemma ScanningDistributesOverLines(a: string, b: string, phrase: string, l: Language)
    ensures Affirms(Units(a + ['\n'] + b), phrase, l) <==> Affirms(Units(a), phrase, l) || Affirms(Units(b), phrase, l)
    ensures Leaks(Units(a + ['\n'] + b), l) <==> Leaks(Units(a), l) || Leaks(Units(b), l)
  {
    UnitsDistribute(a, b);
    var ua, ub := Units(a), Units(b);
    assert forall u :: u in ua + ub <==> u in ua || u in ub;
    AffirmsJoin(ua, ub, phrase, l);
  }

  lemma AffirmsJoin(ua: seq<string>, ub: seq<string>, phrase: string, l: Language)
    ensures Affirms(ua + ub, phrase, l) <==> Affirms(ua, phrase, l) || Affirms(ub, phrase, l)
    ensures Leaks(ua + ub, l) <==> Leaks(ua, l) || Leaks(ub, l)
  {
  }
}
