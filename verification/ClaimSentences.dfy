/** How the claim scanner cuts a single line: a plain line at every sentence boundary, a heading
    or list item at semicolons only; and what that means for negations. */
module ClaimSentences {
  import opened ClaimUnits
  import opened ClaimScanner
  import Numerals

  /** Neither blank nor heading nor list item. */
  predicate IsPlain(raw: string) {
    var line := Strip(raw);
    line != [] && line[0] != '#' && !IsBullet(line) && !IsOrdered(line)
  }

  ghost predicate Whole(s: string) { forall i :: !SentenceBoundary(s, i) }

  // ----- no unit of a plain line holds a boundary -----

  lemma PartOfWhole(s: string, i: nat, j: nat)
    requires Whole(s) && i <= j <= |s|
    ensures Whole(s[i..j])
  {
    forall k | SentenceBoundary(s[i..j], k) ensures SentenceBoundary(s, i + k) {
    }
  }

  lemma {:induction false} CutsOfWhole(s: string)
    requires Whole(s)
    ensures CutAt(s, ';') != [] && forall p :: p in CutAt(s, ';') ==> Whole(p)
    ensures CutAt(s, ';')[0] <= s
  {
    if s != [] {
      PartOfWhole(s, 1, |s|);
      assert s[1..|s|] == s[1..];
      CutsOfWhole(s[1..]);
      var rest := CutAt(s[1..], ';');
      if s[0] != ';' {
        var head := [s[0]] + rest[0];
        assert head == s[0..|head|];
        PartOfWhole(s, 0, |head|);
        assert forall p :: p in rest[1..] ==> p in rest;
      }
    }
  }

  lemma {:induction false} StrippedWhole(parts: seq<string>)
    requires forall p :: p in parts ==> Whole(p)
    ensures forall u :: u in NonEmptyStripped(parts) ==> Whole(u)
  {
    if parts != [] {
      assert parts[0] in parts && forall p :: p in parts[1..] ==> p in parts;
      StrippedWhole(parts[1..]);
      StripIsPart(parts[0]);
      var i, j :| 0 <= i <= j <= |parts[0]| && Strip(parts[0]) == parts[0][i..j];
      PartOfWhole(parts[0], i, j);
    }
  }

  lemma {:induction false} ClausesOfWhole(parts: seq<string>)
    requires forall p :: p in parts ==> Whole(p)
    ensures forall u :: u in SentenceClauses(parts) ==> Whole(u)
  {
    if parts != [] {
      assert parts[0] in parts && forall p :: p in parts[1..] ==> p in parts;
      CutsOfWhole(parts[0]);
      StrippedWhole(CutAt(parts[0], ';'));
      ClausesOfWhole(parts[1..]);
    }
  }

  /** A plain line is cut at every sentence boundary. */
  lemma PlainLineIsCut(raw: string)
    requires IsPlain(raw)
    ensures forall u :: u in UnitsOfLine(raw) ==> Whole(u)
  {
    SentencesAreWhole(Strip(raw));
    ClausesOfWhole(Sentences(Strip(raw)));
  }

  // ----- a heading or item is not cut at all without a semicolon -----

  lemma {:induction false} NothingToCut(s: string)
    requires NoSemicolon(s)
    ensures CutAt(s, ';') == [s]
  {
    if s != [] {
      NothingToCut(s[1..]);
      assert [s[0]] + s[1..] == s;
    }
  }

  lemma StripTwice(s: string)
    ensures Strip(Strip(s)) == Strip(s)
  {
    StripHasInkAtBothEnds(s);
  }

  lemma OneClause(s: string)
    requires NoSemicolon(s)
    ensures Clauses(Strip(s)) == if Strip(s) == [] then [] else [Strip(s)]
  {
    StripIsPart(s);
    NothingToCut(Strip(s));
    StripTwice(s);
    assert [Strip(s)][1..] == [] && NonEmptyStripped([]) == [];
  }

  /** A heading or list item without a semicolon is one unit, whatever full stops it holds. */
  lemma ItemIsOneUnit(raw: string)
    requires !IsPlain(raw) && NoSemicolon(Content(raw))
    ensures UnitsOfLine(raw) == if Strip(Content(raw)) == [] then [] else [Strip(Content(raw))]
  {
    StripTwice(raw);
    if Strip(raw) != [] {
      OneClause(Content(raw));
    }
  }

  // ----- the law over sentences -----

  /** The units of what is cut into sentences. */
  function SentenceUnits(s: string): seq<string> { SentenceClauses(Sentences(s)) }

  lemma {:induction false} SentenceClausesAppend(a: seq<string>, b: seq<string>)
    ensures SentenceClauses(a + b) == SentenceClauses(a) + SentenceClauses(b)
  {
    if a == [] {
      assert a + b == b;
    } else {
      SentenceClausesAppend(a[1..], b);
      assert (a + b)[0] == a[0] && (a + b)[1..] == a[1..] + b;
      Associate(Clauses(a[0]), SentenceClauses(a[1..]), SentenceClauses(b));
    }
  }

  lemma {:induction false} StripLeftAt(s: string) returns (m: nat)
    ensures m <= |s| && StripLeft(s) == s[m..] && (forall i :: 0 <= i < m ==> IsSpace(s[i]))
    ensures m < |s| ==> !IsSpace(s[m])
  {
    if s != [] && IsSpace(s[0]) {
      var n := StripLeftAt(s[1..]);
      assert forall i :: 1 <= i < n + 1 ==> s[i] == s[1..][i - 1];
      m := n + 1;
    } else {
      m := 0;
    }
  }

  lemma {:induction false} StripLeftTo(s: string, m: nat)
    requires m < |s| && (forall i :: 0 <= i < m ==> IsSpace(s[i])) && !IsSpace(s[m])
    ensures StripLeft(s) == s[m..]
  {
    if m > 0 {
      StripLeftTo(s[1..], m - 1);
    }
  }

  lemma {:induction false} FirstSentenceEnd(s: string, i: nat, k: nat)
    requires 1 <= i <= k <= |s| && (forall j :: i <= j < k ==> !SentenceBoundary(s, j))
    requires k < |s| ==> SentenceBoundary(s, k)
    ensures SentenceEnd(s, i) == k
    decreases k - i
  {
    if i < k {
      FirstSentenceEnd(s, i + 1, k);
    }
  }

  /** A string cut at any of its boundaries has the sentences of the two parts. */
  lemma {:induction false} SentencesSplit(s: string, k: nat)
    requires SentenceBoundary(s, k)
    ensures Sentences(s) == Sentences(s[..k]) + Sentences(StripLeft(s[k..]))
    decreases |s|
  {
    var e, first := SentenceEnd(s, 1), s[..k];
    assert forall j :: 0 < j < k ==> (SentenceBoundary(first, j) <==> SentenceBoundary(s, j));
    if e == k {
      FirstSentenceEnd(first, 1, k);
      assert first == s[..e];
    } else {
      assert e < k;
      FirstSentenceEnd(first, 1, e);
      var m := StripLeftAt(s[e..]);
      SplitInRest(s, e, m, k);
      SentencesSplit(s[e + m..], k - e - m);
      Associate([s[..e]], Sentences(s[e + m..][..k - e - m]), Sentences(StripLeft(s[k..])));
    }
  }

  /** The boundary in what is left after the first sentence. */
  lemma SplitInRest(s: string, e: nat, m: nat, k: nat)
    requires SentenceBoundary(s, k) && SentenceBoundary(s, e) && e < k && e + m <= |s|
    requires StripLeft(s[e..]) == s[e + m..] && (forall i :: 0 <= i < m ==> IsSpace(s[e..][i]))
    requires m < |s[e..]| ==> !IsSpace(s[e..][m])
    ensures m > 0 && e + m < k && SentenceBoundary(s[e + m..], k - e - m)
    ensures StripLeft(s[..k][e..]) == s[e + m..][..k - e - m]
    ensures s[..k][..e] == s[..e] && s[e + m..][k - e - m..] == s[k..]
  {
    assert IsSpace(s[e]) && s[e..][0] == s[e];
    forall i | e <= i < e + m ensures IsSpace(s[i]) {
      assert s[e..][i - e] == s[i];
    }
    assert !IsSpace(s[k - 1]);
    var part := s[..k][e..];
    assert forall i :: 0 <= i < |part| ==> part[i] == s[e..][i];
    StripLeftTo(part, m);
    assert part[m..] == s[e + m..][..k - e - m];
  }

  lemma UnitsSplit(s: string, k: nat)
    requires SentenceBoundary(s, k)
    ensures SentenceUnits(s) == SentenceUnits(s[..k]) + SentenceUnits(StripLeft(s[k..]))
  {
    SentencesSplit(s, k);
    SentenceClausesAppend(Sentences(s[..k]), Sentences(StripLeft(s[k..])));
  }

  lemma {:induction false} SameDigitRun(s: string, k: nat)
    requires k <= |s|
    ensures DigitRun(s[..k]) == if DigitRun(s) <= k then DigitRun(s) else k
  {
    if k > 0 && Numerals.IsDigit(s[0]) {
      assert s[..k][1..] == s[1..][..k - 1];
      SameDigitRun(s[1..], k - 1);
    }
  }

  lemma StripNothing(s: string)
    requires s != [] && !IsSpace(s[0]) && !IsSpace(s[|s| - 1])
    ensures Strip(s) == s
  {
  }

  lemma {:induction false} StripOfRest(s: string)
    requires s != [] && !IsSpace(s[|s| - 1])
    ensures Strip(s) == StripLeft(s)
  {
  }

  /** The first part of a plain line is plain itself. */
  lemma FirstPartIsPlain(raw: string, k: nat)
    requires IsPlain(raw) && SentenceBoundary(Strip(raw), k)
    ensures IsPlain(Strip(raw)[..k]) && Strip(Strip(raw)[..k]) == Strip(raw)[..k]
  {
    var line := Strip(raw);
    StripHasInkAtBothEnds(raw);
    StripNothing(line[..k]);
    SameDigitRun(line, k);
  }

  lemma PlainUnits(raw: string)
    requires IsPlain(raw)
    ensures UnitsOfLine(raw) == SentenceUnits(Strip(raw))
  {
  }

  lemma RestOfLine(raw: string, k: nat)
    requires SentenceBoundary(Strip(raw), k)
    ensures Strip(Strip(raw)[k..]) == StripLeft(Strip(raw)[k..])
  {
    StripHasInkAtBothEnds(raw);
    StripOfRest(Strip(raw)[k..]);
  }

  /** A plain line is scanned as its two parts, each taken as a line of its own; the second must
      not look like a heading or list item, which only the start of a line can be. */
  lemma PlainLineSplits(raw: string, k: nat)
    requires IsPlain(raw) && SentenceBoundary(Strip(raw), k)
    ensures UnitsOfLine(raw) == UnitsOfLine(Strip(raw)[..k]) + SentenceUnits(StripLeft(Strip(raw)[k..]))
    ensures IsPlain(Strip(raw)[k..]) ==>
      UnitsOfLine(raw) == UnitsOfLine(Strip(raw)[..k]) + UnitsOfLine(Strip(raw)[k..])
  {
    FirstPartIsPlain(raw, k);
    UnitsSplit(Strip(raw), k);
    RestOfLine(raw, k);
    PlainUnits(raw);
    PlainUnits(Strip(raw)[..k]);
    if IsPlain(Strip(raw)[k..]) { PlainUnits(Strip(raw)[k..]); }
  }

  lemma OneLine(text: string)
    requires NoBreak(text)
    ensures Units(text) == UnitsOfLine(text)
  {
    UnitsStep(text);
    NoUnits();
    assert text[..|text|] == text;
    assert UnitsOfLine(text) + [] == UnitsOfLine(text);
  }

  /** So a negation in one sentence hides no claim and no secret in the next, nor the other way
      round: scanning a plain one-line text flags iff scanning one of the two parts does. */
  lemma SentencesAreJudgedAlone(text: string, k: nat, phrase: string, l: Language)
    requires NoBreak(text) && IsPlain(text) && SentenceBoundary(Strip(text), k)
    ensures var first, second := UnitsOfLine(Strip(text)[..k]), SentenceUnits(StripLeft(Strip(text)[k..]));
      && (Affirms(Units(text), phrase, l) <==> Affirms(first, phrase, l) || Affirms(second, phrase, l))
      && (Leaks(Units(text), l) <==> Leaks(first, l) || Leaks(second, l))
  {
    OneLine(text);
    PlainLineSplits(text, k);
    AffirmsJoin(UnitsOfLine(Strip(text)[..k]), SentenceUnits(StripLeft(Strip(text)[k..])), phrase, l);
  }

  // ----- the same for texts as they are written -----

  /** A text on one line, without outer white space. */
  ghost predicate Line(text: string) {
    NoBreak(text) && text != [] && !IsSpace(text[0]) && !IsSpace(text[|text| - 1])
  }

  /** Two sentences on one line, joined by a space, are scanned as two texts: if the first begins
      like no heading or list item and ends in a full stop, exclamation or question mark. */
  lemma SentencesJoin(a: string, b: string)
    requires Line(a) && Line(b) && a[0] !in "#-*0123456789" && a[|a| - 1] in ['.', '!', '?']
    ensures Units(a + " " + b) == Units(a) + SentenceUnits(b)
    ensures b[0] !in "#-*0123456789" ==> Units(a + " " + b) == Units(a) + Units(b)
  {
    var text, k := a + " " + b, |a|;
    assert text[0] == a[0] && text[|text| - 1] == b[|b| - 1] && text[k] == ' ' && text[k - 1] == a[k - 1];
    PlainStart(a);
    PlainStart(text);
    assert SentenceBoundary(text, k) && text[..k] == a && text[k..][1..] == b;
    assert StripLeft(text[k..]) == b;
    OneLine(a);
    OneLine(text);
    PlainLineSplits(text, k);
    if b[0] !in "#-*0123456789" {
      PlainStart(b);
      OneLine(b);
      PlainUnits(b);
    }
  }

  lemma PlainStart(text: string)
    requires Line(text) && text[0] !in "#-*0123456789"
    ensures IsPlain(text) && Strip(text) == text
  {
    StripNothing(text);
    assert !Numerals.IsDigit(text[0]);
  }

  /** So a negation in the first hides nothing in the second. */
  lemma NegationEndsWithItsSentence(a: string, b: string, phrase: string, l: Language)
    requires Line(a) && Line(b) && a[0] !in "#-*0123456789" && a[|a| - 1] in ['.', '!', '?']
    requires b[0] !in "#-*0123456789"
    ensures Affirms(Units(a + " " + b), phrase, l) <==> Affirms(Units(a), phrase, l) || Affirms(Units(b), phrase, l)
    ensures Leaks(Units(a + " " + b), l) <==> Leaks(Units(a), l) || Leaks(Units(b), l)
  {
    SentencesJoin(a, b);
    AffirmsJoin(Units(a), Units(b), phrase, l);
  }

  /** A heading without semicolon is one unit, whatever full stops it holds. */
  lemma HeadingIsOneUnit(text: string)
    requires Line(text) && NoSemicolon(text) && text[0] == '#'
    ensures Units(text) == [text]
  {
    StripNothing(text);
    OneLine(text);
    ItemIsOneUnit(text);
  }

  /** An item of which everything from position `k` on is content, behind one space. */
  lemma ItemFrom(text: string, k: nat)
    requires Line(text) && NoSemicolon(text) && !IsPlain(text)
    requires k + 1 < |text| && Content(text) == text[k..] && text[k] == ' ' && !IsSpace(text[k + 1])
    ensures Units(text) == [text[k + 1..]]
  {
    OneLine(text);
    assert NoSemicolon(text[k..]);
    ItemIsOneUnit(text);
    SpacedItem(text, k);
  }

  /** So is a bulleted item, apart from its bullet. */
  lemma BulletIsOneUnit(text: string)
    requires Line(text) && NoSemicolon(text) && |text| > 2
    requires text[0] in ['-', '*'] && text[1] == ' ' && !IsSpace(text[2])
    ensures Units(text) == [text[2..]]
  {
    StripNothing(text);
    ItemFrom(text, 1);
  }

  lemma OrdinalShape(text: string, d: nat)
    requires Line(text) && 0 < d && d + 2 < |text| && Numerals.AllDigits(text[..d])
    requires text[d] == '.' && text[d + 1] == ' '
    ensures !IsPlain(text) && Content(text) == text[d + 1..]
  {
    StripNothing(text);
    DigitsEnd(text, d);
    assert text[..d][0] == text[0] && Numerals.IsDigit(text[0]);
  }

  /** And a numbered one, apart from its number. */
  lemma OrdinalIsOneUnit(text: string, d: nat)
    requires Line(text) && NoSemicolon(text) && 0 < d && d + 2 < |text| && Numerals.AllDigits(text[..d])
    requires text[d] == '.' && text[d + 1] == ' ' && !IsSpace(text[d + 2])
    ensures Units(text) == [text[d + 2..]]
  {
    OrdinalShape(text, d);
    ItemFrom(text, d + 1);
  }

  lemma SpacedItem(text: string, k: nat)
    requires k + 1 < |text| && IsSpace(text[k]) && !IsSpace(text[k + 1]) && !IsSpace(text[|text| - 1])
    ensures Strip(text[k..]) == text[k + 1..] != []
  {
    StripOfRest(text[k..]);
    assert text[k..][1..] == text[k + 1..];
  }

  lemma {:induction false} DigitsEnd(text: string, d: nat)
    requires d < |text| && Numerals.AllDigits(text[..d]) && !Numerals.IsDigit(text[d])
    ensures DigitRun(text) == d
  {
    if d > 0 {
      assert text[..d][0] == text[0] && text[1..][..d - 1] == text[..d][1..];
      DigitsEnd(text[1..], d - 1);
    }
  }
}
