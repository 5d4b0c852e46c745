/** Cutting a text into the independent units of the claim scanner (`_split_into_units` of
    validate_e2_research_product.py): lines, list items, sentences, semicolon clauses. */
module ClaimUnits {
  import Numerals

  /** The characters at which `str.splitlines` ends a line. */
  predicate IsBreak(c: char) {
    c as int in {0x0A, 0x0B, 0x0C, 0x0D, 0x1C, 0x1D, 0x1E, 0x85, 0x2028, 0x2029}
  }

  predicate IsSpace(c: char) {
    IsBreak(c) || c as int in {0x09, 0x1F, 0x20, 0xA0, 0x1680, 0x202F, 0x205F, 0x3000} || 0x2000 <= c as int <= 0x200A
  }

  // ----- cutting a text into units -----

  function FirstBreak(text: string): (k: nat)
    ensures k <= |text| && (k < |text| ==> IsBreak(text[k])) && forall j :: 0 <= j < k ==> !IsBreak(text[j])
  {
    if text == [] || IsBreak(text[0]) then 0 else 1 + FirstBreak(text[1..])
  }

  /** Carriage return and line feed together end one line. */
  function BreakLength(text: string, k: nat): (n: nat)
    requires k < |text|
    ensures 1 <= n <= 2 && k + n <= |text|
  {
    if text[k] == '\r' && k + 1 < |text| && text[k + 1] == '\n' then 2 else 1
  }

  function SplitLines(text: string): seq<string>
    decreases |text|
  {
    var k := FirstBreak(text);
    if text == [] then []
    else if k == |text| then [text]
    else [text[..k]] + SplitLines(text[k + BreakLength(text, k)..])
  }

  function StripLeft(s: string): (r: string)
    ensures |r| <= |s|
  {
    if s != [] && IsSpace(s[0]) then StripLeft(s[1..]) else s
  }

  function Strip(s: string): (r: string)
    ensures |r| <= |s|
    decreases |s|
  {
    if s != [] && IsSpace(s[|s| - 1]) then Strip(s[..|s| - 1]) else StripLeft(s)
  }

  function CutAt(s: string, c: char): seq<string> {
    if s == [] then [[]]
    else
      var rest := CutAt(s[1..], c);
      if s[0] == c then [[]] + rest
      else if rest == [] then [[s[0]]]
      else [[s[0]] + rest[0]] + rest[1..]
  }

  function NonEmptyStripped(parts: seq<string>): seq<string> {
    if parts == [] then []
    else (if Strip(parts[0]) == [] then [] else [Strip(parts[0])]) + NonEmptyStripped(parts[1..])
  }

  function Clauses(s: string): seq<string> { NonEmptyStripped(CutAt(s, ';')) }

  /** White space right after a full stop, exclamation or question mark. */
  predicate SentenceBoundary(s: string, i: int) {
    0 < i < |s| && IsSpace(s[i]) && s[i - 1] in ".!?"
  }

  function SentenceEnd(s: string, i: nat): (k: nat)
    requires 1 <= i
    ensures k == |s| || (i <= k < |s| && SentenceBoundary(s, k))
    ensures forall j :: i <= j < k ==> !SentenceBoundary(s, j)
    decreases |s| - i
  {
    if i >= |s| then |s|
    else if SentenceBoundary(s, i) then i
    else SentenceEnd(s, i + 1)
  }

  function Sentences(s: string): seq<string>
    decreases |s|
  {
    var k := SentenceEnd(s, 1);
    if k >= |s| then [s] else [s[..k]] + Sentences(StripLeft(s[k..]))
  }

  function SentenceClauses(parts: seq<string>): seq<string> {
    if parts == [] then [] else Clauses(parts[0]) + SentenceClauses(parts[1..])
  }

  function DigitRun(s: string): (k: nat)
    ensures k <= |s|
  {
    if s != [] && Numerals.IsDigit(s[0]) then 1 + DigitRun(s[1..]) else 0
  }

  /** List items are told by the first characters of the stripped line. */
  predicate IsBullet(line: string) { 1 < |line| && line[0] in "-*" && IsSpace(line[1]) }

  predicate IsOrdered(line: string) {
    var d := DigitRun(line);
    0 < d && d + 1 < |line| && line[d] == '.' && IsSpace(line[d + 1])
  }

  function UnitsOfLine(raw: string): seq<string> {
    var line := Strip(raw);
    if line == [] then []
    else if line[0] == '#' then Clauses(line)
    else if IsBullet(line) then Clauses(Strip(line[1..]))
    else if IsOrdered(line) then Clauses(Strip(line[DigitRun(line) + 1..]))
    else SentenceClauses(Sentences(line))
  }

  function UnitsOfLines(lines: seq<string>): seq<string> {
    if lines == [] then [] else UnitsOfLine(lines[0]) + UnitsOfLines(lines[1..])
  }

  function Units(text: string): seq<string> { UnitsOfLines(SplitLines(text)) }

  // ----- units distribute over lines -----

  lemma {:induction false} FirstBreakOf(a: string, b: string)
    ensures FirstBreak(a + ['\n'] + b) == FirstBreak(a)
  {
    var t := a + ['\n'] + b;
    if a != [] && !IsBreak(a[0]) {
      assert t[1..] == a[1..] + ['\n'] + b;
      FirstBreakOf(a[1..], b);
    }
  }

  /** What follows the first line of a text. */
  function AfterFirstLine(text: string): string {
    var k := FirstBreak(text);
    if k == |text| then [] else text[k + BreakLength(text, k)..]
  }

  lemma UnitsStep(text: string)
    ensures Units(text) == UnitsOfLine(text[..FirstBreak(text)]) + Units(AfterFirstLine(text))
  {
    var k := FirstBreak(text);
    var line := text[..k];
    if text == [] {
      assert UnitsOfLine([]) == [];
    } else {
      var rest := SplitLines(AfterFirstLine(text));
      assert SplitLines([]) == [];
      assert k == |text| ==> line == text;
      assert SplitLines(text) == [line] + rest;
      assert ([line] + rest)[1..] == rest;
    }
  }

  /** Where the first line of the joined text ends, and what is left of it. */
  lemma JoinStep(a: string, b: string)
    ensures var t, k := a + ['\n'] + b, FirstBreak(a); var rest := AfterFirstLine(a);
      && FirstBreak(t) == k && t[..k] == a[..k]
      && ((rest == [] && AfterFirstLine(t) == b) || (|rest| < |a| && AfterFirstLine(t) == rest + ['\n'] + b))
  {
    var t, k := a + ['\n'] + b, FirstBreak(a);
    FirstBreakOf(a, b);
    SameStart(a, b, k);
    if k == |a| || (a[k] == '\r' && k + 1 == |a|) {
      JoinAtEnd(a, b, t, k);
    } else {
      JoinInside(a, b, t, k);
    }
  }

  lemma JoinAtEnd(a: string, b: string, t: string, k: nat)
    requires t == a + ['\n'] + b && k == FirstBreak(a) == FirstBreak(t)
    requires k == |a| || (k + 1 == |a| && a[k] == '\r')
    ensures AfterFirstLine(a) == [] && AfterFirstLine(t) == b
  {
    BreakAtEnd(a, b, k);
  }

  lemma JoinInside(a: string, b: string, t: string, k: nat)
    requires t == a + ['\n'] + b && k == FirstBreak(a) == FirstBreak(t)
    requires k < |a| && !(a[k] == '\r' && k + 1 == |a|)
    ensures |AfterFirstLine(a)| < |a| && AfterFirstLine(t) == AfterFirstLine(a) + ['\n'] + b
  {
    BreakInside(a, b, k);
  }

  lemma SameStart(a: string, b: string, k: nat)
    requires k <= |a|
    ensures (a + ['\n'] + b)[..k] == a[..k]
  {
  }

  lemma BreakAtEnd(a: string, b: string, k: nat)
    requires k == |a| || (k + 1 == |a| && a[k] == '\r')
    ensures var t := a + ['\n'] + b; k + BreakLength(t, k) == |a| + 1 && t[|a| + 1..] == b
  {
    var t := a + ['\n'] + b;
    assert t[|a|] == '\n' && (k < |a| ==> t[k] == a[k]);
  }

  lemma BreakInside(a: string, b: string, k: nat)
    requires k < |a| && !(a[k] == '\r' && k + 1 == |a|)
    ensures var t, n := a + ['\n'] + b, BreakLength(a, k);
      BreakLength(t, k) == n && t[k + n..] == a[k + n..] + ['\n'] + b
  {
    var t := a + ['\n'] + b;
    assert t[k] == a[k] && (k + 1 < |a| ==> t[k + 1] == a[k + 1]);
  }

  /** Joining two texts with a newline joins their units, blank ends, trailing newlines and a
      carriage return before the newline included. */
  lemma {:induction false} UnitsDistribute(a: string, b: string)
    ensures Units(a + ['\n'] + b) == Units(a) + Units(b)
    decreases |a|
  {
    JoinStep(a, b);
    UnitsStep(a + ['\n'] + b);
    UnitsStep(a);
    var line, rest := UnitsOfLine(a[..FirstBreak(a)]), AfterFirstLine(a);
    if AfterFirstLine(a + ['\n'] + b) == b && rest == [] {
      NoUnits();
      assert line + [] == line;
    } else {
      UnitsDistribute(rest, b);
      Associate(line, Units(rest), Units(b));
    }
  }

  lemma NoUnits()
    ensures Units([]) == []
  {
  }

  lemma Associate<T>(x: seq<T>, y: seq<T>, z: seq<T>)
    ensures x + (y + z) == (x + y) + z
  {
  }

  // ----- nothing is lost, and every cut is made -----

  predicate Inked(c: char) { !IsSpace(c) && c != ';' }

  /** The visible text of a string: everything but white space and semicolons. */
  function Ink(s: string): string {
    if s == [] then [] else (if Inked(s[0]) then [s[0]] else []) + Ink(s[1..])
  }

  function InkOfAll(parts: seq<string>): string {
    if parts == [] then [] else Ink(parts[0]) + InkOfAll(parts[1..])
  }

  lemma {:induction false} InkAppend(a: string, b: string)
    ensures Ink(a + b) == Ink(a) + Ink(b)
  {
    if a == [] {
      assert a + b == b;
    } else {
      InkAppend(a[1..], b);
      InkOfFirst(a, b);
    }
  }

  lemma InkOfFirst(a: string, b: string)
    requires a != [] && Ink(a[1..] + b) == Ink(a[1..]) + Ink(b)
    ensures Ink(a + b) == Ink(a) + Ink(b)
  {
    assert (a + b)[0] == a[0] && (a + b)[1..] == a[1..] + b;
    Associate(if Inked(a[0]) then [a[0]] else [], Ink(a[1..]), Ink(b));
  }

  lemma {:induction false} InkOfStripLeft(s: string)
    ensures Ink(StripLeft(s)) == Ink(s)
  {
    if s != [] && IsSpace(s[0]) {
      InkOfStripLeft(s[1..]);
    }
  }

  lemma {:induction false} InkOfStrip(s: string)
    ensures Ink(Strip(s)) == Ink(s)
    decreases |s|
  {
    if s != [] && IsSpace(s[|s| - 1]) {
      var init := s[..|s| - 1];
      InkOfStrip(init);
      assert s == init + [s[|s| - 1]];
      InkAppend(init, [s[|s| - 1]]);
      assert Ink([s[|s| - 1]]) == Ink([s[|s| - 1]][1..]);
    } else {
      InkOfStripLeft(s);
    }
  }

  lemma {:induction false} InkOfCut(s: string)
    ensures CutAt(s, ';') != [] && InkOfAll(CutAt(s, ';')) == Ink(s)
  {
    if s != [] {
      InkOfCut(s[1..]);
      var rest := CutAt(s[1..], ';');
      if s[0] == ';' {
        assert ([[]] + rest)[1..] == rest;
      } else {
        var head := [s[0]] + rest[0];
        assert head[1..] == rest[0];
        assert ([head] + rest[1..])[1..] == rest[1..];
        assert InkOfAll(CutAt(s, ';')) == Ink(head) + InkOfAll(rest[1..]);
      }
    }
  }

  lemma {:induction false} InkOfParts(parts: seq<string>)
    ensures InkOfAll(NonEmptyStripped(parts)) == InkOfAll(parts)
  {
    if parts != [] {
      InkOfStrip(parts[0]);
      InkOfParts(parts[1..]);
      var p, rest := Strip(parts[0]), NonEmptyStripped(parts[1..]);
      assert ([p] + rest)[1..] == rest && [] + rest == rest;
    }
  }

  lemma InkOfClauses(s: string)
    ensures InkOfAll(Clauses(s)) == Ink(s)
  {
    InkOfCut(s);
    InkOfParts(CutAt(s, ';'));
  }

  lemma {:induction false} InkOfAllAppend(a: seq<string>, b: seq<string>)
    ensures InkOfAll(a + b) == InkOfAll(a) + InkOfAll(b)
  {
    if a == [] {
      assert a + b == b;
    } else {
      InkOfAllAppend(a[1..], b);
      JoinedParts(a, b);
      Associate(Ink(a[0]), InkOfAll(a[1..]), InkOfAll(b));
    }
  }

  lemma JoinedParts<T>(a: seq<T>, b: seq<T>)
    requires a != []
    ensures a + b != [] && (a + b)[0] == a[0] && (a + b)[1..] == a[1..] + b
  {
  }

  lemma {:induction false} InkOfSentences(s: string)
    ensures InkOfAll(Sentences(s)) == Ink(s)
    decreases |s|
  {
    var k := SentenceEnd(s, 1);
    if k < |s| {
      InkOfStripLeft(s[k..]);
      InkOfSentences(StripLeft(s[k..]));
      InkAppend(s[..k], s[k..]);
      assert s == s[..k] + s[k..];
      assert ([s[..k]] + Sentences(StripLeft(s[k..])))[1..] == Sentences(StripLeft(s[k..]));
    } else {
      assert [s][1..] == [];
    }
  }

  lemma {:induction false} InkOfSentenceClauses(parts: seq<string>)
    ensures InkOfAll(SentenceClauses(parts)) == InkOfAll(parts)
  {
    if parts != [] {
      InkOfClauses(parts[0]);
      InkOfSentenceClauses(parts[1..]);
      InkOfAllAppend(Clauses(parts[0]), SentenceClauses(parts[1..]));
    }
  }

  /** What a line keeps: all of it, or what follows its bullet or ordinal. */
  function Content(raw: string): string {
    var line := Strip(raw);
    if line == [] || line[0] == '#' then line
    else if IsBullet(line) then line[1..]
    else if IsOrdered(line) then line[DigitRun(line) + 1..]
    else line
  }

  /** The units of a line carry its visible text, in order and complete, list marker and
      semicolons apart: no part of a line escapes the scan. */
  lemma LineIsFullyScanned(raw: string)
    ensures InkOfAll(UnitsOfLine(raw)) == Ink(Content(raw))
  {
    var line := Strip(raw);
    if line == [] {
    } else if line[0] == '#' {
      InkOfClauses(line);
    } else if IsBullet(line) {
      InkOfItem(line[1..]);
    } else if IsOrdered(line) {
      InkOfItem(line[DigitRun(line) + 1..]);
    } else {
      InkOfPlainLine(line);
    }
  }

  lemma InkOfItem(s: string)
    ensures InkOfAll(Clauses(Strip(s))) == Ink(s)
  {
    InkOfStrip(s);
    InkOfClauses(Strip(s));
  }

  lemma InkOfPlainLine(line: string)
    ensures InkOfAll(SentenceClauses(Sentences(line))) == Ink(line)
  {
    InkOfSentences(line);
    InkOfSentenceClauses(Sentences(line));
  }

  function Contents(lines: seq<string>): string {
    if lines == [] then [] else Ink(Content(lines[0])) + Contents(lines[1..])
  }

  /** And so for a whole text, line by line. */
  lemma {:induction false} TextIsFullyScanned(lines: seq<string>)
    ensures InkOfAll(UnitsOfLines(lines)) == Contents(lines)
  {
    if lines != [] {
      LineIsFullyScanned(lines[0]);
      TextIsFullyScanned(lines[1..]);
      InkOfAllAppend(UnitsOfLine(lines[0]), UnitsOfLines(lines[1..]));
    }
  }

  ghost predicate NoSemicolon(s: string) { forall i :: 0 <= i < |s| ==> s[i] != ';' }

  lemma {:induction false} StripIsPart(s: string)
    ensures exists i, j :: 0 <= i <= j <= |s| && Strip(s) == s[i..j]
    decreases |s|
  {
    if s != [] && IsSpace(s[|s| - 1]) {
      StripIsPart(s[..|s| - 1]);
      var i, j :| 0 <= i <= j <= |s| - 1 && Strip(s[..|s| - 1]) == s[..|s| - 1][i..j];
      assert s[..|s| - 1][i..j] == s[i..j];
    } else {
      var i := StripLeftIsPart(s);
      assert s[i..] == s[i..|s|];
    }
  }

  lemma {:induction false} StripLeftIsPart(s: string) returns (i: nat)
    ensures i <= |s| && StripLeft(s) == s[i..]
  {
    if s != [] && IsSpace(s[0]) {
      var j := StripLeftIsPart(s[1..]);
      i := j + 1;
    } else {
      i := 0;
    }
  }

  lemma {:induction false} CutLeavesNoSemicolon(s: string)
    ensures CutAt(s, ';') != [] && forall p :: p in CutAt(s, ';') ==> NoSemicolon(p)
  {
    if s != [] {
      CutLeavesNoSemicolon(s[1..]);
      var rest := CutAt(s[1..], ';');
      assert rest[0] in rest;
      assert forall p :: p in rest[1..] ==> p in rest;
    }
  }

  ghost predicate Clean(unit: string) {
    unit != [] && NoSemicolon(unit) && !IsSpace(unit[0]) && !IsSpace(unit[|unit| - 1])
  }

  lemma {:induction false} StripLeftStarts(s: string)
    ensures StripLeft(s) != [] ==> !IsSpace(StripLeft(s)[0]) && StripLeft(s)[|StripLeft(s)| - 1] == s[|s| - 1]
  {
    if s != [] && IsSpace(s[0]) {
      StripLeftStarts(s[1..]);
    }
  }

  lemma {:induction false} StripHasInkAtBothEnds(s: string)
    ensures Strip(s) != [] ==> !IsSpace(Strip(s)[0]) && !IsSpace(Strip(s)[|Strip(s)| - 1])
    decreases |s|
  {
    if s != [] && IsSpace(s[|s| - 1]) {
      StripHasInkAtBothEnds(s[..|s| - 1]);
    } else {
      StripLeftStarts(s);
    }
  }

  lemma {:induction false} CleanParts(parts: seq<string>)
    requires forall p :: p in parts ==> NoSemicolon(p)
    ensures forall u :: u in NonEmptyStripped(parts) ==> Clean(u)
  {
    if parts != [] {
      assert parts[0] in parts && forall p :: p in parts[1..] ==> p in parts;
      CleanParts(parts[1..]);
      StripIsPart(parts[0]);
      StripHasInkAtBothEnds(parts[0]);
    }
  }

  lemma ClausesAreClean(s: string)
    ensures forall u :: u in Clauses(s) ==> Clean(u)
  {
    CutLeavesNoSemicolon(s);
    CleanParts(CutAt(s, ';'));
  }

  lemma {:induction false} SentenceClausesAreClean(parts: seq<string>)
    ensures forall u :: u in SentenceClauses(parts) ==> Clean(u)
  {
    if parts != [] {
      ClausesAreClean(parts[0]);
      SentenceClausesAreClean(parts[1..]);
    }
  }

  lemma UnitsOfLineAreClean(raw: string)
    ensures forall u :: u in UnitsOfLine(raw) ==> Clean(u)
  {
    var line := Strip(raw);
    ClausesAreClean(line);
    if line != [] {
      ClausesAreClean(Strip(line[1..]));
      if IsOrdered(line) { ClausesAreClean(Strip(line[DigitRun(line) + 1..])); }
    }
    SentenceClausesAreClean(Sentences(line));
  }

  /** No unit is empty, has outer white space or spans a semicolon, so clauses are judged one by one. */
  lemma {:induction false} UnitsAreClauses(lines: seq<string>)
    ensures forall u :: u in UnitsOfLines(lines) ==> Clean(u)
  {
    if lines != [] {
      UnitsOfLineAreClean(lines[0]);
      UnitsAreClauses(lines[1..]);
    }
  }

  lemma InkAroundLineEnd(text: string, k: nat, n: nat)
    requires k < |text| && IsBreak(text[k]) && n == BreakLength(text, k)
    ensures Ink(text) == Ink(text[..k]) + Ink(text[k + n..])
  {
    var rest := text[k + n..];
    assert text == text[..k] + text[k..];
    InkAppend(text[..k], text[k..]);
    assert text[k..][1..] == text[k + 1..];
    assert Ink(text[k..]) == Ink(text[k + 1..]);
    if n == 2 {
      assert text[k + 1..][1..] == rest && IsSpace(text[k + 1]);
      assert Ink(text[k + 1..]) == Ink(rest);
    }
  }

  /** Cutting into lines drops line ends only. */
  lemma {:induction false} LinesLoseNothing(text: string)
    ensures InkOfAll(SplitLines(text)) == Ink(text)
    decreases |text|
  {
    var k := FirstBreak(text);
    if text != [] {
      if k == |text| {
        assert [text][1..] == [];
      } else {
        var n := BreakLength(text, k);
        InkAroundLineEnd(text, k, n);
        LinesLoseNothing(text[k + n..]);
        assert ([text[..k]] + SplitLines(text[k + n..]))[1..] == SplitLines(text[k + n..]);
      }
    }
  }

  ghost predicate NoBreak(s: string) { forall i :: 0 <= i < |s| ==> !IsBreak(s[i]) }

  /** And every line end is a cut. */
  lemma {:induction false} LinesHoldNoLineEnd(text: string)
    ensures forall line :: line in SplitLines(text) ==> NoBreak(line)
    decreases |text|
  {
    var k := FirstBreak(text);
    if k < |text| {
      LinesHoldNoLineEnd(text[k + BreakLength(text, k)..]);
      assert NoBreak(text[..k]);
    }
  }

  /** No sentence holds a sentence boundary. */
  lemma {:induction false} SentencesAreWhole(s: string)
    ensures forall p, i :: p in Sentences(s) ==> !SentenceBoundary(p, i)
    decreases |s|
  {
    var k := SentenceEnd(s, 1);
    if k < |s| {
      var first, rest := s[..k], Sentences(StripLeft(s[k..]));
      SentencesAreWhole(StripLeft(s[k..]));
      forall i | SentenceBoundary(first, i) ensures SentenceBoundary(s, i) {
      }
    }
  }
}
