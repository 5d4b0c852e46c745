/** Decimal numerals: the zero-padded request ids (`f"segment-{n:07d}"`) and the shortlex order
    of seed labels (`key=lambda item: (len(item[0]), item[0])` in generate_results_tables.py). */
module Numerals {
  import opened Sorting

  predicate IsDigit(c: char) { '0' <= c <= '9' }

  predicate AllDigits(s: string) { forall i :: 0 <= i < |s| ==> IsDigit(s[i]) }

  function DigitValue(c: char): nat
    requires IsDigit(c)
  {
    c as int - '0' as int
  }

  function DigitChar(d: nat): char
    requires d < 10
  {
    ('0' as int + d) as char
  }

  function Value(s: string): nat
    requires AllDigits(s)
  {
    if s == [] then 0 else 10 * Value(s[..|s| - 1]) + DigitValue(s[|s| - 1])
  }

  function Digits(n: nat): (s: string)
    ensures AllDigits(s) && s != [] && Value(s) == n
    ensures |s| > 1 ==> s[0] != '0'
  {
    if n < 10 then [DigitChar(n)] else Digits(n / 10) + [DigitChar(n % 10)]
  }

  function Padded(n: nat, width: nat): string {
    var s := Digits(n);
    seq(if |s| < width then width - |s| else 0, i => '0') + s
  }

  lemma {:induction false} LeadingZeros(k: nat, s: string)
    requires AllDigits(s)
    ensures AllDigits(seq(k, i => '0') + s) && Value(seq(k, i => '0') + s) == Value(s)
    decreases |s|
  {
    var zeros := seq(k, i => '0');
    if s == [] {
      assert zeros + s == zeros;
      if k > 0 {
        assert zeros[..k - 1] == seq(k - 1, i => '0') + [];
        ZerosOnly(k);
      }
    } else {
      LeadingZeros(k, s[..|s| - 1]);
      assert (zeros + s)[..k + |s| - 1] == zeros + s[..|s| - 1];
    }
  }

  lemma {:induction false} ZerosOnly(k: nat)
    ensures Value(seq(k, i => '0')) == 0
  {
    if k > 0 {
      ZerosOnly(k - 1);
      assert seq(k, i => '0')[..k - 1] == seq(k - 1, i => '0');
    }
  }

  /** Padding loses nothing: the ids of two requests differ however many there are. */
  lemma PaddedInjective(m: nat, n: nat, width: nat)
    ensures AllDigits(Padded(m, width)) && Value(Padded(m, width)) == m
    ensures Padded(m, width) == Padded(n, width) ==> m == n
  {
    var a, b := Digits(m), Digits(n);
    LeadingZeros(if |a| < width then width - |a| else 0, a);
    LeadingZeros(if |b| < width then width - |b| else 0, b);
  }

  /** A padded id has the width asked for, or more if the number needs it, and then no zero in front. */
  lemma PaddedWidth(n: nat, width: nat)
    ensures |Padded(n, width)| >= width && |Padded(n, width)| >= 1
    ensures |Padded(n, width)| > width && |Padded(n, width)| > 1 ==> Padded(n, width)[0] != '0'
  {
  }

  // ----- shortlex against numeric order -----

  predicate Shortlex(a: string, b: string) {
    |a| < |b| || (|a| == |b| && StringLeq(a, b))
  }

  /** A label as `str(int)` writes it. */
  predicate Canonical(s: string) {
    s != [] && AllDigits(s) && (|s| > 1 ==> s[0] != '0')
  }

  function Power10(k: nat): nat { if k == 0 then 1 else 10 * Power10(k - 1) }

  lemma TenTimes(d: nat, p: nat, x: nat, e: nat)
    ensures 10 * (d * p + x) + e == d * (10 * p) + (10 * x + e)
  {
  }

  lemma {:induction false} ValueHead(s: string)
    requires AllDigits(s) && s != []
    ensures Value(s) == DigitValue(s[0]) * Power10(|s| - 1) + Value(s[1..])
    decreases |s|
  {
    if |s| > 1 {
      var init, last := s[..|s| - 1], s[|s| - 1];
      ValueHead(init);
      var tail := s[1..];
      assert init[1..] == tail[..|tail| - 1] && init[0] == s[0] && tail[|tail| - 1] == last;
      TenTimes(DigitValue(s[0]), Power10(|init| - 1), Value(init[1..]), DigitValue(last));
    }
  }

  lemma {:induction false} ValueBelow(s: string)
    requires AllDigits(s)
    ensures Value(s) < Power10(|s|)
  {
    if s != [] {
      ValueBelow(s[..|s| - 1]);
    }
  }

  lemma {:induction false} SameLengthOrder(a: string, b: string)
    requires AllDigits(a) && AllDigits(b) && |a| == |b|
    ensures StringLeq(a, b) <==> Value(a) <= Value(b)
  {
    if a != [] {
      ValueHead(a);
      ValueHead(b);
      ValueBelow(a[1..]);
      ValueBelow(b[1..]);
      SameLengthOrder(a[1..], b[1..]);
      LeadingDigitDecides(DigitValue(a[0]), DigitValue(b[0]), Power10(|a| - 1), Value(a[1..]), Value(b[1..]));
    }
  }

  lemma LeadingDigitDecides(d: nat, e: nat, p: nat, x: nat, y: nat)
    requires x < p && y < p
    ensures d < e ==> d * p + x < e * p + y
    ensures e < d ==> e * p + y < d * p + x
  {
    if d < e { assert (d + 1) * p <= e * p; }
    if e < d { assert (e + 1) * p <= d * p; }
  }

  lemma {:induction false} PowersGrow(j: nat, k: nat)
    requires j <= k
    ensures Power10(j) <= Power10(k)
  {
    if j < k {
      PowersGrow(j, k - 1);
    }
  }

  lemma {:induction false} ValueAtLeast(s: string)
    requires AllDigits(s) && s != [] && s[0] != '0'
    ensures Value(s) >= Power10(|s| - 1)
  {
    if |s| > 1 {
      ValueAtLeast(s[..|s| - 1]);
    }
  }

  lemma LongerIsLarger(a: string, b: string)
    requires Canonical(a) && Canonical(b) && |a| < |b|
    ensures Value(a) < Value(b)
  {
    ValueBelow(a);
    PowersGrow(|a|, |b| - 1);
    ValueAtLeast(b);
  }

  /** On canonical labels the shortlex order is the numeric order. */
  lemma ShortlexIsNumeric(a: string, b: string)
    requires Canonical(a) && Canonical(b)
    ensures Shortlex(a, b) <==> Value(a) <= Value(b)
  {
    if |a| == |b| {
      SameLengthOrder(a, b);
    } else if |a| < |b| {
      LongerIsLarger(a, b);
    } else {
      LongerIsLarger(b, a);
    }
  }

  /** The canonical labels are what `str(int)` writes. */
  lemma CanonicalMeans(s: string)
    ensures Canonical(s) <==> AllDigits(s) && s == Digits(Value(s))
  {
    if Canonical(s) {
      var d := Digits(Value(s));
      ShortlexIsNumeric(s, d);
      ShortlexIsNumeric(d, s);
      StringLeqAntisymmetric(s, d);
    }
  }

  /** A shorter label that is larger: what shortlex puts first and a reader of numbers last. */
  ghost predicate Misplaced(a: string, b: string)
    requires AllDigits(a) && AllDigits(b)
  {
    |a| < |b| && Value(b) < Value(a)
  }

  ghost predicate Labels(labels: seq<string>) {
    forall i :: 0 <= i < |labels| ==> AllDigits(labels[i])
  }

  ghost predicate NumericOrder(s: seq<string>)
    requires Labels(s)
  {
    forall i, j :: 0 <= i < j < |s| ==> Value(s[i]) <= Value(s[j])
  }

  /** For any digit labels the two orders agree on a pair iff neither is misplaced before the
      other; equal widths, zero-padded or not, always agree. */
  lemma ShortlexRespectsValueIff(a: string, b: string)
    requires AllDigits(a) && AllDigits(b)
    ensures (Shortlex(a, b) ==> Value(a) <= Value(b)) <==> !Misplaced(a, b)
  {
    if |a| == |b| { SameLengthOrder(a, b); }
  }

  lemma SortedByShortlex(labels: seq<string>)
    ensures var s := Sort(labels, Shortlex); multiset(s) == multiset(labels)
    ensures forall x :: x in labels <==> x in Sort(labels, Shortlex)
    ensures Sorted(Sort(labels, Shortlex), Shortlex)
  {
    ShortlexOrder();
    SortSorted(labels, Shortlex);
    SortElements(labels, Shortlex);
    var s := Sort(labels, Shortlex);
    forall x ensures x in labels <==> x in s {
      assert x in multiset(labels) <==> x in multiset(s);
    }
  }

  /** The cell lists seed labels in numeric order, whatever the order of the dictionary, exactly
      when no label is longer than another of larger value, that is, padded too far. */
  lemma SeedLabelsInNumericOrderIff(labels: seq<string>)
    requires Labels(labels)
    ensures var s := Sort(labels, Shortlex); multiset(s) == multiset(labels) && Labels(s)
    ensures NumericOrder(Sort(labels, Shortlex))
      <==> (forall a, b :: a in labels && b in labels ==> !Misplaced(a, b))
  {
    var s := Sort(labels, Shortlex);
    SortedByShortlex(labels);
    forall i | 0 <= i < |s| ensures AllDigits(s[i]) { assert s[i] in labels; }
    if forall a, b :: a in labels && b in labels ==> !Misplaced(a, b) {
      forall i, j | 0 <= i < j < |s| ensures Value(s[i]) <= Value(s[j]) {
        assert s[i] in labels && s[j] in labels && Shortlex(s[i], s[j]);
        ShortlexRespectsValueIff(s[i], s[j]);
      }
    }
    if NumericOrder(s) {
      forall a, b | a in labels && b in labels ensures !Misplaced(a, b) {
        ShorterComesFirst(s, a, b);
      }
    }
  }

  lemma ShorterComesFirst(s: seq<string>, a: string, b: string)
    requires Labels(s) && NumericOrder(s) && Sorted(s, Shortlex) && a in s && b in s
    ensures !Misplaced(a, b)
  {
    var i :| 0 <= i < |s| && s[i] == a;
    var j :| 0 <= j < |s| && s[j] == b;
    if j < i { assert Shortlex(b, a); }
  }

  /** In particular labels as `str(int)` writes them are listed in numeric order. */
  lemma SeedLabelsInNumericOrder(labels: seq<string>)
    requires forall i :: 0 <= i < |labels| ==> Canonical(labels[i])
    ensures var s := Sort(labels, Shortlex);
      && multiset(s) == multiset(labels)
      && (forall i :: 0 <= i < |s| ==> Canonical(s[i]))
      && (forall i, j :: 0 <= i < j < |s| ==> Value(s[i]) <= Value(s[j]))
  {
    var s := Sort(labels, Shortlex);
    SortedByShortlex(labels);
    forall i | 0 <= i < |s| ensures Canonical(s[i]) {
      assert s[i] in labels;
    }
    forall a, b | a in labels && b in labels ensures !Misplaced(a, b) {
      if |a| < |b| { LongerIsLarger(a, b); }
    }
    SeedLabelsInNumericOrderIff(labels);
  }

  lemma ShortlexOrder()
    ensures TotalOrder(Shortlex)
  {
    StringOrder();
    forall x: string, y: string, z: string | Shortlex(x, y) && Shortlex(y, z) ensures Shortlex(x, z) {
      if |x| == |y| && |y| == |z| { StringLeqTransitive(x, y, z); }
    }
    forall x: string, y: string | Shortlex(x, y) && Shortlex(y, x) ensures x == y {
      StringLeqAntisymmetric(x, y);
    }
    forall x: string, y: string ensures Shortlex(x, y) || Shortlex(y, x) {
      StringLeqTotal(x, y);
    }
  }

  /** With leading zeros the two orders part: any number is listed before every smaller one
      that is padded to more places. */
  lemma PaddedLabelsAreMisplaced(n: nat, width: nat, m: nat)
    requires |Digits(m)| < width && n < m
    ensures Shortlex(Digits(m), Padded(n, width)) && !Shortlex(Padded(n, width), Digits(m))
    ensures Value(Padded(n, width)) < Value(Digits(m))
  {
    PaddedInjective(n, n, width);
  }
}
