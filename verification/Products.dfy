/** Products and quotients of reals by name, with the few laws the statistics need. Proofs treat
    `Times` like any other function and unfold it only here. */
module Products {

  function Times(k: real, x: real): real { k * x }

  lemma TimesZero(k: real)
    ensures Times(k, 0.0) == 0.0
  {
  }

  lemma Distribute(k: real, x: real, y: real)
    ensures Times(k, x + y) == Times(k, x) + Times(k, y)
  {
  }

  lemma TimesPositive(a: real, b: real)
    requires a > 0.0 && b > 0.0
    ensures Times(a, b) > 0.0
  {
  }

  lemma TimesSign(a: real, b: real)
    requires a > 0.0 && b >= 0.0
    ensures Times(a, b) >= 0.0 && (Times(a, b) == 0.0 <==> b == 0.0) && Times(b, a) == Times(a, b)
  {
    if b > 0.0 { TimesPositive(a, b); } else { TimesZero(a); }
  }

  lemma QuotientTimes(x: real, y: real)
    requires y != 0.0
    ensures Times(x / y, y) == x
  {
  }

  lemma TimesStrict(a: real, b: real, c: real)
    requires a > b && c > 0.0
    ensures Times(a, c) > Times(b, c)
  {
  }

  lemma QuotientAtLeast(x: real, total: real, top: real)
    requires total > 0.0 && Times(x, total) <= top
    ensures x <= top / total
  {
  }

  lemma QuotientAtMostOne(top: real, total: real)
    requires total > 0.0 && top <= total
    ensures top / total <= 1.0
  {
  }

  /** k / n <= top / total, from the cross products. */
  lemma CrossProducts(k: real, n: real, top: real, total: real)
    requires n > 0.0 && total > 0.0 && Times(k, total) <= Times(top, n)
    ensures k / n <= top / total
  {
    QuotientTimes(k, n);
    var e := k / n;
    assert Times(Times(e, total), n) == Times(Times(e, n), total);
    if Times(e, total) > top { TimesStrict(Times(e, total), top, n); }
    QuotientAtLeast(e, total, top);
  }
}
