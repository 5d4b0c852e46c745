/** Exact sums over lists, standing for numpy's `sum` and Python's `sum`. */
module Sums {

  function SumBy<T>(s: seq<T>, f: T -> real): real {
    if s == [] then 0.0 else f(s[0]) + SumBy(s[1..], f)
  }

  function Id(x: real): real { x }

  function Total(s: seq<real>): real { SumBy(s, Id) }

  lemma {:induction false} SumByAppend<T>(a: seq<T>, b: seq<T>, f: T -> real)
    ensures SumBy(a + b, f) == SumBy(a, f) + SumBy(b, f)
  {
    if a == [] {
      assert a + b == b;
    } else {
      assert (a + b)[0] == a[0] && (a + b)[1..] == a[1..] + b;
      SumByAppend(a[1..], b, f);
    }
  }

  lemma SumByFirst<T>(x: T, s: seq<T>, f: T -> real)
    ensures SumBy([x] + s, f) == f(x) + SumBy(s, f)
  {
    assert ([x] + s)[1..] == s;
  }

  lemma SumByLast<T>(s: seq<T>, x: T, f: T -> real)
    ensures SumBy(s + [x], f) == SumBy(s, f) + f(x)
  {
    SumByAppend(s, [x], f);
    SumByFirst(x, [], f);
    assert [x] + [] == [x];
  }

  lemma AroundElement<T>(s: seq<T>, k: nat)
    requires k < |s|
    ensures s == s[..k] + ([s[k]] + s[k + 1..])
  {
  }

  lemma SumByRemove<T>(s: seq<T>, k: nat, f: T -> real)
    requires k < |s|
    ensures SumBy(s, f) == f(s[k]) + SumBy(s[..k] + s[k + 1..], f)
  {
    var left, x, right := s[..k], s[k], s[k + 1..];
    AroundElement(s, k);
    SumByMiddle(left, x, right, f);
  }

  lemma SumByMiddle<T>(left: seq<T>, x: T, right: seq<T>, f: T -> real)
    ensures SumBy(left + ([x] + right), f) == f(x) + SumBy(left + right, f)
  {
    SumByAppend(left, [x] + right, f);
    SumByFirst(x, right, f);
    SumByAppend(left, right, f);
  }

  lemma RemoveElement<T>(s: seq<T>, k: nat)
    requires k < |s|
    ensures multiset(s[..k] + s[k + 1..]) == multiset(s) - multiset{s[k]}
  {
    AroundElement(s, k);
    var left, x, right := s[..k], s[k], s[k + 1..];
    assert multiset(left + ([x] + right)) == multiset(left + right) + multiset{x};
  }

  lemma RemoveFirst<T>(s: seq<T>)
    requires s != []
    ensures multiset(s[1..]) == multiset(s) - multiset{s[0]}
  {
    assert s == [s[0]] + s[1..];
  }

  /** Taking the head of one list and its twin out of the other leaves permuted lists. */
  lemma RemoveTwin<T>(s: seq<T>, t: seq<T>) returns (k: nat)
    requires multiset(s) == multiset(t) && s != []
    ensures k < |t| && t[k] == s[0] && multiset(s[1..]) == multiset(t[..k] + t[k + 1..])
  {
    assert s[0] in multiset(t);
    k :| 0 <= k < |t| && t[k] == s[0];
    RemoveElement(t, k);
    RemoveFirst(s);
  }

  /** A sum depends on the elements and their multiplicities, not on their order. */
  lemma {:induction false} SumByPermutation<T>(s: seq<T>, t: seq<T>, f: T -> real)
    requires multiset(s) == multiset(t)
    ensures SumBy(s, f) == SumBy(t, f)
    decreases |s|
  {
    if s == [] {
      assert |multiset(t)| == 0;
    } else {
      var k := RemoveTwin(s, t);
      SumByRemove(t, k, f);
      SumByPermutation(s[1..], t[..k] + t[k + 1..], f);
    }
  }
}
