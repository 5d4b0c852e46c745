/** Counters of the loops as numbers of positions: what a running total counts, said at once. */
module Counting {

  ghost function Positions<T>(s: seq<T>, p: T -> bool): set<int> {
    set i | 0 <= i < |s| && p(s[i])
  }

  lemma PositionsSnoc<T>(s: seq<T>, x: T, p: T -> bool)
    ensures |Positions(s + [x], p)| == |Positions(s, p)| + (if p(x) then 1 else 0)
  {
    var longer := s + [x];
    assert forall i :: 0 <= i < |s| ==> longer[i] == s[i];
    assert Positions(longer, p) == Positions(s, p) + (if p(longer[|s|]) then {|s|} else {});
  }

  lemma {:induction false} PositionsCons<T>(x: T, s: seq<T>, p: T -> bool)
    ensures |Positions([x] + s, p)| == (if p(x) then 1 else 0) + |Positions(s, p)|
  {
    if s == [] {
      assert [x] + s == [] + [x];
      PositionsSnoc([], x, p);
    } else {
      var init, last := s[..|s| - 1], s[|s| - 1];
      assert s == init + [last] && [x] + s == ([x] + init) + [last];
      PositionsCons(x, init, p);
      PositionsSnoc(init, last, p);
      PositionsSnoc([x] + init, last, p);
    }
  }

  /** Some position exists iff there is one to name. */
  lemma SomePosition<T>(s: seq<T>, p: T -> bool)
    ensures |Positions(s, p)| > 0 <==> exists i :: 0 <= i < |s| && p(s[i])
  {
    if i :| 0 <= i < |s| && p(s[i]) {
      assert i in Positions(s, p);
    }
    if Positions(s, p) != {} {
      var i :| i in Positions(s, p);
      assert p(s[i]);
    }
  }

  // ----- positions of several lists, one for each key -----

  ghost function Tagged<K, T>(k: K, s: set<T>): set<(K, T)> { set i | i in s :: (k, i) }

  lemma {:induction false} TaggedCount<K, T>(k: K, s: set<T>)
    ensures |Tagged(k, s)| == |s|
    decreases s
  {
    if s != {} {
      var j :| j in s;
      TaggedCount(k, s - {j});
      assert Tagged(k, s) == Tagged(k, s - {j}) + {(k, j)};
    } else {
      assert Tagged(k, s) == {};
    }
  }

  /** Every key with every entry of its set. */
  ghost function Pairs<K(!new), T>(keys: set<K>, at: K -> set<T>): set<(K, T)> {
    set k, i | k in keys && i in at(k) :: (k, i)
  }

  lemma PairsTake<K(!new), T>(keys: set<K>, k: K, at: K -> set<T>)
    requires k in keys
    ensures |Pairs(keys, at)| == |at(k)| + |Pairs(keys - {k}, at)|
  {
    var mine, rest := Tagged(k, at(k)), Pairs(keys - {k}, at);
    TaggedCount(k, at(k));
    forall x: (K, T) ensures x in Pairs(keys, at) <==> x in mine + rest {
      assert x == (x.0, x.1);
    }
    assert Pairs(keys, at) == mine + rest;
    forall x: (K, T) | x in mine ensures x !in rest {
    }
  }
}
