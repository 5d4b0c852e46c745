/** The behaviour partition of slots and the decile composition of analyse_offload_partition.py.

    A slot's history is its column of the step arrays: one action and one task count per step.
    Shares are exact reals; `argsort` may arrange equal rates in any way. */
module OffloadPartition {
  import opened Counting
  import opened FailureDeciles
  import opened Products

  datatype Step = Step(action: int, tasks: int)
  type History = seq<Step>

  predicate Present(s: Step) { s.tasks > 0 }
  predicate Offloads(s: Step) { Present(s) && s.action > 0 }
  predicate StaysLocal(s: Step) { Present(s) && s.action == 0 }

  function Count(h: History, p: Step -> bool): nat {
    if h == [] then 0 else (if p(h[0]) then 1 else 0) + Count(h[1..], p)
  }

  predicate Seen(h: History) { Count(h, Present) > 0 }
  predicate Never(h: History) { Count(h, Offloads) == 0 && Seen(h) }
  predicate Always(h: History) { Count(h, StaysLocal) == 0 && Seen(h) }
  predicate Mixed(h: History) { Count(h, Offloads) > 0 && Count(h, StaysLocal) > 0 && Seen(h) }

  /** A slot that was present at least once and chose a proper action then. */
  ghost predicate ActedProperly(h: History) {
    exists k :: 0 <= k < |h| && Present(h[k]) && h[k].action >= 0
  }

  lemma {:induction false} CountPositive(h: History, p: Step -> bool)
    ensures Count(h, p) > 0 <==> exists k :: 0 <= k < |h| && p(h[k])
  {
    if h != [] {
      CountPositive(h[1..], p);
      if k :| 0 <= k < |h| && p(h[k]) {
        assert k > 0 ==> p(h[1..][k - 1]);
      }
      if k :| 0 <= k < |h[1..]| && p(h[1..][k]) {
        assert p(h[k + 1]);
      }
    }
  }

  lemma {:induction false} CountIsPositions(h: History, p: Step -> bool)
    ensures Count(h, p) == |Positions(h, p)|
  {
    if h == [] {
      assert Positions(h, p) == {};
    } else {
      CountIsPositions(h[1..], p);
      PositionsCons(h[0], h[1..], p);
      assert [h[0]] + h[1..] == h;
    }
  }

  /** The classes said of the steps with tasks alone: a slot that never offloads takes an action
      of at most 0 in all of them, one that always does an action other than 0, a mixed one an
      action above 0 in some and 0 in another. */
  lemma ClassesMean(h: History)
    ensures Seen(h) <==> exists k :: 0 <= k < |h| && h[k].tasks > 0
    ensures Never(h) <==> Seen(h) && forall k :: 0 <= k < |h| && h[k].tasks > 0 ==> h[k].action <= 0
    ensures Always(h) <==> Seen(h) && forall k :: 0 <= k < |h| && h[k].tasks > 0 ==> h[k].action != 0
    ensures Mixed(h) <==>
      (exists k :: 0 <= k < |h| && h[k].tasks > 0 && h[k].action > 0)
      && (exists k :: 0 <= k < |h| && h[k].tasks > 0 && h[k].action == 0)
  {
    CountPositive(h, Present);
    CountPositive(h, Offloads);
    CountPositive(h, StaysLocal);
    assert forall k :: 0 <= k < |h| ==> (Present(h[k]) <==> h[k].tasks > 0);
    assert forall k :: 0 <= k < |h| ==> (Offloads(h[k]) <==> h[k].tasks > 0 && h[k].action > 0);
    assert forall k :: 0 <= k < |h| ==> (StaysLocal(h[k]) <==> h[k].tasks > 0 && h[k].action == 0);
  }

  function Classes(h: History): nat {
    (if Never(h) then 1 else 0) + (if Always(h) then 1 else 0) + (if Mixed(h) then 1 else 0)
  }

  /** The three classes hold no unseen slot. A seen slot is in exactly one of them if it ever
      chose a non-negative action while present, and otherwise in two: never and always. */
  lemma ClassesOfASlot(h: History)
    ensures !Seen(h) ==> Classes(h) == 0
    ensures Seen(h) ==> (Classes(h) == 1 <==> ActedProperly(h))
    ensures Seen(h) && !ActedProperly(h) ==> Never(h) && Always(h)
  {
    CountPositive(h, Offloads);
    CountPositive(h, StaysLocal);
    if k :| 0 <= k < |h| && Offloads(h[k]) { assert ActedProperly(h); }
    if k :| 0 <= k < |h| && StaysLocal(h[k]) { assert ActedProperly(h); }
    if ActedProperly(h) {
      var k :| 0 <= k < |h| && Present(h[k]) && h[k].action >= 0;
      assert Offloads(h[k]) || StaysLocal(h[k]);
    }
  }

  // ----- composition of a group of slots -----

  function CountSlots(slots: seq<nat>, histories: seq<History>, p: History -> bool): nat
    requires forall i :: 0 <= i < |slots| ==> slots[i] < |histories|
  {
    if slots == [] then 0
    else (if p(histories[slots[0]]) then 1 else 0) + CountSlots(slots[1..], histories, p)
  }

  /** `mask[group].mean()` */
  function Share(slots: seq<nat>, histories: seq<History>, p: History -> bool): real
    requires slots != [] && forall i :: 0 <= i < |slots| ==> slots[i] < |histories|
  {
    CountSlots(slots, histories, p) as real / |slots| as real
  }

  /** The share times the size of the group is the number of its slots in the class. */
  lemma {:induction false} CountSlotsIsPositions(slots: seq<nat>, histories: seq<History>, p: History -> bool)
    requires forall i :: 0 <= i < |slots| ==> slots[i] < |histories|
    ensures CountSlots(slots, histories, p) == |Positions(slots, InClass(histories, p))|
  {
    if slots == [] {
      assert Positions(slots, InClass(histories, p)) == {};
    } else {
      CountSlotsIsPositions(slots[1..], histories, p);
      PositionsCons(slots[0], slots[1..], InClass(histories, p));
      assert [slots[0]] + slots[1..] == slots;
    }
  }

  function InClass(histories: seq<History>, p: History -> bool): nat -> bool {
    (i: nat) => i < |histories| && p(histories[i])
  }

  lemma ShareMeans(slots: seq<nat>, histories: seq<History>, p: History -> bool)
    requires slots != [] && forall i :: 0 <= i < |slots| ==> slots[i] < |histories|
    ensures Times(Share(slots, histories, p), |slots| as real) == |Positions(slots, InClass(histories, p))| as real
  {
    CountSlotsIsPositions(slots, histories, p);
    QuotientTimes(CountSlots(slots, histories, p) as real, |slots| as real);
  }

  ghost predicate AllSeen(slots: seq<nat>, histories: seq<History>) {
    forall i :: 0 <= i < |slots| ==> slots[i] < |histories| && Seen(histories[slots[i]])
  }

  lemma {:induction false} ClassCounts(slots: seq<nat>, histories: seq<History>)
    requires AllSeen(slots, histories)
    ensures var total := CountSlots(slots, histories, Never) + CountSlots(slots, histories, Always) +
      CountSlots(slots, histories, Mixed);
      && total >= |slots|
      && (total == |slots| <==> forall i :: 0 <= i < |slots| ==> ActedProperly(histories[slots[i]]))
  {
    if slots != [] {
      assert AllSeen(slots[1..], histories);
      ClassCounts(slots[1..], histories);
      ClassesOfASlot(histories[slots[0]]);
      assert forall i :: 1 <= i < |slots| ==> slots[i] == slots[1..][i - 1];
      assert forall i :: 0 <= i < |slots| - 1 ==> slots[1..][i] == slots[i + 1];
    }
  }

  /** The three shares of a group of seen slots add up to 1 exactly when every slot of the group
      ever chose a non-negative action while present. */
  lemma SharesAddUp(slots: seq<nat>, histories: seq<History>)
    requires slots != [] && AllSeen(slots, histories)
    ensures Share(slots, histories, Never) + Share(slots, histories, Always) + Share(slots, histories, Mixed) == 1.0
      <==> forall i :: 0 <= i < |slots| ==> ActedProperly(histories[slots[i]])
  {
    ClassCounts(slots, histories);
    var a, b, c := CountSlots(slots, histories, Never), CountSlots(slots, histories, Always),
      CountSlots(slots, histories, Mixed);
    SumOfQuotients(a as real, b as real, c as real, |slots| as real);
    assert a as real + b as real + c as real == (a + b + c) as real;
  }

  lemma SumOfQuotients(a: real, b: real, c: real, n: real)
    requires n > 0.0
    ensures a / n + b / n + c / n == 1.0 <==> a + b + c == n
  {
    assert a / n + b / n + c / n == (a + b + c) / n;
  }

  // ----- worst and best deciles -----

  /** What reversing `argsort` of the failure rates gives: some arrangement of distinct slots in
      which no slot fails less often than a later one. */
  ghost predicate WorstFirst(index: seq<nat>, rates: seq<real>) {
    && (forall i :: 0 <= i < |index| ==> index[i] < |rates|)
    && (forall i, j :: 0 <= i < j < |index| ==> index[i] != index[j] && rates[index[i]] >= rates[index[j]])
  }

  function Worst(index: seq<nat>): seq<nat>
    requires index != []
  {
    index[..DecileSize(|index|)]
  }

  /** `index[-size:]` */
  function Best(index: seq<nat>): seq<nat>
    requires index != []
  {
    index[|index| - DecileSize(|index|)..]
  }

  /** Every worst-decile slot fails at least as often as every best-decile slot, and the two
      deciles are disjoint exactly when two or more slots are ranked. */
  lemma DecilesAreApart(index: seq<nat>, rates: seq<real>)
    requires index != [] && WorstFirst(index, rates)
    ensures |Worst(index)| == |Best(index)| == DecileSize(|index|)
    ensures forall a, b :: a in Worst(index) && b in Best(index) ==> a < |rates| && b < |rates| && rates[a] >= rates[b]
    ensures (forall a :: a in Worst(index) ==> a !in Best(index)) <==> |index| >= 2
  {
    forall a, b | a in Worst(index) && b in Best(index)
      ensures a < |rates| && b < |rates| && rates[a] >= rates[b] && (|index| >= 2 ==> a != b)
    {
      WorstAgainstBest(index, rates, a, b);
    }
    if |index| == 1 {
      assert index[0] in Worst(index) && Best(index)[0] == index[0];
    } else {
      assert Worst(index)[0] in Worst(index);
    }
  }

  lemma WorstAgainstBest(index: seq<nat>, rates: seq<real>, a: nat, b: nat)
    requires index != [] && WorstFirst(index, rates) && a in Worst(index) && b in Best(index)
    ensures a < |rates| && b < |rates| && rates[a] >= rates[b] && (|index| >= 2 ==> a != b)
  {
    var n, k := |index|, DecileSize(|index|);
    var i :| 0 <= i < k && Worst(index)[i] == a;
    var j :| 0 <= j < k && Best(index)[j] == b;
    assert a == index[i] && b == index[n - k + j];
    if n >= 2 { assert i < n - k + j; }
  }
}
