/** What finished calls of `_write_new_receipt` leave in the directory beside the receipt.

    A call that fails between `mkstemp` and the try block is `leaked`: it never reaches its
    finally block. Its file can then go only by the hand of a caller that was given the same
    temporary name before, unlinked it once, and unlinks it a second time. */
module ReceiptTemporaries {
  import opened ReceiptPublication

  ghost predicate Finished(s: State, p: Pid) {
    p in s.calls && IsFinished(s.calls[p].step)
  }

  /** Some temporary name still leads to the inode that `mkstemp` made for the caller. */
  ghost predicate HoldsTemporary(s: State, p: Pid)
    requires OwnsTemp(s, p)
  {
    exists n :: Temporary(n) in s.fs && s.fs[Temporary(n)] == s.calls[p].inode
  }

  ghost predicate KeepsName(s: State, p: Pid)
    requires OwnsTemp(s, p)
  {
    Temporary(s.calls[p].name) in s.fs && s.fs[Temporary(s.calls[p].name)] == s.calls[p].inode
  }

  lemma HoldsIffKeepsName(s: State, p: Pid)
    requires Files(s) && OwnsTemp(s, p)
    ensures HoldsTemporary(s, p) <==> KeepsName(s, p)
  {
    if HoldsTemporary(s, p) {
      var n :| Temporary(n) in s.fs && s.fs[Temporary(n)] == s.calls[p].inode;
      var q :| OwnsTemp(s, q) && s.calls[q].name == n && s.calls[q].inode == s.fs[Temporary(n)];
      assert q == p;
    }
  }

  /** The two steps that unlink a temporary name. */
  predicate UnlinksName(s: State, a: Action, n: nat) {
    && a.p in s.calls && s.calls[a.p].name == n
    && ((a.Unlink? && s.calls[a.p].step.Linked?)
        || (a.Finally? && (s.calls[a.p].step.Unlinked? || s.calls[a.p].step.Cleaning?)))
  }

  /** Another caller is about to unlink a name that meanwhile belongs to `p`. */
  predicate Removes(s: State, a: Action, p: Pid) {
    p in s.calls && a.p != p && UnlinksName(s, a, s.calls[p].name)
  }

  /** At some step of the run another caller unlinked the name that `mkstemp` had given to `p`. */
  ghost predicate Robbed(actions: seq<Action>, payload: Pid -> Bytes, p: Pid) {
    && actions != []
    && var init := actions[..|actions| - 1];
       Robbed(init, payload, p)
       || (OwnsTemp(Run(init, payload), p) && Removes(Run(init, payload), actions[|actions| - 1], p))
  }

  /** The steps at which a call still counts on its name: up to its own unlink, or leaked. */
  predicate Exposed(c: Call) {
    && c.hasTemp
    && (c.leaked || c.step.Created? || c.step.Writing? || c.step.Synced? || c.step.Protected? || c.step.Linked?)
  }

  lemma StepKeepsOwner(s: State, a: Action, payload: Pid -> Bytes, p: Pid)
    requires OwnsTemp(s, p) && CallOk(s, p, payload)
    ensures var t := Apply(s, a, payload);
      OwnsTemp(t, p) && t.calls[p].name == s.calls[p].name && t.calls[p].inode == s.calls[p].inode
  {
    if a.p != p { OtherRecordsStay(s, a, payload, p); }
  }

  lemma ExposedBefore(s: State, a: Action, payload: Pid -> Bytes, p: Pid)
    requires OwnsTemp(s, p) && CallOk(s, p, payload) && OwnsTemp(Apply(s, a, payload), p)
    ensures Exposed(Apply(s, a, payload).calls[p]) ==> Exposed(s.calls[p])
  {
    if a.p != p { OtherRecordsStay(s, a, payload, p); }
  }

  lemma NewOwner(s: State, a: Action, payload: Pid -> Bytes, p: Pid)
    requires (p in s.calls ==> CallOk(s, p, payload)) && !OwnsTemp(s, p) && OwnsTemp(Apply(s, a, payload), p)
    ensures KeepsName(Apply(s, a, payload), p)
  {
    if a.p != p { OtherRecordsStay(s, a, payload, p); }
  }

  /** A name is given up only by the two unlinks. */
  lemma KnownName(s: State, a: Action, payload: Pid -> Bytes, n: nat)
    requires Temporary(n) in s.fs
    ensures var t := Apply(s, a, payload);
      if UnlinksName(s, a, n) then Temporary(n) !in t.fs
      else Temporary(n) in t.fs && t.fs[Temporary(n)] == s.fs[Temporary(n)]
  {
  }

  /** And a free name is given out only to a new inode. */
  lemma FreeName(s: State, a: Action, payload: Pid -> Bytes, n: nat)
    requires Temporary(n) !in s.fs
    ensures var t := Apply(s, a, payload); Temporary(n) in t.fs ==> t.fs[Temporary(n)] == s.next
  {
  }

  lemma NameAfterStep(s: State, a: Action, payload: Pid -> Bytes, p: Pid)
    requires Inv(s, payload) && OwnsTemp(s, p) && Exposed(s.calls[p])
    requires OwnsTemp(Apply(s, a, payload), p) && Exposed(Apply(s, a, payload).calls[p])
    ensures KeepsName(Apply(s, a, payload), p) <==> KeepsName(s, p) && !Removes(s, a, p)
  {
    assert CallOk(s, p, payload);
    StepKeepsOwner(s, a, payload, p);
    var n := s.calls[p].name;
    if Temporary(n) in s.fs { KnownName(s, a, payload, n); } else { FreeName(s, a, payload, n); }
  }

  lemma {:induction false} ExposedFileStaysUnlessRobbed(actions: seq<Action>, payload: Pid -> Bytes, p: Pid)
    ensures Robbed(actions, payload, p) ==> OwnsTemp(Run(actions, payload), p)
    ensures var s := Run(actions, payload);
      OwnsTemp(s, p) && Exposed(s.calls[p]) ==> (KeepsName(s, p) <==> !Robbed(actions, payload, p))
  {
    if actions != [] {
      var init, a := actions[..|actions| - 1], actions[|actions| - 1];
      var s := Run(init, payload);
      ExposedFileStaysUnlessRobbed(init, payload, p);
      RunKeepsInvariant(init, payload);
      if OwnsTemp(s, p) {
        assert CallOk(s, p, payload);
        StepKeepsOwner(s, a, payload, p);
        ExposedBefore(s, a, payload, p);
        if Exposed(Apply(s, a, payload).calls[p]) { NameAfterStep(s, a, payload, p); }
      } else if OwnsTemp(Apply(s, a, payload), p) {
        NewOwner(s, a, payload, p);
      }
    }
  }

  // ----- main results -----

  /** Every finished call has removed its temporary file, unless it was interrupted in the gap
      between `mkstemp` and the try block. */
  lemma FinishedCallsLeaveNoTemporary(actions: seq<Action>, payload: Pid -> Bytes, p: Pid)
    requires Finished(Run(actions, payload), p) && !Run(actions, payload).calls[p].leaked
    ensures var s := Run(actions, payload);
      s.calls[p].hasTemp ==> forall n :: Temporary(n) in s.fs ==> s.fs[Temporary(n)] != s.calls[p].inode
  {
    RunKeepsInvariant(actions, payload);
    assert CallOk(Run(actions, payload), p, payload);
  }

  /** Over every run: a finished call still has its temporary file exactly if it was interrupted
      in the gap and no other caller has unlinked the name since. */
  lemma TemporaryRemainsIff(actions: seq<Action>, payload: Pid -> Bytes, p: Pid)
    requires Finished(Run(actions, payload), p) && OwnsTemp(Run(actions, payload), p)
    ensures HoldsTemporary(Run(actions, payload), p)
      <==> Run(actions, payload).calls[p].leaked && !Robbed(actions, payload, p)
  {
    var s := Run(actions, payload);
    RunKeepsInvariant(actions, payload);
    HoldsIffKeepsName(s, p);
    if s.calls[p].leaked {
      ExposedFileStaysUnlessRobbed(actions, payload, p);
    } else {
      FinishedCallsLeaveNoTemporary(actions, payload, p);
    }
  }

  /** As long as there is no receipt nobody is robbed, so the gap alone decides. */
  lemma WithoutReceiptTheGapDecides(actions: seq<Action>, payload: Pid -> Bytes, p: Pid)
    requires Finished(Run(actions, payload), p) && OwnsTemp(Run(actions, payload), p)
    requires Destination !in Run(actions, payload).fs
    ensures HoldsTemporary(Run(actions, payload), p) <==> Run(actions, payload).calls[p].leaked
  {
    var s := Run(actions, payload);
    RunKeepsInvariant(actions, payload);
    assert CallOk(s, p, payload);
    HoldsIffKeepsName(s, p);
    if !s.calls[p].leaked { FinishedCallsLeaveNoTemporary(actions, payload, p); }
  }

  ghost predicate AllFinished(s: State) {
    forall p :: p in s.calls ==> Finished(s, p)
  }

  /** When every caller has finished, the directory holds nothing but the receipt exactly if
      each call interrupted in the gap has been robbed of its file. */
  lemma QuietDirectoryIsCleanIff(actions: seq<Action>, payload: Pid -> Bytes)
    requires AllFinished(Run(actions, payload))
    ensures Run(actions, payload).fs.Keys <= {Destination}
      <==> (forall p :: OwnsTemp(Run(actions, payload), p) && Run(actions, payload).calls[p].leaked ==>
              Robbed(actions, payload, p))
  {
    var s := Run(actions, payload);
    RunKeepsInvariant(actions, payload);
    CleanIffNoneHeld(s);
    forall p | OwnsTemp(s, p)
      ensures HoldsTemporary(s, p) <==> s.calls[p].leaked && !Robbed(actions, payload, p)
    {
      assert Finished(s, p);
      TemporaryRemainsIff(actions, payload, p);
    }
  }

  lemma CleanIffNoneHeld(s: State)
    requires Files(s)
    ensures s.fs.Keys <= {Destination} <==> (forall p :: OwnsTemp(s, p) ==> !HoldsTemporary(s, p))
  {
    if !(s.fs.Keys <= {Destination}) {
      var x :| x in s.fs && x != Destination;
      var n := x.suffix;
      assert Temporary(n) in s.fs;
      var p :| OwnsTemp(s, p) && s.calls[p].name == n && s.calls[p].inode == s.fs[Temporary(n)];
      assert HoldsTemporary(s, p);
    }
  }

  /** In particular it is clean when no call failed in the gap. */
  ghost predicate Quiet(s: State) {
    forall p :: p in s.calls ==> Finished(s, p) && !s.calls[p].leaked
  }

  lemma QuietDirectoryIsClean(actions: seq<Action>, payload: Pid -> Bytes)
    requires Quiet(Run(actions, payload))
    ensures Run(actions, payload).fs.Keys <= {Destination}
  {
    QuietDirectoryIsCleanIff(actions, payload);
  }

  /** From before `mkstemp` into the gap. */
  lemma FailInTheGap(before: seq<Action>, payload: Pid -> Bytes, p: Pid, n: nat, w: Pid) returns (actions: seq<Action>)
    requires var s := Run(before, payload); p in s.calls && s.calls[p].step.Checked? && Temporary(n) !in s.fs
    ensures var s, t := Run(before, payload), Run(actions, payload);
      && Finished(t, p) && t.calls[p].leaked && OwnsTemp(t, p) && t.calls[p].name == n
      && t.fs == s.fs[Temporary(n) := t.calls[p].inode] && (w != p ==> Untouched(s, t, w))
  {
    actions := Extend(before, MakeTemp(p, n), payload, w);
    actions := Extend(actions, Fail(p), payload, w);
  }

  /** The gap is real: for any name, one interrupt in it leaves the empty temporary behind. */
  lemma GapLeavesTemporary(payload: Pid -> Bytes, p: Pid, n: nat)
    ensures exists actions :: (var s := Run(actions, payload);
      && Finished(s, p) && s.calls[p].leaked && Temporary(n) in s.fs && s.fs[Temporary(n)] == s.calls[p].inode)
  {
    var actions := Extend([], Check(p), payload, p);
    actions := FailInTheGap(actions, payload, p, n, p);
  }

  /** A receipt does change it: a publisher's second unlink takes the leaked file of a caller
      that was given the publisher's name after the first one. */
  lemma ReceiptMayRobALeakedFile(payload: Pid -> Bytes, w: Pid, q: Pid, n: nat)
    requires w != q
    ensures exists actions :: (var s := Run(actions, payload);
      Finished(s, q) && s.calls[q].leaked && OwnsTemp(s, q) && !HoldsTemporary(s, q))
  {
    var actions := PublishUntilUnlinked(payload, w, q, n);
    actions := FailInTheGap(actions, payload, q, n, w);
    var s := Run(actions, payload);
    actions := Extend(actions, Finally(w), payload, q);
    RunKeepsInvariant(actions, payload);
    HoldsIffKeepsName(Run(actions, payload), q);
  }

  lemma PublishUntilUnlinked(payload: Pid -> Bytes, w: Pid, q: Pid, n: nat) returns (actions: seq<Action>)
    requires w != q
    ensures var s := Run(actions, payload);
      && q in s.calls && s.calls[q].step.Checked? && Temporary(n) !in s.fs
      && w in s.calls && s.calls[w].step.Unlinked? && s.calls[w].name == n
  {
    actions := Extend([], Check(q), payload, q);
    actions := RunToTheLink(actions, payload, w, n, q);
    actions := Extend(actions, Unlink(w), payload, q);
  }
}
