/** How a call of `_write_new_receipt` ends: that an undisturbed one returns, what can keep a call
    that has linked from returning, and that a call which finds a receipt touches nothing. */
module ReceiptOutcomes {
  import opened ReceiptPublication
  import opened ReceiptTemporaries

  // ----- an undisturbed call returns -----

  lemma UnlinkAndReturn(before: seq<Action>, payload: Pid -> Bytes, p: Pid) returns (actions: seq<Action>)
    requires var s := Run(before, payload);
      p in s.calls && s.calls[p].step.Linked? && Temporary(s.calls[p].name) in s.fs && p in s.archives
    ensures var s, t := Run(before, payload), Run(actions, payload);
      && p in t.calls && t.calls[p] == s.calls[p].(step := Returned)
      && t.fs == s.fs - {Temporary(s.calls[p].name)} && p in t.archives
    ensures Continues(before, actions, p)
  {
    actions := Extend(before, Unlink(p), payload, p);
    actions := Extend(actions, Finally(p), payload, p);
  }

  lemma RunToReturn(before: seq<Action>, payload: Pid -> Bytes, p: Pid, n: nat) returns (after: seq<Action>)
    requires var s := Run(before, payload); p !in s.calls && Temporary(n) !in s.fs && Destination !in s.fs
    ensures Continues(before, after, p)
    ensures var s, t := Run(before, payload), Run(after, payload);
      p in t.calls && t.calls[p].step.Returned? && p in t.archives && t.fs == s.fs[Destination := t.calls[p].inode]
  {
    var linked := RunToTheLink(before, payload, p, n, p);
    after := UnlinkAndReturn(linked, payload, p);
    var s, t := Run(before, payload), Run(after, payload);
    assert t.fs == s.fs[Destination := t.calls[p].inode];
  }

  lemma ReturnedCallIsWhole(actions: seq<Action>, payload: Pid -> Bytes, p: Pid)
    requires p in Run(actions, payload).calls && Run(actions, payload).calls[p].step.Returned?
    ensures var s := Run(actions, payload);
      s.calls[p].inode in s.data && s.data[s.calls[p].inode] == payload(p)
  {
    RunKeepsInvariant(actions, payload);
    assert CallOk(Run(actions, payload), p, payload);
  }

  /** A caller left alone on an absent destination returns: its payload is the receipt, its
      archive stays, its temporary name is gone, and no other file has changed. */
  lemma UndisturbedCallReturns(before: seq<Action>, payload: Pid -> Bytes, p: Pid, n: nat)
    requires var s := Run(before, payload); p !in s.calls && Temporary(n) !in s.fs && Destination !in s.fs
    ensures exists after :: Continues(before, after, p) && (var s, t := Run(before, payload), Run(after, payload);
      && p in t.calls && t.calls[p].step.Returned? && p in t.archives
      && t.fs == s.fs[Destination := t.calls[p].inode]
      && t.calls[p].inode in t.data && t.data[t.calls[p].inode] == payload(p))
  {
    var after := RunToReturn(before, payload, p, n);
    ReturnedCallIsWhole(after, payload, p);
  }

  // ----- what keeps a call that has linked from returning -----

  /** An exception struck after the link. */
  ghost predicate Interrupted(actions: seq<Action>, payload: Pid -> Bytes, p: Pid) {
    && actions != []
    && var init, a := actions[..|actions| - 1], actions[|actions| - 1]; var s := Run(init, payload);
       Interrupted(init, payload, p)
       || (a == Fail(p) && p in s.calls && (s.calls[p].step.Linked? || s.calls[p].step.Unlinked?))
  }

  /** Its own unlink found the temporary name gone. */
  ghost predicate Missed(actions: seq<Action>, payload: Pid -> Bytes, p: Pid) {
    && actions != []
    && var init, a := actions[..|actions| - 1], actions[|actions| - 1]; var s := Run(init, payload);
       Missed(init, payload, p)
       || (a == Unlink(p) && p in s.calls && s.calls[p].step.Linked? && Temporary(s.calls[p].name) !in s.fs)
  }

  /** Where a linked call stands, by whether one of the two has happened. */
  predicate StandsAt(c: Call, disturbed: bool) {
    && (!c.linked ==> !disturbed)
    && (c.linked && disturbed ==> c.step in {Cleaning, Raised, Compensated, Killed})
    && (c.linked && !disturbed ==> c.step in {Linked, Unlinked, Returned, Killed})
  }

  lemma StandsAfterStep(s: State, a: Action, payload: Pid -> Bytes, p: Pid, disturbed: bool)
    requires p in s.calls && CallOk(s, p, payload) && StandsAt(s.calls[p], disturbed)
    ensures var t := Apply(s, a, payload);
      && p in t.calls
      && var c := s.calls[p];
         StandsAt(t.calls[p], disturbed || (a == Fail(p) && (c.step.Linked? || c.step.Unlinked?))
           || (a == Unlink(p) && c.step.Linked? && Temporary(c.name) !in s.fs))
  {
    if a.p != p { OtherRecordsStay(s, a, payload, p); }
  }

  lemma {:induction false} LinkedCallsStand(actions: seq<Action>, payload: Pid -> Bytes, p: Pid)
    ensures var disturbed := Interrupted(actions, payload, p) || Missed(actions, payload, p);
      if p in Run(actions, payload).calls then StandsAt(Run(actions, payload).calls[p], disturbed) else !disturbed
  {
    if actions != [] {
      var init, a := actions[..|actions| - 1], actions[|actions| - 1];
      var s := Run(init, payload);
      LinkedCallsStand(init, payload, p);
      RunKeepsInvariant(init, payload);
      if p in s.calls {
        StandsAfterStep(s, a, payload, p, Interrupted(init, payload, p) || Missed(init, payload, p));
      } else {
        NewCallIsUnlinked(s, a, payload, p);
      }
    }
  }

  lemma NewCallIsUnlinked(s: State, a: Action, payload: Pid -> Bytes, p: Pid)
    requires p !in s.calls
    ensures p in Apply(s, a, payload).calls ==> !Apply(s, a, payload).calls[p].linked
  {
    if a.p != p { OtherRecordsStay(s, a, payload, p); }
  }

  lemma {:induction false} MissedMeansRobbed(actions: seq<Action>, payload: Pid -> Bytes, p: Pid)
    requires Missed(actions, payload, p)
    ensures Robbed(actions, payload, p)
  {
    var init, a := actions[..|actions| - 1], actions[|actions| - 1];
    if Missed(init, payload, p) {
      MissedMeansRobbed(init, payload, p);
    } else {
      RunKeepsInvariant(init, payload);
      assert CallOk(Run(init, payload), p, payload);
      ExposedFileStaysUnlessRobbed(init, payload, p);
    }
  }

  /** Over every run: a call that has linked and is finished has returned exactly if no exception
      struck after its link and its own unlink found the name. The name can be missing only by
      the hand of another caller. */
  lemma LinkedCallReturnsIff(actions: seq<Action>, payload: Pid -> Bytes, p: Pid)
    requires Finished(Run(actions, payload), p) && Run(actions, payload).calls[p].linked
    ensures Run(actions, payload).calls[p].step.Returned? <==>
      !Interrupted(actions, payload, p) && !Missed(actions, payload, p)
    ensures Missed(actions, payload, p) ==> Robbed(actions, payload, p)
  {
    LinkedCallsStand(actions, payload, p);
    if Missed(actions, payload, p) { MissedMeansRobbed(actions, payload, p); }
  }

  /** So `main` keeps the archive beside its receipt, unless one of the two has happened. */
  lemma UndisturbedReceiptKeepsItsArchive(actions: seq<Action>, payload: Pid -> Bytes, p: Pid)
    requires p in Run(actions, payload).calls && Run(actions, payload).calls[p].linked
    requires !Interrupted(actions, payload, p) && !Missed(actions, payload, p)
    ensures p in Run(actions, payload).archives && OwnReceiptPublished(Run(actions, payload), p)
  {
    LinkedCallsStand(actions, payload, p);
    RunKeepsInvariant(actions, payload);
    assert CallOk(Run(actions, payload), p, payload);
  }

  lemma FailStep(s: State, payload: Pid -> Bytes, p: Pid)
    requires p in s.calls && !IsFinished(s.calls[p].step) && !s.calls[p].step.Killed?
    ensures var t := Apply(s, Fail(p), payload);
      p in t.calls && (t.calls[p].step.Raised? || t.calls[p].step.Cleaning?) && t.calls[p].linked == s.calls[p].linked
  {
  }

  lemma EndStep(s: State, payload: Pid -> Bytes, p: Pid)
    requires p in s.calls && (s.calls[p].step.Raised? || s.calls[p].step.Cleaning?)
    ensures var t := Apply(s, Finally(p), payload);
      p in t.calls && t.calls[p].step.Raised? && t.calls[p].linked == s.calls[p].linked
  {
  }

  lemma CompensateStep(s: State, payload: Pid -> Bytes, p: Pid)
    requires p in s.calls && s.calls[p].step.Raised?
    ensures var t := Apply(s, Compensate(p), payload);
      p in t.calls && t.calls[p].step.Compensated? && p !in t.archives && t.calls[p].linked == s.calls[p].linked
  {
  }

  /** An exception at any point of an unfinished call ends it: it raises, and `main` deletes the
      archive. What it has linked stays linked. */
  lemma FailedCallIsCompensated(before: seq<Action>, payload: Pid -> Bytes, p: Pid)
    requires var s := Run(before, payload);
      p in s.calls && !IsFinished(s.calls[p].step) && !s.calls[p].step.Killed?
    ensures var s, t := Run(before, payload), Run(before + [Fail(p), Finally(p), Compensate(p)], payload);
      && p in t.calls && t.calls[p].step.Compensated? && p !in t.archives && t.calls[p].linked == s.calls[p].linked
  {
    var failed, ended := before + [Fail(p)], before + [Fail(p)] + [Finally(p)];
    RunSnoc(before, Fail(p), payload);
    FailStep(Run(before, payload), payload, p);
    RunSnoc(failed, Finally(p), payload);
    EndStep(Run(failed, payload), payload, p);
    RunSnoc(ended, Compensate(p), payload);
    CompensateStep(Run(ended, payload), payload, p);
    assert before + [Fail(p), Finally(p), Compensate(p)] == ended + [Compensate(p)];
  }

  // ----- a call that comes after the receipt -----

  predicate CameLate(c: Call) { !c.hasTemp && (c.step.Raised? || c.step.Compensated?) }

  lemma LateStaysLate(s: State, a: Action, payload: Pid -> Bytes, p: Pid)
    requires if p in s.calls then CameLate(s.calls[p]) else Destination in s.fs
    ensures var t := Apply(s, a, payload); p in t.calls ==> CameLate(t.calls[p])
  {
    if a.p != p { OtherRecordsStay(s, a, payload, p); }
  }

  /** A call that starts when a receipt is there raises at once and never creates a file. */
  lemma {:induction false} LateCallsCreateNothing(before: seq<Action>, after: seq<Action>, payload: Pid -> Bytes,
    p: Pid)
    requires Destination in Run(before, payload).fs && p !in Run(before, payload).calls
    ensures var t := Run(before + after, payload); p in t.calls ==> CameLate(t.calls[p])
    decreases |after|
  {
    if after == [] {
      assert before + after == before;
    } else {
      var m := |after| - 1;
      assert before + after == before + after[..m] + [after[m]];
      RunSnoc(before + after[..m], after[m], payload);
      LateCallsCreateNothing(before, after[..m], payload, p);
      ReceiptNeverChanges(before, after[..m], payload);
      LateStaysLate(Run(before + after[..m], payload), after[m], payload, p);
    }
  }
}
