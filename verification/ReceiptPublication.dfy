/** New-only publication of a receipt (`_write_new_receipt`) by any number of concurrent
    callers, and the compensation of `main` around it.

    A state is a directory (paths to inodes), the bytes of the inodes, and one record per
    caller. A run is a list of actions, one atomic file-system or control step each; an action
    that is not enabled does nothing, so every interleaving is some list. Temporary names are
    chosen by `mkstemp`, which promises only that the name was free at that moment. */
module ReceiptPublication {

  type Bytes = seq<nat>
  type Pid = nat
  type Inode = nat
  datatype Path = Destination | Temporary(suffix: nat)

  datatype Step =
    | Checked    // the destination was absent when tested
    | Created    // mkstemp returned, the try block is not entered yet
    | Writing | Synced | Protected
    | Linked     // os.link succeeded
    | Unlinked   // the temporary name is removed, the finally block is pending
    | Cleaning   // an exception is on its way to the finally block
    | Returned | Raised | Compensated | Killed

  datatype Call = Call(step: Step, hasTemp: bool, name: nat, inode: Inode, written: nat, linked: bool, leaked: bool)

  datatype State = State(fs: map<Path, Inode>, data: map<Inode, Bytes>, next: Inode, calls: map<Pid, Call>,
    archives: set<Pid>)

  datatype Action =
    | Check(p: Pid)
    | MakeTemp(p: Pid, name: nat)
    | EnterTry(p: Pid)
    | Write(p: Pid, upTo: nat)
    | Sync(p: Pid)
    | Protect(p: Pid)
    | Link(p: Pid)
    | Unlink(p: Pid)
    | Finally(p: Pid)
    | Fail(p: Pid)       // any exception, an interrupt included
    | Kill(p: Pid)       // the process is gone, nothing more runs
    | Compensate(p: Pid) // `args.output.unlink(missing_ok=True)` in main

  const START := State(map[], map[], 0, map[], {})

  function Set(s: State, p: Pid, c: Call): State { s.(calls := s.calls[p := c]) }

  function DoCheck(s: State, p: Pid): State {
    if p in s.calls then s
    else
      var step := if Destination in s.fs then Raised else Checked;
      Set(s, p, Call(step, false, 0, 0, 0, false, false)).(archives := s.archives + {p})
  }

  function DoMakeTemp(s: State, p: Pid, name: nat): State
    requires p in s.calls
  {
    var c := s.calls[p];
    if c.step.Checked? && Temporary(name) !in s.fs then
      Set(s, p, c.(step := Created, hasTemp := true, name := name, inode := s.next))
        .(fs := s.fs[Temporary(name) := s.next], data := s.data[s.next := []], next := s.next + 1)
    else s
  }

  function DoWrite(s: State, p: Pid, upTo: nat, text: Bytes): State
    requires p in s.calls
  {
    var c := s.calls[p];
    if c.step.Writing? && c.written <= upTo <= |text| then
      Set(s, p, c.(written := upTo)).(data := s.data[c.inode := text[..upTo]])
    else s
  }

  function DoLink(s: State, p: Pid): State
    requires p in s.calls
  {
    var c := s.calls[p];
    if !c.step.Protected? then s
    else if Temporary(c.name) !in s.fs || Destination in s.fs then Set(s, p, c.(step := Cleaning))
    else Set(s, p, c.(step := Linked, linked := true)).(fs := s.fs[Destination := s.fs[Temporary(c.name)]])
  }

  function DoUnlink(s: State, p: Pid): State
    requires p in s.calls
  {
    var c := s.calls[p];
    if !c.step.Linked? then s
    else if Temporary(c.name) !in s.fs then Set(s, p, c.(step := Cleaning))
    else Set(s, p, c.(step := Unlinked)).(fs := s.fs - {Temporary(c.name)})
  }

  function DoFinally(s: State, p: Pid): State
    requires p in s.calls
  {
    var c := s.calls[p];
    if c.step.Unlinked? || c.step.Cleaning? then
      Set(s, p, c.(step := if c.step.Unlinked? then Returned else Raised)).(fs := s.fs - {Temporary(c.name)})
    else s
  }

  function DoCompensate(s: State, p: Pid): State
    requires p in s.calls
  {
    var c := s.calls[p];
    if c.step.Raised? then Set(s, p, c.(step := Compensated)).(archives := s.archives - {p}) else s
  }

  /** The steps that move one caller along without touching a file. */
  function Advance(s: State, c: Call, a: Action, text: Bytes): Call {
    match a
    case EnterTry(_) => if c.step.Created? then c.(step := Writing) else c
    case Sync(_) => if c.step.Writing? && c.written == |text| then c.(step := Synced) else c
    case Protect(_) =>
      if c.step.Synced? then c.(step := if Temporary(c.name) in s.fs then Protected else Cleaning) else c
    case Fail(_) =>
      if c.step.Checked? then c.(step := Raised)
      else if c.step.Created? then c.(step := Raised, leaked := true)
      else if InTry(c.step) then c.(step := Cleaning)
      else c
    case Kill(_) => if IsFinished(c.step) then c else c.(step := Killed)
    case _ => c
  }

  predicate InTry(step: Step) {
    step.Writing? || step.Synced? || step.Protected? || step.Linked? || step.Unlinked?
  }

  predicate IsFinished(step: Step) { step.Returned? || step.Raised? || step.Compensated? }

  function Apply(s: State, a: Action, payload: Pid -> Bytes): State {
    var p := a.p;
    if a.Check? then DoCheck(s, p)
    else if p !in s.calls then s
    else
      match a
      case MakeTemp(_, name) => DoMakeTemp(s, p, name)
      case Write(_, upTo) => DoWrite(s, p, upTo, payload(p))
      case Link(_) => DoLink(s, p)
      case Unlink(_) => DoUnlink(s, p)
      case Finally(_) => DoFinally(s, p)
      case Compensate(_) => DoCompensate(s, p)
      case _ => Set(s, p, Advance(s, s.calls[p], a, payload(p)))
  }

  function Run(actions: seq<Action>, payload: Pid -> Bytes): State {
    if actions == [] then START
    else Apply(Run(actions[..|actions| - 1], payload), actions[|actions| - 1], payload)
  }

  // ----- the invariant -----

  ghost predicate OwnsTemp(s: State, p: Pid) { p in s.calls && s.calls[p].hasTemp }

  ghost predicate Files(s: State) {
    && (forall x :: x in s.fs ==> s.fs[x] < s.next)
    && (forall p :: OwnsTemp(s, p) ==> s.calls[p].inode < s.next && s.calls[p].inode in s.data)
    && (forall p, q :: OwnsTemp(s, p) && OwnsTemp(s, q) && s.calls[p].inode == s.calls[q].inode ==> p == q)
    && (forall n :: Temporary(n) in s.fs ==>
          exists p :: OwnsTemp(s, p) && s.calls[p].name == n && s.calls[p].inode == s.fs[Temporary(n)])
  }

  ghost predicate CallOk(s: State, p: Pid, payload: Pid -> Bytes)
    requires p in s.calls
  {
    var c := s.calls[p];
    && (c.hasTemp ==> c.inode in s.data && c.written <= |payload(p)| && s.data[c.inode] == payload(p)[..c.written])
    && (c.step in {Created, Writing, Synced, Protected, Linked, Unlinked, Cleaning, Returned} ==> c.hasTemp)
    && (c.step.Checked? ==> !c.hasTemp && c.written == 0)
    && (c.step in {Synced, Protected, Linked, Unlinked, Returned} || c.linked ==> c.written == |payload(p)|)
    && (c.step in {Linked, Unlinked, Returned} ==> c.linked)
    && (c.step in {Checked, Created, Writing, Synced, Protected} ==> !c.linked)
    && (c.linked ==> c.hasTemp && Destination in s.fs && s.fs[Destination] == c.inode)
    && (c.leaked ==> c.hasTemp && c.step in {Raised, Compensated})
    && (c.hasTemp && (c.leaked || c.step in {Created, Writing, Synced, Protected, Cleaning}) && Destination !in s.fs ==>
          Temporary(c.name) in s.fs && s.fs[Temporary(c.name)] == c.inode)
    && (c.hasTemp && c.step in {Unlinked, Returned, Raised, Compensated} && !c.leaked ==>
          forall n :: Temporary(n) in s.fs ==> s.fs[Temporary(n)] != c.inode)
    && (p in s.archives <==> !c.step.Compensated?)
  }

  /** A receipt comes from some call that linked it. */
  ghost predicate Published(s: State) {
    Destination in s.fs ==> exists p :: p in s.calls && s.calls[p].linked
  }

  ghost predicate Inv(s: State, payload: Pid -> Bytes) {
    && Files(s)
    && (forall p :: p in s.calls ==> CallOk(s, p, payload))
    && Published(s)
  }

  /** A caller whose record is untouched keeps its part of the invariant. */
  lemma OtherCall(s: State, t: State, q: Pid, payload: Pid -> Bytes)
    requires q in s.calls && CallOk(s, q, payload) && q in t.calls && t.calls[q] == s.calls[q]
    requires q in s.archives <==> q in t.archives
    requires var c := s.calls[q];
      && (c.hasTemp ==> c.inode in t.data && t.data[c.inode] == s.data[c.inode])
      && (Destination in s.fs ==> Destination in t.fs && t.fs[Destination] == s.fs[Destination])
      && (Destination !in t.fs && Temporary(c.name) in s.fs && c.hasTemp && s.fs[Temporary(c.name)] == c.inode ==>
            Temporary(c.name) in t.fs && t.fs[Temporary(c.name)] == c.inode)
      && (c.hasTemp ==> forall n :: Temporary(n) in t.fs && t.fs[Temporary(n)] == c.inode ==>
            Temporary(n) in s.fs && s.fs[Temporary(n)] == c.inode)
    ensures CallOk(t, q, payload)
  {
  }

  /** The record of `p` is the only one that changes, and its temporary file is the same. */
  ghost predicate OneRecord(s: State, t: State, p: Pid) {
    && p in t.calls && t.calls == s.calls[p := t.calls[p]]
    && (if p in s.calls then
          var c, d := s.calls[p], t.calls[p];
          d.linked == c.linked && d.hasTemp == c.hasTemp && d.inode == c.inode && d.name == c.name
        else !t.calls[p].hasTemp && !t.calls[p].linked)
  }

  lemma SameOwner(s: State, t: State, p: Pid, q: Pid)
    requires OneRecord(s, t, p)
    ensures OwnsTemp(t, q) <==> OwnsTemp(s, q)
    ensures OwnsTemp(s, q) ==> t.calls[q].inode == s.calls[q].inode && t.calls[q].name == s.calls[q].name
  {
  }

  lemma SameFiles(s: State, t: State, p: Pid)
    requires Files(s) && OneRecord(s, t, p)
    requires t.fs.Keys <= s.fs.Keys && t.next == s.next && t.data.Keys == s.data.Keys
    requires forall x :: x in t.fs ==> t.fs[x] == s.fs[x]
    ensures Files(t)
  {
    forall q ensures (OwnsTemp(t, q) <==> OwnsTemp(s, q))
      && (OwnsTemp(s, q) ==> t.calls[q].inode == s.calls[q].inode && t.calls[q].name == s.calls[q].name)
    {
      SameOwner(s, t, p, q);
    }
    forall n | Temporary(n) in t.fs
      ensures exists q :: OwnsTemp(t, q) && t.calls[q].name == n && t.calls[q].inode == t.fs[Temporary(n)]
    {
      var q :| OwnsTemp(s, q) && s.calls[q].name == n && s.calls[q].inode == s.fs[Temporary(n)];
      assert OwnsTemp(t, q);
    }
  }

  lemma StillPublished(s: State, t: State, p: Pid)
    requires Published(s) && (Destination in t.fs ==> Destination in s.fs)
    requires p in t.calls && t.calls == s.calls[p := t.calls[p]]
    requires p in s.calls && s.calls[p].linked ==> t.calls[p].linked
    ensures Published(t)
  {
    if Destination in t.fs {
      var w :| w in s.calls && s.calls[w].linked;
      assert t.calls[w].linked;
    }
  }

  /** Replacing one caller's record, its files as they were. */
  lemma RecordStep(s: State, t: State, p: Pid, payload: Pid -> Bytes)
    requires Inv(s, payload) && t.fs == s.fs && t.data == s.data && t.next == s.next
    requires OneRecord(s, t, p) && CallOk(t, p, payload)
    requires forall q :: q != p ==> (q in t.archives <==> q in s.archives)
    ensures Inv(t, payload)
  {
    forall q | q in t.calls ensures CallOk(t, q, payload) {
      if q != p { OtherCall(s, t, q, payload); }
    }
    SameFiles(s, t, p);
    StillPublished(s, t, p);
  }

  lemma OwnCallAfterAdvance(s: State, a: Action, payload: Pid -> Bytes)
    requires a.p in s.calls && CallOk(s, a.p, payload)
    ensures var t := Set(s, a.p, Advance(s, s.calls[a.p], a, payload(a.p)));
      CallOk(t, a.p, payload) && OneRecord(s, t, a.p)
  {
  }

  lemma AdvanceStep(s: State, a: Action, payload: Pid -> Bytes)
    requires Inv(s, payload) && a.p in s.calls
    ensures Inv(Set(s, a.p, Advance(s, s.calls[a.p], a, payload(a.p))), payload)
  {
    OwnCallAfterAdvance(s, a, payload);
    RecordStep(s, Set(s, a.p, Advance(s, s.calls[a.p], a, payload(a.p))), a.p, payload);
  }

  lemma EntryAndExitSteps(s: State, p: Pid, payload: Pid -> Bytes)
    requires Inv(s, payload)
    ensures Inv(DoCheck(s, p), payload)
    ensures p in s.calls ==> Inv(DoCompensate(s, p), payload)
  {
    if p in s.calls {
      assert CallOk(s, p, payload);
      if s.calls[p].step.Raised? { RecordStep(s, DoCompensate(s, p), p, payload); }
    } else {
      RecordStep(s, DoCheck(s, p), p, payload);
    }
  }

  lemma WriteStep(s: State, p: Pid, upTo: nat, payload: Pid -> Bytes)
    requires Inv(s, payload) && p in s.calls
    ensures Inv(DoWrite(s, p, upTo, payload(p)), payload)
  {
    var t := DoWrite(s, p, upTo, payload(p));
    if t != s {
      OwnCallAfterWrite(s, p, upTo, payload);
      forall q | q in t.calls ensures CallOk(t, q, payload) {
        if q != p { OtherCallAfterWrite(s, t, p, q, payload); }
      }
      SameFiles(s, t, p);
      StillPublished(s, t, p);
    }
  }

  lemma OwnCallAfterWrite(s: State, p: Pid, upTo: nat, payload: Pid -> Bytes)
    requires p in s.calls && CallOk(s, p, payload)
    ensures CallOk(DoWrite(s, p, upTo, payload(p)), p, payload)
    ensures var t := DoWrite(s, p, upTo, payload(p));
      t != s ==> (OwnsTemp(s, p) && OneRecord(s, t, p) && t == s.(calls := t.calls, data := t.data)
                  && t.data == s.data[s.calls[p].inode := t.data[s.calls[p].inode]])
  {
  }

  lemma OtherCallAfterWrite(s: State, t: State, p: Pid, q: Pid, payload: Pid -> Bytes)
    requires Files(s) && OwnsTemp(s, p) && q in s.calls && q != p && CallOk(s, q, payload)
    requires q in t.calls && t.calls[q] == s.calls[q] && t.fs == s.fs && t.archives == s.archives
    requires t.data.Keys == s.data.Keys && forall i :: i in s.data && i != s.calls[p].inode ==> t.data[i] == s.data[i]
    ensures CallOk(t, q, payload)
  {
    assert OwnsTemp(s, q) ==> s.calls[q].inode != s.calls[p].inode;
    OtherCall(s, t, q, payload);
  }

  lemma MakeTempStep(s: State, p: Pid, name: nat, payload: Pid -> Bytes)
    requires Inv(s, payload) && p in s.calls
    ensures Inv(DoMakeTemp(s, p, name), payload)
  {
    var t := DoMakeTemp(s, p, name);
    if t != s {
      OwnCallAfterMakeTemp(s, p, name, payload);
      NewInodeFiles(s, t, p, name);
      forall q | q in t.calls ensures CallOk(t, q, payload) {
        if q != p { OtherCallAfterMakeTemp(s, t, p, name, q, payload); }
      }
      StillPublished(s, t, p);
    }
  }

  lemma OwnCallAfterMakeTemp(s: State, p: Pid, name: nat, payload: Pid -> Bytes)
    requires p in s.calls && CallOk(s, p, payload) && DoMakeTemp(s, p, name) != s
    ensures var t := DoMakeTemp(s, p, name); !OwnsTemp(s, p) && !s.calls[p].linked && CallOk(t, p, payload)
  {
  }

  lemma OtherCallAfterMakeTemp(s: State, t: State, p: Pid, name: nat, q: Pid, payload: Pid -> Bytes)
    requires Files(s) && q in s.calls && q != p && CallOk(s, q, payload) && Temporary(name) !in s.fs
    requires q in t.calls && t.calls[q] == s.calls[q] && t.archives == s.archives
    requires t.fs == s.fs[Temporary(name) := s.next] && t.data == s.data[s.next := []]
    ensures CallOk(t, q, payload)
  {
    assert OwnsTemp(s, q) ==> s.calls[q].inode < s.next;
    OtherCall(s, t, q, payload);
  }

  lemma NewInodeFiles(s: State, t: State, p: Pid, name: nat)
    requires Files(s) && !OwnsTemp(s, p) && p in t.calls && t.calls == s.calls[p := t.calls[p]]
    requires t.calls[p].hasTemp && t.calls[p].name == name && t.calls[p].inode == s.next
    requires t.fs == s.fs[Temporary(name) := s.next] && t.data == s.data[s.next := []] && t.next == s.next + 1
    ensures Files(t)
  {
    assert OwnsTemp(t, p);
    forall q | q != p ensures OwnsTemp(t, q) <==> OwnsTemp(s, q) ensures OwnsTemp(t, q) ==> t.calls[q] == s.calls[q] {
    }
    forall n | Temporary(n) in t.fs
      ensures exists q :: OwnsTemp(t, q) && t.calls[q].name == n && t.calls[q].inode == t.fs[Temporary(n)]
    {
      if n != name {
        var q :| OwnsTemp(s, q) && s.calls[q].name == n && s.calls[q].inode == s.fs[Temporary(n)];
        assert OwnsTemp(t, q);
      }
    }
  }

  /** The commit point: the linked inode is the caller's own, complete one, although the name
      it links by could in principle have been taken over by another caller. */
  lemma LinkStep(s: State, p: Pid, payload: Pid -> Bytes)
    requires Inv(s, payload) && p in s.calls
    ensures Inv(DoLink(s, p), payload)
  {
    var t, c := DoLink(s, p), s.calls[p];
    assert CallOk(s, p, payload);
    if c.step.Protected? {
      if Temporary(c.name) !in s.fs || Destination in s.fs {
        RecordStep(s, t, p, payload);
      } else {
        assert t.fs[Destination] == c.inode && CallOk(t, p, payload);
        forall q | q in t.calls ensures CallOk(t, q, payload) {
          if q != p { OtherCall(s, t, q, payload); }
        }
        LinkedFiles(s, t, p);
        assert t.calls[p].linked;
      }
    }
  }

  lemma LinkedFiles(s: State, t: State, p: Pid)
    requires Files(s) && OwnsTemp(s, p) && p in t.calls && t.calls == s.calls[p := t.calls[p]]
    requires t.calls[p] == s.calls[p].(step := Linked, linked := true)
    requires t == s.(calls := t.calls, fs := s.fs[Destination := s.calls[p].inode])
    ensures Files(t)
  {
    assert forall q :: OwnsTemp(t, q) <==> OwnsTemp(s, q);
    forall n | Temporary(n) in t.fs
      ensures exists q :: OwnsTemp(t, q) && t.calls[q].name == n && t.calls[q].inode == t.fs[Temporary(n)]
    {
      var q :| OwnsTemp(s, q) && s.calls[q].name == n && s.calls[q].inode == s.fs[Temporary(n)];
      assert OwnsTemp(t, q);
    }
  }

  lemma NoNameAfterRemoval(s: State, p: Pid, n: nat)
    requires Files(s) && OwnsTemp(s, p) && Temporary(n) in s.fs && n != s.calls[p].name
    ensures s.fs[Temporary(n)] != s.calls[p].inode
  {
    var q :| OwnsTemp(s, q) && s.calls[q].name == n && s.calls[q].inode == s.fs[Temporary(n)];
  }

  /** The steps that remove a temporary name. */
  predicate Removing(before: Step, after: Step) {
    || (before.Linked? && after.Unlinked?)
    || (before.Unlinked? && after.Returned?)
    || (before.Cleaning? && after.Raised?)
  }

  ghost predicate Removed(s: State, t: State, p: Pid) {
    && OwnsTemp(s, p) && OneRecord(s, t, p)
    && t.calls[p] == s.calls[p].(step := t.calls[p].step) && Removing(s.calls[p].step, t.calls[p].step)
    && t == s.(calls := t.calls, fs := s.fs - {Temporary(s.calls[p].name)})
  }

  lemma OwnCallAfterRemoval(s: State, t: State, p: Pid, payload: Pid -> Bytes)
    requires Files(s) && Removed(s, t, p) && CallOk(s, p, payload)
    ensures CallOk(t, p, payload)
  {
    forall n | Temporary(n) in t.fs ensures t.fs[Temporary(n)] != s.calls[p].inode {
      NoNameAfterRemoval(s, p, n);
    }
  }

  lemma OtherCallAfterRemoval(s: State, t: State, p: Pid, q: Pid, payload: Pid -> Bytes)
    requires Files(s) && Removed(s, t, p) && CallOk(s, p, payload)
    requires q in s.calls && q != p && CallOk(s, q, payload)
    ensures CallOk(t, q, payload)
  {
    assert OwnsTemp(s, q) ==> s.calls[q].inode != s.calls[p].inode;
    var name := s.calls[q].name;
    if Destination !in s.fs && Temporary(name) in s.fs && s.fs[Temporary(name)] != s.calls[p].inode {
      NoOtherFileIsLost(s, p, name, payload);
    }
    OtherCall(s, t, q, payload);
  }

  /** Without a receipt a name still leads to its own caller's inode, so no other file is lost. */
  lemma NoOtherFileIsLost(s: State, p: Pid, name: nat, payload: Pid -> Bytes)
    requires OwnsTemp(s, p) && CallOk(s, p, payload) && Destination !in s.fs
    requires s.calls[p].step.Linked? || s.calls[p].step.Unlinked? || s.calls[p].step.Cleaning?
    requires Temporary(name) in s.fs && s.fs[Temporary(name)] != s.calls[p].inode
    ensures name != s.calls[p].name
  {
  }

  /** Removing a temporary name, the second removal of the same name included. */
  lemma RemoveStep(s: State, t: State, p: Pid, payload: Pid -> Bytes)
    requires Inv(s, payload) && Removed(s, t, p)
    ensures Inv(t, payload)
  {
    OwnCallAfterRemoval(s, t, p, payload);
    forall q | q in t.calls ensures CallOk(t, q, payload) {
      if q != p { OtherCallAfterRemoval(s, t, p, q, payload); }
    }
    SameFiles(s, t, p);
    StillPublished(s, t, p);
  }

  lemma UnlinkAndFinallySteps(s: State, p: Pid, payload: Pid -> Bytes)
    requires Inv(s, payload) && p in s.calls
    ensures Inv(DoUnlink(s, p), payload) && Inv(DoFinally(s, p), payload)
  {
    assert CallOk(s, p, payload);
    var u, f := DoUnlink(s, p), DoFinally(s, p);
    if s.calls[p].step.Linked? {
      if Temporary(s.calls[p].name) in s.fs { RemoveStep(s, u, p, payload); } else { RecordStep(s, u, p, payload); }
    }
    if f != s { RemoveStep(s, f, p, payload); }
  }

  lemma StepKeepsInvariant(s: State, a: Action, payload: Pid -> Bytes)
    requires Inv(s, payload)
    ensures Inv(Apply(s, a, payload), payload)
  {
    match a
    case Check(p) => EntryAndExitSteps(s, p, payload);
    case Compensate(p) => EntryAndExitSteps(s, p, payload);
    case MakeTemp(p, name) => if p in s.calls { MakeTempStep(s, p, name, payload); }
    case Write(p, upTo) => if p in s.calls { WriteStep(s, p, upTo, payload); }
    case Link(p) => if p in s.calls { LinkStep(s, p, payload); }
    case Unlink(p) => if p in s.calls { UnlinkAndFinallySteps(s, p, payload); }
    case Finally(p) => if p in s.calls { UnlinkAndFinallySteps(s, p, payload); }
    case _ => if a.p in s.calls { AdvanceStep(s, a, payload); }
  }

  lemma {:induction false} RunKeepsInvariant(actions: seq<Action>, payload: Pid -> Bytes)
    ensures Inv(Run(actions, payload), payload)
  {
    if actions != [] {
      var init, last := actions[..|actions| - 1], actions[|actions| - 1];
      RunKeepsInvariant(init, payload);
      StepKeepsInvariant(Run(init, payload), last, payload);
    }
  }

  // ----- main results -----

  /** A reader sees no receipt or one caller's complete payload, whatever the interleaving. */
  lemma ReceiptIsWhole(actions: seq<Action>, payload: Pid -> Bytes)
    ensures var s := Run(actions, payload);
      Destination in s.fs ==>
        (exists p :: p in s.calls && s.calls[p].linked
                     && s.fs[Destination] in s.data && s.data[s.fs[Destination]] == payload(p))
  {
    RunKeepsInvariant(actions, payload);
    var s := Run(actions, payload);
    if Destination in s.fs {
      var p :| p in s.calls && s.calls[p].linked;
      assert CallOk(s, p, payload);
    }
  }

  lemma StepKeepsReceipt(s: State, a: Action, payload: Pid -> Bytes)
    requires Inv(s, payload) && Destination in s.fs && s.fs[Destination] in s.data
    ensures var t := Apply(s, a, payload);
      && Destination in t.fs && t.fs[Destination] == s.fs[Destination]
      && t.fs[Destination] in t.data && t.data[t.fs[Destination]] == s.data[s.fs[Destination]]
  {
    var w :| w in s.calls && s.calls[w].linked;
    assert CallOk(s, w, payload) && OwnsTemp(s, w);
    if a.p in s.calls {
      NotTheReceiptsInode(s, a.p, w, payload);
    }
  }

  /** A call that may write its file is not the one that linked the receipt. */
  lemma NotTheReceiptsInode(s: State, p: Pid, w: Pid, payload: Pid -> Bytes)
    requires Inv(s, payload) && p in s.calls && w in s.calls && s.calls[w].linked
    ensures s.fs[Destination] < s.next
    ensures s.calls[p].step.Writing? ==> s.fs[Destination] != s.calls[p].inode
  {
    assert CallOk(s, w, payload) && OwnsTemp(s, w) && CallOk(s, p, payload);
    if s.calls[p].step.Writing? { assert OwnsTemp(s, p) && p != w; }
  }

  /** Once a receipt is there, no later step of any caller replaces, removes or rewrites it. */
  lemma {:induction false} ReceiptNeverChanges(before: seq<Action>, after: seq<Action>, payload: Pid -> Bytes)
    requires Destination in Run(before, payload).fs
    ensures var s, t := Run(before, payload), Run(before + after, payload);
      && s.fs[Destination] in s.data
      && Destination in t.fs && t.fs[Destination] == s.fs[Destination]
      && t.fs[Destination] in t.data && t.data[t.fs[Destination]] == s.data[s.fs[Destination]]
    decreases |after|
  {
    ReceiptIsWhole(before, payload);
    if after == [] {
      assert before + after == before;
    } else {
      var m := |after| - 1;
      assert before + after == before + after[..m] + [after[m]];
      RunSnoc(before + after[..m], after[m], payload);
      ReceiptNeverChanges(before, after[..m], payload);
      RunKeepsInvariant(before + after[..m], payload);
      StepKeepsReceipt(Run(before + after[..m], payload), after[m], payload);
    }
  }

  /** At most one call publishes; a call that returns normally is the one that did. */
  lemma OnePublisher(actions: seq<Action>, payload: Pid -> Bytes, p: Pid, q: Pid)
    requires p in Run(actions, payload).calls && q in Run(actions, payload).calls
    ensures var s := Run(actions, payload);
      && (s.calls[p].linked && s.calls[q].linked ==> p == q)
      && (s.calls[p].step.Returned? ==> s.calls[p].linked)
      && (s.calls[p].linked ==>
            Destination in s.fs && s.fs[Destination] in s.data && s.data[s.fs[Destination]] == payload(p))
  {
    RunKeepsInvariant(actions, payload);
    var s := Run(actions, payload);
    assert CallOk(s, p, payload) && CallOk(s, q, payload);
    if s.calls[p].linked && s.calls[q].linked {
      assert OwnsTemp(s, p) && OwnsTemp(s, q);
    }
  }

  lemma RunSnoc(actions: seq<Action>, a: Action, payload: Pid -> Bytes)
    ensures Run(actions + [a], payload) == Apply(Run(actions, payload), a, payload)
  {
    assert (actions + [a])[..|actions|] == actions;
  }

  // ----- main: the archive beside the receipt -----

  ghost predicate OwnReceiptPublished(s: State, p: Pid) {
    OwnsTemp(s, p) && Destination in s.fs && s.fs[Destination] == s.calls[p].inode
  }

  /** `main` deletes its archive on any exception, so a published receipt has lost its archive
      exactly when the call failed after `os.link` had succeeded. */
  lemma OrphanedReceipts(actions: seq<Action>, payload: Pid -> Bytes, p: Pid)
    requires p in Run(actions, payload).calls
    ensures var s := Run(actions, payload);
      OwnReceiptPublished(s, p) && p !in s.archives <==> s.calls[p].linked && s.calls[p].step.Compensated?
  {
    RunKeepsInvariant(actions, payload);
    var s := Run(actions, payload);
    assert CallOk(s, p, payload);
    if OwnReceiptPublished(s, p) {
      var w :| w in s.calls && s.calls[w].linked;
      assert CallOk(s, w, payload) && OwnsTemp(s, w) && OwnsTemp(s, p);
      assert w == p;
    }
  }

  ghost predicate Untouched(s: State, t: State, q: Pid) {
    (q in s.calls <==> q in t.calls) && (q in s.calls ==> t.calls[q] == s.calls[q])
  }

  /** An action touches no record but its caller's. */
  lemma OtherRecordsStay(s: State, a: Action, payload: Pid -> Bytes, q: Pid)
    requires q != a.p
    ensures Untouched(s, Apply(s, a, payload), q)
  {
  }

  /** What follows `before` are undisturbed actions of `p` alone. */
  ghost predicate Continues(before: seq<Action>, actions: seq<Action>, p: Pid) {
    && before <= actions
    && forall i :: |before| <= i < |actions| ==> actions[i].p == p && !actions[i].Fail? && !actions[i].Kill?
  }

  /** One more action, seen by a bystander `q`. */
  lemma Extend(before: seq<Action>, a: Action, payload: Pid -> Bytes, q: Pid) returns (actions: seq<Action>)
    ensures actions == before + [a]
    ensures Run(actions, payload) == Apply(Run(before, payload), a, payload)
    ensures q != a.p ==> Untouched(Run(before, payload), Run(actions, payload), q)
  {
    actions := before + [a];
    RunSnoc(before, a, payload);
    if q != a.p { OtherRecordsStay(Run(before, payload), a, payload, q); }
  }

  /** A fresh caller, left alone, reaches its commit. */
  lemma RunToTheLink(before: seq<Action>, payload: Pid -> Bytes, p: Pid, n: nat, q: Pid)
    returns (actions: seq<Action>)
    requires var s := Run(before, payload); p !in s.calls && Temporary(n) !in s.fs && Destination !in s.fs
    ensures var s, t := Run(before, payload), Run(actions, payload);
      && p in t.calls && t.calls[p].step.Linked? && t.calls[p].name == n && p in t.archives
      && t.fs == s.fs[Temporary(n) := t.calls[p].inode][Destination := t.calls[p].inode]
      && (q != p ==> Untouched(s, t, q))
    ensures Continues(before, actions, p)
  {
    actions := RunToWriting(before, payload, p, n, q);
    actions := WriteAndLink(actions, payload, p, q);
  }

  lemma WriteAndLink(before: seq<Action>, payload: Pid -> Bytes, p: Pid, q: Pid) returns (actions: seq<Action>)
    requires var s := Run(before, payload);
      && p in s.calls && s.calls[p].step.Writing? && s.calls[p].written == 0
      && Temporary(s.calls[p].name) in s.fs && Destination !in s.fs
    ensures var s, t := Run(before, payload), Run(actions, payload);
      && p in t.calls && t.calls[p].step.Linked? && t.calls[p].name == s.calls[p].name
      && t.calls[p].inode == s.calls[p].inode && t.archives == s.archives
      && t.fs == s.fs[Destination := s.fs[Temporary(s.calls[p].name)]]
      && (q != p ==> Untouched(s, t, q))
    ensures Continues(before, actions, p)
  {
    actions := WriteToTheEnd(before, payload, p, q);
    actions := Extend(actions, Link(p), payload, q);
  }

  lemma WriteToTheEnd(before: seq<Action>, payload: Pid -> Bytes, p: Pid, q: Pid) returns (actions: seq<Action>)
    requires var s := Run(before, payload);
      && p in s.calls && s.calls[p].step.Writing? && s.calls[p].written == 0 && Temporary(s.calls[p].name) in s.fs
    ensures var s, t := Run(before, payload), Run(actions, payload);
      && p in t.calls && t.calls[p].step.Protected? && t.calls[p].name == s.calls[p].name
      && t.calls[p].inode == s.calls[p].inode && t.archives == s.archives && t.fs == s.fs
      && (q != p ==> Untouched(s, t, q))
    ensures Continues(before, actions, p)
  {
    actions := Extend(before, Write(p, |payload(p)|), payload, q);
    actions := Extend(actions, Sync(p), payload, q);
    actions := Extend(actions, Protect(p), payload, q);
  }

  lemma RunToWriting(before: seq<Action>, payload: Pid -> Bytes, p: Pid, n: nat, q: Pid)
    returns (actions: seq<Action>)
    requires var s := Run(before, payload); p !in s.calls && Temporary(n) !in s.fs && Destination !in s.fs
    ensures var s, t := Run(before, payload), Run(actions, payload);
      && p in t.calls && t.calls[p].step.Writing? && t.calls[p].name == n && t.calls[p].written == 0
      && t.fs == s.fs[Temporary(n) := t.calls[p].inode] && p in t.archives && (q != p ==> Untouched(s, t, q))
    ensures Continues(before, actions, p)
  {
    actions := Extend(before, Check(p), payload, q);
    actions := Extend(actions, MakeTemp(p, n), payload, q);
    actions := Extend(actions, EnterTry(p), payload, q);
  }

  lemma FailAfterLink(before: seq<Action>, payload: Pid -> Bytes, p: Pid) returns (actions: seq<Action>)
    requires p in Run(before, payload).calls && Run(before, payload).calls[p].step.Linked?
    ensures var s, t := Run(before, payload), Run(actions, payload);
      p in t.calls && t.calls[p].step.Compensated? && t.calls[p].linked == s.calls[p].linked
  {
    actions := Extend(before, Fail(p), payload, p);
    actions := Extend(actions, Finally(p), payload, p);
    actions := Extend(actions, Compensate(p), payload, p);
  }

  /** Such a run exists for every caller and payload: one interrupt between link and return. */
  lemma InterruptAfterLinkOrphansReceipt(payload: Pid -> Bytes, p: Pid, n: nat)
    ensures exists actions ::
      (var s := Run(actions, payload); p in s.calls && OwnReceiptPublished(s, p) && p !in s.archives)
  {
    var reached := RunToTheLink([], payload, p, n, p);
    RunKeepsInvariant(reached, payload);
    assert CallOk(Run(reached, payload), p, payload);
    var actions := FailAfterLink(reached, payload, p);
    OrphanedReceipts(actions, payload, p);
  }
}
