/** The bound of the audit log, under the worker's unlocked auditing: exactly when it holds, that it is
    broken for good once it is broken, and runs that break it. */
module ConfigAudit {
  import opened Common
  import opened ConfigStore

  /** The newest entries, at most 1000. */
  function NewestEntries(history: seq<Entry>): seq<Entry> {
    if |history| <= AUDIT_LIMIT then history else history[|history| - AUDIT_LIMIT..]
  }

  lemma NewestExactly(audit: seq<Entry>, history: seq<Entry>, due: nat)
    requires LogOk(audit, history, due)
    ensures audit == NewestEntries(history) <==> |audit| == if |history| < AUDIT_LIMIT then |history| else AUDIT_LIMIT
  {
  }

  // ---------- what audits underway will make of the log ----------

  /** How long the log will be when every audit underway is finished: a due drop makes up for its own
      append. */
  function Final(s: Store): nat {
    |s.audit| + Ahead(s)
  }

  /** The test of an audit does not find 1000 entries although the log has them already, the appends of
      audits underway included. */
  ghost predicate Blind(items: Items, s: Store, step: Step)
    requires Enabled(items, s, step)
  {
    Tests(items, s, step) && |s.audit| != AUDIT_LIMIT && Final(s) >= AUDIT_LIMIT
  }

  /** Only entries beyond the newest 1000 are ever dropped for good. */
  ghost predicate Enough(s: Store) {
    |s.audit| == |s.history| || Final(s) >= AUDIT_LIMIT
  }

  /** A drop or an append leaves the final length as it is; a test adds one to it exactly when it does
      not find 1000 entries. */
  lemma StepFinal(items: Items, s: Store, step: Step)
    requires Inv(items, s) && Enabled(items, s, step)
    ensures Final(Next(items, s, step)) ==
      Final(s) + if Tests(items, s, step) && |s.audit| != AUDIT_LIMIT then 1 else 0
    ensures Enough(s) ==> Enough(Next(items, s, step))
  {
    hide Next, Due, Ahead, Rests, Overlap, Inv;
    InvPhase(items, s);
    StepLog(items, s, step);
    if Drops(step) {
      DueDrop(items, s, step);
    }
  }

  lemma DueDrop(items: Items, s: Store, step: Step)
    requires Drops(step) && Enabled(items, s, step)
    ensures Due(s) > 0
  {
  }

  lemma InvPhase(items: Items, s: Store)
    requires Inv(items, s)
    ensures s.running.None? || s.auditing.NoAudit?
    ensures Due(s) > 0 ==> |s.history| >= AUDIT_LIMIT && |s.audit| >= AUDIT_LIMIT - 2 + Due(s)
    ensures |s.audit| <= |s.history|
  {
  }

  /** An append leaves exactly the newest entries, at most 1000, if and only if the log has all of a
      shorter history or 999 entries before it. While no test was blind this is so unless another audit
      is right before its own append to a full log. */
  lemma PushKeepsNewest(items: Items, s: Store, step: Step)
    requires Inv(items, s) && Enough(s) && Enabled(items, s, step) && Pushes(step)
    ensures var t := Next(items, s, step);
      && (t.audit == NewestEntries(t.history) <==>
            |s.audit| == if |s.history| < AUDIT_LIMIT then |s.history| else AUDIT_LIMIT - 1)
      && (Final(s) <= AUDIT_LIMIT ==>
            (t.audit == NewestEntries(t.history) <==> Ahead(t) == 0 || |t.history| < AUDIT_LIMIT))
  {
    hide Next, NewestEntries, Due, Ahead;
    var t := Next(items, s, step);
    StepKeepsInv(items, s, step);
    InvPhase(items, s);
    StepLog(items, s, step);
    StepFinal(items, s, step);
    NewestExactly(t.audit, t.history, Due(t));
  }

  // ---------- the bound over runs ----------

  /** No test of the run is blind. */
  ghost predicate Steady(items: Items, s: Store, steps: seq<Step>)
    decreases |steps|
  {
    steps == [] ||
    (Enabled(items, s, steps[0]) && !Blind(items, s, steps[0]) && Steady(items, Next(items, s, steps[0]), steps[1..]))
  }

  /** The final length never falls. */
  lemma {:induction false} FinalNeverFalls(items: Items, s: Store, steps: seq<Step>, t: Store)
    requires Inv(items, s) && Run(items, s, steps, t)
    ensures Final(t) >= Final(s) && (Enough(s) ==> Enough(t))
    decreases |steps|
  {
    hide Next, Enabled, Inv, Final, Enough;
    if steps != [] {
      StepKeepsInv(items, s, steps[0]);
      StepFinal(items, s, steps[0]);
      FinalNeverFalls(items, Next(items, s, steps[0]), steps[1..], t);
    }
  }

  lemma {:induction false} RunBounded(items: Items, s: Store, steps: seq<Step>, t: Store)
    requires Inv(items, s) && Final(s) <= AUDIT_LIMIT && Run(items, s, steps, t)
    ensures Final(t) <= AUDIT_LIMIT <==> Steady(items, s, steps)
    decreases |steps|
  {
    hide Next, Inv, Final, Tests;
    if steps != [] {
      var u := Next(items, s, steps[0]);
      StepKeepsInv(items, s, steps[0]);
      StepFinal(items, s, steps[0]);
      if Blind(items, s, steps[0]) {
        FinalNeverFalls(items, u, steps[1..], t);
      } else {
        RunBounded(items, u, steps[1..], t);
      }
    }
  }

  /** No state of the run has two audits underway. */
  ghost predicate Serial(items: Items, s: Store, steps: seq<Step>)
    decreases |steps|
  {
    && !Overlap(s)
    && (steps == [] || (Enabled(items, s, steps[0]) && Serial(items, Next(items, s, steps[0]), steps[1..])))
  }

  /** Only a worker that audits while a commit audits can make a test blind. */
  lemma {:induction false} SerialIsSteady(items: Items, s: Store, steps: seq<Step>)
    requires Inv(items, s) && Final(s) <= AUDIT_LIMIT && Serial(items, s, steps)
    ensures Steady(items, s, steps)
    decreases |steps|
  {
    hide Next, Inv, Tests, Overlap;
    if steps != [] {
      var u := Next(items, s, steps[0]);
      InvPhase(items, s);
      StepKeepsInv(items, s, steps[0]);
      StepLog(items, s, steps[0]);
      StepFinal(items, s, steps[0]);
      assert !Overlap(u);
      SerialIsSteady(items, u, steps[1..]);
    }
  }

  /** The log, every audit underway included, stays within 1000 entries if and only if no test of the
      run is blind; at rest it is then exactly the newest entries. None is blind at least when no two
      audits are ever underway together. */
  lemma LogBound(items: Items, s: Store, steps: seq<Step>, t: Store)
    requires Started(items, s) && Run(items, s, steps, t)
    ensures Final(t) <= AUDIT_LIMIT <==> Steady(items, s, steps)
    ensures Rests(t) ==> (t.audit == NewestEntries(t.history) <==> Steady(items, s, steps))
    ensures Rests(t) ==> (|t.audit| <= AUDIT_LIMIT <==> Steady(items, s, steps))
    ensures Serial(items, s, steps) ==> Steady(items, s, steps)
  {
    hide Run, Steady, Serial;
    StartedInv(items, s);
    RunBounded(items, s, steps, t);
    RunKeepsInv(items, s, steps, t);
    FinalNeverFalls(items, s, steps, t);
    NewestExactly(t.audit, t.history, Due(t));
    if Serial(items, s, steps) {
      SerialIsSteady(items, s, steps);
    }
  }

  /** A log that is longer than 1000 even without the entries due to be dropped loses only those: the
      others stay for ever, and every append makes it longer. */
  lemma {:induction false} OverflowIsForever(items: Items, s: Store, steps: seq<Step>, t: Store)
    requires Inv(items, s) && Run(items, s, steps, t) && |s.audit| - Due(s) > AUDIT_LIMIT
    ensures |t.audit| - Due(t) > AUDIT_LIMIT
    ensures s.audit[Due(s)..] <= t.audit[Due(t)..]
    ensures (|t.audit| - Due(t)) - (|s.audit| - Due(s)) == |t.history| - |s.history|
    decreases |steps|
  {
    hide Next, Inv, Due, Ahead, Tests;
    if steps != [] {
      var u := Next(items, s, steps[0]);
      InvPhase(items, s);
      StepLog(items, s, steps[0]);
      StepKeepsInv(items, s, steps[0]);
      if Drops(steps[0]) {
        DueDrop(items, s, steps[0]);
        assert s.audit[1..][Due(u)..] == s.audit[Due(s)..];
      }
      assert s.audit[Due(s)..] <= u.audit[Due(u)..];
      OverflowIsForever(items, u, steps[1..], t);
    }
  }

  // ---------- runs that break the bound ----------

  /** The i-th change of p. */
  function Count(i: nat): Entry {
    Entry("p", IntValue(i), IntValue(i + 1))
  }

  function Counts(n: nat): seq<Entry> {
    seq(n, i requires 0 <= i < n => Count(i))
  }

  function FillStart(): Store {
    Store(
      map["k" := IntValue(0), "p" := IntValue(0)],
      map["k" := Flags(true, false, false, false), "p" := Flags(true, false, false, false)],
      [], [], NoAudit, [], None, NoAudit, [], false)
  }

  /** A change of k waits in the worker; m changes of p are audited. */
  function FillState(m: nat): Store {
    Store(
      map["k" := IntValue(1), "p" := IntValue(m)],
      map["k" := Flags(true, false, false, true), "p" := Flags(true, false, false, m > 0)],
      Counts(m), Counts(m), NoAudit, [], Some(Entry("k", IntValue(0), IntValue(1))), NoAudit, [], false)
  }

  lemma {:induction false} RunMore(items: Items, s: Store, steps: seq<Step>, t: Store, step: Step)
    requires Run(items, s, steps, t) && Enabled(items, t, step)
    ensures Run(items, s, steps + [step], Next(items, t, step))
    decreases |steps|
  {
    hide Next, Enabled;
    if steps == [] {
      assert [step][1..] == [] && steps + [step] == [step];
    } else {
      assert (steps + [step])[0] == steps[0] && (steps + [step])[1..] == steps[1..] + [step];
      RunMore(items, Next(items, s, steps[0]), steps[1..], t, step);
    }
  }

  /** A commit of p that changes it. */
  lemma CommitOfP(s: Store, v: int)
    requires Known(SampleItems(), s) && s.storage["p"] != IntValue(v)
    requires s.flags["p"].runtime && !s.flags["p"].restart && !s.flags["p"].temporary
    ensures Commit(SampleItems(), s, "p", IntNode(v)).1 ==
      s.(storage := s.storage["p" := IntValue(v)],
         committing := Tested(s, Entry("p", s.storage["p"], IntValue(v))),
         flags := s.flags["p" := s.flags["p"].(dirty := true)])
  {
  }

  lemma FillFirst() returns (steps: seq<Step>)
    ensures Run(SampleItems(), FillStart(), steps, FillState(0))
  {
    hide Run, Commit;
    steps := [];
    assert Run(SampleItems(), FillStart(), steps, FillStart()) by {
      NoSteps(SampleItems(), FillStart());
    }
    SampleCommit(FillStart(), 1);
    RunMore(SampleItems(), FillStart(), steps, FillStart(), CommitStep("k", IntNode(1)));
    steps := steps + [CommitStep("k", IntNode(1))];
    var s := Next(SampleItems(), FillStart(), CommitStep("k", IntNode(1)));
    RunMore(SampleItems(), FillStart(), steps, s, WorkerPop);
    steps := steps + [WorkerPop];
    assert Next(SampleItems(), s, WorkerPop) == FillState(0);
  }

  lemma NoSteps(items: Items, s: Store)
    ensures Run(items, s, [], s)
  {
  }

  /** One more change of p is committed and audited. */
  lemma FillMore(m: nat)
    requires m < 1000
    ensures var step := CommitStep("p", IntNode(m + 1));
      && Enabled(SampleItems(), FillState(m), step)
      && var s := Next(SampleItems(), FillState(m), step);
      Enabled(SampleItems(), s, CommitPush) && Next(SampleItems(), s, CommitPush) == FillState(m + 1)
  {
    hide Commit;
    CommitOfP(FillState(m), m + 1);
    assert Counts(m) + [Count(m)] == Counts(m + 1);
  }

  lemma {:induction false} Fill(m: nat) returns (steps: seq<Step>)
    requires m <= 1000
    ensures Run(SampleItems(), FillStart(), steps, FillState(m))
  {
    hide Run, Next, Enabled, FillState, FillStart, SampleItems;
    if m == 0 {
      steps := FillFirst();
    } else {
      steps := Fill(m - 1);
      FillMore(m - 1);
      var step := CommitStep("p", IntNode(m));
      RunMore(SampleItems(), FillStart(), steps, FillState(m - 1), step);
      RunMore(SampleItems(), FillStart(), steps + [step], Next(SampleItems(), FillState(m - 1), step), CommitPush);
      steps := steps + [step] + [CommitPush];
    }
  }

  /** The worker tests a log of m entries, and then a commit does. */
  lemma BothTest(m: nat) returns (steps: seq<Step>, t: Store)
    requires m <= 1000
    ensures Run(SampleItems(), FillStart(), steps, t) && t.audit == t.history == Counts(m)
    ensures t.running.None? && Known(SampleItems(), t)
    ensures t.storage["p"] == IntValue(m + 1) && t.flags["p"] == Flags(true, false, false, true)
    ensures if m == 1000 then t.auditing.Dropping? && t.committing.Dropping?
            else t.auditing.Appending? && t.committing.Appending?
  {
    hide Run, Commit;
    steps := Fill(m);
    RunMore(SampleItems(), FillStart(), steps, FillState(m), WorkerFinish(0));
    t := Next(SampleItems(), FillState(m), WorkerFinish(0));
    steps := steps + [WorkerFinish(0)];
    CommitOfP(t, m + 1);
    RunMore(SampleItems(), FillStart(), steps, t, CommitStep("p", IntNode(m + 1)));
    t := Next(SampleItems(), t, CommitStep("p", IntNode(m + 1)));
    steps := steps + [CommitStep("p", IntNode(m + 1))];
  }

  /** Both find 999 entries and append: at rest the log has 1001. */
  lemma OverflowReachable() returns (steps: seq<Step>, t: Store)
    ensures Started(SampleItems(), FillStart()) && Run(SampleItems(), FillStart(), steps, t)
    ensures Rests(t) && |t.audit| == 1001 && !Steady(SampleItems(), FillStart(), steps)
  {
    hide Run, Steady;
    steps, t := BothTest(999);
    RunMore(SampleItems(), FillStart(), steps, t, CommitPush);
    t, steps := Next(SampleItems(), t, CommitPush), steps + [CommitPush];
    RunMore(SampleItems(), FillStart(), steps, t, WorkerPush);
    t, steps := Next(SampleItems(), t, WorkerPush), steps + [WorkerPush];
    LogBound(SampleItems(), FillStart(), steps, t);
  }

  /** A drop decided before the overflow still happens: a log of 1001 entries goes back to 1000, and
      yet the bound is broken. */
  lemma DropAfterOverflow() returns (steps: seq<Step>, s: Store, t: Store)
    ensures Started(SampleItems(), FillStart()) && Run(SampleItems(), FillStart(), steps, s)
    ensures |s.audit| == 1001 && Enabled(SampleItems(), s, CommitDrop) && t == Next(SampleItems(), s, CommitDrop)
    ensures |t.audit| == 1000 && Final(t) == 1001
  {
    hide Run, Commit;
    steps, s := BothTest(999);
    RunMore(SampleItems(), FillStart(), steps, s, CommitPush);
    s, steps := Next(SampleItems(), s, CommitPush), steps + [CommitPush];
    CommitOfP(s, 1001);
    RunMore(SampleItems(), FillStart(), steps, s, CommitStep("p", IntNode(1001)));
    s, steps := Next(SampleItems(), s, CommitStep("p", IntNode(1001))), steps + [CommitStep("p", IntNode(1001))];
    RunMore(SampleItems(), FillStart(), steps, s, WorkerPush);
    s, steps := Next(SampleItems(), s, WorkerPush), steps + [WorkerPush];
    t := Next(SampleItems(), s, CommitDrop);
  }

  /** Both find 1000 entries and drop: the log has 998 for a moment. */
  lemma LowReachable() returns (steps: seq<Step>, t: Store)
    ensures Started(SampleItems(), FillStart()) && Run(SampleItems(), FillStart(), steps, t)
    ensures |t.audit| == 998 && |t.history| == 1000
  {
    hide Run;
    steps, t := BothTest(1000);
    RunMore(SampleItems(), FillStart(), steps, t, WorkerDrop);
    t, steps := Next(SampleItems(), t, WorkerDrop), steps + [WorkerDrop];
    RunMore(SampleItems(), FillStart(), steps, t, CommitDrop);
    t, steps := Next(SampleItems(), t, CommitDrop), steps + [CommitDrop];
  }
}
