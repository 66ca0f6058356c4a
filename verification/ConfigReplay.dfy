/** Replaying the audit log: the audited changes of a key lead to what its storage holds, exactly until
    the worker rolls the key back over a later queued change. */
module ConfigReplay {
  import opened Common
  import opened ConfigStore

  /** The value of a key after its audited changes. */
  function Settled(history: seq<Entry>, key: Key, first: Value): Value {
    if history == [] then first
    else if history[|history| - 1].key == key then history[|history| - 1].now
    else Settled(history[..|history| - 1], key, first)
  }

  /** Every audited change of the key starts from where the one before ended. */
  ghost predicate Chained(history: seq<Entry>, key: Key, first: Value) {
    history == [] ||
    var front, e := history[..|history| - 1], history[|history| - 1];
    Chained(front, key, first) && (e.key == key ==> e.was == Settled(front, key, first))
  }

  /** The key's tasks lead from one value to the other. */
  ghost predicate Leads(tasks: seq<Entry>, key: Key, from: Value, to: Value) {
    if tasks == [] then from == to
    else if tasks[0].key == key then tasks[0].was == from && Leads(tasks[1..], key, tasks[0].now, to)
    else Leads(tasks[1..], key, from, to)
  }

  /** Audited changes, then the changes still in flight, lead from the first value to the storage. */
  ghost predicate Linked(s: Store, key: Key, first: Value) {
    && key in s.storage
    && Chained(s.history, key, first)
    && Leads(InFlight(s), key, Settled(s.history, key, first), s.storage[key])
  }

  ghost predicate HasTask(tasks: seq<Entry>, key: Key) {
    exists e :: e in tasks && e.key == key
  }

  /** The worker rolls the key back although a later change of it is queued. */
  ghost predicate Clobbers(s: Store, step: Step, key: Key) {
    step.WorkerFinish? && step.result != 0 && s.running.Some? && s.running.value.key == key && HasTask(s.queue, key)
  }

  lemma LeadsCons(e: Entry, tasks: seq<Entry>, key: Key, from: Value, to: Value)
    ensures Leads([e] + tasks, key, from, to)
       <==> if e.key == key then e.was == from && Leads(tasks, key, e.now, to) else Leads(tasks, key, from, to)
  {
    assert ([e] + tasks)[1..] == tasks;
  }

  lemma {:induction false} LeadsMore(tasks: seq<Entry>, e: Entry, key: Key, from: Value, to: Value)
    requires Leads(tasks, key, from, to) && (e.key == key ==> e.was == to)
    ensures Leads(tasks + [e], key, from, if e.key == key then e.now else to)
  {
    if tasks == [] {
      assert tasks + [e] == [e];
    } else {
      assert (tasks + [e])[0] == tasks[0] && (tasks + [e])[1..] == tasks[1..] + [e];
      LeadsMore(tasks[1..], e, key, if tasks[0].key == key then tasks[0].now else from, to);
    }
  }

  /** Without a task of the key there is nowhere to lead to; with one, the start is fixed. */
  lemma {:induction false} LeadsFrom(tasks: seq<Entry>, key: Key, from: Value, to: Value)
    requires Leads(tasks, key, from, to)
    ensures !HasTask(tasks, key) ==> from == to && forall v :: Leads(tasks, key, v, v)
    ensures HasTask(tasks, key) ==> forall v, w :: v != from ==> !Leads(tasks, key, v, w)
  {
    if tasks != [] {
      if tasks[0].key == key {
        assert tasks[0] in tasks;
      } else {
        LeadsFrom(tasks[1..], key, from, to);
        assert HasTask(tasks, key) <==> HasTask(tasks[1..], key) by {
          assert forall e :: e in tasks <==> e == tasks[0] || e in tasks[1..];
        }
      }
    }
  }

  lemma PushedChain(h: seq<Entry>, e: Entry, key: Key, first: Value)
    requires Chained(h, key, first) && (e.key == key ==> e.was == Settled(h, key, first))
    ensures Chained(h + [e], key, first)
    ensures Settled(h + [e], key, first) == if e.key == key then e.now else Settled(h, key, first)
  {
    assert (h + [e])[..|h + [e]| - 1] == h;
  }

  lemma ChangeKeepsLink(item: Item, s: Store, key: Key, v: Value, k: Key, first: Value)
    requires key in s.storage && key in s.flags && s.committing.NoAudit? && Linked(s, k, first)
    requires !item.onChange ==> !HasTask(InFlight(s), key)
    ensures Linked(Changed(item, s, key, v), k, first)
  {
    hide Chained, Settled, InFlight, Changed;
    var e, from := Entry(key, s.storage[key], v), Settled(s.history, k, first);
    ChangedFields(item, s, key, v);
    ChangeInFlight(item, s, key, v);
    if item.onChange {
      LeadsMore(InFlight(s), e, k, from, s.storage[k]);
    } else {
      LeadsCons(e, InFlight(s), k, from, Changed(item, s, key, v).storage[k]);
      LeadsFrom(InFlight(s), k, from, s.storage[k]);
    }
  }

  lemma CommitKeepsLink(items: Items, s: Store, key: Key, node: Node, k: Key, first: Value)
    requires Inv(items, s) && s.committing.NoAudit? && Linked(s, k, first)
    ensures Linked(Commit(items, s, key, node).1, k, first)
  {
    hide Linked, Changed, StoreOk, LogOk;
    assert Known(items, s) by {
      KnownIfOk(items, s);
    }
    var t := Commit(items, s, key, node).1;
    if t != s {
      if !items[key].onChange {
        NoTask(items, s, key);
      }
      ChangeKeepsLink(items[key], s, key, items[key].parse(node, s.storage[key]).1, k, first);
    }
  }

  /** The worker never sees an item without `on_change`. */
  lemma NoTask(items: Items, s: Store, key: Key)
    requires Inv(items, s) && key in items && !items[key].onChange
    ensures !HasTask(Tasks(s), key) && (s.committing.NoAudit? ==> !HasTask(InFlight(s), key))
  {
    assert forall e :: e in Tasks(s) ==> EntryOk(items, e, true);
    assert s.committing.NoAudit? ==> InFlight(s) == Tasks(s);
  }

  lemma CommitPushKeepsLink(s: Store, k: Key, first: Value)
    requires s.committing.Appending? && Linked(s, k, first)
    ensures Linked(CommitPushed(s), k, first)
  {
    hide Chained, Settled, Leads;
    var e, t := s.committing.entry, CommitPushed(s);
    assert InFlight(s) == [e] + Tasks(s) && InFlight(t) == Tasks(s);
    LeadsCons(e, Tasks(s), k, Settled(s.history, k, first), s.storage[k]);
    PushedChain(s.history, e, k, first);
  }

  lemma WorkerPushKeepsLink(items: Items, s: Store, k: Key, first: Value)
    requires Inv(items, s) && s.auditing.Appending? && Linked(s, k, first)
    ensures Linked(WorkerPushed(s), k, first)
  {
    hide Chained, Settled, Leads, LogOk;
    var e, t, from, to := s.auditing.entry, WorkerPushed(s), Settled(s.history, k, first), s.storage[k];
    assert Tasks(s) == [e] + s.queue && Tasks(t) == s.queue;
    assert EntryOk(items, Tasks(s)[0], true);
    if !s.committing.NoAudit? {
      var c := s.committing.entry;
      assert InFlight(s) == [c] + Tasks(s) && InFlight(t) == [c] + s.queue;
      LeadsCons(c, Tasks(s), k, from, to);
      LeadsCons(c, s.queue, k, if e.key == k then e.now else from, to);
      LeadsCons(e, s.queue, k, if c.key == k then c.now else from, to);
    } else {
      assert InFlight(s) == Tasks(s) && InFlight(t) == s.queue;
      LeadsCons(e, s.queue, k, from, to);
    }
    PushedChain(s.history, e, k, first);
  }

  /** When the worker finishes a task, replaying stays right exactly unless it clobbers. */
  lemma FinishLink(items: Items, s: Store, result: int, k: Key, first: Value)
    requires Inv(items, s) && Enabled(items, s, WorkerFinish(result)) && Linked(s, k, first)
    ensures Linked(Finished(s, result), k, first) <==> !Clobbers(s, WorkerFinish(result), k)
  {
    hide Chained, Settled;
    var task, t := s.running.value, Finished(s, result);
    var from := Settled(s.history, k, first);
    if result == 0 {
      assert InFlight(t) == InFlight(s);
    } else {
      assert InFlight(s)[0] == task && InFlight(s)[1..] == s.queue && InFlight(t) == s.queue;
      assert EntryOk(items, Tasks(s)[0], true);
      if task.key == k {
        LeadsFrom(s.queue, k, task.now, s.storage[k]);
      }
    }
  }

  /** From a linked state, a step keeps the key linked if and only if it does not clobber it. */
  lemma StepLink(items: Items, s: Store, step: Step, k: Key, first: Value)
    requires Inv(items, s) && Enabled(items, s, step) && Linked(s, k, first)
    ensures Linked(Next(items, s, step), k, first) <==> !Clobbers(s, step, k)
  {
    hide Chained, Settled, Leads, Inv, Commit;
    match step
    case CommitStep(key, node) => CommitKeepsLink(items, s, key, node, k, first);
    case CommitPush => CommitPushKeepsLink(s, k, first);
    case WorkerFinish(result) => FinishLink(items, s, result, k, first);
    case WorkerPush => WorkerPushKeepsLink(items, s, k, first);
    case _ => assert InFlight(Next(items, s, step)) == InFlight(s);
  }

  /** No step of the run rolls the key back over a later queued change. */
  ghost predicate CleanRun(items: Items, s: Store, steps: seq<Step>, k: Key)
    decreases |steps|
  {
    steps == [] ||
    (Enabled(items, s, steps[0]) && !Clobbers(s, steps[0], k)
     && CleanRun(items, Next(items, s, steps[0]), steps[1..], k))
  }

  /** Replaying is right in every state of the run. */
  ghost predicate LinkedThroughout(items: Items, s: Store, steps: seq<Step>, k: Key, first: Value)
    decreases |steps|
  {
    && Linked(s, k, first)
    && (steps == [] ||
        (Enabled(items, s, steps[0]) && LinkedThroughout(items, Next(items, s, steps[0]), steps[1..], k, first)))
  }

  /** Replaying is right in every state of a run if and only if no step of it clobbers the key. */
  lemma {:induction false} LinkedExactlyIfClean(
    items: Items, s: Store, steps: seq<Step>, t: Store, k: Key, first: Value)
    requires Inv(items, s) && Linked(s, k, first) && Run(items, s, steps, t)
    ensures LinkedThroughout(items, s, steps, k, first) <==> CleanRun(items, s, steps, k)
    ensures CleanRun(items, s, steps, k) ==> Linked(t, k, first)
    decreases |steps|
  {
    hide Inv, Enabled, Next, Linked, Clobbers;
    if steps != [] {
      var u := Next(items, s, steps[0]);
      StepKeepsInv(items, s, steps[0]);
      StepLink(items, s, steps[0], k, first);
      if Linked(u, k, first) {
        LinkedExactlyIfClean(items, u, steps[1..], t, k, first);
      }
    }
  }

  /** Runs never clobber an item without `on_change`. */
  lemma {:induction false} PlainItemsClean(items: Items, s: Store, steps: seq<Step>, t: Store, k: Key)
    requires Inv(items, s) && Run(items, s, steps, t) && k in items && !items[k].onChange
    ensures CleanRun(items, s, steps, k)
    decreases |steps|
  {
    hide Enabled, Next;
    if steps != [] {
      NoTask(items, s, k);
      assert s.running.Some? ==> Tasks(s)[0] == s.running.value;
      StepKeepsInv(items, s, steps[0]);
      PlainItemsClean(items, Next(items, s, steps[0]), steps[1..], t, k);
    }
  }

  // ---------- the audit log as it is read ----------

  ghost predicate NoneBetween(log: seq<Entry>, i: nat, j: nat, key: Key)
    requires j <= |log|
  {
    forall m :: i < m < j ==> log[m].key != key
  }

  /** In the log, each change of the key starts where the previous one ended, and the last one
      ended at the given value. */
  ghost predicate Replays(log: seq<Entry>, key: Key, final: Value) {
    && (forall i, j :: 0 <= i < j < |log| && log[i].key == log[j].key == key && NoneBetween(log, i, j, key)
          ==> log[j].was == log[i].now)
    && (forall i :: 0 <= i < |log| && log[i].key == key && NoneBetween(log, i, |log|, key) ==> log[i].now == final)
  }

  lemma {:induction false} SettledAt(h: seq<Entry>, key: Key, first: Value, i: nat)
    requires i < |h| && h[i].key == key && NoneBetween(h, i, |h|, key)
    ensures Settled(h, key, first) == h[i].now
    decreases |h|
  {
    if i < |h| - 1 {
      var front := h[..|h| - 1];
      assert NoneBetween(front, i, |front|, key);
      SettledAt(front, key, first, i);
    }
  }

  lemma {:induction false} ChainedAt(h: seq<Entry>, key: Key, first: Value, j: nat)
    requires Chained(h, key, first) && j < |h| && h[j].key == key
    ensures h[j].was == Settled(h[..j], key, first)
    decreases |h|
  {
    if j < |h| - 1 {
      var front := h[..|h| - 1];
      ChainedAt(front, key, first, j);
      assert front[..j] == h[..j];
    }
  }

  lemma ChainedReplays(h: seq<Entry>, key: Key, first: Value)
    requires Chained(h, key, first)
    ensures Replays(h, key, Settled(h, key, first))
  {
    hide Settled, Chained;
    forall i, j | 0 <= i < j < |h| && h[i].key == h[j].key == key && NoneBetween(h, i, j, key)
      ensures h[j].was == h[i].now
    {
      ChainedAt(h, key, first, j);
      assert NoneBetween(h[..j], i, j, key);
      SettledAt(h[..j], key, first, i);
    }
    forall i | 0 <= i < |h| && h[i].key == key && NoneBetween(h, i, |h|, key)
      ensures h[i].now == Settled(h, key, first)
    {
      SettledAt(h, key, first, i);
    }
  }

  lemma EndReplays(h: seq<Entry>, key: Key, final: Value, n: nat)
    requires Replays(h, key, final) && n <= |h|
    ensures Replays(h[n..], key, final)
  {
    var log := h[n..];
    forall i, j | 0 <= i < j < |log| && log[i].key == log[j].key == key && NoneBetween(log, i, j, key)
      ensures log[j].was == log[i].now
    {
      assert forall m :: n + i < m < n + j ==> h[m] == log[m - n];
      assert NoneBetween(h, n + i, n + j, key);
    }
    forall i | 0 <= i < |log| && log[i].key == key && NoneBetween(log, i, |log|, key)
      ensures log[i].now == final
    {
      assert forall m :: n + i < m < |h| ==> h[m] == log[m - n];
      assert NoneBetween(h, n + i, |h|, key);
    }
  }

  /** The log of a key is right after a clean run, once no change of the key is in flight: replaying
      everything audited gives the storage, and what the log still shows chains up to it. */
  lemma CleanRunAudit(items: Items, s: Store, steps: seq<Step>, t: Store, k: Key)
    requires Started(items, s) && Run(items, s, steps, t) && k in items && CleanRun(items, s, steps, k)
    requires !HasTask(InFlight(t), k)
    ensures k in t.storage && Settled(t.history, k, s.storage[k]) == t.storage[k]
    ensures Replays(t.audit, k, t.storage[k])
  {
    hide Replays, Settled, Chained, Run, CleanRun, Leads, InFlight, Started;
    KeysKnown(items, s, k);
    var first := s.storage[k];
    StartedInv(items, s);
    StartedLinked(items, s, k);
    RunIsSafe(items, s, steps, t);
    LinkedExactlyIfClean(items, s, steps, t, k, first);
    LeadsFrom(InFlight(t), k, Settled(t.history, k, first), t.storage[k]);
    ChainedReplays(t.history, k, first);
    EndReplays(t.history, k, t.storage[k], |t.history| - |t.audit|);
  }

  lemma KeysKnown(items: Items, s: Store, k: Key)
    requires Started(items, s) && k in items
    ensures k in s.storage
  {
  }

  lemma StartedLinked(items: Items, s: Store, k: Key)
    requires Started(items, s) && k in items
    ensures Linked(s, k, s.storage[k])
  {
    assert InFlight(s) == [];
  }

  /** Items without `on_change` satisfy this after every run, unless a commit of the item has yet to
      append its entry. */
  lemma PlainItemAudit(items: Items, s: Store, steps: seq<Step>, t: Store, k: Key)
    requires Started(items, s) && Run(items, s, steps, t) && k in items && !items[k].onChange
    requires t.committing.NoAudit? || t.committing.entry.key != k
    ensures k in t.storage && Settled(t.history, k, s.storage[k]) == t.storage[k]
    ensures Replays(t.audit, k, t.storage[k])
  {
    StartedInv(items, s);
    PlainItemsClean(items, s, steps, t, k);
    RunKeepsInv(items, s, steps, t);
    NoTask(items, t, k);
    CleanRunAudit(items, s, steps, t, k);
  }

  // ---------- a clobbering run ----------

  function SampleSteps(): seq<Step> {
    [CommitStep("k", IntNode(2)), CommitStep("k", IntNode(3)), WorkerPop, WorkerFinish(-1), WorkerPop, WorkerFinish(0),
     WorkerPush]
  }

  /** The state after n of these steps. */
  function SampleState(n: nat): Store {
    var e1, e2 := Entry("k", IntValue(1), IntValue(2)), Entry("k", IntValue(2), IntValue(3));
    Store(
      map["k" := IntValue(if n == 1 then 2 else if n == 2 || n == 3 then 3 else 1), "p" := IntValue(0)],
      map["k" := Flags(true, false, false, n > 0), "p" := Flags(true, false, false, false)],
      if n == 7 then [e2] else [],
      if n == 7 then [e2] else [],
      NoAudit,
      if n == 1 then [e1] else if n == 2 then [e1, e2] else if n == 3 || n == 4 then [e2] else [],
      if n == 3 then Some(e1) else if n == 5 then Some(e2) else None,
      if n == 6 then Appending(e2) else NoAudit,
      [],
      false)
  }

  lemma SampleStep(n: nat)
    requires n < 7
    ensures Enabled(SampleItems(), SampleState(n), SampleSteps()[n])
    ensures Next(SampleItems(), SampleState(n), SampleSteps()[n]) == SampleState(n + 1)
  {
    if n < 2 {
      hide Commit;
      SampleCommit(SampleState(n), n + 2);
    } else {
      SampleWorker(n);
    }
  }

  lemma SampleWorker(n: nat)
    requires 2 <= n < 7
    ensures Enabled(SampleItems(), SampleState(n), SampleSteps()[n])
    ensures Next(SampleItems(), SampleState(n), SampleSteps()[n]) == SampleState(n + 1)
  {
    hide Commit, SampleItem;
  }

  lemma {:induction false} SampleRun(n: nat)
    requires n <= 7
    ensures Run(SampleItems(), SampleState(n), SampleSteps()[n..], SampleState(7))
    decreases 7 - n
  {
    hide SampleState, SampleItems, Next, Enabled;
    if n < 7 {
      SampleStep(n);
      SampleRun(n + 1);
      assert SampleSteps()[n..][1..] == SampleSteps()[n + 1..];
    }
  }

  /** Two commits 1 -> 2 -> 3 of an `on_change` item; the worker rolls the first back and accepts
      the second: the storage is 1 while the only audited change ends at 3. */
  lemma RollbackBreaksAudit()
    ensures Started(SampleItems(), SampleState(0))
    ensures Run(SampleItems(), SampleState(0), SampleSteps(), SampleState(7))
    ensures SampleState(7).storage["k"] == IntValue(1)
    ensures SampleState(7).audit == [Entry("k", IntValue(2), IntValue(3))]
  {
    hide Run;
    SampleRun(0);
    assert SampleSteps()[0..] == SampleSteps();
  }
}
