/** Commits, the change worker and the audit log of the config library, as a transition system.
    A commit holds the writer lock; the worker takes a task, runs `on_change` without the lock,
    and only then rolls back or audits, so commits may happen in between. An audit tests the length
    of the log, drops the oldest entry if the test found the log full, and appends. The worker does
    this without the lock, so its steps and those of a commit mix. */
module ConfigStore {
  import opened Common

  type Key = string

  datatype Kind = BoolKind | Int8Kind | Int16Kind | Int32Kind | Int64Kind | FloatKind | DoubleKind | StringKind

  /** What a storage holds; a string may be absent. */
  datatype Value = BoolValue(b: bool) | IntValue(i: int) | RealValue(r: real) | StringValue(s: Option<string>)

  datatype Node =
    | NullNode
    | BoolNode(b: bool)
    | IntNode(i: int)
    | DoubleNode(r: real)
    | StringNode(s: string)
    | ArrayNode(elements: seq<Node>)
    | ObjectNode(members: map<string, Node>)

  /** Whether `json_node_get_value_type` of the node is the type of the item. */
  predicate TypeMatches(kind: Kind, node: Node) {
    match kind
    case BoolKind => node.BoolNode?
    case FloatKind | DoubleKind => node.DoubleNode?
    case StringKind => node.StringNode?
    case _ => node.IntNode?
  }

  datatype Flags = Flags(runtime: bool, restart: bool, temporary: bool, dirty: bool)

  /** The fixed part of an item. `parse` is its `from_json`: a return code and what it leaves in
      the storage, also when it fails. `show` is its `to_json`, which may fail. */
  datatype Item = Item(
    kind: Kind,
    parse: (Node, Value) -> (int, Value),
    show: Value -> Option<Node>,
    validator: Option<Value -> int>,
    onChange: bool)

  datatype Entry = Entry(key: Key, was: Value, now: Value)

  /** An audit underway: its test found the log full, and its drop is due; or it appends next. */
  datatype Audit = NoAudit | Dropping(entry: Entry) | Appending(entry: Entry)

  /** `history` is every entry ever audited; `running` is the task whose `on_change` is running.
      `committing` and `auditing` are the audits of the commit and of the worker. */
  datatype Store = Store(
    storage: map<Key, Value>,
    flags: map<Key, Flags>,
    audit: seq<Entry>,
    history: seq<Entry>,
    committing: Audit,
    queue: seq<Entry>,
    running: Option<Entry>,
    auditing: Audit,
    restartReasons: seq<Key>,
    needsRestart: bool)

  const AUDIT_LIMIT := 1000
  const EINVAL := 22

  type Items = map<Key, Item>

  ghost predicate Known(items: Items, s: Store) {
    items.Keys <= s.storage.Keys && items.Keys <= s.flags.Keys
  }

  /** `cfg_audit_record`, the first step: a log of exactly 1000 entries must lose its oldest. */
  function Tested(s: Store, e: Entry): Audit {
    if |s.audit| == AUDIT_LIMIT then Dropping(e) else Appending(e)
  }

  /** The second step: the oldest entry goes. */
  function Dropped(s: Store): Store {
    if s.audit == [] then s else s.(audit := s.audit[1..])
  }

  /** The third step: the entry is appended. */
  function Pushed(s: Store, e: Entry): Store {
    s.(audit := s.audit + [e], history := s.history + [e])
  }

  predicate Accepts(item: Item, v: Value) {
    item.validator.Some? ==> item.validator.value(v) == 0
  }

  /** `cfg_commit_value`: the return code and the new state. A commit that audits has only
      tested the log so far. */
  function CommitValue(item: Item, s: Store, key: Key, node: Node): (int, Store)
    requires key in s.storage && key in s.flags
  {
    var was := s.storage[key];
    var (code, now) := item.parse(node, was);
    if !TypeMatches(item.kind, node) then (-EINVAL, s)
    else if code != 0 then (-1, s)
    else if now == was then (0, s)
    else if !Accepts(item, now) then (-2, s)
    else (0, Changed(item, s, key, now))
  }

  /** The effects of a commit that goes through. */
  function Changed(item: Item, s: Store, key: Key, v: Value): Store
    requires key in s.storage && key in s.flags
  {
    var e := Entry(key, s.storage[key], v);
    var t := Announced(item, s.(storage := s.storage[key := v]), e);
    DirtyMarked(RestartNoted(t, key), key)
  }

  /** `on_change` items are queued for the worker, the others are audited. */
  function Announced(item: Item, s: Store, e: Entry): Store {
    if item.onChange then s.(queue := s.queue + [e]) else s.(committing := Tested(s, e))
  }

  function RestartNoted(s: Store, key: Key): Store
    requires key in s.flags
  {
    if s.flags[key].restart then s.(needsRestart := true, restartReasons := s.restartReasons + [key]) else s
  }

  function DirtyMarked(s: Store, key: Key): Store
    requires key in s.flags
  {
    if s.flags[key].temporary then s else s.(flags := s.flags[key := s.flags[key].(dirty := true)])
  }

  /** `cfg_commit_node_by_key`. */
  function Commit(items: Items, s: Store, key: Key, node: Node): (int, Store)
    requires Known(items, s)
  {
    if key in items && s.flags[key].runtime then CommitValue(items[key], s, key, node) else (-1, s)
  }

  datatype Step =
    | CommitStep(key: Key, node: Node)
    | CommitDrop
    | CommitPush
    | WorkerPop
    | WorkerFinish(result: int)
    | WorkerDrop
    | WorkerPush

  /** While a commit holds the lock, no other commit and no rollback can start. */
  ghost predicate Enabled(items: Items, s: Store, step: Step) {
    match step
    case CommitStep(_, _) => Known(items, s) && s.committing.NoAudit?
    case CommitDrop => s.committing.Dropping?
    case CommitPush => s.committing.Appending?
    case WorkerPop => s.running.None? && s.auditing.NoAudit? && s.queue != []
    case WorkerFinish(result) => s.running.Some? && (result != 0 ==> s.committing.NoAudit?)
    case WorkerDrop => s.auditing.Dropping?
    case WorkerPush => s.auditing.Appending?
  }

  ghost function Next(items: Items, s: Store, step: Step): Store
    requires Enabled(items, s, step)
  {
    match step
    case CommitStep(key, node) => Commit(items, s, key, node).1
    case CommitDrop => CommitDropped(s)
    case CommitPush => CommitPushed(s)
    case WorkerPop => s.(running := Some(s.queue[0]), queue := s.queue[1..])
    case WorkerFinish(result) => Finished(s, result)
    case WorkerDrop => WorkerDropped(s)
    case WorkerPush => WorkerPushed(s)
  }

  /** `on_change` has returned: the worker rolls back, or tests the log. */
  function Finished(s: Store, result: int): Store
    requires s.running.Some?
  {
    var task, t := s.running.value, s.(running := None);
    if result != 0 then t.(storage := t.storage[task.key := task.was]) else t.(auditing := Tested(t, task))
  }

  function CommitDropped(s: Store): Store {
    if s.committing.Dropping? then Dropped(s).(committing := Appending(s.committing.entry)) else s
  }

  function CommitPushed(s: Store): Store {
    if s.committing.Appending? then Pushed(s.(committing := NoAudit), s.committing.entry) else s
  }

  function WorkerDropped(s: Store): Store {
    if s.auditing.Dropping? then Dropped(s).(auditing := Appending(s.auditing.entry)) else s
  }

  function WorkerPushed(s: Store): Store {
    if s.auditing.Appending? then Pushed(s.(auditing := NoAudit), s.auditing.entry) else s
  }

  ghost predicate Run(items: Items, s: Store, steps: seq<Step>, t: Store)
    decreases |steps|
  {
    if steps == [] then s == t
    else Enabled(items, s, steps[0]) && Run(items, Next(items, s, steps[0]), steps[1..], t)
  }

  // ---------- one commit ----------

  /** The tail of a commit touches neither storages, queue nor log. */
  lemma TailFields(s: Store, key: Key)
    requires key in s.flags
    ensures key in RestartNoted(s, key).flags
    ensures var t := DirtyMarked(RestartNoted(s, key), key);
      t == s.(flags := t.flags, restartReasons := t.restartReasons, needsRestart := t.needsRestart)
    ensures DirtyMarked(RestartNoted(s, key), key).flags.Keys == s.flags.Keys
  {
  }

  lemma ChangedFields(item: Item, s: Store, key: Key, v: Value)
    requires key in s.storage && key in s.flags
    ensures var t, e := Changed(item, s, key, v), Entry(key, s.storage[key], v);
      && t.storage == s.storage[key := v] && t.flags.Keys == s.flags.Keys
      && t.history == s.history && t.audit == s.audit
      && t.running == s.running && t.auditing == s.auditing
      && t.committing == (if item.onChange then s.committing else Tested(s, e))
      && t.queue == s.queue + if item.onChange then [e] else []
  {
    hide RestartNoted, DirtyMarked;
    TailFields(Announced(item, s.(storage := s.storage[key := v]), Entry(key, s.storage[key], v)), key);
  }

  /** The marks of a commit that went through: a restart is needed, and the item is a reason, if its flag
      says so; of all flags only the item's dirty mark may change, and it is set unless the item is
      temporary. */
  ghost predicate Marked(s: Store, t: Store, key: Key)
    requires key in s.flags
  {
    && t.needsRestart == (s.needsRestart || s.flags[key].restart)
    && t.restartReasons == s.restartReasons + (if s.flags[key].restart then [key] else [])
    && t.flags == s.flags[key := s.flags[key].(dirty := s.flags[key].dirty || !s.flags[key].temporary)]
  }

  lemma ChangeMarks(item: Item, s: Store, key: Key, v: Value)
    requires key in s.storage && key in s.flags
    ensures Marked(s, Changed(item, s, key, v), key)
  {
    var f := s.flags[key];
    assert f.temporary ==> s.flags[key := f.(dirty := f.dirty || !f.temporary)] == s.flags;
    if !f.restart {
      assert s.restartReasons + [] == s.restartReasons;
    }
  }

  /** A commit that returns an error changes nothing at all; one that returns 0 leaves the parsed,
      accepted value in the storage of its key and touches no other. It audits exactly the changes
      of an item without `on_change`, and leaves the marks of a change. */
  lemma CommitOutcome(items: Items, s: Store, key: Key, node: Node)
    requires Known(items, s) && s.committing.NoAudit?
    ensures var (code, t) := Commit(items, s, key, node);
      && (code != 0 ==> t == s)
      && (code == 0 <==>
            && key in items && s.flags[key].runtime && TypeMatches(items[key].kind, node)
            && var parsed := items[key].parse(node, s.storage[key]);
            parsed.0 == 0 && (parsed.1 == s.storage[key] || Accepts(items[key], parsed.1)))
      && (code == 0 ==>
            && t.storage == s.storage[key := items[key].parse(node, s.storage[key]).1]
            && (t.storage == s.storage ==> t == s)
            && (t.storage != s.storage ==>
                  var e := Entry(key, s.storage[key], t.storage[key]);
                  && CommitPushed(CommitDropped(t)).history == s.history + (if items[key].onChange then [] else [e])
                  && Marked(s, t, key)
                  && t.queue == s.queue + if items[key].onChange then [e] else []))
  {
    if key in items && s.flags[key].runtime {
      hide Changed, Marked;
      var parsed := items[key].parse(node, s.storage[key]);
      ChangeMarks(items[key], s, key, parsed.1);
      ChangedFields(items[key], s, key, parsed.1);
      assert s.storage[key := s.storage[key]] == s.storage;
      assert s.storage[key := parsed.1][key] == parsed.1;
    }
  }

  /** The error of a commit says why it failed: -22 for a value of the wrong type, -2 for one that the
      validator rejects, and -1 for an unknown key, an item that is fixed at run time, or a value that
      cannot be parsed. */
  lemma CommitCodes(items: Items, s: Store, key: Key, node: Node)
    requires Known(items, s)
    ensures var code := Commit(items, s, key, node).0;
      if key !in items || !s.flags[key].runtime then code == -1
      else
        var parsed := items[key].parse(node, s.storage[key]);
        && code in {0, -1, -2, -22}
        && (code == -22 <==> !TypeMatches(items[key].kind, node))
        && (code == -1 <==> TypeMatches(items[key].kind, node) && parsed.0 != 0)
        && (code == -2 <==>
              && TypeMatches(items[key].kind, node) && parsed.0 == 0 && parsed.1 != s.storage[key]
              && !Accepts(items[key], parsed.1))
  {
    hide Changed;
  }

  // ---------- marks over runs ----------

  /** The keys whose commits changed a storage, in order, rolled back later or not. */
  ghost function ChangedKeys(items: Items, s: Store, steps: seq<Step>): seq<Key>
    decreases |steps|
  {
    if steps == [] || !Enabled(items, s, steps[0]) then []
    else
      var t := Next(items, s, steps[0]);
      (if steps[0].CommitStep? && t.storage != s.storage then [steps[0].key] else [])
      + ChangedKeys(items, t, steps[1..])
  }

  /** Those of them whose item asks for a restart. */
  function Restarting(keys: seq<Key>, flags: map<Key, Flags>): seq<Key> {
    if keys == [] then []
    else (if keys[0] in flags && flags[keys[0]].restart then [keys[0]] else []) + Restarting(keys[1..], flags)
  }

  /** Only dirty marks differ: those of these keys are set unless the item is temporary. */
  ghost predicate OnlyDirtied(was: map<Key, Flags>, now: map<Key, Flags>, keys: seq<Key>) {
    && now.Keys == was.Keys
    && forall k :: k in was ==> now[k] == was[k].(dirty := was[k].dirty || (k in keys && !was[k].temporary))
  }

  lemma StepMarks(items: Items, s: Store, step: Step)
    requires Enabled(items, s, step)
    ensures var t := Next(items, s, step);
      if step.CommitStep? && t.storage != s.storage then step.key in s.flags && Marked(s, t, step.key)
      else t.flags == s.flags && t.restartReasons == s.restartReasons && t.needsRestart == s.needsRestart
  {
    if step.CommitStep? {
      hide Changed, Marked;
      CommitMarks(items, s, step.key, step.node);
    }
  }

  lemma CommitMarks(items: Items, s: Store, key: Key, node: Node)
    requires Known(items, s)
    ensures var t := Commit(items, s, key, node).1;
      if t.storage != s.storage then key in s.flags && Marked(s, t, key) else t == s
  {
    hide Changed, Marked;
    if key in items {
      var v := items[key].parse(node, s.storage[key]).1;
      ChangeMarks(items[key], s, key, v);
      ChangedFields(items[key], s, key, v);
      assert v != s.storage[key] ==> s.storage[key := v][key] != s.storage[key];
    }
  }

  lemma {:induction false} SameRestarts(keys: seq<Key>, was: map<Key, Flags>, now: map<Key, Flags>)
    requires was.Keys == now.Keys && forall k :: k in was ==> now[k].restart == was[k].restart
    ensures Restarting(keys, now) == Restarting(keys, was)
  {
    if keys != [] {
      SameRestarts(keys[1..], was, now);
    }
  }

  lemma {:induction false} RestartingConcat(a: seq<Key>, b: seq<Key>, flags: map<Key, Flags>)
    ensures Restarting(a + b, flags) == Restarting(a, flags) + Restarting(b, flags)
  {
    if a == [] {
      assert a + b == b;
    } else {
      assert (a + b)[1..] == a[1..] + b;
      RestartingConcat(a[1..], b, flags);
    }
  }

  lemma DirtiedConcat(was: map<Key, Flags>, then': map<Key, Flags>, now: map<Key, Flags>, a: seq<Key>, b: seq<Key>)
    requires OnlyDirtied(was, then', a) && OnlyDirtied(then', now, b)
    ensures OnlyDirtied(was, now, a + b)
  {
  }

  /** The marks that the changes of these keys leave. */
  ghost predicate MarksOf(s: Store, t: Store, keys: seq<Key>) {
    && t.restartReasons == s.restartReasons + Restarting(keys, s.flags)
    && t.needsRestart == (s.needsRestart || Restarting(keys, s.flags) != [])
    && OnlyDirtied(s.flags, t.flags, keys)
  }

  lemma MarksConcat(s: Store, u: Store, t: Store, a: seq<Key>, b: seq<Key>)
    requires MarksOf(s, u, a) && MarksOf(u, t, b)
    ensures MarksOf(s, t, a + b)
  {
    RestartingConcat(a, b, s.flags);
    SameRestarts(b, s.flags, u.flags);
    DirtiedConcat(s.flags, u.flags, t.flags, a, b);
    hide OnlyDirtied, Restarting;
    var x, y := Restarting(a, s.flags), Restarting(b, s.flags);
    assert s.restartReasons + x + y == s.restartReasons + (x + y);
  }

  lemma OneMark(s: Store, t: Store, key: Key)
    requires key in s.flags && Marked(s, t, key)
    ensures MarksOf(s, t, [key])
  {
    assert [key][1..] == [];
    assert Restarting([key], s.flags) == if s.flags[key].restart then [key] else [];
  }

  lemma NoMark(s: Store, t: Store)
    requires t.flags == s.flags && t.restartReasons == s.restartReasons && t.needsRestart == s.needsRestart
    ensures MarksOf(s, t, [])
  {
  }

  /** After any run the restart reasons are, in order, the keys of the restart items whose commits
      changed a storage; a restart is needed if there is one or it was before; and of the flags only
      dirty marks have changed, set for exactly the items that are not temporary and were changed. */
  lemma {:induction false} RunMarks(items: Items, s: Store, steps: seq<Step>, t: Store)
    requires Run(items, s, steps, t)
    ensures var keys := ChangedKeys(items, s, steps);
      && t.restartReasons == s.restartReasons + Restarting(keys, s.flags)
      && t.needsRestart == (s.needsRestart || Restarting(keys, s.flags) != [])
      && OnlyDirtied(s.flags, t.flags, keys)
    decreases |steps|
  {
    hide Enabled, Next, Marked, Restarting, OnlyDirtied;
    if steps == [] {
      NoMark(s, t);
    } else {
      var u := Next(items, s, steps[0]);
      var rest := ChangedKeys(items, u, steps[1..]);
      StepMarks(items, s, steps[0]);
      RunMarks(items, u, steps[1..], t);
      if steps[0].CommitStep? && u.storage != s.storage {
        OneMark(s, u, steps[0].key);
        MarksConcat(s, u, t, [steps[0].key], rest);
      } else {
        NoMark(s, u);
        MarksConcat(s, u, t, [], rest);
      }
    }
  }

  // ---------- safety over runs ----------

  /** What the worker has taken and not yet audited, then what is queued for it. */
  ghost function Tasks(s: Store): seq<Entry> {
    (if !s.auditing.NoAudit? then [s.auditing.entry] else if s.running.Some? then [s.running.value] else []) + s.queue
  }

  /** Every change of a storage that is not audited yet. */
  ghost function InFlight(s: Store): seq<Entry> {
    (if !s.committing.NoAudit? then [s.committing.entry] else []) + Tasks(s)
  }

  /** A real change between two accepted values of an item with or without `on_change`. */
  ghost predicate EntryOk(items: Items, e: Entry, onChange: bool) {
    && e.key in items && items[e.key].onChange == onChange && e.was != e.now
    && Accepts(items[e.key], e.was) && Accepts(items[e.key], e.now)
  }

  /** No audit is underway. */
  ghost predicate Rests(s: Store) {
    s.committing.NoAudit? && s.auditing.NoAudit?
  }

  /** Both a commit and the worker have an audit underway. */
  ghost predicate Overlap(s: Store) {
    !s.committing.NoAudit? && !s.auditing.NoAudit?
  }

  ghost predicate StorageOk(items: Items, s: Store, key: Key)
    requires key in s.storage && key in items
  {
    Accepts(items[key], s.storage[key])
  }

  /** How many drops are due, and how many audits append next. */
  function Due(s: Store): nat {
    (if s.committing.Dropping? then 1 else 0) + if s.auditing.Dropping? then 1 else 0
  }

  function Ahead(s: Store): nat {
    (if s.committing.Appending? then 1 else 0) + if s.auditing.Appending? then 1 else 0
  }

  /** The log is an end of the history. It is all of it as long as that is shorter than 1000; else at
      least the newest 998, those that are due to be dropped not counted. */
  ghost predicate LogOk(audit: seq<Entry>, history: seq<Entry>, due: nat) {
    && |audit| <= |history| && audit == history[|history| - |audit|..]
    && if |history| < AUDIT_LIMIT then audit == history && due == 0 else |audit| >= AUDIT_LIMIT - 2 + due
  }

  ghost predicate StoreOk(items: Items, s: Store) {
    && Known(items, s)
    && (forall key :: key in items ==> StorageOk(items, s, key))
    && (forall e :: e in Tasks(s) ==> EntryOk(items, e, true))
    && (!s.committing.NoAudit? ==> EntryOk(items, s.committing.entry, false))
    && (s.running.None? || s.auditing.NoAudit?)
  }

  ghost predicate Inv(items: Items, s: Store) {
    StoreOk(items, s) && LogOk(s.audit, s.history, Due(s))
  }

  lemma KnownIfOk(items: Items, s: Store)
    requires StoreOk(items, s)
    ensures Known(items, s)
  {
  }

  lemma CommitKeepsStore(items: Items, s: Store, key: Key, node: Node)
    requires StoreOk(items, s) && s.committing.NoAudit?
    ensures StoreOk(items, Commit(items, s, key, node).1)
  {
    hide Tasks, InFlight, Changed;
    var t := Commit(items, s, key, node).1;
    if t != s {
      var e := Entry(key, s.storage[key], items[key].parse(node, s.storage[key]).1);
      ChangedFields(items[key], s, key, e.now);
      ChangeInFlight(items[key], s, key, e.now);
      assert StorageOk(items, s, key);
      assert EntryOk(items, e, items[key].onChange);
      forall k | k in items ensures StorageOk(items, t, k) {
        assert StorageOk(items, s, k);
      }
    }
  }

  lemma ChangeInFlight(item: Item, s: Store, key: Key, v: Value)
    requires key in s.storage && key in s.flags && s.committing.NoAudit?
    ensures var t, e := Changed(item, s, key, v), Entry(key, s.storage[key], v);
      && Tasks(t) == Tasks(s) + (if item.onChange then [e] else [])
      && InFlight(t) == if item.onChange then InFlight(s) + [e] else [e] + InFlight(s)
  {
    hide Changed;
    ChangedFields(item, s, key, v);
  }

  lemma StepKeepsStore(items: Items, s: Store, step: Step)
    requires StoreOk(items, s) && Enabled(items, s, step)
    ensures StoreOk(items, Next(items, s, step))
  {
    if step.CommitStep? {
      CommitKeepsStore(items, s, step.key, step.node);
    } else {
      var t := Next(items, s, step);
      assert step.WorkerFinish? ==> Tasks(s)[0] == s.running.value && EntryOk(items, s.running.value, true);
      assert forall e :: e in Tasks(t) ==> e in Tasks(s);
      forall k | k in items ensures StorageOk(items, t, k) {
        assert StorageOk(items, s, k);
      }
    }
  }

  /** A step that appends to the log. */
  ghost predicate Pushes(step: Step) {
    step.CommitPush? || step.WorkerPush?
  }

  /** A step that drops the oldest entry. */
  ghost predicate Drops(step: Step) {
    step.CommitDrop? || step.WorkerDrop?
  }

  /** A step that begins an audit by testing the log. */
  ghost predicate Tests(items: Items, s: Store, step: Step)
    requires Enabled(items, s, step)
  {
    (step.CommitStep? && !Next(items, s, step).committing.NoAudit?) || (step.WorkerFinish? && step.result == 0)
  }

  /** The entry that a step appends. */
  ghost function PushedEntry(s: Store, step: Step): Entry
    requires Pushes(step) && (if step.CommitPush? then s.committing else s.auditing).Appending?
  {
    (if step.CommitPush? then s.committing else s.auditing).entry
  }

  lemma DroppedLog(audit: seq<Entry>, history: seq<Entry>, due: nat)
    requires LogOk(audit, history, due) && due > 0
    ensures audit != [] && LogOk(audit[1..], history, due - 1)
  {
  }

  lemma PushedLog(audit: seq<Entry>, history: seq<Entry>, due: nat, e: Entry)
    requires LogOk(audit, history, due)
    ensures LogOk(audit + [e], history + [e], due)
  {
    var n := |history| - |audit|;
    assert (history + [e])[n..] == history[n..] + [e];
  }

  /** What a step does to the log: it appends an entry, drops one, tests, or leaves it alone. */
  lemma StepLog(items: Items, s: Store, step: Step)
    requires Enabled(items, s, step) && (s.running.None? || s.auditing.NoAudit?)
    ensures var t := Next(items, s, step);
      if Pushes(step) then
        && t.audit == s.audit + [PushedEntry(s, step)] && t.history == s.history + [PushedEntry(s, step)]
        && Due(t) == Due(s) && Ahead(t) == Ahead(s) - 1
      else
        && t.history == s.history
        && t.audit == (if Drops(step) && s.audit != [] then s.audit[1..] else s.audit)
        && Due(t) == Due(s) + (if Drops(step) then -1
                               else if Tests(items, s, step) && |s.audit| == AUDIT_LIMIT then 1
                               else 0)
        && Ahead(t) == Ahead(s) + (if Drops(step) || (Tests(items, s, step) && |s.audit| != AUDIT_LIMIT) then 1 else 0)
        && (Tests(items, s, step) ==> Due(s) + Ahead(s) <= 1 && (Rests(s) || Overlap(t)))
  {
    hide Changed;
    if step.CommitStep? && Commit(items, s, step.key, step.node).1 != s {
      ChangedFields(items[step.key], s, step.key, items[step.key].parse(step.node, s.storage[step.key]).1);
    }
  }

  lemma StepKeepsLog(items: Items, s: Store, step: Step)
    requires LogOk(s.audit, s.history, Due(s)) && Enabled(items, s, step) && (s.running.None? || s.auditing.NoAudit?)
    ensures var t := Next(items, s, step); LogOk(t.audit, t.history, Due(t))
  {
    hide Next;
    StepLog(items, s, step);
    if Pushes(step) {
      PushedLog(s.audit, s.history, Due(s), PushedEntry(s, step));
    } else if Drops(step) {
      DroppedLog(s.audit, s.history, Due(s));
    }
  }

  lemma StepKeepsInv(items: Items, s: Store, step: Step)
    requires Inv(items, s) && Enabled(items, s, step)
    ensures Inv(items, Next(items, s, step))
  {
    hide LogOk;
    StepKeepsStore(items, s, step);
    StepKeepsLog(items, s, step);
  }

  lemma {:induction false} RunKeepsInv(items: Items, s: Store, steps: seq<Step>, t: Store)
    requires Inv(items, s) && Run(items, s, steps, t)
    ensures Inv(items, t)
    decreases |steps|
  {
    hide Inv, Enabled, Next;
    if steps != [] {
      StepKeepsInv(items, s, steps[0]);
      RunKeepsInv(items, Next(items, s, steps[0]), steps[1..], t);
    }
  }

  /** A freshly started library: accepted values, nothing in flight, nothing audited. */
  ghost predicate Started(items: Items, s: Store) {
    && Known(items, s) && s.queue == [] && s.running.None? && s.audit == s.history == [] && Rests(s)
    && forall key :: key in items ==> StorageOk(items, s, key)
  }

  lemma StartedInv(items: Items, s: Store)
    requires Started(items, s)
    ensures Inv(items, s)
  {
    assert Tasks(s) == [];
  }

  /** After any run every storage holds a value its validator accepted. The log shows the newest
      entries of everything audited, never fewer than the newest 998. */
  lemma RunIsSafe(items: Items, s: Store, steps: seq<Step>, t: Store)
    requires Started(items, s) && Run(items, s, steps, t)
    ensures Known(items, t) && forall key :: key in items ==> Accepts(items[key], t.storage[key])
    ensures LogOk(t.audit, t.history, Due(t))
  {
    StartedInv(items, s);
    RunKeepsInv(items, s, steps, t);
    forall key | key in items ensures Accepts(items[key], t.storage[key]) {
      assert StorageOk(items, t, key);
    }
  }

  // ---------- two items for samples ----------

  function SampleItem(onChange: bool): Item {
    Item(Int32Kind,
         (n: Node, v: Value) => if n.IntNode? then (0, IntValue(n.i)) else (-1, v),
         (v: Value) => if v.IntValue? then Some(IntNode(v.i)) else None,
         None,
         onChange)
  }

  function SampleItems(): Items {
    map["k" := SampleItem(true), "p" := SampleItem(false)]
  }

  /** A commit of k that changes it. */
  lemma SampleCommit(s: Store, v: int)
    requires Known(SampleItems(), s) && s.storage["k"] != IntValue(v)
    requires s.flags["k"].runtime && !s.flags["k"].restart && !s.flags["k"].temporary
    ensures Commit(SampleItems(), s, "k", IntNode(v)).1 ==
      s.(storage := s.storage["k" := IntValue(v)],
         queue := s.queue + [Entry("k", s.storage["k"], IntValue(v))],
         flags := s.flags["k" := s.flags["k"].(dirty := true)])
  {
    hide DirtyMarked, RestartNoted;
    SampleTail(Announced(SampleItem(true), s.(storage := s.storage["k" := IntValue(v)]),
                         Entry("k", s.storage["k"], IntValue(v))));
  }

  lemma SampleTail(s: Store)
    requires "k" in s.flags && !s.flags["k"].restart && !s.flags["k"].temporary
    ensures RestartNoted(s, "k") == s
    ensures DirtyMarked(s, "k") == s.(flags := s.flags["k" := s.flags["k"].(dirty := true)])
  {
  }
}
