/** The bounded blocking queue: what its callers do between taking the mutex and either waiting or
    releasing it is one step. A wait may end at any time: by a signal meant for somebody else, or
    by none. */
module SimpleQueue {

  type Thread = nat

  /** A producer waits with the write cursor it computed before. */
  datatype Waiter<T> = Waiter(cursor: nat, item: T)

  /** `pushed` and `popped` are the items pushed and popped with success, in lock order. */
  datatype State<T> = State(
    data: seq<T>,
    front: nat,
    rear: nat,
    pushed: seq<T>,
    popped: seq<T>,
    producers: map<Thread, Waiter<T>>,
    consumers: set<Thread>)

  datatype Step<T> =
    | PushStart(thread: Thread, item: T)
    | PushWake(thread: Thread)
    | PopStart(thread: Thread)
    | PopWake(thread: Thread)

  datatype Outcome<T> = Success | Fail | Waits | Popped(item: T)

  function Succ(i: nat, length: nat): nat
    requires length > 0
  {
    (i + 1) % length
  }

  lemma SuccCases(i: nat, length: nat)
    requires i < length
    ensures Succ(i, length) == if i + 1 == length then 0 else i + 1
  {
  }

  predicate Shape<T>(s: State<T>) {
    s.front < |s.data| && s.rear < |s.data|
  }

  /** The queued items, oldest first. */
  function Contents<T>(s: State<T>): seq<T>
    requires Shape(s)
  {
    if s.front <= s.rear then s.data[s.front..s.rear] else s.data[s.front..] + s.data[..s.rear]
  }

  predicate Enabled<T>(s: State<T>, step: Step<T>) {
    match step
    case PushStart(t, _) => t !in s.producers && t !in s.consumers
    case PushWake(t) => t in s.producers
    case PopStart(t) => t !in s.producers && t !in s.consumers
    case PopWake(t) => t in s.consumers
  }

  /** Store the item at the rear and move the rear to the cursor. */
  function Stored<T>(s: State<T>, cursor: nat, item: T): State<T>
    requires Shape(s)
  {
    s.(data := s.data[s.rear := item], rear := cursor, pushed := s.pushed + [item])
  }

  function Taken<T>(s: State<T>): State<T>
    requires Shape(s)
  {
    s.(front := Succ(s.front, |s.data|), popped := s.popped + [s.data[s.front]])
  }

  function Next<T>(s: State<T>, step: Step<T>): (State<T>, Outcome<T>)
    requires Shape(s) && Enabled(s, step)
  {
    match step
    case PushStart(t, item) =>
      var cursor := Succ(s.rear, |s.data|);
      if cursor == s.front then (s.(producers := s.producers[t := Waiter(cursor, item)]), Waits)
      else (Stored(s, cursor, item), Success)
    case PushWake(t) =>
      var w, s' := s.producers[t], s.(producers := s.producers - {t});
      if w.cursor == s.front then (s', Fail) else (Stored(s', w.cursor, w.item), Success)
    case PopStart(t) =>
      if s.front == s.rear then (s.(consumers := s.consumers + {t}), Waits)
      else (Taken(s), Popped(s.data[s.front]))
    case PopWake(t) =>
      var s' := s.(consumers := s.consumers - {t});
      if s.front == s.rear then (s', Fail) else (Taken(s'), Popped(s.data[s.front]))
  }

  /** Cursors stay inside the ring; the items popped, then the items queued, are the items pushed. */
  ghost predicate Inv<T>(s: State<T>) {
    && Shape(s)
    && s.pushed == s.popped + Contents(s)
    && forall t :: t in s.producers ==> s.producers[t].cursor < |s.data|
  }

  /** The producer wakes with a cursor that no longer follows the rear. */
  predicate Stale<T>(s: State<T>, step: Step<T>)
    requires Shape(s) && Enabled(s, step)
  {
    step.PushWake? &&
    var cursor := s.producers[step.thread].cursor;
    cursor != s.front && cursor != Succ(s.rear, |s.data|)
  }

  lemma StoredContents<T>(s: State<T>, item: T)
    requires Shape(s) && Succ(s.rear, |s.data|) != s.front
    ensures Contents(Stored(s, Succ(s.rear, |s.data|), item)) == Contents(s) + [item]
  {
    SuccCases(s.rear, |s.data|);
  }

  lemma TakenContents<T>(s: State<T>)
    requires Shape(s) && s.front != s.rear
    ensures Shape(Taken(s)) && Contents(s) == [s.data[s.front]] + Contents(Taken(s))
  {
    SuccCases(s.front, |s.data|);
  }

  /** A stale cursor moves the rear too far or not far enough. */
  lemma StaleLength<T>(s: State<T>, cursor: nat, item: T)
    requires Shape(s) && cursor < |s.data| && cursor != s.front && cursor != Succ(s.rear, |s.data|)
    ensures |Contents(Stored(s, cursor, item))| != |Contents(s)| + 1
  {
    SuccCases(s.rear, |s.data|);
  }

  /** A step keeps the queue right exactly when it is not the wake-up of a producer whose cursor went stale. */
  lemma StepInv<T>(s: State<T>, step: Step<T>)
    requires Inv(s) && Enabled(s, step)
    ensures Inv(Next(s, step).0) <==> !Stale(s, step)
  {
    hide Contents, Stored;
    var t := Next(s, step).0;
    match step
    case PushStart(_, item) =>
      PushStartInv(s, step);
    case PushWake(_) =>
      PushWakeInv(s, step);
    case PopStart(_) =>
      PopInv(s, t);
    case PopWake(_) =>
      SameContents(s, s.(consumers := t.consumers));
      PopInv(s.(consumers := t.consumers), t);
  }

  lemma PushStartInv<T>(s: State<T>, step: Step<T>)
    requires Inv(s) && Enabled(s, step) && step.PushStart?
    ensures Inv(Next(s, step).0)
  {
    hide Contents;
    var cursor := Succ(s.rear, |s.data|);
    SuccCases(s.rear, |s.data|);
    if cursor == s.front {
      SameContents(s, Next(s, step).0);
    } else {
      StoredContents(s, step.item);
      assert s.popped + Contents(s) + [step.item] == s.popped + (Contents(s) + [step.item]);
    }
  }

  lemma PushWakeInv<T>(s: State<T>, step: Step<T>)
    requires Inv(s) && Enabled(s, step) && step.PushWake?
    ensures Inv(Next(s, step).0) <==> !Stale(s, step)
  {
    hide Contents;
    var w, s' := s.producers[step.thread], s.(producers := s.producers - {step.thread});
    SuccCases(s.rear, |s.data|);
    SameContents(s, s');
    if w.cursor == s.front {
    } else if w.cursor == Succ(s.rear, |s.data|) {
      StoredContents(s', w.item);
      assert s.popped + Contents(s) + [w.item] == s.popped + (Contents(s) + [w.item]);
    } else {
      StaleLength(s', w.cursor, w.item);
    }
  }

  lemma SameContents<T>(s: State<T>, t: State<T>)
    requires Shape(s) && t.data == s.data && t.front == s.front && t.rear == s.rear
    ensures Contents(t) == Contents(s)
  {
  }

  lemma PopInv<T>(s: State<T>, t: State<T>)
    requires Inv(s)
    requires if s.front == s.rear then t == s.(consumers := t.consumers) else t == Taken(s)
    ensures Inv(t)
  {
    hide Contents;
    if s.front == s.rear {
      SameContents(s, t);
    } else {
      TakenContents(s);
      assert s.popped + ([s.data[s.front]] + Contents(t)) == s.popped + [s.data[s.front]] + Contents(t);
    }
  }

  // ---------- runs ----------

  /** What an empty queue starts as. */
  ghost predicate Created<T>(s: State<T>) {
    s.data != [] && s.front == s.rear == 0 && s.pushed == s.popped == [] && s.producers == map[] && s.consumers == {}
  }

  ghost predicate Run<T>(s: State<T>, steps: seq<Step<T>>, t: State<T>)
    decreases |steps|
  {
    if steps == [] then s == t
    else Shape(s) && Enabled(s, steps[0]) && Run(Next(s, steps[0]).0, steps[1..], t)
  }

  predicate ByProducer<T>(step: Step<T>, p: Thread) {
    step.PushStart? || step.PushWake? ==> step.thread == p
  }

  /** With a single producer its cursor stays fresh: nobody else moves the rear. */
  ghost predicate Fresh<T>(s: State<T>, p: Thread) {
    Shape(s) && forall t :: t in s.producers ==> t == p && s.producers[t].cursor == Succ(s.rear, |s.data|)
  }

  lemma StepKeepsFresh<T>(s: State<T>, step: Step<T>, p: Thread)
    requires Inv(s) && Fresh(s, p) && Enabled(s, step) && ByProducer(step, p)
    ensures !Stale(s, step) && Fresh(Next(s, step).0, p) && Inv(Next(s, step).0)
  {
    hide Contents;
    StepInv(s, step);
  }

  lemma {:induction false} RunKeepsFresh<T>(s: State<T>, steps: seq<Step<T>>, t: State<T>, p: Thread)
    requires Inv(s) && Fresh(s, p) && Run(s, steps, t) && forall i :: 0 <= i < |steps| ==> ByProducer(steps[i], p)
    ensures Inv(t) && Fresh(t, p)
    decreases |steps|
  {
    hide Inv, Fresh, Next, Enabled;
    if steps != [] {
      assert ByProducer(steps[0], p);
      StepKeepsFresh(s, steps[0], p);
      forall i | 0 <= i < |steps[1..]| ensures ByProducer(steps[1..][i], p) {
        assert steps[1..][i] == steps[i + 1];
      }
      RunKeepsFresh(Next(s, steps[0]).0, steps[1..], t, p);
    }
  }

  /** One producer, any number of consumers, any interleaving, any wake-ups: the items popped are the
      first of the items pushed, the others are queued in order, and one slot always stays free. */
  lemma OneProducerIsFifo<T>(s: State<T>, steps: seq<Step<T>>, t: State<T>, p: Thread)
    requires Created(s) && Run(s, steps, t) && forall i :: 0 <= i < |steps| ==> ByProducer(steps[i], p)
    ensures Shape(t) && t.pushed == t.popped + Contents(t) && t.popped <= t.pushed
    ensures |Contents(t)| < |t.data|
  {
    assert Inv(s) && Fresh(s, p);
    RunKeepsFresh(s, steps, t, p);
  }

  ghost predicate Added<T>(s: State<T>, t: State<T>, item: T)
    requires Shape(s)
  {
    Shape(t) && |t.data| == |s.data| && Contents(t) == Contents(s) + [item]
  }

  ghost predicate Removed<T>(s: State<T>, t: State<T>)
    requires Shape(s)
  {
    Shape(t) && |t.data| == |s.data| && Contents(s) != [] && Contents(t) == Contents(s)[1..]
  }

  ghost predicate Untouched<T>(s: State<T>, t: State<T>) {
    t.data == s.data && t.front == s.front && t.rear == s.rear
  }

  /** A push goes through exactly if fewer than length - 1 items are queued, and else waits, or fails
      after its wait; a pop hands out the oldest item exactly if there is one, and else waits, or fails
      after its wait. Whoever waits stays known, and nothing else moves. */
  ghost predicate RightOutcome<T>(s: State<T>, step: Step<T>)
    requires Shape(s) && Enabled(s, step)
  {
    var (t, outcome) := Next(s, step);
    var full, empty := |Contents(s)| >= |s.data| - 1, Contents(s) == [];
    match step
    case PushStart(p, item) =>
      if full then outcome == Waits && Untouched(s, t) && p in t.producers && t.producers[p].item == item
      else outcome == Success && Added(s, t, item)
    case PushWake(p) =>
      && p !in t.producers
      && if full then outcome == Fail && Untouched(s, t)
         else outcome == Success && Added(s, t, s.producers[p].item)
    case PopStart(c) =>
      if empty then outcome == Waits && Untouched(s, t) && c in t.consumers
      else outcome == Popped(Contents(s)[0]) && Removed(s, t)
    case PopWake(c) =>
      && c !in t.consumers
      && if empty then outcome == Fail && Untouched(s, t)
         else outcome == Popped(Contents(s)[0]) && Removed(s, t)
  }

  lemma StepOutcome<T>(s: State<T>, step: Step<T>)
    requires Shape(s) && Enabled(s, step)
    requires step.PushWake? ==> s.producers[step.thread].cursor == Succ(s.rear, |s.data|)
    ensures RightOutcome(s, step)
  {
    SuccCases(s.rear, |s.data|);
    SuccCases(s.front, |s.data|);
    FullExactly(s);
    match step
    case PushStart(_, item) =>
      if Succ(s.rear, |s.data|) != s.front {
        StoredContents(s, item);
      }
    case PushWake(p) =>
      if Succ(s.rear, |s.data|) != s.front {
        StoredContents(s.(producers := s.producers - {p}), s.producers[p].item);
      }
    case PopStart(_) =>
      if s.front != s.rear {
        TakenContents(s);
      }
    case PopWake(c) =>
      if s.front != s.rear {
        TakenContents(s.(consumers := s.consumers - {c}));
      }
  }

  lemma FullExactly<T>(s: State<T>)
    requires Shape(s)
    ensures |Contents(s)| >= |s.data| - 1 <==> Succ(s.rear, |s.data|) == s.front
    ensures Contents(s) == [] <==> s.front == s.rear
  {
    SuccCases(s.rear, |s.data|);
  }

  /** One producer, any number of consumers, any interleaving: after any run every call succeeds, waits
      or fails as it should. */
  lemma OneProducerOutcome<T>(s: State<T>, steps: seq<Step<T>>, t: State<T>, p: Thread, step: Step<T>)
    requires Created(s) && Run(s, steps, t) && forall i :: 0 <= i < |steps| ==> ByProducer(steps[i], p)
    requires Enabled(t, step) && ByProducer(step, p)
    ensures Shape(t) && RightOutcome(t, step)
  {
    hide Next, RightOutcome, Run, Contents;
    assert Inv(s) && Fresh(s, p) by {
      CreatedIsRight(s, p);
    }
    RunKeepsFresh(s, steps, t, p);
    StepOutcome(t, step);
  }

  lemma CreatedIsRight<T>(s: State<T>, p: Thread)
    requires Created(s)
    ensures Inv(s) && Fresh(s, p)
  {
  }

  /** The queue is right in every state of the run. */
  ghost predicate RightThroughout<T>(s: State<T>, steps: seq<Step<T>>)
    decreases |steps|
  {
    Inv(s) && (steps == [] || (Enabled(s, steps[0]) && RightThroughout(Next(s, steps[0]).0, steps[1..])))
  }

  /** No step of the run wakes a producer with a stale cursor. */
  ghost predicate NoStale<T>(s: State<T>, steps: seq<Step<T>>)
    decreases |steps|
  {
    steps == [] ||
    (Shape(s) && Enabled(s, steps[0]) && !Stale(s, steps[0]) && NoStale(Next(s, steps[0]).0, steps[1..]))
  }

  /** For any number of producers and consumers: the queue is right in every state of a run if and only
      if no step of the run is stale. */
  lemma {:induction false} RightExactlyWithoutStale<T>(s: State<T>, steps: seq<Step<T>>, t: State<T>)
    requires Inv(s) && Run(s, steps, t)
    ensures RightThroughout(s, steps) <==> NoStale(s, steps)
    decreases |steps|
  {
    hide Next, Enabled, Stale;
    if steps != [] {
      StepInv(s, steps[0]);
      if !Stale(s, steps[0]) {
        RightExactlyWithoutStale(Next(s, steps[0]).0, steps[1..], t);
      }
    }
  }

  /** The items whose push a step reports as done, and those that a step hands out. */
  function PushedItem<T>(s: State<T>, step: Step<T>): seq<T>
    requires Shape(s) && Enabled(s, step)
  {
    if !Next(s, step).1.Success? then [] else [if step.PushStart? then step.item else s.producers[step.thread].item]
  }

  function PoppedItem<T>(s: State<T>, step: Step<T>): seq<T>
    requires Shape(s) && Enabled(s, step)
  {
    if Next(s, step).1.Popped? then [Next(s, step).1.item] else []
  }

  ghost function PushedBy<T>(s: State<T>, steps: seq<Step<T>>): seq<T>
    decreases |steps|
  {
    if steps == [] || !Shape(s) || !Enabled(s, steps[0]) then []
    else PushedItem(s, steps[0]) + PushedBy(Next(s, steps[0]).0, steps[1..])
  }

  ghost function PoppedBy<T>(s: State<T>, steps: seq<Step<T>>): seq<T>
    decreases |steps|
  {
    if steps == [] || !Shape(s) || !Enabled(s, steps[0]) then []
    else PoppedItem(s, steps[0]) + PoppedBy(Next(s, steps[0]).0, steps[1..])
  }

  /** A step that fails or waits changes neither the ring nor the record of what was moved; the others
      add the item they report. */
  lemma StepRecords<T>(s: State<T>, step: Step<T>)
    requires Shape(s) && Enabled(s, step)
    ensures var (t, outcome) := Next(s, step);
      && t.pushed == s.pushed + PushedItem(s, step) && t.popped == s.popped + PoppedItem(s, step)
      && (outcome.Fail? || outcome.Waits? ==> t.data == s.data && t.front == s.front && t.rear == s.rear)
  {
  }

  /** Over any run, with any number of producers, the record holds exactly the items whose push was
      reported as done and exactly the items handed out, both in order. */
  lemma {:induction false} RunRecords<T>(s: State<T>, steps: seq<Step<T>>, t: State<T>)
    requires Run(s, steps, t)
    ensures t.pushed == s.pushed + PushedBy(s, steps) && t.popped == s.popped + PoppedBy(s, steps)
    decreases |steps|
  {
    hide Next, Enabled, PushedItem, PoppedItem;
    if steps != [] {
      var u := Next(s, steps[0]).0;
      StepRecords(s, steps[0]);
      RunRecords(u, steps[1..], t);
      assert s.pushed + PushedItem(s, steps[0]) + PushedBy(u, steps[1..])
          == s.pushed + (PushedItem(s, steps[0]) + PushedBy(u, steps[1..]));
      assert s.popped + PoppedItem(s, steps[0]) + PoppedBy(u, steps[1..])
          == s.popped + (PoppedItem(s, steps[0]) + PoppedBy(u, steps[1..]));
    }
  }

  /** One producer: what the consumers got, in order, is the first of what its pushes reported done. */
  lemma OneProducerDelivers<T>(s: State<T>, steps: seq<Step<T>>, t: State<T>, p: Thread)
    requires Created(s) && Run(s, steps, t) && forall i :: 0 <= i < |steps| ==> ByProducer(steps[i], p)
    ensures Shape(t) && PushedBy(s, steps) == PoppedBy(s, steps) + Contents(t)
  {
    hide Run;
    RunRecords(s, steps, t);
    OneProducerIsFifo(s, steps, t, p);
    assert [] + PushedBy(s, steps) == PushedBy(s, steps) && [] + PoppedBy(s, steps) == PoppedBy(s, steps);
  }

  // ---------- two producers ----------

  function SampleSteps(): seq<Step<int>> {
    [PushStart(1, 10), PushStart(1, 11), PushStart(2, 12), PopStart(3), PushWake(1), PushWake(2)]
  }

  /** The queue of length 2 after n of these steps. */
  function SampleState(n: nat): State<int> {
    var w1, w2 := Waiter(0, 11), Waiter(0, 12);
    State(
      if n == 0 then [0, 0] else if n <= 4 then [10, 0] else if n == 5 then [10, 11] else [12, 11],
      if n >= 4 then 1 else 0,
      if n == 0 || n >= 5 then 0 else 1,
      if n == 0 then [] else if n <= 4 then [10] else if n == 5 then [10, 11] else [10, 11, 12],
      if n >= 4 then [10] else [],
      if n == 2 then map[1 := w1]
      else if n == 3 || n == 4 then map[1 := w1, 2 := w2]
      else if n == 5 then map[2 := w2]
      else map[],
      {})
  }

  lemma SampleStep(n: nat)
    requires n < 6
    ensures Shape(SampleState(n)) && Enabled(SampleState(n), SampleSteps()[n])
    ensures Next(SampleState(n), SampleSteps()[n]).0 == SampleState(n + 1)
  {
  }

  lemma {:induction false} SampleRun(n: nat)
    requires n <= 6
    ensures Run(SampleState(n), SampleSteps()[n..], SampleState(6))
    decreases 6 - n
  {
    hide SampleState, Next, Enabled;
    if n < 6 {
      SampleStep(n);
      SampleRun(n + 1);
      assert SampleSteps()[n..][1..] == SampleSteps()[n + 1..];
    }
  }

  /** Two producers that wait at the same time: both are told that their push succeeded, but the
      second one's item is not in the queue. */
  lemma TwoProducersLoseAnItem()
    ensures Created(SampleState(0)) && Run(SampleState(0), SampleSteps(), SampleState(6))
    ensures Shape(SampleState(5)) && Enabled(SampleState(5), SampleSteps()[5])
    ensures Stale(SampleState(5), SampleSteps()[5])
    ensures Next(SampleState(5), SampleSteps()[5]).1 == Success
    ensures Shape(SampleState(6)) && SampleState(6).pushed == [10, 11, 12]
    ensures SampleState(6).popped + Contents(SampleState(6)) == [10, 11]
  {
    hide Run;
    SampleRun(0);
    assert SampleSteps()[0..] == SampleSteps();
  }
}
