/** `simple_queue` over its ring array. The four methods are the stretches of `push_simple_queue`
    and `pop_simple_queue` that run under the mutex, before and after the condition wait. */
module BlockingQueue {
  import opened SimpleQueue

  class Queue<T(0)> {
    var front: nat
    var rear: nat
    const data: array<T>
    ghost var state: State<T>

    ghost predicate Valid()
      reads this, data
    {
      Shape(state) && state.data == data[..] && state.front == front && state.rear == rear
    }

    /** `create_simple_queue` with a length other than 0. */
    constructor (length: nat)
      requires length > 0
      ensures Valid() && fresh(data) && Created(state) && |state.data| == length
    {
      front, rear := 0, 0;
      data := new T[length];
      new;
      state := State(data[..], 0, 0, [], [], map[], {});
    }

    method Store(cursor: nat, item: T)
      requires Valid() && cursor < data.Length
      modifies this`rear, this`state, data
      ensures Valid() && Shape(old(state)) && state == Stored(old(state), cursor, item)
    {
      state := Stored(state, cursor, item);
      data[rear] := item;
      rear := cursor;
    }

    method Take() returns (item: T)
      requires Valid() && front != rear
      modifies this`front, this`state
      ensures Valid() && Shape(old(state)) && state == Taken(old(state)) && item == old(state).data[old(state).front]
    {
      state := Taken(state);
      item := data[front];
      front := (front + 1) % data.Length;
    }

    /** `push_simple_queue` up to its end or its wait; a waiting producer keeps the cursor. */
    method PushBegin(item: T, ghost thread: Thread) returns (full: bool, cursor: nat)
      requires Valid() && Enabled(state, PushStart(thread, item))
      modifies this`rear, this`state, data
      ensures Valid() && Shape(old(state)) && Enabled(old(state), PushStart(thread, item))
      ensures (state, if full then Waits else Success) == Next(old(state), PushStart(thread, item))
      ensures full ==> thread in state.producers && state.producers[thread] == Waiter(cursor, item)
    {
      cursor := (rear + 1) % data.Length;
      full := cursor == front;
      if full {
        state := Next(state, PushStart(thread, item)).0;
      } else {
        Store(cursor, item);
      }
    }

    /** The rest of `push_simple_queue` after the wait. */
    method PushResume(cursor: nat, item: T, ghost thread: Thread) returns (ok: bool)
      requires Valid() && thread in state.producers && state.producers[thread] == Waiter(cursor, item)
      requires cursor < data.Length
      modifies this`rear, this`state, data
      ensures Valid() && Shape(old(state)) && Enabled(old(state), PushWake(thread))
      ensures (state, if ok then Success else Fail) == Next(old(state), PushWake(thread))
    {
      state := state.(producers := state.producers - {thread});
      if cursor == front {
        return false;
      }
      Store(cursor, item);
      return true;
    }

    /** `pop_simple_queue` up to its end or its wait. */
    method PopBegin(ghost thread: Thread) returns (empty: bool, item: T)
      requires Valid() && Enabled(state, PopStart(thread))
      modifies this`front, this`state
      ensures Valid() && Shape(old(state)) && Enabled(old(state), PopStart(thread))
      ensures (state, if empty then Waits else Popped(item)) == Next(old(state), PopStart(thread))
    {
      empty := front == rear;
      if empty {
        item := data[front];
        state := Next(state, PopStart(thread)).0;
      } else {
        item := Take();
      }
    }

    /** The rest of `pop_simple_queue` after the wait. */
    method PopResume(ghost thread: Thread) returns (ok: bool, item: T)
      requires Valid() && thread in state.consumers
      modifies this`front, this`state
      ensures Valid() && Shape(old(state)) && Enabled(old(state), PopWake(thread))
      ensures (state, if ok then Popped(item) else Fail) == Next(old(state), PopWake(thread))
    {
      state := state.(consumers := state.consumers - {thread});
      item := data[front];
      ok := front != rear;
      if ok {
        item := Take();
      }
    }
  }
}
