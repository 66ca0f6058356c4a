/** The config library over its items' storage: every operation performs the matching step of
    `ConfigStore`. `committing` and `auditing` stand for the audits that a commit and the worker have
    underway. */
module Config {
  import opened Common
  import opened ConfigStore

  class ConfigItem {
    const key: Key
    const spec: Item
    const defaultFile: Option<string>
    var storage: Value
    var flags: Flags
    var sourceFile: Option<string>

    constructor (key: Key, spec: Item, storage: Value, flags: Flags, defaultFile: Option<string>)
      ensures this.key == key && this.spec == spec && this.storage == storage && this.flags == flags
      ensures this.defaultFile == defaultFile && sourceFile == None
    {
      this.key, this.spec, this.storage, this.flags := key, spec, storage, flags;
      this.defaultFile, sourceFile := defaultFile, None;
    }
  }

  // ---------- types and storage sizes ----------

  /** The type that an item is declared with. */
  datatype Declared = Exactly(kind: Kind) | IntAuto | Invalid

  /** `TYPE_SIZE_MAP_ARRAY`, with pointers of 8 bytes. */
  function SizeOf(kind: Kind): nat {
    match kind
    case Int8Kind => 1
    case Int16Kind => 2
    case BoolKind | Int32Kind | FloatKind => 4
    case _ => 8
  }

  /** The type after normalising by the storage size. */
  function Guessed(declared: Declared, size: int): Option<Kind> {
    match declared
    case Invalid => None
    case IntAuto =>
      if size == 1 then Some(Int8Kind)
      else if size == 2 then Some(Int16Kind)
      else if size == 4 then Some(Int32Kind)
      else if size == 8 then Some(Int64Kind)
      else None
    case Exactly(kind) =>
      if !kind.DoubleKind? || size == 8 then Some(kind) else if size == 4 then Some(FloatKind) else None
  }

  /** `cfg_type_check_normalize`: the type of the item, unless it does not fit its storage. */
  function Normalized(declared: Declared, size: int, hasStorage: bool): Option<Kind> {
    var kind := Guessed(declared, size);
    if size == 0 || !hasStorage || kind.None? || SizeOf(kind.value) != size then None else kind
  }

  /** An item is accepted exactly with a storage of the size of its type, or with a float behind a
      double, or with any integer size for an automatic one; its type then has that size. */
  lemma NormalizedExactly(declared: Declared, size: int, hasStorage: bool)
    ensures var n := Normalized(declared, size, hasStorage);
      && (n.Some? <==>
            hasStorage && match declared
            case Invalid => false
            case IntAuto => size in {1, 2, 4, 8}
            case Exactly(kind) => size == SizeOf(kind) || (kind.DoubleKind? && size == SizeOf(FloatKind)))
      && (n.Some? ==> SizeOf(n.value) == size)
      && (n.Some? && declared.Exactly? && n.value != declared.kind ==> declared.kind.DoubleKind? && n.value.FloatKind?)
  {
  }

  class Library {
    var items: map<Key, ConfigItem>
    var audit: seq<Entry>
    var committing: Audit
    var queue: seq<Entry>
    var running: Option<Entry>
    var auditing: Audit
    var restartReasons: seq<Key>
    var needsRestart: bool
    ghost var store: Store

    ghost predicate Valid()
      reads this, items.Values
    {
      store.storage == (map key | key in items :: items[key].storage) && ValidButStorage()
    }

    ghost predicate ValidButStorage()
      reads this, items.Values
    {
      && (forall key :: key in items ==> items[key].key == key)
      && store.flags == (map key | key in items :: items[key].flags)
      && store.audit == audit && store.queue == queue && store.running == running
      && store.committing == committing && store.auditing == auditing
      && store.restartReasons == restartReasons && store.needsRestart == needsRestart
    }

    ghost function Specs(): Items
      reads this`items
    {
      map key | key in items :: items[key].spec
    }

    constructor ()
      ensures Valid() && items == map[]
      ensures store == Store(map[], map[], [], [], NoAudit, [], None, NoAudit, [], false)
    {
      items, audit, queue, restartReasons, needsRestart := map[], [], [], [], false;
      committing, running, auditing := NoAudit, None, NoAudit;
      store := Store(map[], map[], [], [], NoAudit, [], None, NoAudit, [], false);
    }

    /** `cfg_register`: a key is taken once, and its type must fit its storage. */
    method Register(key: Key, declared: Declared, size: int, hasStorage: bool, spec: Item, storage: Value,
                    flags: Flags, defaultFile: Option<string>)
      returns (code: int)
      requires Valid()
      modifies this`items, this`store
      ensures Valid()
      ensures code == if key in old(items) || Normalized(declared, size, hasStorage).None? then -1 else 0
      ensures code == -1 ==> items == old(items) && store == old(store)
      ensures code == 0 ==>
        && key in items && items == old(items)[key := items[key]] && fresh(items[key])
        && items[key].spec == spec.(kind := Normalized(declared, size, hasStorage).value)
        && items[key].defaultFile == defaultFile && items[key].sourceFile == None
        && store == old(store).(storage := old(store).storage[key := storage], flags := old(store).flags[key := flags])
    {
      if key in items {
        return -1;
      }
      var kind := Normalized(declared, size, hasStorage);
      if kind.None? {
        return -1;
      }
      var item := new ConfigItem(key, spec.(kind := kind.value), storage, flags, defaultFile);
      items := items[key := item];
      store := store.(storage := store.storage[key := storage], flags := store.flags[key := flags]);
      return 0;
    }

    /** `cfg_audit_record`, the first step: is the log full? */
    method TestAudit(e: Entry) returns (next: Audit)
      requires ValidButStorage()
      ensures next == Tested(store, e)
    {
      return if |audit| == AUDIT_LIMIT then Dropping(e) else Appending(e);
    }

    /** The second step. */
    method DropAudit()
      requires ValidButStorage()
      modifies this`audit, this`store
      ensures ValidButStorage() && store == Dropped(old(store))
    {
      store := Dropped(store);
      if audit != [] {
        audit := audit[1..];
      }
    }

    /** The third step. */
    method PushAudit(e: Entry)
      requires ValidButStorage()
      modifies this`audit, this`store
      ensures ValidButStorage() && store == Pushed(old(store), e)
    {
      store := Pushed(store, e);
      audit := audit + [e];
    }

    /** The item's storage has been changed; the model still has the old value. */
    ghost predicate Applied(it: ConfigItem)
      reads this, items.Values
    {
      && it.key in items && items[it.key] == it && ValidButStorage() && store.storage.Keys == items.Keys
      && store.storage[it.key := it.storage] == map key | key in items :: items[key].storage
    }

    method Announce(it: ConfigItem, backup: Value)
      requires ValidButStorage()
      modifies this`committing, this`queue, this`store
      ensures ValidButStorage() && store == Announced(it.spec, old(store), Entry(it.key, backup, it.storage))
    {
      var e := Entry(it.key, backup, it.storage);
      if it.spec.onChange {
        queue := queue + [e];
        store := store.(queue := queue);
      } else {
        committing := TestAudit(e);
        store := store.(committing := committing);
      }
    }

    method NoteRestart(it: ConfigItem)
      requires ValidButStorage() && it.key in items && items[it.key] == it
      modifies this`restartReasons, this`needsRestart, this`store
      ensures ValidButStorage() && it.key in old(store).flags && store == RestartNoted(old(store), it.key)
    {
      store := RestartNoted(store, it.key);
      if it.flags.restart {
        needsRestart := true;
        restartReasons := restartReasons + [it.key];
      }
    }

    method MarkDirty(it: ConfigItem)
      requires ValidButStorage() && it.key in items && items[it.key] == it
      modifies this`store, it`flags
      ensures ValidButStorage() && it.key in old(store).flags && store == DirtyMarked(old(store), it.key)
    {
      store := DirtyMarked(store, it.key);
      if !it.flags.temporary {
        it.flags := it.flags.(dirty := true);
      }
    }

    /** The tail of a successful commit: hand the change on, note the restart, mark dirty. */
    method HandOn(it: ConfigItem, backup: Value)
      requires Applied(it) && store.storage[it.key] == backup
      modifies this`committing, this`queue, this`restartReasons, this`needsRestart, this`store, it`flags
      ensures Valid() && it.key in old(store).storage && it.key in old(store).flags
      ensures store == Changed(it.spec, old(store), it.key, it.storage)
    {
      hide DirtyMarked, RestartNoted, Announced;
      store := store.(storage := store.storage[it.key := it.storage]);
      KeepsStorage(it.spec, store, it.key, Entry(it.key, backup, it.storage));
      Announce(it, backup);
      NoteRestart(it);
      MarkDirty(it);
    }

    /** `cfg_commit_value`: apply, compare, validate; undo on any failure. */
    method CommitItem(it: ConfigItem, node: Node) returns (code: int)
      requires Valid() && it.key in items && items[it.key] == it
      modifies this`committing, this`queue, this`restartReasons, this`needsRestart, this`store, it
      ensures Valid() && it.key in old(store).storage && it.key in old(store).flags
      ensures (code, store) == CommitValue(it.spec, old(store), it.key, node)
    {
      hide Changed;
      if !TypeMatches(it.spec.kind, node) {
        return -EINVAL;
      }
      var backup := it.storage;
      var (parseCode, parsed) := it.spec.parse(node, it.storage);
      it.storage := parsed;
      if parseCode != 0 {
        code := -1;
      } else if backup == it.storage {
        code := 0;
      } else if it.spec.validator.Some? && it.spec.validator.value(it.storage) != 0 {
        code := -2;
      } else {
        HandOn(it, backup);
        return 0;
      }
      it.storage := backup;
    }

    /** The commit drops the oldest entry, if that is due. */
    method DropCommit()
      requires Valid()
      modifies this`audit, this`committing, this`store
      ensures Valid() && store == CommitDropped(old(store))
    {
      if committing.Dropping? {
        DropAudit();
        committing := Appending(committing.entry);
        store := store.(committing := committing);
      }
    }

    /** The commit appends its entry. */
    method PushCommit()
      requires Valid()
      modifies this`audit, this`committing, this`store
      ensures Valid() && store == CommitPushed(old(store))
    {
      if committing.Appending? {
        var e := committing.entry;
        committing := NoAudit;
        store := store.(committing := NoAudit);
        PushAudit(e);
      }
    }

    /** `cfg_commit_node_by_key`, all steps of it. */
    method CommitNodeByKey(key: Key, node: Node) returns (code: int)
      requires Valid() && committing.NoAudit?
      modifies this`audit, this`committing, this`queue, this`restartReasons, this`needsRestart, this`store, items.Values
      ensures Valid() && committing.NoAudit? && Known(Specs(), old(store))
      ensures var (c, s) := Commit(Specs(), old(store), key, node);
        code == c && store == CommitPushed(CommitDropped(s))
    {
      if key !in items || !items[key].flags.runtime {
        return -1;
      }
      code := CommitItem(items[key], node);
      DropCommit();
      PushCommit();
    }

    /** The worker takes the next task. */
    method WorkerTake()
      requires Valid() && running.None? && auditing.NoAudit? && queue != []
      modifies this`queue, this`running, this`store
      ensures Valid() && Enabled(Specs(), old(store), WorkerPop) && store == Next(Specs(), old(store), WorkerPop)
    {
      running, queue := Some(queue[0]), queue[1..];
      store := store.(running := running, queue := queue);
    }

    /** The old value goes back into the storage. */
    method RollBack(task: Entry)
      requires Valid() && task.key in items
      modifies this`store, items.Values
      ensures Valid() && store == old(store).(storage := old(store).storage[task.key := task.was])
    {
      items[task.key].storage := task.was;
      store := store.(storage := store.storage[task.key := task.was]);
    }

    /** The worker is back from `on_change`: roll back under the lock, or test the log without it. */
    method WorkerDone(result: int)
      requires Valid() && running.Some? && running.value.key in items && (result != 0 ==> committing.NoAudit?)
      modifies this`running, this`auditing, this`store, items.Values
      ensures Valid() && Enabled(Specs(), old(store), WorkerFinish(result))
      ensures store == Next(Specs(), old(store), WorkerFinish(result))
    {
      var task := running.value;
      running := None;
      store := store.(running := None);
      if result != 0 {
        RollBack(task);
      } else {
        auditing := TestAudit(task);
        store := store.(auditing := auditing);
      }
    }

    /** The worker drops the oldest entry, without the lock. */
    method WorkerRemove()
      requires Valid() && auditing.Dropping?
      modifies this`audit, this`auditing, this`store
      ensures Valid() && Enabled(Specs(), old(store), WorkerDrop) && store == Next(Specs(), old(store), WorkerDrop)
    {
      DropAudit();
      auditing := Appending(auditing.entry);
      store := store.(auditing := auditing);
    }

    /** The worker appends its entry, without the lock. */
    method WorkerAppend()
      requires Valid() && auditing.Appending?
      modifies this`audit, this`auditing, this`store
      ensures Valid() && Enabled(Specs(), old(store), WorkerPush) && store == Next(Specs(), old(store), WorkerPush)
    {
      var task := auditing.entry;
      auditing := NoAudit;
      store := store.(auditing := NoAudit);
      PushAudit(task);
    }
  }

  lemma KeepsStorage(item: Item, s: Store, key: Key, e: Entry)
    requires key in s.flags
    ensures var t := Announced(item, s, e); t.storage == s.storage && t.flags == s.flags
    ensures var t := RestartNoted(Announced(item, s, e), key); t.storage == s.storage && t.flags == s.flags
    ensures DirtyMarked(RestartNoted(Announced(item, s, e), key), key).storage == s.storage
  {
  }
}
