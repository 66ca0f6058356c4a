/** Saving the items to configuration files and loading them back. A file is the tree it holds. */
module ConfigFiles {
  import opened Common
  import opened ConfigStore
  import opened ConfigTree
  import opened Config

  ghost function PathOf(item: ConfigItem): Path {
    Split(item.key)
  }

  /** The list of items: keys are non-empty, and no key is a segment-prefix of another. */
  ghost predicate KeysApart(items: seq<ConfigItem>) {
    && (forall i :: 0 <= i < |items| ==> items[i].key != "")
    && (forall i, j :: 0 <= i < j < |items| ==> Unrelated(PathOf(items[i]), PathOf(items[j])))
  }

  /** `cfg_item_has_prefix`; no domain is the empty one. */
  predicate InDomain(key: string, domain: string) {
    domain <= key
  }

  /** Saved and loaded: in the domain and not temporary. */
  predicate Persistent(item: ConfigItem, domain: string)
    reads item`flags
  {
    InDomain(item.key, domain) && !item.flags.temporary
  }

  /** What `to_json` makes of the item's present value; it may fail. */
  function Shown(item: ConfigItem): Option<Node>
    reads item`storage
  {
    item.spec.show(item.storage)
  }

  /** The tree holds the item's present value. */
  ghost predicate Holds(root: Members, item: ConfigItem)
    reads item`storage
  {
    Shown(item).Some? && Lookup(ObjectNode(root), PathOf(item)) == Shown(item)
  }

  ghost predicate UnrelatedToAll(items: seq<ConfigItem>, q: Path) {
    forall i :: 0 <= i < |items| ==> Unrelated(PathOf(items[i]), q)
  }

  /** One item written into a tree. */
  method WriteItem(root: Members, item: ConfigItem) returns (tree: Members)
    requires item.key != ""
    ensures Shown(item).None? ==> tree == root
    ensures Shown(item).Some? ==> (Holds(tree, item) <==> Writable(root, PathOf(item)))
    ensures forall q :: Unrelated(PathOf(item), q) ==> Lookup(ObjectNode(tree), q) == Lookup(ObjectNode(root), q)
    ensures forall q :: Unrelated(PathOf(item), q) ==> (Writable(tree, q) <==> Writable(root, q))
  {
    var shown := Shown(item);
    if shown.None? {
      return root;
    }
    tree := Put(root, Split(item.key), shown.value);
    PutFound(root, PathOf(item), shown.value);
    forall q | Unrelated(PathOf(item), q)
      ensures Lookup(ObjectNode(tree), q) == Lookup(ObjectNode(root), q)
      ensures Writable(tree, q) <==> Writable(root, q)
    {
      PutElsewhere(root, PathOf(item), shown.value, q);
      PutKeepsWritable(root, PathOf(item), shown.value, q);
    }
  }

  /** Saved: persistent, and `to_json` succeeds. */
  ghost predicate Saved(item: ConfigItem, domain: string)
    reads item`flags, item`storage
  {
    Persistent(item, domain) && Shown(item).Some?
  }

  /** `cfg_save_file`, up to writing the tree out. */
  method SaveFile(items: seq<ConfigItem>, domain: string) returns (root: Members)
    requires KeysApart(items)
    ensures forall i :: 0 <= i < |items| && Saved(items[i], domain) ==> Holds(root, items[i])
    ensures forall i :: 0 <= i < |items| && !Saved(items[i], domain) ==>
      Lookup(ObjectNode(root), PathOf(items[i])) == None
    ensures forall i :: 0 <= i < |items| && (!(domain <= items[i].key) || items[i].flags.temporary) ==>
      Lookup(ObjectNode(root), PathOf(items[i])) == None
    ensures forall q :: q != [] && UnrelatedToAll(items, q) ==> Lookup(ObjectNode(root), q) == None
  {
    root := map[];
    for k := 0 to |items|
      invariant forall i :: 0 <= i < k && Saved(items[i], domain) ==> Holds(root, items[i])
      invariant forall i :: 0 <= i < |items| && (i < k ==> !Saved(items[i], domain)) ==>
        Lookup(ObjectNode(root), PathOf(items[i])) == None
      invariant forall i :: k <= i < |items| ==> Writable(root, PathOf(items[i]))
      invariant forall q :: q != [] && UnrelatedToAll(items, q) ==> Lookup(ObjectNode(root), q) == None
    {
      if Persistent(items[k], domain) {
        root := WriteItem(root, items[k]);
      }
    }
  }

  // ---------- loading ----------

  predicate HoldsValue(n: Node) {
    !n.NullNode? && !n.ObjectNode? && !n.ArrayNode?
  }

  predicate IsPlain(shown: Option<Node>) {
    shown.Some? && HoldsValue(shown.value)
  }

  /** The tree holds a plain value of the item's type. */
  ghost predicate Offers(root: Node, item: ConfigItem) {
    var found := Lookup(root, PathOf(item));
    found.Some? && HoldsValue(found.value) && TypeMatches(item.spec.kind, found.value)
  }

  /** Loading passes the item over. */
  ghost predicate PassedOver(item: ConfigItem, root: Node, domain: string)
    reads item`flags
  {
    !(domain <= item.key) || item.flags.temporary || !Offers(root, item)
  }

  /** What loading makes of an item: its return code, storage, flags and source file. */
  datatype Loaded = Loaded(code: int, storage: Value, flags: Flags, sourceFile: Option<string>)

  function LoadItem(item: ConfigItem, root: Node, domain: string, path: string): Loaded
    reads item
  {
    var same := Loaded(0, item.storage, item.flags, item.sourceFile);
    var found := Lookup(root, Split(item.key));
    if !Persistent(item, domain) || found.None? || !HoldsValue(found.value) then same
    else if !TypeMatches(item.spec.kind, found.value) then same.(code := -1)
    else
      var (code, value) := item.spec.parse(found.value, item.storage);
      Loaded(
        code,
        value,
        if code != 0 then item.flags.(dirty := true) else item.flags,
        if item.sourceFile.None? then Some(path) else item.sourceFile)
  }

  /** Saving one item into any tree and loading it back, whatever the storage has become since: the
      value comes back whenever the path was writable and the handlers recover it. When nothing was
      written, because the path was not writable or `to_json` failed, an item that the tree did not
      hold before keeps its later value; so does one saved as null, such as an absent string, or as an
      object or array. */
  lemma SaveThenLoad(item: ConfigItem, root: Members, domain: string, path: string, saved: Value)
    requires item.key != "" && Persistent(item, domain)
    ensures var node := item.spec.show(saved);
      var tree := if node.Some? then Put(root, PathOf(item), node.value) else root;
      var l := LoadItem(item, ObjectNode(tree), domain, path);
      && (Writable(root, PathOf(item)) && Recovers(item.spec, saved) ==> l.code == 0 && l.storage == saved)
      && (!Writable(root, PathOf(item)) || (node.Some? && !HoldsValue(node.value))
            || (node.None? && Lookup(ObjectNode(root), PathOf(item)) == None) ==>
            l == Loaded(0, item.storage, item.flags, item.sourceFile))
  {
    hide Put, Writable;
    var node := item.spec.show(saved);
    if node.Some? {
      PutFound(root, PathOf(item), node.value);
    } else {
      PutFound(root, PathOf(item), NullNode);
    }
  }

  /** No item stands in the list twice. */
  ghost predicate Distinct(items: seq<ConfigItem>) {
    forall i, j :: 0 <= i < j < |items| ==> items[i] != items[j]
  }

  lemma ItemsDistinct(items: seq<ConfigItem>)
    requires KeysApart(items)
    ensures Distinct(items)
  {
    forall i, j | 0 <= i < j < |items| ensures items[i] != items[j] {
      assert Unrelated(PathOf(items[i]), PathOf(items[j]));
    }
  }

  ghost function SumCodes(codes: seq<int>): int {
    if codes == [] then 0 else SumCodes(codes[..|codes| - 1]) + codes[|codes| - 1]
  }

  ghost predicate IsLoaded(item: ConfigItem, l: Loaded)
    reads item
  {
    item.storage == l.storage && item.flags == l.flags && item.sourceFile == l.sourceFile
  }

  /** One turn of the loading loop. */
  method LoadOne(it: ConfigItem, root: Node, domain: string, path: string) returns (code: int)
    modifies it
    ensures IsLoaded(it, old(LoadItem(it, root, domain, path))) && code == old(LoadItem(it, root, domain, path)).code
    ensures old(PassedOver(it, root, domain)) ==> unchanged(it)
  {
    if !Persistent(it, domain) {
      return 0;
    }
    var found := GetByPath(root, Split(it.key));
    if found.None? || !HoldsValue(found.value) {
      return 0;
    }
    if !TypeMatches(it.spec.kind, found.value) {
      return -1;
    }
    var result := it.spec.parse(found.value, it.storage);
    code := result.0;
    it.storage := result.1;
    if it.sourceFile.None? {
      it.sourceFile := Some(path);
    }
    if code != 0 {
      it.flags := it.flags.(dirty := true);
    }
  }

  /** `cfg_load_file_in_domain`, from the parsed tree on. */
  method LoadFile(items: seq<ConfigItem>, root: Node, domain: string, path: string) returns (ret: int)
    requires Distinct(items)
    modifies items
    ensures forall i :: 0 <= i < |items| ==> IsLoaded(items[i], old(LoadItem(items[i], root, domain, path)))
    ensures forall i :: 0 <= i < |items| && old(PassedOver(items[i], root, domain)) ==> unchanged(items[i])
    ensures ret
         == SumCodes(seq(|items|, i requires 0 <= i < |items| => old(LoadItem(items[i], root, domain, path)).code))
  {
    hide LoadItem, Persistent, PassedOver;
    ret := 0;
    ghost var results := seq(|items|, i requires 0 <= i < |items| => old(LoadItem(items[i], root, domain, path)));
    ghost var codes := seq(|items|, i requires 0 <= i < |items| => old(LoadItem(items[i], root, domain, path)).code);
    for k := 0 to |items|
      invariant forall i :: 0 <= i < k ==> IsLoaded(items[i], results[i])
      invariant forall i :: k <= i < |items| ==> unchanged(items[i])
      invariant forall i :: 0 <= i < k && old(PassedOver(items[i], root, domain)) ==> unchanged(items[i])
      invariant ret == SumCodes(codes[..k])
    {
      assert codes[..k + 1][..k] == codes[..k];
      var code := LoadOne(items[k], root, domain, path);
      ret := ret + code;
    }
    assert codes[..|items|] == codes;
  }

  /** The tree says of the item what `to_json` made of the saved value. */
  ghost predicate Says(root: Members, item: ConfigItem, saved: Value) {
    Lookup(ObjectNode(root), PathOf(item)) == item.spec.show(saved)
  }

  lemma LoadSaid(item: ConfigItem, root: Members, domain: string, path: string, saved: Value)
    requires Persistent(item, domain) && Says(root, item, saved)
    ensures var l := LoadItem(item, ObjectNode(root), domain, path);
      && (Recovers(item.spec, saved) ==> l.storage == saved)
      && (!IsPlain(item.spec.show(saved)) ==> l.storage == item.storage)
  {
  }

  /** Anything may happen to the storages. */
  method EditAll(items: seq<ConfigItem>, edits: seq<Value>)
    requires Distinct(items) && |edits| == |items|
    modifies items`storage
    ensures forall i :: 0 <= i < |items| ==> items[i].storage == edits[i]
  {
    for k := 0 to |items|
      invariant forall i :: 0 <= i < k ==> items[i].storage == edits[i]
    {
      items[k].storage := edits[k];
    }
  }

  /** Save, let the storages become anything, load: every persistent item whose saved value its
      handlers recover has that value again; one that was saved as no plain value or not at all keeps
      the later one. */
  method SaveEditLoad(items: seq<ConfigItem>, domain: string, path: string, edits: seq<Value>) returns (ret: int)
    requires KeysApart(items) && |edits| == |items|
    modifies items
    ensures forall i :: 0 <= i < |items| && old(Persistent(items[i], domain)) ==>
      && (Recovers(items[i].spec, old(items[i].storage)) ==> items[i].storage == old(items[i].storage))
      && (!old(IsPlain(Shown(items[i]))) ==> items[i].storage == edits[i])
  {
    hide LoadItem, Recovers, KeysApart, Lookup;
    ItemsDistinct(items);
    var root := SaveFile(items, domain);
    forall i | 0 <= i < |items| && Persistent(items[i], domain) ensures Says(root, items[i], items[i].storage) {
    }
    EditAll(items, edits);
    forall i | 0 <= i < |items| && old(Persistent(items[i], domain))
      ensures var l := LoadItem(items[i], ObjectNode(root), domain, path);
        && (Recovers(items[i].spec, old(items[i].storage)) ==> l.storage == old(items[i].storage))
        && (!old(IsPlain(Shown(items[i]))) ==> l.storage == edits[i])
    {
      LoadSaid(items[i], root, domain, path, old(items[i].storage));
    }
    label Edited:
    ret := LoadFile(items, ObjectNode(root), domain, path);
    forall i | 0 <= i < |items|
      ensures items[i].storage == old@Edited(LoadItem(items[i], ObjectNode(root), domain, path)).storage
    {
      assert IsLoaded(items[i], old@Edited(LoadItem(items[i], ObjectNode(root), domain, path)));
    }
  }

  // ---------- saving everything ----------

  type Files = map<string, Members>

  /** What `cfg_save_all` does with an item: the file it is written to, if any, and what is written. */
  datatype Write = Write(file: Option<string>, path: Path, node: Node)

  /** Where an item is saved: its source file, or else its default. */
  function Target(item: ConfigItem): Option<string>
    reads item`sourceFile
  {
    if item.sourceFile.Some? then item.sourceFile else item.defaultFile
  }

  ghost function WriteOf(item: ConfigItem, force: bool): Write
    reads item
  {
    var written := !item.flags.temporary && (force || item.flags.dirty) && Shown(item).Some?;
    Write(if written then Target(item) else None, PathOf(item), if written then Shown(item).value else NullNode)
  }

  ghost function Plan(items: seq<ConfigItem>, force: bool): (plan: seq<Write>)
    reads items
    ensures |plan| == |items|
    ensures forall i :: 0 <= i < |items| ==> plan[i] == WriteOf(items[i], force)
  {
    seq(|items|, i requires 0 <= i < |items| reads items => WriteOf(items[i], force))
  }

  function TreeOf(files: Files, file: string): Members {
    if file in files then files[file] else map[]
  }

  ghost predicate PathsApart(plan: seq<Write>) {
    && (forall i :: 0 <= i < |plan| ==> plan[i].path != [])
    && (forall i, j :: 0 <= i < j < |plan| ==> Unrelated(plan[i].path, plan[j].path))
  }

  /** Path q lies apart from every path that the first n writes put into the file. */
  ghost predicate Untouched(plan: seq<Write>, n: nat, file: string, q: Path)
    requires n <= |plan|
  {
    forall i :: 0 <= i < n && plan[i].file == Some(file) ==> Unrelated(plan[i].path, q)
  }

  /** Each of the first n planned writes can be read from the trees if and only if its path was
      writable in the tree that its file held. */
  ghost predicate HoldsWrites(plan: seq<Write>, n: nat, files: Files, out: Files)
    requires n <= |plan|
  {
    forall i :: 0 <= i < n && plan[i].file.Some? ==>
      plan[i].file.value in out
      && (Lookup(ObjectNode(out[plan[i].file.value]), plan[i].path) == Some(plan[i].node)
          <==>
          Writable(TreeOf(files, plan[i].file.value), plan[i].path))
  }

  ghost predicate WritesTo(plan: seq<Write>, n: nat, file: string)
    requires n <= |plan|
  {
    exists i :: 0 <= i < n && plan[i].file == Some(file)
  }

  ghost predicate SameElsewhere(plan: seq<Write>, n: nat, file: string, before: Members, after: Members)
    requires n <= |plan|
  {
    forall q :: Untouched(plan, n, file, q) ==> Lookup(ObjectNode(after), q) == Lookup(ObjectNode(before), q)
  }

  /** Trees exist only for files that are written to, and say what the files said elsewhere. */
  ghost predicate KeepsRest(plan: seq<Write>, n: nat, files: Files, out: Files)
    requires n <= |plan|
  {
    forall f :: f in out ==> WritesTo(plan, n, f) && SameElsewhere(plan, n, f, TreeOf(files, f), out[f])
  }

  ghost predicate Merged(plan: seq<Write>, n: nat, files: Files, out: Files)
    requires n <= |plan|
  {
    HoldsWrites(plan, n, files, out) && KeepsRest(plan, n, files, out)
  }

  /** The remaining writes find their way exactly when they would have before. */
  ghost predicate Ready(plan: seq<Write>, k: nat, files: Files, out: Files) {
    forall i :: k <= i < |plan| && plan[i].file.Some? ==>
      (Writable(TreeOf(files + out, plan[i].file.value), plan[i].path)
       <==>
       Writable(TreeOf(files, plan[i].file.value), plan[i].path))
  }

  lemma SkipWrite(plan: seq<Write>, k: nat, files: Files, out: Files)
    requires k < |plan| && plan[k].file.None? && Merged(plan, k, files, out) && Ready(plan, k, files, out)
    ensures Merged(plan, k + 1, files, out) && Ready(plan, k + 1, files, out)
  {
    hide KeepsRest, Lookup, Writable, TreeOf;
    SkipKept(plan, k, files, out);
  }

  lemma SkipKept(plan: seq<Write>, k: nat, files: Files, out: Files)
    requires k < |plan| && KeepsRest(plan, k, files, out)
    ensures KeepsRest(plan, k + 1, files, out)
  {
    hide Lookup, TreeOf;
    forall f | f in out
      ensures WritesTo(plan, k + 1, f) && SameElsewhere(plan, k + 1, f, TreeOf(files, f), out[f])
    {
      assert WritesTo(plan, k, f) && SameElsewhere(plan, k, f, TreeOf(files, f), out[f]);
      FewerUntouched(plan, k, f);
    }
  }

  lemma FewerUntouched(plan: seq<Write>, k: nat, file: string)
    requires k < |plan|
    ensures forall q :: Untouched(plan, k + 1, file, q) ==> Untouched(plan, k, file, q)
  {
  }

  /** The trees after write k. */
  function Added(w: Write, files: Files, out: Files): Files
    requires w.file.Some? && w.path != []
  {
    out[w.file.value := Put(TreeOf(files + out, w.file.value), w.path, w.node)]
  }

  lemma MoreHeld(plan: seq<Write>, k: nat, files: Files, out: Files)
    requires k < |plan| && PathsApart(plan) && plan[k].file.Some?
    requires HoldsWrites(plan, k, files, out) && Ready(plan, k, files, out)
    ensures HoldsWrites(plan, k + 1, files, Added(plan[k], files, out))
  {
    hide Put, Lookup, Writable;
    var w, grown := plan[k], Added(plan[k], files, out);
    var was := TreeOf(files + out, w.file.value);
    PutFound(was, w.path, w.node);
    forall i | 0 <= i < k && plan[i].file == w.file
      ensures Lookup(ObjectNode(grown[w.file.value]), plan[i].path) == Lookup(ObjectNode(was), plan[i].path)
    {
      PutElsewhere(was, w.path, w.node, plan[i].path);
    }
  }

  lemma MoreKept(plan: seq<Write>, k: nat, files: Files, out: Files)
    requires k < |plan| && PathsApart(plan) && plan[k].file.Some? && KeepsRest(plan, k, files, out)
    ensures KeepsRest(plan, k + 1, files, Added(plan[k], files, out))
  {
    hide Put, Lookup;
    var w, grown := plan[k], Added(plan[k], files, out);
    var was := TreeOf(files + out, w.file.value);
    forall f | f in grown
      ensures WritesTo(plan, k + 1, f) && SameElsewhere(plan, k + 1, f, TreeOf(files, f), grown[f])
    {
      assert f in out ==> WritesTo(plan, k, f) && SameElsewhere(plan, k, f, TreeOf(files, f), out[f]);
      FewerUntouched(plan, k, f);
      forall q | Untouched(plan, k + 1, f, q)
        ensures Lookup(ObjectNode(grown[f]), q) == Lookup(ObjectNode(TreeOf(files, f)), q)
      {
        if f == w.file.value {
          PutElsewhere(was, w.path, w.node, q);
        }
      }
    }
  }

  lemma MoreReady(plan: seq<Write>, k: nat, files: Files, out: Files)
    requires k < |plan| && PathsApart(plan) && plan[k].file.Some? && Ready(plan, k, files, out)
    ensures Ready(plan, k + 1, files, Added(plan[k], files, out))
  {
    hide Put, Writable;
    var w := plan[k];
    var was := TreeOf(files + out, w.file.value);
    var trees := files + Added(plan[k], files, out);
    forall i | k + 1 <= i < |plan| && plan[i].file.Some?
      ensures Writable(TreeOf(trees, plan[i].file.value), plan[i].path)
         <==> Writable(TreeOf(files, plan[i].file.value), plan[i].path)
    {
      if plan[i].file == w.file {
        PutKeepsWritable(was, w.path, w.node, plan[i].path);
      }
    }
  }

  /** The first loop of `cfg_save_all`: merge the items into their files' trees. */
  method Collect(items: seq<ConfigItem>, force: bool, files: Files) returns (out: Files)
    requires KeysApart(items)
    modifies items`sourceFile
    ensures Merged(old(Plan(items, force)), |items|, files, out)
    ensures forall i :: 0 <= i < |items| ==>
      items[i].sourceFile == old(if items[i].flags.temporary then items[i].sourceFile else Target(items[i]))
  {
    hide HoldsWrites, KeepsRest, Ready, Put, Writable, Lookup;
    ItemsDistinct(items);
    ghost var plan := Plan(items, force);
    assert PathsApart(plan);
    out := map[];
    NothingMerged(plan, files);
    for k := 0 to |items|
      invariant forall i :: 0 <= i < k ==>
        items[i].sourceFile == old(if items[i].flags.temporary then items[i].sourceFile else Target(items[i]))
      invariant forall i :: k <= i < |items| ==> items[i].sourceFile == old(items[i].sourceFile)
      invariant Merged(plan, k, files, out) && Ready(plan, k, files, out)
    {
      var it := items[k];
      if !it.flags.temporary && it.sourceFile.None? {
        it.sourceFile := it.defaultFile;
      }
      var shown := Shown(it);
      if it.flags.temporary || it.sourceFile.None? || (!force && !it.flags.dirty) || shown.None? {
        SkipWrite(plan, k, files, out);
        continue;
      }
      var f := it.sourceFile.value;
      MoreHeld(plan, k, files, out);
      MoreKept(plan, k, files, out);
      MoreReady(plan, k, files, out);
      var tree := Put(if f in out then out[f] else TreeOf(files, f), Split(it.key), shown.value);
      out := out[f := tree];
    }
  }

  lemma NothingMerged(plan: seq<Write>, files: Files)
    ensures Merged(plan, 0, files, map[]) && Ready(plan, 0, files, map[])
  {
    assert files + map[] == files;
  }

  /** The item's flags once these files are written. */
  function Cleaned(flags: Flags, sourceFile: Option<string>, written: set<string>): Flags {
    if sourceFile.Some? && sourceFile.value in written then flags.(dirty := false) else flags
  }

  /** After a file has been written, its items are clean. */
  method CleanFlags(items: seq<ConfigItem>, file: string)
    requires Distinct(items)
    modifies items`flags
    ensures forall i :: 0 <= i < |items| ==> items[i].flags == Cleaned(old(items[i].flags), items[i].sourceFile, {file})
  {
    for k := 0 to |items|
      invariant forall i :: 0 <= i < k ==> items[i].flags == Cleaned(old(items[i].flags), items[i].sourceFile, {file})
      invariant forall i :: k <= i < |items| ==> items[i].flags == old(items[i].flags)
    {
      var it := items[k];
      if it.flags.dirty && it.sourceFile == Some(file) {
        it.flags := it.flags.(dirty := false);
      }
    }
  }

  /** The files of these trees that the system lets be written. */
  ghost function Written(out: Files, works: string -> bool): set<string> {
    set f | f in out && works(f)
  }

  /** The file system once these trees have taken the place of their files. */
  ghost function Installed(files: Files, out: Files, written: set<string>): Files
    requires written <= out.Keys
  {
    files + map f | f in written :: out[f]
  }

  lemma NothingInstalled(files: Files, out: Files, works: string -> bool)
    ensures Installed(files, out, {}) == files
    ensures Written(out, works) - out.Keys == {} && Written(out, works) <= out.Keys
  {
  }

  /** One file more is done. */
  lemma TurnDone(files: Files, out: Files, works: string -> bool, left: set<string>, f: string)
    requires left <= out.Keys && f in left
    ensures Written(out, works) - left <= out.Keys
    ensures var done, more := Written(out, works) - left, Written(out, works) - (left - {f});
      && more == done + (if works(f) then {f} else {})
      && Installed(files, out, more) ==
         (if works(f) then Installed(files, out, done)[f := out[f]] else Installed(files, out, done))
      && (more == out.Keys - (left - {f}) <==> done == out.Keys - left && works(f))
  {
  }

  /** One file of the second loop: written, or left as it is with its items. */
  method WriteFile(items: seq<ConfigItem>, files: Files, f: string, tree: Members, works: bool) returns (saved: Files)
    requires Distinct(items)
    modifies items`flags
    ensures saved == if works then files[f := tree] else files
    ensures forall i :: 0 <= i < |items| ==>
      items[i].flags == Cleaned(old(items[i].flags), items[i].sourceFile, if works then {f} else {})
  {
    hide Cleaned;
    NothingCleaned();
    saved := files;
    if works {
      saved := saved[f := tree];
      CleanFlags(items, f);
    }
  }

  /** The second loop of `cfg_save_all`, in any order of the files; `works` says which can be written. */
  method WriteFiles(items: seq<ConfigItem>, files: Files, out: Files, works: string -> bool)
    returns (ret: int, saved: Files)
    requires Distinct(items)
    modifies items`flags
    ensures ret == (if Written(out, works) == out.Keys then 0 else -1)
    ensures saved == Installed(files, out, Written(out, works))
    ensures forall i :: 0 <= i < |items| ==>
      items[i].flags == Cleaned(old(items[i].flags), items[i].sourceFile, Written(out, works))
  {
    hide Cleaned, Installed, Written;
    ret, saved := 0, files;
    var left := out.Keys;
    ghost var done := {};
    NothingCleaned();
    NothingInstalled(files, out, works);
    while left != {}
      invariant left <= out.Keys && done == Written(out, works) - left && done <= out.Keys
      invariant ret == if done == out.Keys - left then 0 else -1
      invariant saved == Installed(files, out, done)
      invariant forall i :: 0 <= i < |items| ==>
        items[i].flags == Cleaned(old(items[i].flags), items[i].sourceFile, done)
      decreases |left|
    {
      var f: string :| f in left;
      saved := WriteFile(items, saved, f, out[f], works(f));
      if !works(f) {
        ret := -1;
      }
      TurnDone(files, out, works, left, f);
      MoreCleaned(done, if works(f) then {f} else {});
      left := left - {f};
      done := Written(out, works) - left;
    }
    assert done == Written(out, works);
  }

  /** Not temporary, dirty or forced, and shown by its `to_json`. */
  ghost predicate ToSave(item: ConfigItem, force: bool)
    reads item
  {
    !item.flags.temporary && (force || item.flags.dirty) && Shown(item).Some?
  }

  /** The item has a file, which can be written, and its way is free there. */
  ghost predicate Takes(item: ConfigItem, files: Files, works: string -> bool)
    reads item`sourceFile
  {
    && item.sourceFile.Some? && works(item.sourceFile.value)
    && Writable(TreeOf(files, item.sourceFile.value), PathOf(item))
  }

  /** The files say the same under this path. */
  ghost predicate SameAt(files: Files, saved: Files, f: string, path: Path) {
    Lookup(ObjectNode(TreeOf(saved, f)), path) == Lookup(ObjectNode(TreeOf(files, f)), path)
  }

  /** A planned write is in its file if that can be written and the way was free; no other file changes
      under its path. */
  ghost predicate ItemSaved(w: Write, files: Files, out: Files, works: string -> bool, saved: Files) {
    && (w.file.Some? && works(w.file.value) && Writable(TreeOf(files, w.file.value), w.path) ==>
          && w.file.value in saved && Lookup(ObjectNode(saved[w.file.value]), w.path) == Some(w.node)
          && w.file.value in Written(out, works))
    && forall f :: w.file != Some(f) ==> SameAt(files, saved, f, w.path)
  }

  lemma PlanSaved(plan: seq<Write>, i: nat, files: Files, out: Files, works: string -> bool)
    requires i < |plan| && PathsApart(plan) && Merged(plan, |plan|, files, out)
    ensures ItemSaved(plan[i], files, out, works, Installed(files, out, Written(out, works)))
  {
    hide Lookup, Writable;
    var w, saved := plan[i], Installed(files, out, Written(out, works));
    forall f | w.file != Some(f) ensures SameAt(files, saved, f, w.path) {
      if f in Written(out, works) {
        assert SameElsewhere(plan, |plan|, f, TreeOf(files, f), out[f]);
        assert Untouched(plan, |plan|, f, w.path);
      }
    }
  }

  /** `cfg_save_all`: the trees it makes hold each item written to them exactly when its path was
      writable in the existing file, and otherwise say what the file said before. Exactly the files
      that the system lets be written get their tree, and the items of exactly these are clean again.
      It fails exactly when a file cannot be written or there is nothing to write. */
  method SaveAll(items: seq<ConfigItem>, force: bool, files: Files, works: string -> bool)
    returns (ret: int, saved: Files, ghost out: Files)
    requires KeysApart(items)
    modifies items`sourceFile, items`flags
    ensures Merged(old(Plan(items, force)), |items|, files, out)
    ensures saved == Installed(files, out, Written(out, works))
    ensures ret == (if out != map[] && Written(out, works) == out.Keys then 0 else -1)
    ensures forall i :: 0 <= i < |items| ==>
      items[i].sourceFile == old(if items[i].flags.temporary then items[i].sourceFile else Target(items[i]))
    ensures forall i :: 0 <= i < |items| ==>
      items[i].flags == Cleaned(old(items[i].flags), items[i].sourceFile, Written(out, works))
    ensures forall i :: 0 <= i < |items| ==>
      items[i].sourceFile
        == old(if items[i].sourceFile.None? && !items[i].flags.temporary then items[i].defaultFile
               else items[i].sourceFile)
    ensures forall i :: 0 <= i < |items| && old(ToSave(items[i], force)) && Takes(items[i], files, works) ==>
      items[i].sourceFile.value in saved && Holds(saved[items[i].sourceFile.value], items[i]) && !items[i].flags.dirty
    ensures forall i, f :: 0 <= i < |items| && (old(!ToSave(items[i], force)) || items[i].sourceFile != Some(f)) ==>
      SameAt(files, saved, f, PathOf(items[i]))
  {
    hide Merged, Cleaned, Installed, Writable, Lookup;
    ItemsDistinct(items);
    ghost var plan := Plan(items, force);
    assert PathsApart(plan);
    var trees := Collect(items, force, files);
    out := trees;
    if trees == map[] {
      NothingCleaned();
      assert Written(out, works) == {};
      ret, saved := -1, files;
      NothingInstalled(files, out, works);
    } else {
      ret, saved := WriteFiles(items, files, trees, works);
    }
    forall i | 0 <= i < |items| ensures ItemSaved(plan[i], files, out, works, saved) {
      PlanSaved(plan, i, files, out, works);
    }
    WrittenAreClean();
  }

  lemma WrittenAreClean()
    ensures forall flags, file: string, written :: file in written ==> !Cleaned(flags, Some(file), written).dirty
  {
  }

  lemma NothingCleaned()
    ensures forall flags, sourceFile :: Cleaned(flags, sourceFile, {}) == flags
  {
  }

  lemma MoreCleaned(done: set<string>, now: set<string>)
    ensures forall flags, sourceFile ::
      Cleaned(Cleaned(flags, sourceFile, done), sourceFile, now) == Cleaned(flags, sourceFile, done + now)
  {
  }

  // ---------- a whole session ----------

  /** New values are committed: the items that are not temporary become dirty. */
  method ChangeAll(items: seq<ConfigItem>, edits: seq<Value>)
    requires Distinct(items) && |edits| == |items|
    modifies items`storage, items`flags
    ensures forall i :: 0 <= i < |items| ==>
      items[i].storage == edits[i]
      && items[i].flags == old(items[i].flags).(dirty := old(items[i].flags.dirty || !items[i].flags.temporary))
  {
    for k := 0 to |items|
      invariant forall i :: 0 <= i < k ==>
        items[i].storage == edits[i]
        && items[i].flags == old(items[i].flags).(dirty := old(items[i].flags.dirty || !items[i].flags.temporary))
      invariant forall i :: k <= i < |items| ==> items[i].flags == old(items[i].flags)
    {
      items[k].storage := edits[k];
      items[k].flags := items[k].flags.(dirty := items[k].flags.dirty || !items[k].flags.temporary);
    }
  }

  /** Not temporary, with no file yet or this one, which has a value for it. */
  ghost predicate Belongs(item: ConfigItem, root: Members, file: string)
    reads item
  {
    !item.flags.temporary && (item.sourceFile.None? || item.sourceFile == Some(file)) && Offers(ObjectNode(root), item)
  }

  lemma OfferedIsWritable(root: Members, item: ConfigItem)
    requires item.key != "" && Offers(ObjectNode(root), item)
    ensures Writable(root, PathOf(item))
  {
    PutFound(root, PathOf(item), NullNode);
  }

  lemma OfferedIsTaken(item: ConfigItem, root: Members, file: string)
    requires Belongs(item, root, file)
    ensures var l := LoadItem(item, ObjectNode(root), "", file); l.sourceFile == Some(file) && !l.flags.temporary
    ensures Offers(ObjectNode(root), item)
  {
  }

  lemma HeldIsTaken(item: ConfigItem, root: Members, file: string)
    requires !item.flags.temporary && item.sourceFile == Some(file) && Recovers(item.spec, item.storage)
    requires Holds(root, item)
    ensures LoadItem(item, ObjectNode(root), "", file) == Loaded(0, item.storage, item.flags, item.sourceFile)
  {
  }

  lemma SavedIsNotTemporary(item: ConfigItem)
    requires ToSave(item, false)
    ensures !item.flags.temporary
  {
  }

  lemma NonEmptyKey(items: seq<ConfigItem>, i: nat)
    requires KeysApart(items) && i < |items|
    ensures items[i].key != ""
  {
  }

  lemma RecoveredIsShown(item: Item, v: Value)
    requires Recovers(item, v)
    ensures item.show(v).Some? && HoldsValue(item.show(v).value)
  {
  }

  /** Came from this file, and comes back from it. */
  ghost predicate Returns(item: ConfigItem, files: Files, file: string)
    reads item
  {
    && ToSave(item, false) && item.sourceFile == Some(file) && Recovers(item.spec, item.storage)
    && Writable(TreeOf(files, file), PathOf(item))
  }

  /** Save all and load one of the files: its dirty items are as they were, and clean. */
  method SaveAllAndLoad(items: seq<ConfigItem>, files: Files, file: string, works: string -> bool)
    returns (saved: Files)
    requires KeysApart(items) && works(file)
    modifies items
    ensures forall i :: 0 <= i < |items| && old(Returns(items[i], files, file)) ==>
        && file in saved && Holds(saved[file], items[i])
        && items[i].storage == old(items[i].storage) && items[i].sourceFile == Some(file) && !items[i].flags.dirty
  {
    hide LoadItem, Recovers, KeysApart, Lookup, Writable, Merged, SameAt, Installed, ToSave;
    ItemsDistinct(items);
    ghost var mine := set i | 0 <= i < |items| && Returns(items[i], files, file);
    forall i | i in mine ensures !items[i].flags.temporary {
      SavedIsNotTemporary(items[i]);
    }
    var ret;
    ghost var out;
    ret, saved, out := SaveAll(items, false, files, works);
    if file in saved {
      forall i | i in mine
        ensures LoadItem(items[i], ObjectNode(saved[file]), "", file)
             == Loaded(0, items[i].storage, items[i].flags, items[i].sourceFile)
      {
        HeldIsTaken(items[i], saved[file], file);
      }
      var _ := LoadFile(items, ObjectNode(saved[file]), "", file);
    }
  }

  /** Load a file, change the values, save all, load the file again: every item that came from the file
      has its changed value back, if its handlers recover that and the file could be written. */
  method LoadChangeSaveLoad(items: seq<ConfigItem>, files: Files, file: string, edits: seq<Value>,
                            works: string -> bool)
    returns (saved: Files)
    requires KeysApart(items) && |edits| == |items| && file in files && works(file)
    modifies items
    ensures forall i ::
      0 <= i < |items| && old(Belongs(items[i], files[file], file)) && Recovers(items[i].spec, edits[i]) ==>
      && file in saved && Holds(saved[file], items[i])
      && items[i].storage == edits[i] && items[i].sourceFile == Some(file) && !items[i].flags.dirty
  {
    hide LoadItem, KeysApart, Lookup, Writable, Holds, HoldsValue, Recovers, Belongs;
    ItemsDistinct(items);
    ghost var mine := set i |
      0 <= i < |items| && Belongs(items[i], files[file], file) && Recovers(items[i].spec, edits[i]);
    forall i | i in mine
      ensures var l := LoadItem(items[i], ObjectNode(files[file]), "", file);
        l.sourceFile == Some(file) && !l.flags.temporary
      ensures Writable(files[file], PathOf(items[i]))
    {
      NonEmptyKey(items, i);
      OfferedIsTaken(items[i], files[file], file);
      OfferedIsWritable(files[file], items[i]);
    }
    var _ := LoadFile(items, ObjectNode(files[file]), "", file);
    ChangeAll(items, edits);
    forall i | i in mine ensures Returns(items[i], files, file) {
      RecoveredIsShown(items[i].spec, edits[i]);
    }
    saved := SaveAllAndLoad(items, files, file, works);
  }
}
