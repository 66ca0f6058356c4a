/** The child chain of a cJSON array or object: singly terminated `next` pointers, and `prev`
    pointers that lead back, the head's to the tail. Every operation refines one on sequences. */
module ChildList {

  class Item {
    var next: Item?
    var prev: Item?
    var child: Item?

    constructor ()
      ensures next == null && prev == null && child == null
    {
      next, prev, child := null, null, null;
    }
  }

  ghost function ItemAt(items: seq<Item>, i: nat): Item? {
    if i < |items| then items[i] else null
  }

  ghost function PrevOf(items: seq<Item>, i: nat): Item?
    requires i < |items|
  {
    if i == 0 then items[|items| - 1] else items[i - 1]
  }

  ghost predicate LinkedAt(items: seq<Item>, i: nat)
    requires i < |items|
    reads items`next, items`prev
  {
    items[i].next == ItemAt(items, i + 1) && items[i].prev == PrevOf(items, i)
  }

  ghost predicate Linked(items: seq<Item>)
    reads items`next, items`prev
  {
    forall i :: 0 <= i < |items| ==> LinkedAt(items, i)
  }

  /** The children of `parent` are exactly these items, in this order. */
  ghost predicate Children(parent: Item, items: seq<Item>)
    reads parent`child, items`next, items`prev
  {
    parent.child == ItemAt(items, 0) && Linked(items)
  }

  ghost function Objects(p: Item?): set<Item> {
    if p == null then {} else {p}
  }

  lemma {:induction false} ItemsApart(items: seq<Item>, i: nat, j: nat)
    requires Linked(items) && i < j < |items|
    ensures items[i] != items[j]
    decreases |items| - j
  {
    assert LinkedAt(items, i) && LinkedAt(items, j);
    if j + 1 < |items| {
      ItemsApart(items, i + 1, j + 1);
    }
  }

  /** A chain never visits an item twice. */
  lemma ItemsDistinct(items: seq<Item>)
    requires Linked(items)
    ensures forall i, j :: 0 <= i < j < |items| ==> items[i] != items[j]
  {
    forall i, j | 0 <= i < j < |items| ensures items[i] != items[j] {
      ItemsApart(items, i, j);
    }
  }

  /** `next` and `prev` undo each other inside the chain, and the head's `prev` is the tail. */
  lemma LinksInverse(items: seq<Item>)
    requires Linked(items) && items != []
    ensures items[0].prev == items[|items| - 1] && items[0].prev.next == null
    ensures forall x :: x in items && x.next != null ==> x.next in items && x.next.prev == x
    ensures forall x :: x in items && x != items[0] ==> x.prev != null && x.prev in items && x.prev.next == x
  {
    assert LinkedAt(items, 0) && LinkedAt(items, |items| - 1);
    forall x | x in items
      ensures x.next != null ==> x.next in items && x.next.prev == x
      ensures x != items[0] ==> x.prev != null && x.prev in items && x.prev.next == x
    {
      var i :| 0 <= i < |items| && items[i] == x;
      assert LinkedAt(items, i);
      if i + 1 < |items| {
        assert LinkedAt(items, i + 1);
      }
      if i > 0 {
        assert LinkedAt(items, i - 1);
      }
    }
  }

  /** The pointers determine the children: at most one sequence fits them. */
  lemma ChildrenUnique(parent: Item, a: seq<Item>, b: seq<Item>)
    requires Children(parent, a) && Children(parent, b)
    ensures a == b
  {
    if a != [] && b != [] {
      SameFrom(a, b, 0);
    }
  }

  lemma {:induction false} SameFrom(a: seq<Item>, b: seq<Item>, i: nat)
    requires Linked(a) && Linked(b) && i < |a| && i < |b| && a[..i + 1] == b[..i + 1]
    ensures a == b
    decreases |a| - i
  {
    assert LinkedAt(a, i) && LinkedAt(b, i);
    assert a[i] == a[..i + 1][i] == b[i];
    if i + 1 < |a| {
      assert a[..i + 2] == a[..i + 1] + [a[i + 1]];
      assert b[..i + 2] == b[..i + 1] + [b[i + 1]];
      SameFrom(a, b, i + 1);
    }
  }

  /** Following `next` from the parent's child stays in the children. */
  ghost predicate Follows(parent: Item, path: seq<Item>)
    reads parent`child, path`next
  {
    && path != [] && parent.child == path[0]
    && forall j :: 0 <= j < |path| - 1 ==> path[j].next == path[j + 1]
  }

  lemma {:induction false} PathInside(parent: Item, s: seq<Item>, path: seq<Item>)
    requires Children(parent, s) && Follows(parent, path)
    ensures path <= s && forall j :: 0 < j < |path| ==> path[j].prev == path[j - 1]
    decreases |path|
  {
    var n := |path| - 1;
    if n == 0 {
      assert path == s[..1];
    } else {
      PathInside(parent, s, path[..n]);
      assert s[n - 1] == s[..n][n - 1] == path[n - 1] && forall j :: 0 < j < n ==> path[j] == path[..n][j];
      assert LinkedAt(s, n - 1) && path[n - 1].next == path[n];
      assert LinkedAt(s, n);
    }
  }

  /** A path that comes back to an item leads to no children at all. */
  lemma LoopHasNoChildren(parent: Item, path: seq<Item>, i: nat, j: nat)
    requires Follows(parent, path) && i < j < |path| && path[i] == path[j]
    ensures forall s :: !Children(parent, s)
  {
    forall s | Children(parent, s) ensures false {
      PathInside(parent, s, path);
      assert s[i] == path[i] && s[j] == path[j];
      ItemsApart(s, i, j);
    }
  }

  /** The head's `prev` is the last of the children, and nothing follows it. */
  lemma HeadLeadsToEnd(parent: Item, s: seq<Item>)
    requires Children(parent, s) && parent.child != null
    ensures s != [] && parent.child.prev == s[|s| - 1] && s[|s| - 1].next == null
  {
    assert LinkedAt(s, 0) && LinkedAt(s, |s| - 1);
  }

  // ---------- reading ----------

  /** `cJSON_GetArraySize`. */
  method GetArraySize(parent: Item?, ghost items: seq<Item>) returns (size: nat)
    requires if parent == null then items == [] else Children(parent, items)
    ensures size == |items|
  {
    if parent == null {
      return 0;
    }
    size := 0;
    var child := parent.child;
    while child != null
      invariant size <= |items| && child == ItemAt(items, size)
      decreases |items| - size
    {
      assert LinkedAt(items, size);
      size := size + 1;
      child := child.next;
    }
  }

  /** `get_array_item`. */
  method GetArrayItem(parent: Item?, index: nat, ghost items: seq<Item>) returns (p: Item?)
    requires if parent == null then items == [] else Children(parent, items)
    ensures p == ItemAt(items, index)
  {
    if parent == null {
      return null;
    }
    p := parent.child;
    var left := index;
    while p != null && left > 0
      invariant 0 <= left <= index
      invariant p == ItemAt(items, index - left)
    {
      assert LinkedAt(items, index - left);
      left := left - 1;
      p := p.next;
    }
  }

  // ---------- changing ----------

  /** `add_item_to_array`. The item joins the children exactly when it is not one of them already
      and its own `next` was null, which the source does not clear in a non-empty list. Otherwise the
      parent is left without children in any order: its pointers fit no sequence. */
  method AddItemToArray(parent: Item?, item: Item?, ghost items: seq<Item>) returns (ok: bool)
    requires if parent == null then items == [] else Children(parent, items)
    modifies Objects(parent)`child, items`next, items`prev, Objects(item)`next, Objects(item)`prev
    ensures ok <==> item != null && parent != null && parent != item
    ensures ok && (items == [] || (item !in items && old(item.next) == null)) ==> Children(parent, items + [item])
    ensures ok && !(items == [] || (item !in items && old(item.next) == null)) ==> forall s :: !Children(parent, s)
    ensures !ok && parent != null ==> Children(parent, items)
  {
    if item == null || parent == null || parent == item {
      return false;
    }
    var child := parent.child;
    ghost var all := items + [item];
    if child == null {
      parent.child := item;
      item.prev := item;
      item.next := null;
      assert LinkedAt(all, 0);
    } else {
      ItemsDistinct(items);
      assert LinkedAt(items, 0);
      ghost var was := item.next;
      var last := child.prev;
      if last != null {
        last.next := item;
        item.prev := last;
        child.prev := item;
      }
      assert child.prev == item;
      if item !in items && was == null {
        assert LinkedAt(all, |items|);
        forall i | 0 <= i < |items| ensures LinkedAt(all, i) {
          assert old(LinkedAt(items, i));
        }
      } else {
        assert item.next != null by {
          if item in items {
            ghost var i :| 0 <= i < |items| && items[i] == item;
            assert old(LinkedAt(items, i)) && old(LinkedAt(items, |items| - 1));
          }
        }
        forall s | Children(parent, s) ensures false {
          HeadLeadsToEnd(parent, s);
        }
      }
    }
    return true;
  }

  /** `cJSON_DetachItemViaPointer`. */
  method DetachItemViaPointer(parent: Item?, item: Item?, ghost items: seq<Item>, ghost k: nat)
    returns (detached: Item?)
    requires parent != null ==> Children(parent, items)
    requires parent != null && item != null ==> k < |items| && item == items[k]
    modifies Objects(parent)`child, items`next, items`prev
    ensures detached == if parent == null then null else item
    ensures parent != null && item != null ==>
      Children(parent, items[..k] + items[k + 1..]) && item.next == null && item.prev == null
    ensures parent != null && item == null ==> Children(parent, items)
  {
    if parent == null || item == null {
      return null;
    }
    ItemsDistinct(items);
    ghost var rest := items[..k] + items[k + 1..];
    assert LinkedAt(items, k);
    if item != parent.child {
      item.prev.next := item.next;
    }
    if item.next != null {
      item.next.prev := item.prev;
    }
    if item == parent.child {
      parent.child := item.next;
    } else if item.next == null {
      parent.child.prev := item.prev;
    }
    item.prev := null;
    item.next := null;
    forall i | 0 <= i < |rest| ensures LinkedAt(rest, i) {
      ghost var j := if i < k then i else i + 1;
      assert rest[i] == items[j] && old(LinkedAt(items, j));
    }
    return item;
  }

  /** `cJSON_DetachItemFromArray`. */
  method DetachItemFromArray(parent: Item?, which: int, ghost items: seq<Item>) returns (detached: Item?)
    requires if parent == null then items == [] else Children(parent, items)
    modifies Objects(parent)`child, items`next, items`prev
    ensures parent != null && 0 <= which < |items| ==>
      detached == items[which] && Children(parent, items[..which] + items[which + 1..])
      && detached.next == null && detached.prev == null
    ensures parent != null && !(0 <= which < |items|) ==> detached == null && Children(parent, items)
    ensures parent == null ==> detached == null
  {
    if which < 0 {
      return null;
    }
    var item := GetArrayItem(parent, which, items);
    detached := DetachItemViaPointer(parent, item, items, which);
  }

  /** `cJSON_InsertItemInArray`: before position `which`, or appended when there is none. An item that
      is one of the children already leaves pointers that fit no sequence. */
  method InsertItemInArray(parent: Item?, which: int, newItem: Item?, ghost items: seq<Item>) returns (ok: bool)
    requires if parent == null then items == [] else Children(parent, items)
    requires 0 <= which < |items| ==> newItem != null
    modifies Objects(parent)`child, items`next, items`prev, Objects(newItem)`next, Objects(newItem)`prev
    ensures 0 <= which < |items| ==> ok
    ensures 0 <= which < |items| && newItem !in items ==>
      Children(parent, items[..which] + [newItem] + items[which..])
    ensures 0 <= which < |items| && newItem in items ==> forall s :: !Children(parent, s)
    ensures which >= |items| ==> (ok <==> newItem != null && parent != null && parent != newItem)
    ensures which >= |items| && ok && (items == [] || (newItem !in items && old(newItem.next) == null)) ==>
      Children(parent, items + [newItem])
    ensures which >= |items| && ok && !(items == [] || (newItem !in items && old(newItem.next) == null)) ==>
      forall s :: !Children(parent, s)
    ensures which < 0 ==> !ok
    ensures !ok && parent != null ==> Children(parent, items)
  {
    if which < 0 {
      return false;
    }
    var after := GetArrayItem(parent, which, items);
    if after == null {
      ok := AddItemToArray(parent, newItem, items);
      return;
    }
    ItemsDistinct(items);
    ghost var all := items[..which] + [newItem] + items[which..];
    assert LinkedAt(items, which);
    newItem.next := after;
    newItem.prev := after.prev;
    after.prev := newItem;
    if after == parent.child {
      parent.child := newItem;
    } else {
      newItem.prev.next := newItem;
    }
    if newItem in items {
      ghost var i :| 0 <= i < |items| && items[i] == newItem;
      forall j | 0 <= j < |items| - 1 && j != i && j + 1 != which ensures items[j].next == items[j + 1] {
        assert old(LinkedAt(items, j));
      }
      assert which > 0 ==> old(LinkedAt(items, which - 1));
      InsertedSibling(parent, items, which, i);
    } else {
      forall i | 0 <= i < |all| ensures LinkedAt(all, i) {
        if i != which {
          assert old(LinkedAt(items, if i < which then i else i - 1));
        }
      }
    }
    return true;
  }

  /** Where the pointers lead after one of the children has been inserted before another, or itself. */
  lemma InsertedSibling(parent: Item, items: seq<Item>, w: nat, i: nat)
    requires w < |items| && i < |items| && forall a, b :: 0 <= a < b < |items| ==> items[a] != items[b]
    requires parent.child == if w == 0 then items[i] else items[0]
    requires forall j :: 0 <= j < |items| - 1 && j != i && j + 1 != w ==> items[j].next == items[j + 1]
    requires items[i].next == if i == w || i + 1 == w then items[i] else items[w]
    requires w > 0 && i + 1 != w ==> items[w - 1].next == items[i]
    requires i + 1 < w ==> items[i].prev == items[w - 1]
    ensures forall s :: !Children(parent, s)
  {
    if i == w || i + 1 == w {
      LoopHasNoChildren(parent, items[..i + 1] + [items[i]], i, i + 1);
    } else if i > w {
      var path := items[..w] + [items[i]] + items[w..i] + [items[i]];
      LoopHasNoChildren(parent, path, w, i + 1);
    } else {
      ReachesWrongPrev(parent, items, i, w - 1);
    }
  }

  /** A child whose `prev` is a sibling that leads back to it. */
  lemma ReachesWrongPrev(parent: Item, items: seq<Item>, i: nat, m: nat)
    requires i < m < |items| && forall a, b :: 0 <= a < b < |items| ==> items[a] != items[b]
    requires Follows(parent, items[..i + 1]) && items[i].prev == items[m] && items[m].next == items[i]
    ensures forall s :: !Children(parent, s)
  {
    var path := items[..i + 1];
    assert path[0] == items[0] && path[i] == items[i] && (i > 0 ==> path[i - 1] == items[i - 1]);
    forall s | Children(parent, s) ensures false {
      PathInside(parent, s, path);
      HeadLeadsToEnd(parent, s);
    }
  }

  /** The head takes the place of the last of at least three children. */
  ghost predicate HeadForLast(items: seq<Item>, k: nat, replacement: Item) {
    k + 1 == |items| && k >= 2 && replacement == items[0]
  }

  /** Where the pointers lead after one of the children has taken the place of another. */
  lemma ReplacedBySibling(parent: Item, items: seq<Item>, k: nat, i: nat)
    requires k < |items| && i < |items| && i != k && forall a, b :: 0 <= a < b < |items| ==> items[a] != items[b]
    requires !HeadForLast(items, k, items[i])
    requires parent.child == if k == 0 then items[i] else items[0]
    requires forall j :: 0 <= j < |items| - 1 && j != i && j != k && j + 1 != k ==> items[j].next == items[j + 1]
    requires k == 0 || i > k + 1 ==> items[i].next == items[k + 1]
    requires k > 0 && i + 1 == k ==> items[i].next == items[i]
    requires k > 0 && i == k + 1 ==> items[k - 1].next == items[k] && items[k].prev == null
    requires k > 0 && i != k + 1 && i + 1 != k ==> items[k - 1].next == items[i]
    requires i + 1 < k ==> items[i].prev == items[k - 1]
    ensures forall s :: !Children(parent, s)
  {
    if k == 0 || i > k + 1 {
      var path := items[..k] + [items[i]] + items[k + 1..i] + [items[i]];
      LoopHasNoChildren(parent, path, k, i);
    } else if i == k + 1 {
      forall s | Children(parent, s) ensures false {
        PathInside(parent, s, items[..k + 1]);
      }
    } else if i + 1 == k {
      LoopHasNoChildren(parent, items[..i + 1] + [items[i]], i, i + 1);
    } else {
      ReachesWrongPrev(parent, items, i, k - 1);
    }
  }

  /** `cJSON_ReplaceItemViaPointer`. The replacement takes the item's place if it is not another of the
      children. If it is, the pointers fit no sequence any more, except that a head which takes the
      place of the last of at least three children is left as the only child. */
  method ReplaceItemViaPointer(parent: Item?, item: Item?, replacement: Item?, ghost items: seq<Item>, ghost k: nat)
    returns (ok: bool)
    requires parent != null ==> Children(parent, items)
    requires parent != null && item != null ==> k < |items| && item == items[k]
    modifies Objects(parent)`child, items`next, items`prev, Objects(replacement)`next, Objects(replacement)`prev
    ensures ok <==> parent != null && replacement != null && item != null
    ensures ok && (replacement == item || replacement !in items) ==> Children(parent, items[k := replacement])
    ensures ok && replacement != item && HeadForLast(items, k, replacement) ==> Children(parent, [replacement])
    ensures ok && replacement != item && replacement in items && !HeadForLast(items, k, replacement) ==>
      forall s :: !Children(parent, s)
    ensures ok && replacement != item ==> item.next == null && item.prev == null
    ensures !ok && parent != null ==> Children(parent, items)
  {
    if parent == null || replacement == null || item == null {
      return false;
    }
    if replacement == item {
      assert items[k := replacement] == items;
      return true;
    }
    ItemsDistinct(items);
    ghost var all := items[k := replacement];
    assert LinkedAt(items, k);
    replacement.next := item.next;
    replacement.prev := item.prev;
    if replacement.next != null {
      replacement.next.prev := replacement;
    }
    if parent.child == item {
      if parent.child.prev == parent.child {
        replacement.prev := replacement;
      }
      parent.child := replacement;
    } else {
      if replacement.prev != null {
        replacement.prev.next := replacement;
      }
      if replacement.next == null {
        parent.child.prev := replacement;
      }
    }
    item.next := null;
    item.prev := null;
    if replacement !in items {
      forall i | 0 <= i < |all| ensures LinkedAt(all, i) {
        assert old(LinkedAt(items, i));
      }
    } else {
      ghost var i :| 0 <= i < |items| && items[i] == replacement;
      assert old(LinkedAt(items, i)) && (k > 0 ==> old(LinkedAt(items, k - 1)));
      if HeadForLast(items, k, replacement) {
        assert i == 0 && LinkedAt([replacement], 0);
      } else {
        forall j | 0 <= j < |items| - 1 && j != i && j != k && j + 1 != k ensures items[j].next == items[j + 1] {
          assert old(LinkedAt(items, j));
        }
        ReplacedBySibling(parent, items, k, i);
      }
    }
    return true;
  }

  /** `cJSON_ReplaceItemInArray`. */
  method ReplaceItemInArray(parent: Item?, which: int, newItem: Item?, ghost items: seq<Item>) returns (ok: bool)
    requires if parent == null then items == [] else Children(parent, items)
    modifies Objects(parent)`child, items`next, items`prev, Objects(newItem)`next, Objects(newItem)`prev
    ensures ok <==> 0 <= which < |items| && newItem != null
    ensures ok && (newItem == items[which] || newItem !in items) ==> Children(parent, items[which := newItem])
    ensures ok && newItem != items[which] && HeadForLast(items, which, newItem) ==> Children(parent, [newItem])
    ensures ok && newItem != items[which] && newItem in items && !HeadForLast(items, which, newItem) ==>
      forall s :: !Children(parent, s)
    ensures !ok && parent != null ==> Children(parent, items)
  {
    if which < 0 {
      return false;
    }
    var item := GetArrayItem(parent, which, items);
    ok := ReplaceItemViaPointer(parent, item, newItem, items, which);
  }
}
