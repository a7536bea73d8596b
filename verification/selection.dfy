/**
 * The multi-selection: `selectedItems`, a JavaScript Map from path to
 * `{path, type}` iterated in insertion order, together with the set of paths
 * whose rendered entry carries the `selected` CSS class.
 */
module Selection {

  datatype Kind = File | Folder

  /** The value stored per selected path: `{path, type}`. */
  datatype Item = Item(path: string, kind: Kind)

  /**
   * `items` and `order` are the Map's contents and its iteration order;
   * `marked` holds the paths whose rendered entry is highlighted.
   */
  datatype Selection = Selection(items: map<string, Item>, order: seq<string>, marked: set<string>)

  const Empty := Selection(map[], [], {})

  predicate Distinct(s: seq<string>) {
    forall i, j :: 0 <= i < j < |s| ==> s[i] != s[j]
  }

  /** The Map invariant: each key appears once in iteration order, and every entry is keyed by its own path. */
  ghost predicate WellFormed(sel: Selection) {
    && Distinct(sel.order)
    && (forall k :: k in sel.items <==> k in sel.order)
    && (forall k :: k in sel.items ==> sel.items[k].path == k)
  }

  /** Highlighted entries and selected entries are the same paths. */
  predicate Synced(sel: Selection) {
    sel.marked == sel.items.Keys
  }

  /** `order` without `k` (`WithoutMissing` and `WithoutCutsOut` state that the rest keeps its order). */
  function Without(order: seq<string>, k: string): (r: seq<string>)
    ensures forall x :: x in r <==> x in order && x != k
    ensures Distinct(order) ==> Distinct(r)
    decreases |order|
  {
    if order == [] then []
    else if order[0] == k then Without(order[1..], k)
    else
      var rest := Without(order[1..], k);
      assert Distinct(order) ==> order[0] !in order[1..] && Distinct(order[1..]);
      [order[0]] + rest
  }

  /** Deleting a key that is not there leaves the order as it is. */
  lemma {:induction false} WithoutMissing(order: seq<string>, k: string)
    requires k !in order
    ensures Without(order, k) == order
    decreases |order|
  {
    if order != [] {
      WithoutMissing(order[1..], k);
    }
  }

  /** Deleting the key at index `n` of a duplicate-free order cuts out that one place and keeps the rest in order. */
  lemma {:induction false} WithoutCutsOut(order: seq<string>, k: string, n: nat)
    requires Distinct(order) && n < |order| && order[n] == k
    ensures Without(order, k) == order[..n] + order[n + 1..]
    decreases |order|
  {
    var tail := order[1..];
    if n == 0 {
      assert k !in tail by {
        forall j | 0 <= j < |tail| ensures tail[j] != k { assert tail[j] == order[j + 1]; }
      }
      WithoutMissing(tail, k);
    } else {
      assert Distinct(tail);
      WithoutCutsOut(tail, k, n - 1);
      assert order[..n] == [order[0]] + tail[..n - 1];
      assert order[n + 1..] == tail[n..];
    }
  }

  /** `selectedItems.set(item.path, item)`: a new key goes last, an existing key keeps its place. */
  function MapSet(sel: Selection, item: Item): Selection {
    Selection(sel.items[item.path := item],
              if item.path in sel.items then sel.order else sel.order + [item.path],
              sel.marked)
  }

  /** `selectedItems.delete(path)`. */
  function MapDelete(sel: Selection, path: string): Selection {
    Selection(sel.items - {path}, Without(sel.order, path), sel.marked)
  }

  /**
   * A click on an entry. With the modifier key the entry's highlight is
   * toggled and the Map follows the highlight; without it every highlight is
   * removed, the Map cleared, and the entry alone highlighted and stored.
   */
  function Select(sel: Selection, item: Item, additive: bool): Selection {
    if additive then
      var marked := if item.path in sel.marked then sel.marked - {item.path} else sel.marked + {item.path};
      if item.path in marked then MapSet(sel.(marked := marked), item)
      else MapDelete(sel.(marked := marked), item.path)
    else
      MapSet(Selection(map[], [], {item.path}), item)
  }

  /** Re-rendering the listing creates fresh, unhighlighted entries; the Map is left as it is. */
  function Render(sel: Selection): (r: Selection)
    ensures r.items == sel.items && r.order == sel.order && r.marked == {}
  {
    sel.(marked := {})
  }

  /** Every click keeps the Map invariant. */
  lemma SelectWellFormed(sel: Selection, item: Item, additive: bool)
    requires WellFormed(sel)
    ensures WellFormed(Select(sel, item, additive))
  {
    var r := Select(sel, item, additive);
    if additive && item.path !in r.marked {
      assert r.order == Without(sel.order, item.path);
    }
  }

  /** A plain click leaves exactly that entry selected and highlighted. */
  lemma PlainClickReplaces(sel: Selection, item: Item)
    ensures var r := Select(sel, item, false);
      r.items == map[item.path := item] && r.order == [item.path] && r.marked == {item.path} && Synced(r)
  {}

  /**
   * While highlights and the Map agree, a modifier click flips only the
   * clicked path's membership; every other entry is untouched and they still agree.
   */
  lemma ModifierClickToggles(sel: Selection, item: Item)
    requires WellFormed(sel) && Synced(sel)
    ensures var r := Select(sel, item, true);
      && (item.path in r.items <==> item.path !in sel.items)
      && (item.path in r.items ==> r.items[item.path] == item)
      && (forall k :: k != item.path ==> (k in r.items <==> k in sel.items))
      && (forall k :: k != item.path && k in sel.items ==> r.items[k] == sel.items[k])
      && Synced(r)
  {}

  /**
   * Two modifier clicks on the same entry restore the Map's contents and the
   * highlights; an entry that was selected before comes back at the end of
   * the iteration order.
   */
  lemma ModifierClickTwice(sel: Selection, item: Item)
    requires WellFormed(sel) && Synced(sel)
    requires item.path in sel.items ==> sel.items[item.path] == item
    ensures var r := Select(Select(sel, item, true), item, true);
      && r.items == sel.items
      && r.marked == sel.marked
      && (item.path !in sel.items ==> r.order == sel.order)
      && (item.path in sel.items ==> r.order == Without(sel.order, item.path) + [item.path])
  {
    var once := Select(sel, item, true);
    if item.path !in sel.items {
      assert item.path !in sel.order;
      WithoutAbsent(sel.order + [item.path], item.path, |sel.order|);
      assert once.order == sel.order + [item.path];
    }
  }

  /** Removing the single occurrence of `k`, at index `n` (the last), leaves the prefix before it. */
  lemma {:induction false} WithoutAbsent(order: seq<string>, k: string, n: nat)
    requires n < |order| && order[n] == k && n == |order| - 1
    requires k !in order[..n]
    ensures Without(order, k) == order[..n]
    decreases |order|
  {
    if n > 0 {
      assert order[1..][..n - 1] == order[1..n];
      assert order[1..n] == order[..n][1..];
      WithoutAbsent(order[1..], k, n - 1);
      assert order[..n] == [order[0]] + order[1..n];
    }
  }

  /**
   * After a re-render the Map still holds the old selection but nothing is
   * highlighted, so a modifier click on an entry that is already selected
   * highlights it and leaves it selected instead of deselecting it.
   */
  lemma ModifierClickAfterRender(sel: Selection, item: Item)
    requires WellFormed(sel) && item.path in sel.items
    ensures var r := Select(Render(sel), item, true);
      item.path in r.items && r.marked == {item.path} && r.order == sel.order
  {}

  /** `selectedItems.forEach`: the stored values in iteration order. */
  function Values(sel: Selection): seq<Item>
    requires forall i :: 0 <= i < |sel.order| ==> sel.order[i] in sel.items
  {
    seq(|sel.order|, i requires 0 <= i < |sel.order| => sel.items[sel.order[i]])
  }

  /**
   * Iterating a well-formed Map visits every entry exactly once: one value
   * per key, in order, each carrying its own key as path.
   */
  lemma ValuesVisitEachOnce(sel: Selection)
    requires WellFormed(sel)
    ensures |Values(sel)| == |sel.items|
    ensures forall i :: 0 <= i < |sel.order| ==> Values(sel)[i].path == sel.order[i]
    ensures forall k :: k in sel.items ==> sel.items[k] in Values(sel)
    ensures forall i, j :: 0 <= i < j < |sel.order| ==> Values(sel)[i].path != Values(sel)[j].path
  {
    OrderCoversItems(sel);
    forall k | k in sel.items
      ensures sel.items[k] in Values(sel)
    {
      var i :| 0 <= i < |sel.order| && sel.order[i] == k;
      assert Values(sel)[i] == sel.items[k];
    }
  }

  /** Each selected path appears once in the iteration order, so there are as many iterations as entries. */
  lemma OrderCoversItems(sel: Selection)
    requires WellFormed(sel)
    ensures |sel.order| == |sel.items|
  {
    DistinctCard(sel.order);
    assert (set x | x in sel.order) == sel.items.Keys;
  }

  lemma {:induction false} DistinctCard(s: seq<string>)
    requires Distinct(s)
    ensures |set x | x in s| == |s|
    decreases |s|
  {
    if s != [] {
      var tail := s[1..];
      DistinctCard(tail);
      assert (set x | x in s) == (set x | x in tail) + {s[0]};
      assert s[0] !in tail;
    }
  }
}
