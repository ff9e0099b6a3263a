/** The intrusive circular list of freeRTOS/list.c. */
module RtosList {
  import opened Bytes

  const MAX_DELAY: dword := DWORD_MAX    // portMAX_DELAY, the value of the end marker

  class Item {
    var value: dword
    var next: Item?
    var prev: Item?
    var container: List?

    /** vListInitialiseItem */
    constructor (value: dword)
      ensures this.value == value && container == null
    {
      this.value := value;
      next, prev, container := null, null, null;
    }
  }

  function Succ(i: nat, n: nat): nat {
    if i + 1 < n then i + 1 else 0
  }

  function Pred(i: nat, n: nat): nat
    requires 0 < n
  {
    if i > 0 then i - 1 else n - 1
  }

  ghost predicate NextIs(ring: seq<Item>, i: nat)
    requires i < |ring|
    reads ring`next
  {
    ring[i].next == ring[Succ(i, |ring|)]
  }

  ghost predicate PrevIs(ring: seq<Item>, i: nat)
    requires i < |ring|
    reads ring`prev
  {
    ring[i].prev == ring[Pred(i, |ring|)]
  }

  /** `ring` lists the nodes of a circle in the order of their links, in both directions. */
  ghost predicate Linked(ring: seq<Item>)
    reads ring`next, ring`prev
  {
    ring != [] && forall i :: 0 <= i < |ring| ==> NextIs(ring, i) && PrevIs(ring, i)
  }

  ghost predicate Distinct(ring: seq<Item>) {
    forall i, j :: 0 <= i < j < |ring| ==> ring[i] != ring[j]
  }

  /** With `item` linked in behind node `k`, and nothing else changed, the circle has one node more. */
  lemma Relinked(ring: seq<Item>, k: nat, item: Item)
    requires Distinct(ring) && item !in ring && k < |ring|
    requires item.prev == ring[k] && item.next == ring[Succ(k, |ring|)]
    requires ring[k].next == item && ring[Succ(k, |ring|)].prev == item
    requires forall i :: 0 <= i < |ring| && i != k ==> NextIs(ring, i)
    requires forall i :: 0 <= i < |ring| && i != Succ(k, |ring|) ==> PrevIs(ring, i)
    ensures Linked(ring[..k + 1] + [item] + ring[k + 1..]) && Distinct(ring[..k + 1] + [item] + ring[k + 1..])
  {
    var r := ring[..k + 1] + [item] + ring[k + 1..];
    assert LongerBy(ring, k, item, r);
    NextRelinked(ring, k, item, r);
    PrevRelinked(ring, k, item, r);
  }

  ghost predicate LongerBy(ring: seq<Item>, k: nat, item: Item, r: seq<Item>) {
    && k < |ring| && |r| == |ring| + 1 && r[k + 1] == item
    && (forall i :: 0 <= i <= k ==> r[i] == ring[i])
    && (forall i :: k + 1 < i < |r| ==> r[i] == ring[i - 1])
  }

  lemma NextRelinked(ring: seq<Item>, k: nat, item: Item, r: seq<Item>)
    requires k < |ring| && LongerBy(ring, k, item, r)
    requires item.next == ring[Succ(k, |ring|)] && ring[k].next == item
    requires forall i :: 0 <= i < |ring| && i != k ==> NextIs(ring, i)
    ensures forall i :: 0 <= i < |r| ==> NextIs(r, i)
  {
    forall i | 0 <= i < |r| ensures NextIs(r, i) {
      if i < k { assert NextIs(ring, i); }
      if i > k + 1 { assert NextIs(ring, i - 1); }
    }
  }

  lemma PrevRelinked(ring: seq<Item>, k: nat, item: Item, r: seq<Item>)
    requires k < |ring| && LongerBy(ring, k, item, r)
    requires item.prev == ring[k] && ring[Succ(k, |ring|)].prev == item
    requires forall i :: 0 <= i < |ring| && i != Succ(k, |ring|) ==> PrevIs(ring, i)
    ensures forall i :: 0 <= i < |r| ==> PrevIs(r, i)
  {
    forall i | 0 <= i < |r| ensures PrevIs(r, i) {
      if i <= k && i != Succ(k, |ring|) { assert PrevIs(ring, i); }
      if i > k + 2 { assert PrevIs(ring, i - 1); }
    }
  }

  lemma DistinctOut(ring: seq<Item>, k: nat)
    requires Distinct(ring) && k < |ring|
    ensures Distinct(ring[..k] + ring[k + 1..])
  {
  }

  lemma WithoutMarker(end: Item, items: seq<Item>)
    requires Distinct([end] + items)
    ensures Distinct(items) && end !in items
  {
    var ring := [end] + items;
    forall i, j | 0 <= i < j < |items| ensures items[i] != items[j] { assert ring[i + 1] != ring[j + 1]; }
    forall i | 0 <= i < |items| ensures items[i] != end { assert ring[0] != ring[i + 1]; }
  }

  /** A node is at one place only. */
  lemma OnlyAt(ring: seq<Item>, k: nat)
    requires Distinct(ring) && k < |ring|
    ensures ring[k] !in ring[..k] && ring[k] !in ring[k + 1..]
    ensures forall x :: x in ring && x != ring[k] ==> x in ring[..k] + ring[k + 1..]
  {
    assert ring == ring[..k] + [ring[k]] + ring[k + 1..];
  }

  /** With node `k` linked out, and nothing else changed, the circle has one node less. */
  lemma Unlinked(ring: seq<Item>, k: nat)
    requires Distinct(ring) && 0 < k < |ring|
    requires ring[k - 1].next == ring[Succ(k, |ring|)] && ring[Succ(k, |ring|)].prev == ring[k - 1]
    requires forall i :: 0 <= i < |ring| && i != k - 1 && i != k ==> NextIs(ring, i)
    requires forall i :: 0 <= i < |ring| && i != Succ(k, |ring|) && i != k ==> PrevIs(ring, i)
    ensures Linked(ring[..k] + ring[k + 1..])
  {
    var r, n := ring[..k] + ring[k + 1..], |ring|;
    forall i | 0 <= i < n - 1 ensures r[i] == if i < k then ring[i] else ring[i + 1] { }
    forall i | 0 <= i < n - 1 ensures NextIs(r, i) {
      if i < k - 1 { assert NextIs(ring, i); }
      if i >= k { assert NextIs(ring, i + 1); }
    }
    forall i | 0 <= i < n - 1 ensures PrevIs(r, i) {
      if i < k && i != Succ(k, n) { assert PrevIs(ring, i); }
      if i > k { assert PrevIs(ring, i + 1); }
    }
  }

  ghost predicate Ascending(items: seq<Item>)
    reads items`value
  {
    forall i, j :: 0 <= i < j < |items| ==> items[i].value <= items[j].value
  }

  lemma SplicedItems(end: Item, items: seq<Item>, k: nat, item: Item)
    requires k <= |items|
    ensures var ring := [end] + items;
            [end] + (items[..k] + [item] + items[k..]) == ring[..k + 1] + [item] + ring[k + 1..]
  {
  }

  lemma CutItems(end: Item, items: seq<Item>, k: nat)
    requires k < |items|
    ensures var ring := [end] + items;
            ring[k + 1] == items[k] && [end] + (items[..k] + items[k + 1..]) == ring[..k + 1] + ring[k + 2..]
  {
  }

  /** Where vListInsert puts an item, an ascending list stays ascending. */
  lemma InsertSorts(items: seq<Item>, k: nat, item: Item)
    requires Ascending(items) && k <= |items|
    requires forall i :: 0 <= i < k ==> items[i].value <= item.value
    requires k < |items| ==> items[k].value > item.value
    ensures Ascending(items[..k] + [item] + items[k..])
  {
    var r := items[..k] + [item] + items[k..];
    forall i, j | 0 <= i < j < |r| ensures r[i].value <= r[j].value {
      if i == k && k < |items| { assert items[k].value <= items[j - 1].value; }
    }
  }

  /** Links `item` in before `node`, which is the one behind node `p` of the circle. */
  method LinkBefore(node: Item, item: Item, ghost ring: seq<Item>, ghost p: nat)
    requires Linked(ring) && Distinct(ring) && item !in ring && p < |ring| && node == ring[Succ(p, |ring|)]
    modifies ring, item
    ensures var r := ring[..p + 1] + [item] + ring[p + 1..]; Linked(r) && Distinct(r)
    ensures item.value == old(item.value) && item.container == old(item.container)
    ensures forall x :: x in ring ==> x.value == old(x.value) && x.container == old(x.container)
  {
    ghost var s := Succ(p, |ring|);
    assert PrevIs(ring, s) && NextIs(ring, p) && Pred(s, |ring|) == p;
    item.next := node;
    item.prev := node.prev;
    node.prev.next := item;
    node.prev := item;
    forall i | 0 <= i < |ring| && i != p ensures NextIs(ring, i) { assert old(NextIs(ring, i)) && ring[i] != ring[p]; }
    forall i | 0 <= i < |ring| && i != s ensures PrevIs(ring, i) { assert old(PrevIs(ring, i)) && ring[i] != ring[s]; }
    Relinked(ring, p, item);
  }

  /** Links `item` in behind `node`, which is node `p` of the circle. */
  method LinkBehind(node: Item, item: Item, ghost ring: seq<Item>, ghost p: nat)
    requires Linked(ring) && Distinct(ring) && item !in ring && p < |ring| && node == ring[p]
    modifies ring, item
    ensures var r := ring[..p + 1] + [item] + ring[p + 1..]; Linked(r) && Distinct(r)
    ensures item.value == old(item.value) && item.container == old(item.container)
    ensures forall x :: x in ring ==> x.value == old(x.value) && x.container == old(x.container)
  {
    ghost var s := Succ(p, |ring|);
    assert PrevIs(ring, s) && NextIs(ring, p) && Pred(s, |ring|) == p;
    item.next := node.next;
    item.next.prev := item;
    item.prev := node;
    node.next := item;
    forall i | 0 <= i < |ring| && i != p ensures NextIs(ring, i) { assert old(NextIs(ring, i)) && ring[i] != ring[p]; }
    forall i | 0 <= i < |ring| && i != s ensures PrevIs(ring, i) { assert old(PrevIs(ring, i)) && ring[i] != ring[s]; }
    Relinked(ring, p, item);
  }

  /** Links node `k` of the circle out. */
  method LinkOut(item: Item, ghost ring: seq<Item>, ghost k: nat)
    requires Linked(ring) && Distinct(ring) && 0 < k < |ring| && item == ring[k]
    modifies ring
    ensures var r := ring[..k] + ring[k + 1..]; Linked(r) && Distinct(r)
    ensures item.prev == ring[k - 1]
    ensures forall x :: x in ring ==> x.value == old(x.value) && x.container == old(x.container)
  {
    ghost var s := Succ(k, |ring|);
    assert PrevIs(ring, s) && NextIs(ring, k) && PrevIs(ring, k) && NextIs(ring, k - 1) && Pred(s, |ring|) == k;
    assert ring[k] != ring[k - 1] && ring[s] != ring[k];
    item.next.prev := item.prev;
    item.prev.next := item.next;
    forall i | 0 <= i < |ring| && i != k - 1 && i != k ensures NextIs(ring, i) {
      assert old(NextIs(ring, i)) && ring[i] != ring[k - 1];
    }
    forall i | 0 <= i < |ring| && i != s && i != k ensures PrevIs(ring, i) {
      assert old(PrevIs(ring, i)) && ring[i] != ring[s];
    }
    Unlinked(ring, k);
    DistinctOut(ring, k);
  }

  class List {
    var count: nat              // uxNumberOfItems
    var index: Item             // pxIndex
    const end: Item             // xListEnd

    ghost var items: seq<Item>  // from the one behind the marker on

    ghost predicate Valid()
      reads this, end, items
    {
      && Linked([end] + items) && Distinct([end] + items)
      && count == |items| && end.value == MAX_DELAY && end.container == null
      && index in [end] + items
      && forall x :: x in items ==> x.container == this
    }

    /** vListInitialise */
    constructor ()
      ensures Valid() && items == [] && fresh(end)
    {
      end := new Item(MAX_DELAY);
      count, index, items := 0, end, [];
      new;
      end.next, end.prev := end, end;
    }

    /** vListInsertEnd: before pxIndex. */
    method InsertEnd(item: Item, ghost k: nat)
      requires Valid() && item != end && item !in items && item.container == null
      requires k <= |items| && ([end] + items)[k] == index
      modifies this, end, items, item
      ensures Valid() && index == old(index) && count == old(count) + 1
      ensures items == if k == 0 then old(items) + [item] else old(items)[..k - 1] + [item] + old(items)[k - 1..]
      ensures item.value == old(item.value) && forall x :: x in old(items) ==> x.value == old(x.value)
    {
      ghost var ring := [end] + items;
      ghost var p := if k == 0 then |items| else k - 1;
      LinkBefore(index, item, ring, p);
      SplicedItems(end, items, p, item);
      Attach(item, p);
    }

    /** The new item is linked in; it becomes part of the list. */
    method Attach(item: Item, ghost k: nat)
      requires k <= |items| && item != end && count == |items| && end.value == MAX_DELAY && end.container == null
               && index in [end] + items
      requires Linked([end] + (items[..k] + [item] + items[k..]))
               && Distinct([end] + (items[..k] + [item] + items[k..]))
      requires forall x :: x in items ==> x.container == this
      modifies `count, `items, item`container
      ensures Valid() && count == old(count) + 1 && items == old(items)[..k] + [item] + old(items)[k..]
    {
      item.container := this;
      count := count + 1;
      items := items[..k] + [item] + items[k..];
      assert old(items) == old(items)[..k] + old(items)[k..];
    }

    /** The item is linked out; it is no longer part of the list. */
    method Detach(item: Item, ghost k: nat)
      requires k < |items| && item != end && item == items[k] && count == |items| && end.value == MAX_DELAY
               && end.container == null
      requires Linked([end] + (items[..k] + items[k + 1..])) && Distinct([end] + (items[..k] + items[k + 1..]))
      requires item !in items[..k] && item !in items[k + 1..]
      requires index in [end] + (items[..k] + items[k + 1..])
      requires forall x :: x in items ==> x.container == this
      modifies `count, `items, item`container
      ensures Valid() && count == old(count) - 1 && items == old(items)[..k] + old(items)[k + 1..]
              && item.container == null
    {
      item.container := null;
      count := count - 1;
      items := items[..k] + items[k + 1..];
    }

    /** vListInsert: behind the items whose values are not greater.  The search ends at the marker at
        the latest, since the largest value does not search. */
    method Insert(item: Item) returns (ghost k: nat)
      requires Valid() && item != end && item !in items && item.container == null
      modifies this, end, items, item
      ensures Valid() && index == old(index) && count == old(count) + 1
      ensures k <= |old(items)| && items == old(items)[..k] + [item] + old(items)[k..]
      ensures forall i :: 0 <= i < k ==> old(items)[i].value <= item.value
      ensures k < |old(items)| ==> old(items)[k].value > item.value
      ensures item.value == old(item.value) && forall x :: x in old(items) ==> x.value == old(x.value)
      ensures old(Ascending(items)) ==> Ascending(items)
    {
      ghost var before := items;
      k := Place(item);
      if Ascending(before) { InsertSorts(before, k, item); }
    }

    /** The item goes behind the one that Search finds. */
    method Place(item: Item) returns (ghost k: nat)
      requires Valid() && item != end && item !in items && item.container == null
      modifies this, end, items, item
      ensures Valid() && index == old(index) && count == old(count) + 1
      ensures k <= |old(items)| && items == old(items)[..k] + [item] + old(items)[k..]
      ensures forall i :: 0 <= i < k ==> old(items)[i].value <= item.value
      ensures k < |old(items)| ==> old(items)[k].value > item.value
      ensures item.value == old(item.value) && forall x :: x in old(items) ==> x.value == old(x.value)
    {
      ghost var ring := [end] + items;
      var it;
      it, k := Search(item.value);
      LinkBehind(it, item, ring, k);
      SplicedItems(end, items, k, item);
      Attach(item, k);
    }

    /** The node to insert a value behind. */
    method Search(value: dword) returns (it: Item, ghost k: nat)
      requires Valid()
      ensures k <= |items| && it == ([end] + items)[k]
      ensures forall i :: 0 <= i < k ==> items[i].value <= value
      ensures k < |items| ==> items[k].value > value
    {
      ghost var ring := [end] + items;
      it, k := end, 0;
      if value == MAX_DELAY {
        assert PrevIs(ring, 0);
        it, k := end.prev, |items|;
      } else {
        assert NextIs(ring, 0);
        while it.next.value <= value
          invariant k <= |items| && it == ring[k] && NextIs(ring, k)
          invariant forall i :: 0 <= i < k ==> items[i].value <= value
          decreases |items| - k
        {
          it := it.next;
          k := k + 1;
          assert NextIs(ring, k);
        }
      }
    }

    /** uxListRemove */
    method Remove(item: Item, ghost k: nat) returns (n: nat)
      requires Valid() && k < |items| && items[k] == item
      modifies this, end, items
      ensures Valid() && items == old(items)[..k] + old(items)[k + 1..] && item.container == null
      ensures n == count == old(count) - 1
      ensures index == if old(index) == item then (if k == 0 then end else old(items)[k - 1]) else old(index)
      ensures forall x :: x in old(items) ==> x.value == old(x.value)
    {
      ghost var ring := [end] + items;
      CutItems(end, items, k);
      WithoutMarker(end, items);
      OnlyAt(items, k);
      LinkOut(item, ring, k + 1);
      if index == item { index := item.prev; }
      OnlyAt(ring, k + 1);
      Detach(item, k);
      n := count;
    }
  }
}
