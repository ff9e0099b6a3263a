/** The two lists of active software timers (freeRTOS/timers.c), ordered by expiry tick. */
module TimerLists {
  import opened Bytes

  datatype Item = Item(value: dword, id: nat)

  ghost predicate Sorted(l: seq<Item>) {
    l == [] || ((forall y :: y in l[1..] ==> l[0].value <= y.value) && Sorted(l[1..]))
  }

  ghost predicate Distinct(l: seq<Item>) {
    l == [] || (l[0].id !in Ids(l[1..]) && Distinct(l[1..]))
  }

  ghost function Ids(l: seq<Item>): set<nat> {
    set y | y in l :: y.id
  }

  /** vListInsert: behind the items of the same value. */
  function Insert(l: seq<Item>, x: Item): seq<Item> {
    if l == [] then [x] else if l[0].value <= x.value then [l[0]] + Insert(l[1..], x) else [x] + l
  }

  /** uxListRemove: `id` has left the list. */
  function Remove(l: seq<Item>, id: nat): seq<Item> {
    if l == [] then [] else if l[0].id == id then l[1..] else [l[0]] + Remove(l[1..], id)
  }

  /** The item goes behind all that do not expire later, also those that expire at the same tick. */
  lemma {:induction false} InsertPlace(l: seq<Item>, x: Item) returns (k: nat)
    ensures k <= |l| && Insert(l, x) == l[..k] + [x] + l[k..]
    ensures forall i :: 0 <= i < k ==> l[i].value <= x.value
    ensures k < |l| ==> l[k].value > x.value
  {
    if l == [] || l[0].value > x.value {
      k := 0;
    } else {
      var j := InsertPlace(l[1..], x);
      k := j + 1;
      assert l[..k] == [l[0]] + l[1..][..j] && l[k..] == l[1..][j..];
    }
  }

  /** Only the item with that number leaves, and the others keep their order. */
  lemma {:induction false} RemovePlace(l: seq<Item>, id: nat) returns (k: nat)
    ensures k <= |l| && (k < |l| ==> l[k].id == id) && forall i :: 0 <= i < k ==> l[i].id != id
    ensures Remove(l, id) == if k < |l| then l[..k] + l[k + 1..] else l
  {
    if l == [] || l[0].id == id {
      k := 0;
    } else {
      var j := RemovePlace(l[1..], id);
      k := j + 1;
      if k < |l| { assert l[..k] == [l[0]] + l[1..][..j] && l[k + 1..] == l[1..][j + 1..]; }
    }
  }

  lemma {:induction false} InsertMembers(l: seq<Item>, x: Item, y: Item)
    ensures y in Insert(l, x) <==> y in l || y == x
  {
    if l != [] && l[0].value <= x.value {
      InsertMembers(l[1..], x, y);
      assert l == [l[0]] + l[1..];
    }
  }

  lemma {:induction false} InsertKeeps(l: seq<Item>, x: Item)
    requires Sorted(l) && Distinct(l) && x.id !in Ids(l)
    ensures Sorted(Insert(l, x)) && Distinct(Insert(l, x))
    ensures forall y :: y in Insert(l, x) <==> y in l || y == x
    ensures Ids(Insert(l, x)) == Ids(l) + {x.id}
  {
    forall y ensures y in Insert(l, x) <==> y in l || y == x { InsertMembers(l, x, y); }
    assert x in Insert(l, x);
    if l == [] {
      assert [x][1..] == [];
    } else if l[0].value <= x.value {
      assert forall y :: y in l[1..] ==> y in l;
      InsertKeeps(l[1..], x);
      var r := Insert(l, x);
      assert r[1..] == Insert(l[1..], x);
      assert l[0] in l;
    } else {
      var r := Insert(l, x);
      assert r[1..] == l;
      forall y | y in l ensures x.value <= y.value { assert y == l[0] || y in l[1..]; }
    }
  }

  lemma {:induction false} RemoveKeeps(l: seq<Item>, id: nat)
    requires Sorted(l) && Distinct(l)
    ensures Sorted(Remove(l, id)) && Distinct(Remove(l, id))
    ensures forall y :: y in Remove(l, id) <==> y in l && y.id != id
    ensures Ids(Remove(l, id)) == Ids(l) - {id}
  {
    if l != [] {
      assert l == [l[0]] + l[1..];
      if l[0].id != id {
        RemoveKeeps(l[1..], id);
        var r := Remove(l, id);
        assert r[1..] == Remove(l[1..], id);
      }
    }
  }
}
