/** The kernel's circular doubly linked list (list.c): a ring through a sentinel, kept in ascending
    order by vListInsert and walked round-robin through pxIndex. */
module KernelList {
  import opened Wrappers

  const MAX_DELAY := 0xffff_ffff

  type Tick = x: int | 0 <= x <= MAX_DELAY

  /** ListItem_t */
  class ListItem {
    var value: Tick
    var next: ListItem?
    var prev: ListItem?
    var container: List?

    /** vListInitialiseItem, with the value the caller sets afterwards. */
    constructor (value: Tick)
      ensures this.value == value && container == null
    {
      this.value, container := value, null;
    }
  }

  // ---------- rings ----------

  /** The items of r are linked both ways in that order, and the last one to the first. */
  ghost predicate Ring(r: seq<ListItem>)
    reads r
  {
    && r != [] && Distinct(r)
    && (forall i | 0 <= i < |r| - 1 :: r[i].next == r[i + 1])
    && (forall i | 0 < i < |r| :: r[i].prev == r[i - 1])
    && r[|r| - 1].next == r[0] && r[0].prev == r[|r| - 1]
  }

  lemma RingLinks(r: seq<ListItem>, i: nat)
    requires Ring(r) && i < |r|
    ensures r[i].next == r[if i + 1 == |r| then 0 else i + 1]
    ensures r[i].prev == r[if i == 0 then |r| - 1 else i - 1]
  {
  }

  function Inserted<T>(s: seq<T>, k: int, x: T): seq<T>
    requires 0 <= k <= |s|
  {
    s[..k] + [x] + s[k..]
  }

  function Removed<T>(s: seq<T>, k: int): seq<T>
    requires 0 <= k < |s|
  {
    s[..k] + s[k + 1..]
  }

  lemma InsertedTail<T>(e: T, s: seq<T>, k: int, x: T)
    requires 0 <= k <= |s|
    ensures [e] + Inserted(s, k, x) == Inserted([e] + s, k + 1, x)
    ensures forall y | y in Inserted(s, k, x) :: y in s || y == x
    ensures forall y | y in s :: y in Inserted(s, k, x)
  {
    assert ([e] + s)[..k + 1] == [e] + s[..k] && ([e] + s)[k + 1..] == s[k..];
    assert s == s[..k] + s[k..];
  }

  lemma RemovedTail<T>(e: T, s: seq<T>, k: int)
    requires 0 <= k < |s|
    ensures [e] + Removed(s, k) == Removed([e] + s, k + 1)
    ensures forall y | y in Removed(s, k) :: y in s
  {
    assert ([e] + s)[..k + 1] == [e] + s[..k] && ([e] + s)[k + 2..] == s[k + 1..];
  }

  lemma InsertedIndex<T>(s: seq<T>, k: int, x: T, i: int)
    requires 0 <= k <= |s| && 0 <= i < |s|
    ensures |Inserted(s, k, x)| == |s| + 1
    ensures Inserted(s, k, x)[if i < k then i else i + 1] == s[i]
  {
  }

  lemma RemovedIndex<T>(s: seq<T>, k: int, i: int)
    requires 0 < k < |s| && 0 <= i < |s|
    ensures |Removed(s, k)| == |s| - 1
    ensures Removed(s, k)[if i < k then i else i - 1] == if i == k then s[k - 1] else s[i]
  {
  }

  /** Where pxIndex stands after an item has been put in or taken out at position k of the items. */
  function AtInserted(at: nat, k: nat): nat { if at <= k then at else at + 1 }

  function AtRemoved(at: nat, k: nat): nat { if at <= k then at else at - 1 }

  /** vListInsertEnd puts the new item just before pxIndex. */
  function EndPlace(n: nat, at: nat): nat
    requires at <= n
  {
    if at == 0 then n else at - 1
  }

  /** Taking out what was put in gives the old sequence back. */
  lemma RemovedInserted<T>(s: seq<T>, k: int, x: T)
    requires 0 <= k <= |s|
    ensures Removed(Inserted(s, k, x), k) == s
  {
    assert Inserted(s, k, x)[..k] == s[..k] && Inserted(s, k, x)[k + 1..] == s[k..];
  }

  lemma InsertedDistinct(r: seq<ListItem>, k: int, x: ListItem)
    requires Distinct(r) && x !in r && 0 <= k <= |r|
    ensures Distinct(Inserted(r, k, x))
  {
  }

  lemma RemovedDistinct(r: seq<ListItem>, k: int)
    requires Distinct(r) && 0 <= k < |r|
    ensures Distinct(Removed(r, k)) && r[k] !in Removed(r, k)
  {
  }

  /** The writes of vListInsertEnd to list items. */
  method LinkBefore(index: ListItem, x: ListItem, list: List, ghost r: seq<ListItem>, ghost j: nat)
    requires Ring(r) && j < |r| && index == r[j] && x !in r
    modifies x`next, x`prev, x`container, r`next, r`prev
    ensures x.container == list && Ring(Inserted(r, if j == 0 then |r| else j, x))
  {
    ghost var k := if j == 0 then |r| else j;
    InsertedDistinct(r, k, x);
    assert Distinct(r) && index.prev == r[k - 1] && r[k - 1].next == index;
    x.next := index;
    x.prev := index.prev;
    index.prev.next := x;
    index.prev := x;
    x.container := list;
  }

  /** The writes of vListInsert to list items. */
  method LinkAfter(cursor: ListItem, x: ListItem, list: List, ghost r: seq<ListItem>, ghost k: nat)
    requires Ring(r) && k < |r| && cursor == r[k] && x !in r
    modifies x`next, x`prev, x`container, r`next, r`prev
    ensures x.container == list && Ring(Inserted(r, k + 1, x))
  {
    InsertedDistinct(r, k + 1, x);
    assert cursor.next == r[if k + 1 == |r| then 0 else k + 1];
    x.next := cursor.next;
    x.next.prev := x;
    x.prev := cursor;
    cursor.next := x;
    x.container := list;
  }

  /** The writes of uxListRemove to list items. */
  method Unlink(x: ListItem, ghost r: seq<ListItem>, ghost j: nat)
    requires Ring(r) && 0 < j < |r| && x == r[j]
    modifies r`next, r`prev, x`container
    ensures Ring(Removed(r, j)) && x !in Removed(r, j) && x.prev == old(x.prev) && x.container == null
  {
    RemovedDistinct(r, j);
    assert x.next == r[if j + 1 == |r| then 0 else j + 1] && x.prev == r[j - 1];
    x.next.prev := x.prev;
    x.prev.next := x.next;
    x.container := null;
  }

  // ---------- where an item goes ----------

  ghost function Values(s: seq<ListItem>): (v: seq<Tick>)
    reads s
    ensures |v| == |s| && forall i | 0 <= i < |s| :: v[i] == s[i].value
  {
    seq(|s|, i requires 0 <= i < |s| reads s => s[i].value)
  }

  ghost predicate Ascending(v: seq<Tick>) {
    forall i, j | 0 <= i < j < |v| :: v[i] <= v[j]
  }

  /** vListInsert stops at the first value greater than the new one. */
  function Place(v: seq<Tick>, x: Tick): (k: int)
    ensures 0 <= k <= |v|
    ensures forall i | 0 <= i < k :: v[i] <= x
    ensures k < |v| ==> x < v[k]
  {
    if v == [] || x < v[0] then 0 else 1 + Place(v[1..], x)
  }

  /** An insertion keeps the list ascending and puts the new value after all equal ones; no other
      place does both. */
  lemma PlaceIsRight(v: seq<Tick>, x: Tick, k: int)
    requires Ascending(v) && 0 <= k <= |v|
    ensures Ascending(Inserted(v, k, x)) && (forall i | k <= i < |v| :: v[i] != x) <==> k == Place(v, x)
  {
    var p := Place(v, x);
    var w := Inserted(v, k, x);
    InsertedAt(v, k, x);
    hide Place, Inserted;
    if k == p {
      forall i | p <= i < |v|
        ensures x < v[i]
      {
        assert v[p] <= v[i];
      }
    } else if k < p {
      assert v[k] <= x && w[k] == x && w[k + 1] == v[k];
    } else {
      assert w[p] == v[p] && w[k] == x;
    }
  }

  lemma InsertedAt<T>(s: seq<T>, k: int, x: T)
    requires 0 <= k <= |s|
    ensures var w := Inserted(s, k, x);
            |w| == |s| + 1 && forall i | 0 <= i <= |s| :: w[i] == if i < k then s[i] else if i == k then x else s[i - 1]
  {
  }

  lemma {:induction false} PlaceAtEnd(v: seq<Tick>)
    ensures Place(v, MAX_DELAY) == |v|
  {
    if v != [] {
      PlaceAtEnd(v[1..]);
    }
  }

  // ---------- the list ----------

  /** List_t. The sentinel xListEnd is an item like the others. */
  class List {
    var index: ListItem
    const listEnd: ListItem
    var count: nat
    /** The items in ring order from the sentinel on, and the place of pxIndex in the ring. */
    ghost var items: seq<ListItem>
    ghost var at: nat

    ghost function InRing(): (r: seq<ListItem>)
      reads this
      ensures r == [listEnd] + items
    {
      [listEnd] + items
    }

    ghost predicate Valid()
      reads this, InRing(), items
    {
      && Ring(InRing()) && count == |items|
      && listEnd.value == MAX_DELAY
      && at <= |items| && index == InRing()[at]
      && forall x | x in items :: x.container == this
    }

    /** vListInitialise */
    constructor ()
      ensures Valid() && items == [] && at == 0 && fresh(listEnd)
    {
      listEnd := new ListItem(MAX_DELAY);
      index := listEnd;
      count := 0;
      items := [];
      at := 0;
      new;
      listEnd.next := listEnd;
      listEnd.prev := listEnd;
    }

    /** vListInsertEnd: the new item goes just before pxIndex. */
    method InsertEnd(item: ListItem)
      requires Valid() && item !in InRing()
      modifies this, item`next, item`prev, item`container, InRing()`next, InRing()`prev
      ensures Valid() && index == old(index)
      ensures old(at) <= |old(items)| && items == Inserted(old(items), EndPlace(|old(items)|, old(at)), item)
      ensures at == AtInserted(old(at), EndPlace(|old(items)|, old(at)))
    {
      hide Ring;
      ghost var k := if at == 0 then |items| else at - 1;
      LinkBefore(index, item, this, InRing(), at);
      InsertedTail(listEnd, items, k, item);
      count := count + 1;
      items := Inserted(items, k, item);
      if at != 0 {
        at := at + 1;
      }
    }

    /** vListInsert: the new item goes behind every value not greater than its own. */
    method Insert(item: ListItem)
      requires Valid() && item !in InRing()
      modifies this, item`next, item`prev, item`container, InRing()`next, InRing()`prev
      ensures Valid() && index == old(index)
      ensures items == Inserted(old(items), Place(old(Values(items)), item.value), item)
      ensures at == AtInserted(old(at), Place(old(Values(items)), item.value))
    {
      hide Ring, Place, Values, Inserted;
      ghost var r := InRing();
      var cursor;
      ghost var k;
      cursor, k := FindPlace(item.value);
      InsertedTail(listEnd, items, k, item);
      InsertedIndex(r, k + 1, item, at);
      LinkAfter(cursor, item, this, r, k);
      count := count + 1;
      items := Inserted(items, k, item);
      if at > k {
        at := at + 1;
      }
    }

    /** The search loop of vListInsert. */
    method FindPlace(value: Tick) returns (cursor: ListItem, ghost k: nat)
      requires Valid()
      ensures k == Place(Values(items), value) && cursor == InRing()[k]
      ensures cursor == InRing()[Place(Values(items), value)]
    {
      ghost var v := Values(items);
      if value == MAX_DELAY {
        RingLinks(InRing(), 0);
        cursor := listEnd.prev;
        k := |items|;
        PlaceAtEnd(v);
      } else {
        cursor := listEnd;
        k := 0;
        RingLinks(InRing(), k);
        while cursor.next.value <= value
          invariant k <= |items| && cursor == InRing()[k]
          invariant cursor.next == (if k == |items| then listEnd else items[k])
          invariant forall i | 0 <= i < k :: v[i] <= value
          decreases |items| - k
        {
          cursor := cursor.next;
          k := k + 1;
          RingLinks(InRing(), k);
        }
        PlaceUnique(v, value, k);
      }
    }

    /** The body of uxListRemove. */
    method TakeOut(item: ListItem, ghost k: nat) returns (left: nat)
      requires Valid() && k < |items| && item == items[k]
      modifies this, item`container, InRing()`next, InRing()`prev
      ensures Valid() && item.container == null && left == |items|
      ensures items == Removed(old(items), k)
      ensures at == AtRemoved(old(at), k)
    {
      ghost var r := InRing();
      assert item == r[k + 1];
      RingLinks(r, k + 1);
      hide Ring, Distinct;
      Unlink(item, r, k + 1);
      left := Forget(item, k);
    }

    /** The part of uxListRemove that updates the list itself. */
    method Forget(item: ListItem, ghost k: nat) returns (left: nat)
      requires k < |items| && item == items[k] && item.prev == InRing()[k]
      requires Ring(Removed(InRing(), k + 1)) && item !in Removed(InRing(), k + 1)
      requires count == |items| && listEnd.value == MAX_DELAY && at <= |items| && index == InRing()[at]
      requires forall x | x in items && x != item :: x.container == this
      modifies this
      ensures Valid() && left == |items| && items == Removed(old(items), k)
      ensures at == AtRemoved(old(at), k)
    {
      RemovedTail(listEnd, items, k);
      RemovedIndex(InRing(), k + 1, at);
      assert at != k + 1 ==> index in Removed(InRing(), k + 1);
      hide Ring, Distinct, Removed;
      if index == item {
        index := item.prev;
      }
      count := count - 1;
      items := Removed(items, k);
      at := if at <= k then at else at - 1;
      left := count;
    }

    /** listGET_OWNER_OF_NEXT_ENTRY: pxIndex moves on, skipping the sentinel. */
    method Next() returns (item: ListItem)
      requires Valid() && items != []
      modifies this`index, this`at
      ensures Valid() && at == NextPlace(|items|, old(at)) && item == items[at - 1] && item == index
    {
      RingLinks(InRing(), at);
      RingLinks(InRing(), 0);
      index := index.next;
      at := if at == |items| then 0 else at + 1;
      if index == listEnd {
        index := index.next;
        at := 1;
      }
      item := index;
    }
  }

  /** uxListRemove: the item finds its list through its container. */
  method Remove(item: ListItem, ghost k: nat) returns (left: nat)
    requires item.container != null && item.container.Valid()
    requires k < |item.container.items| && item == item.container.items[k]
    modifies item.container, item`container, item.container.InRing()`next, item.container.InRing()`prev
    ensures var list := old(item.container);
            && list.Valid() && item.container == null && left == |list.items|
            && list.items == Removed(old(list.items), k)
            && list.at == AtRemoved(old(list.at), k)
  {
    left := item.container.TakeOut(item, k);
  }

  /** Who is linked to whom in a ring, by position. */
  ghost predicate Wired(r: seq<ListItem>)
    reads r
  {
    && (forall i | 0 <= i < |r| :: r[i].next == After(r, i))
    && (forall i | 0 <= i < |r| :: r[i].prev == Ahead(r, i))
  }

  ghost function After(r: seq<ListItem>, i: nat): ListItem
    requires i < |r|
  {
    r[if i + 1 == |r| then 0 else i + 1]
  }

  ghost function Ahead(r: seq<ListItem>, i: nat): ListItem
    requires i < |r|
  {
    r[if i == 0 then |r| - 1 else i - 1]
  }

  /** The items and the place of pxIndex determine the whole list: every link, and pxIndex itself. */
  lemma LinksDetermined(list: List)
    requires list.Valid()
    ensures Wired(list.InRing()) && list.at < |list.InRing()| && list.index == list.InRing()[list.at]
    ensures list.count == |list.items| && list.InRing() == [list.listEnd] + list.items
  {
    var r := list.InRing();
    forall i | 0 <= i < |r|
      ensures r[i].next == After(r, i) && r[i].prev == Ahead(r, i)
    {
      RingLinks(r, i);
    }
  }

  /** vListInsertEnd or vListInsert */
  method InsertEither(list: List, item: ListItem, atEnd: bool) returns (ghost k: nat)
    requires list.Valid() && item !in list.InRing()
    modifies list, item`next, item`prev, item`container, list.InRing()`next, list.InRing()`prev
    ensures list.Valid() && item.container == list && k <= |old(list.items)|
    ensures list.items == Inserted(old(list.items), k, item) && list.at == AtInserted(old(list.at), k)
    ensures k < |list.items| && item == list.items[k]
    ensures forall i | 0 <= i < |list.InRing()| :: list.InRing()[i] == item || list.InRing()[i] in old(list.InRing())
  {
    hide Ring, Place, Values, Inserted;
    k := if atEnd then EndPlace(|list.items|, list.at) else Place(Values(list.items), item.value);
    InsertedTail(list.listEnd, list.items, k, item);
    InsertThenRemove(list.items, list.at, k, item);
    InsertedAt(list.items, k, item);
    if atEnd {
      list.InsertEnd(item);
    } else {
      list.Insert(item);
    }
  }

  /** The same, and then uxListRemove of the item */
  method InsertAndTake(list: List, item: ListItem, atEnd: bool)
    requires list.Valid() && item !in list.InRing()
    modifies list, item`next, item`prev, item`container, list.InRing()`next, list.InRing()`prev
    ensures list.Valid() && list.items == old(list.items) && list.at == old(list.at) && item.container == null
  {
    hide Ring, Inserted, Removed;
    ghost var s, at := list.items, list.at;
    ghost var k := InsertEither(list, item, atEnd);
    InsertThenRemove(s, at, k, item);
    var _ := Remove(item, k);
  }

  /** An insertion of either kind followed by the removal of the same item restores the list exactly: its
      items, pxIndex, the count and every link of the ring. */
  method InsertAndRemove(list: List, item: ListItem, atEnd: bool)
    requires list.Valid() && item !in list.InRing()
    modifies list, item`next, item`prev, item`container, list.InRing()`next, list.InRing()`prev
    ensures list.Valid() && list.items == old(list.items) && list.index == old(list.index)
    ensures list.count == old(list.count) && item.container == null
    ensures forall i | 0 <= i < |list.InRing()| ::
              list.InRing()[i].next == old(list.InRing()[i].next) && list.InRing()[i].prev == old(list.InRing()[i].prev)
  {
    LinksDetermined(list);
    ghost var r := list.InRing();
    hide Ring, Inserted, Removed, After, Ahead;
    InsertAndTake(list, item, atEnd);
    LinksDetermined(list);
    assert list.InRing() == r;
  }

  lemma {:induction false} PlaceUnique(v: seq<Tick>, x: Tick, k: nat)
    requires k <= |v| && (forall i | 0 <= i < k :: v[i] <= x) && (k < |v| ==> x < v[k])
    ensures k == Place(v, x)
  {
    if k > 0 {
      PlaceUnique(v[1..], x, k - 1);
    }
  }

  // ---------- round robin ----------

  /** Where pxIndex goes in a ring of n items; place 0 is the sentinel. */
  function NextPlace(n: nat, at: nat): (k: nat)
    requires 0 < n && at <= n
    ensures 1 <= k <= n
  {
    if at == n then 1 else at + 1
  }

  function PlaceAfter(n: nat, at: nat, steps: nat): (k: nat)
    requires 0 < n && at <= n
    ensures k <= n && (steps > 0 ==> k > 0)
  {
    if steps == 0 then at else NextPlace(n, PlaceAfter(n, at, steps - 1))
  }

  lemma {:induction false} PlaceAfterIs(n: nat, at: nat, steps: nat)
    requires 0 < n && at <= n && 0 < steps <= n
    ensures PlaceAfter(n, at, steps) == if at + steps <= n then at + steps else at + steps - n
  {
    if steps > 1 {
      PlaceAfterIs(n, at, steps - 1);
    }
  }

  /** n calls of listGET_OWNER_OF_NEXT_ENTRY return each of the n items exactly once. */
  lemma RoundRobin(n: nat, at: nat, place: nat)
    requires at <= n && 1 <= place <= n
    ensures exists k :: 0 < k <= n && PlaceAfter(n, at, k) == place
    ensures forall j, k | 0 < j < k <= n :: PlaceAfter(n, at, j) != PlaceAfter(n, at, k)
  {
    var k := if at < place then place - at else place - at + n;
    PlaceAfterIs(n, at, k);
    forall j, k | 0 < j < k <= n
      ensures PlaceAfter(n, at, j) != PlaceAfter(n, at, k)
    {
      PlaceAfterIs(n, at, j);
      PlaceAfterIs(n, at, k);
    }
  }

  /** As many calls of listGET_OWNER_OF_NEXT_ENTRY as there are items return every item exactly once. */
  method Cycle(list: List) returns (owners: seq<ListItem>)
    requires list.Valid() && list.items != []
    modifies list`index, list`at
    ensures list.Valid() && |owners| == |list.items| && Distinct(owners)
    ensures forall x :: x in owners <==> x in list.items
    ensures forall k | 0 <= k < |owners| ::
              var place := PlaceAfter(|list.items|, old(list.at), k + 1);
              place > 0 && owners[k] == list.items[place - 1]
  {
    ghost var n, at := |list.items|, list.at;
    owners := [];
    for k := 0 to list.count
      invariant list.Valid() && |owners| == k && list.at == PlaceAfter(n, at, k)
      invariant forall i | 0 <= i < k :: owners[i] == list.items[PlaceAfter(n, at, i + 1) - 1]
    {
      var item := list.Next();
      owners := owners + [item];
    }
    EachOnce(list.items, at, owners);
    RingDistinct(list);
  }

  lemma RingDistinct(list: List)
    requires list.Valid()
    ensures Distinct(list.items)
  {
    var r := list.InRing();
    assert forall i | 0 <= i < |list.items| :: list.items[i] == r[i + 1];
  }

  lemma EachOnce<T>(items: seq<T>, at: nat, owners: seq<T>)
    requires at <= |items| == |owners| && items != []
    requires forall i | 0 <= i < |items| :: owners[i] == items[PlaceAfter(|items|, at, i + 1) - 1]
    ensures forall x :: x in owners <==> x in items
    ensures Distinct(items) ==> Distinct(owners)
  {
    var n := |items|;
    forall x | x in items
      ensures x in owners
    {
      var p :| 0 <= p < n && items[p] == x;
      RoundRobin(n, at, p + 1);
      var k :| 0 < k <= n && PlaceAfter(n, at, k) == p + 1;
      assert owners[k - 1] == x;
    }
    forall i, j | 0 <= i < j < n && Distinct(items)
      ensures owners[i] != owners[j]
    {
      RoundRobin(n, at, 1);
      assert PlaceAfter(n, at, i + 1) != PlaceAfter(n, at, j + 1);
    }
  }

  /** An item put in by vListInsertEnd is returned after all others, but for the one pxIndex stands on: that
      comes last. */
  method InsertEndAndCycle(list: List, item: ListItem) returns (owners: seq<ListItem>)
    requires list.Valid() && item !in list.InRing()
    modifies list, item`next, item`prev, item`container, list.InRing()`next, list.InRing()`prev
    ensures list.Valid() && Distinct(owners)
    ensures forall x :: x in owners <==> x == item || x in old(list.items)
    ensures |owners| == |old(list.items)| + 1
    ensures var n := |owners|;
            if old(list.index) == list.listEnd then owners[n - 1] == item
            else n >= 2 && owners[n - 2] == item && owners[n - 1] == old(list.index)
  {
    ghost var s, at := list.items, list.at;
    IndexPlace(list);
    hide Ring;
    list.InsertEnd(item);
    InsertEndLast(s, at, item);
    owners := Cycle(list);
  }

  lemma IndexPlace(list: List)
    requires list.Valid()
    ensures list.at <= |list.items| && (list.index == list.listEnd <==> list.at == 0)
    ensures list.at > 0 ==> list.index == list.items[list.at - 1]
  {
  }

  lemma InsertEndLast(s: seq<ListItem>, at: nat, item: ListItem)
    requires at <= |s|
    ensures var n, k := |s| + 1, EndPlace(|s|, at);
            var items, at' := Inserted(s, k, item), AtInserted(at, k);
            && at' <= n == |items| && (forall x :: x in items <==> x == item || x in s)
            && if at == 0 then items[PlaceAfter(n, at', n) - 1] == item
               else items[PlaceAfter(n, at', n - 1) - 1] == item && items[PlaceAfter(n, at', n) - 1] == s[at - 1]
  {
    var n, k := |s| + 1, EndPlace(|s|, at);
    InsertedAt(s, k, item);
    PlaceAfterIs(n, AtInserted(at, k), n);
    if at > 0 {
      PlaceAfterIs(n, AtInserted(at, k), n - 1);
    }
  }

  lemma InsertedValues(s: seq<ListItem>, k: int, x: ListItem)
    requires 0 <= k <= |s|
    ensures Values(Inserted(s, k, x)) == Inserted(Values(s), k, x.value)
  {
  }

  /** vListInsert keeps an ascending list ascending, with the new item behind its equals. */
  lemma InsertKeepsAscending(s: seq<ListItem>, x: ListItem)
    requires Ascending(Values(s))
    ensures var k := Place(Values(s), x.value);
            Ascending(Values(Inserted(s, k, x))) && forall i | k <= i < |s| :: x.value < s[i].value
  {
    var v, k := Values(s), Place(Values(s), x.value);
    PlaceIsRight(v, x.value, k);
    InsertedValues(s, k, x);
    assert forall i | k < i < |v| :: v[k] <= v[i];
    assert forall i | 0 <= i < |s| :: v[i] == s[i].value;
  }

  /** An insertion of either kind followed by the removal of the same item leaves items and pxIndex,
      and so the list, exactly as they were. */
  lemma InsertThenRemove(s: seq<ListItem>, at: nat, k: nat, x: ListItem)
    requires k <= |s|
    ensures Removed(Inserted(s, k, x), k) == s && AtRemoved(AtInserted(at, k), k) == at
    ensures Inserted(s, k, x)[k] == x
  {
    RemovedInserted(s, k, x);
  }
}
