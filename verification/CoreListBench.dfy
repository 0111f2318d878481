/** The list operations of CoreMark around the sort, and the benchmark round that must leave the list
    as it found it (core_list_join.c, core_main.c). */
module CoreListBench {
  import opened CoreList
  import opened Wrappers

  /** b holds the nodes of a, in some order. */
  ghost predicate SameNodes(a: seq<Node>, b: seq<Node>) {
    && |a| == |b|
    && (forall k | 0 <= k < |a| :: a[k] in b)
    && (forall k | 0 <= k < |b| :: b[k] in a)
  }

  lemma RearrangedSameNodes(s: seq<Node>, c: seq<int>, r: seq<Node>)
    requires Permutes(c, |s|) && |r| == |s| && forall k | 0 <= k < |s| :: r[k] == s[c[k]]
    ensures SameNodes(s, r)
    ensures Distinct(s) ==> Distinct(r)
  {
    forall k | 0 <= k < |s|
      ensures s[k] in r
    {
      PermutesHits(c, |s|, k);
      var j :| 0 <= j < |c| && c[j] == k;
      assert r[j] == s[k];
    }
    if Distinct(s) {
      forall k, l | 0 <= k < l < |r|
        ensures r[k] != r[l]
      {
        assert c[k] != c[l];
        assert c[k] < c[l] || c[l] < c[k];
      }
    }
  }

  // ---------- reverse ----------

  ghost predicate IsReverse(a: seq<Node>, b: seq<Node>) {
    |a| == |b| && forall k | 0 <= k < |a| :: b[k] == a[|a| - 1 - k]
  }

  lemma ReverseTwice(a: seq<Node>, b: seq<Node>, c: seq<Node>)
    requires IsReverse(a, b) && IsReverse(b, c)
    ensures a == c
  {
    forall k | 0 <= k < |a|
      ensures a[k] == c[k]
    {
      assert c[k] == b[|b| - 1 - k];
    }
  }

  lemma ReverseSameNodes(a: seq<Node>, b: seq<Node>)
    requires IsReverse(a, b)
    ensures SameNodes(a, b)
    ensures Distinct(a) ==> Distinct(b)
  {
    assert forall k | 0 <= k < |a| :: a[k] == b[|a| - 1 - k];
  }

  /** core_list_reverse */
  method Reverse(list0: Node?, ghost s: seq<Node>) returns (head: Node?, ghost r: seq<Node>)
    requires IsList(list0, s)
    modifies s`next
    ensures IsList(head, r) && IsReverse(s, r)
  {
    var list := list0;
    head := null;
    ghost var i := 0;
    while list != null
      invariant 0 <= i <= |s| && list == (if i < |s| then s[i] else null)
      invariant head == (if i > 0 then s[i - 1] else null)
      invariant forall k | i <= k < |s| - 1 :: s[k].next == s[k + 1]
      invariant i < |s| ==> s[|s| - 1].next == null
      invariant forall k | 0 < k < i :: s[k].next == s[k - 1]
      invariant 0 < i ==> s[0].next == null
      decreases |s| - i
    {
      var tmp := list.next;
      list.next := head;
      head := list;
      list := tmp;
      i := i + 1;
    }
    r := seq(|s|, k requires 0 <= k < |s| => s[|s| - 1 - k]);
    ReverseSameNodes(s, r);
  }

  // ---------- find ----------

  /** core_list_find looks for an index, or, when that is negative, for a low data byte. */
  predicate Matches(d: Data, idx: int16, low: Byte)
    reads d
  {
    if idx >= 0 then d.idx == idx else d.data16.low == low
  }

  /** core_list_find: the first node that matches, NULL if there is none. */
  method Find(list: Node?, idx: int16, low: Byte, ghost s: seq<Node>) returns (found: Node?, ghost k: nat)
    requires IsList(list, s)
    ensures k <= |s| && forall j | 0 <= j < k :: !Matches(s[j].info, idx, low)
    ensures if k < |s| then found == s[k] && Matches(s[k].info, idx, low) else found == null
    ensures found == null <==> forall j | 0 <= j < |s| :: !Matches(s[j].info, idx, low)
    ensures found != null ==> found in s && Matches(found.info, idx, low)
  {
    found := list;
    k := 0;
    while found != null && !Matches(found.info, idx, low)
      invariant k <= |s| && found == (if k < |s| then s[k] else null)
      invariant forall j | 0 <= j < k :: !Matches(s[j].info, idx, low)
      decreases |s| - k
    {
      found := found.next;
      k := k + 1;
    }
  }

  // ---------- remove and undo ----------

  /** core_list_remove: the node after item leaves the list, taking the info of item with it. */
  method Remove(item: Node, ghost head: Node?, ghost s: seq<Node>, ghost i: nat) returns (ret: Node, ghost r: seq<Node>)
    requires IsList(head, s) && i + 1 < |s| && item == s[i]
    modifies item, item.next
    ensures ret == s[i + 1] && ret.next == null && r == s[..i + 1] + s[i + 2..]
    ensures IsList(head, r)
    ensures item.info == old(ret.info) && ret.info == old(item.info)
  {
    assert item.next == s[i + 1];
    ret := item.next;
    var tmp := item.info;
    item.info := ret.info;
    ret.info := tmp;
    item.next := item.next.next;
    ret.next := null;
    r := s[..i + 1] + s[i + 2..];
  }

  /** core_list_undo_remove: the removed node goes back after the modified one and the infos change
      places again. */
  method UndoRemove(removed: Node, modified: Node, ghost head: Node?, ghost s: seq<Node>, ghost i: nat)
    returns (ghost r: seq<Node>)
    requires IsList(head, s) && i < |s| && modified == s[i] && removed !in s
    modifies removed, modified
    ensures r == s[..i + 1] + [removed] + s[i + 1..]
    ensures IsList(head, r)
    ensures removed.info == old(modified.info) && modified.info == old(removed.info)
  {
    var tmp := removed.info;
    removed.info := modified.info;
    modified.info := tmp;
    removed.next := modified.next;
    modified.next := removed;
    r := s[..i + 1] + [removed] + s[i + 1..];
  }

  // ---------- moving a node to the front ----------

  ghost function MovedForward(s: seq<Node>, j: nat): seq<Node>
    requires j + 1 < |s|
  {
    [s[0], s[j + 1]] + s[1..j + 1] + s[j + 2..]
  }

  lemma MovedForwardSameNodes(s: seq<Node>, j: nat)
    requires j + 1 < |s| && Distinct(s)
    ensures SameNodes(s, MovedForward(s, j)) && Distinct(MovedForward(s, j))
  {
    var c := seq(|s|, k requires 0 <= k < |s| => if k == 0 then 0 else if k == 1 then j + 1 else if k <= j
        + 1 then k - 1 else k);
    assert Permutes(c, |s|);
    RearrangedSameNodes(s, c, MovedForward(s, j));
  }

  /** s[i] comes next after s[k], or nothing does. */
  ghost predicate NextIs(s: seq<Node>, k: nat, i: nat)
    requires k < |s|
    reads s[k]
  {
    s[k].next == if i < |s| then s[i] else null
  }

  ghost predicate InPlace(s: seq<Node>, k: nat)
    requires k < |s|
    reads s[k]
  {
    NextIs(s, k, k + 1)
  }

  lemma NextInList(head: Node, s: seq<Node>, k: nat)
    requires IsList(head, s) && k < |s|
    ensures InPlace(s, k)
  {
  }

  lemma MovedForwardNext(s: seq<Node>, j: nat, r: seq<Node>, k: nat)
    requires j + 1 < |s| == |r| && r == MovedForward(s, j) && k < |s|
    requires forall k: nat | k < |s| && k != 0 && k != j && k != j + 1 :: InPlace(s, k)
    requires if j == 0 then NextIs(s, 0, 1) && NextIs(s, 1, 2)
             else NextIs(s, 0, j + 1) && NextIs(s, j + 1, 1) && NextIs(s, j, j + 2)
    ensures InPlace(r, k)
  {
    MovedForwardAt(s, j);
    hide MovedForward;
    var i := if k == 0 then 0 else if k == 1 then j + 1 else if k <= j + 1 then k - 1 else k;
    assert r[k] == s[i];
    assert i != 0 && i != j && i != j + 1 ==> InPlace(s, i);
  }

  lemma ListIfInPlace(s: seq<Node>)
    requires s != [] && Distinct(s) && forall k: nat | k < |s| :: InPlace(s, k)
    ensures IsList(s[0], s)
  {
    hide Distinct;
    forall k: nat | k < |s| - 1
      ensures s[k].next == s[k + 1]
    {
      assert InPlace(s, k);
    }
    assert InPlace(s, |s| - 1);
  }

  lemma MovedForwardIsList(s: seq<Node>, j: nat)
    requires j + 1 < |s| && Distinct(s)
    requires forall k: nat | k < |s| && k != 0 && k != j && k != j + 1 :: InPlace(s, k)
    requires if j == 0 then NextIs(s, 0, 1) && NextIs(s, 1, 2)
             else NextIs(s, 0, j + 1) && NextIs(s, j + 1, 1) && NextIs(s, j, j + 2)
    ensures IsList(s[0], MovedForward(s, j))
  {
    hide Distinct, SameNodes, IsList;
    MovedForwardSameNodes(s, j);
    MovedForwardAt(s, j);
    var r := MovedForward(s, j);
    forall k: nat | k < |r|
      ensures InPlace(r, k)
    {
      MovedForwardNext(s, j, r, k);
    }
    ListIfInPlace(r);
  }

  /** The node after thisFind is moved to the second place. */
  method MoveForward(list: Node, thisFind: Node, ghost s: seq<Node>, ghost j: nat)
    requires IsList(list, s) && j + 1 < |s| && thisFind == s[j]
    modifies s`next
    ensures IsList(list, MovedForward(s, j))
  {
    hide MovedForward, SameNodes;
    forall k: nat | k < |s|
      ensures InPlace(s, k)
    {
      NextInList(list, s, k);
    }
    assert list == s[0] && thisFind.next == s[j + 1];
    var finder := thisFind.next;
    thisFind.next := finder.next;
    finder.next := list.next;
    list.next := finder;
    MovedForwardIsList(s, j);
  }

  lemma MovedForwardAt(s: seq<Node>, j: nat)
    requires j + 1 < |s|
    ensures var r := MovedForward(s, j);
            |r| == |s|
            && forall k | 0 <= k < |r| :: r[k] == if k == 0 then s[0] else if k == 1 then s[j + 1] else if k <= j
                + 1 then s[k - 1] else s[k]
  {
  }

  lemma SameNodesTransitive(a: seq<Node>, b: seq<Node>, c: seq<Node>)
    requires SameNodes(a, b) && SameNodes(b, c)
    ensures SameNodes(a, c)
  {
  }

  // ---------- the benchmark ----------

  /** The first loop of core_bench_list: find a node, reverse the list, and if the node was found
      move the one after it forward. */
  method FindRounds(list0: Node, findNum: int16, finderIdx: int16, ghost s: seq<Node>)
    returns (list: Node, idx: int16, low: Byte, ghost r: seq<Node>)
    requires IsList(list0, s) && |s| >= 2
    modifies s`next
    ensures IsList(list, r) && SameNodes(s, r)
  {
    list, idx, low, r := list0, finderIdx, 0, s;
    assert SameNodes(s, s);
    hide IsList, SameNodes;
    var i := 0;
    while i < findNum
      invariant IsList(list, r) && SameNodes(s, r)
      decreases findNum as int - i as int
    {
      low := i as int % 0x100;
      list, r := FindRound(list, idx, low, s, r);
      if idx >= 0 {
        idx := if idx == 0x7fff then -0x8000 else idx + 1;
      }
      i := i + 1;
    }
  }

  method FindRound(list0: Node, idx: int16, low: Byte, ghost s: seq<Node>, ghost r0: seq<Node>)
          returns (list: Node, ghost r: seq<Node>)
    requires IsList(list0, r0) && SameNodes(s, r0) && |s| >= 2
    modifies s`next
    ensures IsList(list, r) && SameNodes(s, r)
  {
    ghost var k;
    var thisFind;
    thisFind, k := Find(list0, idx, low, r0);
    list, r := Reverse(list0, r0);
    ReverseSameNodes(r0, r);
    SameNodesTransitive(s, r0, r);
    if thisFind != null {
      ghost var j := |r| - 1 - k;
      assert r[j] == thisFind;
      if thisFind.next != null {
        MoveForward(list, thisFind, r, j);
        MovedForwardSameNodes(r, j);
        SameNodesTransitive(s, r, MovedForward(r, j));
        r := MovedForward(r, j);
      }
    }
  }

  ghost function InfosOf(s: seq<Node>): (d: seq<Data>)
    reads s
    ensures Infos(s, d)
  {
    seq(|s|, k requires 0 <= k < |s| reads s => s[k].info)
  }

  lemma RearrangedIsList(head: Node?, s: seq<Node>, c: seq<int>) returns (r: seq<Node>)
    requires Distinct(s) && IsRearranged(head, s, c)
    ensures IsList(head, r) && SameNodes(s, r)
    ensures |r| == |c| == |s| && forall k | 0 <= k < |r| :: 0 <= c[k] < |s| && r[k] == s[c[k]]
  {
    r := seq(|c|, k requires 0 <= k < |c| => s[c[k]]);
    RearrangedSameNodes(s, c, r);
  }

  ghost predicate OrderedByIndex(s: seq<Node>)
    reads s, set k | 0 <= k < |s| :: s[k].info
  {
    forall k, l | 0 <= k < l < |s| :: s[k].info.idx <= s[l].info.idx
  }

  ghost predicate IndicesDistinct(s: seq<Node>)
    reads s, set k | 0 <= k < |s| :: s[k].info
  {
    forall k, l | 0 <= k < l < |s| :: s[k].info.idx != s[l].info.idx
  }

  /** The sort applied to the list s in its current order r0, said of the infos d of s. */
  method Resort(cmp: Comparator, list0: Node, ghost s: seq<Node>, ghost d: seq<Data>, ghost r0: seq<Node>)
    returns (list: Node, ghost r: seq<Node>)
    requires IsList(list0, r0) && SameNodes(s, r0) && Infos(s, d) && !cmp.ByOrder?
    requires 2 <= |s| <= 0x7fff_ffff
    modifies s`next, d`data16
    ensures IsList(list, r) && SameNodes(s, r) && Infos(s, d)
    ensures forall k | 0 <= k < |d| :: d[k].data16.backup == old(d[k].data16).backup
    ensures cmp == ByIndex(true) ==> OrderedByIndex(r) && forall k | 0 <= k < |d| :: d[k].data16.Fresh()
  {
    ghost var e := InfosOf(r0);
    assert forall k | 0 <= k < |d| :: exists j | 0 <= j < |r0| :: r0[j] == s[k] && e[j] == d[k];
    assert forall j | 0 <= j < |r0| :: e[j] in d;
    assert |r0| == |s|;
    hide IsList, SameNodes, OrderedByIndex;
    list, r := SortList(cmp, list0, r0, e);
    SameNodesTransitive(s, r0, r);
  }

  method SortList(cmp: Comparator, list0: Node, ghost s: seq<Node>, ghost d: seq<Data>)
    returns (list: Node, ghost r: seq<Node>)
    requires IsList(list0, s) && Infos(s, d) && !cmp.ByOrder? && 2 <= |s| <= 0x7fff_ffff
    modifies s`next, d`data16
    ensures IsList(list, r) && SameNodes(s, r) && Infos(s, d)
    ensures forall k | 0 <= k < |d| :: d[k].data16.backup == old(d[k].data16).backup
    ensures cmp == ByIndex(true) ==> OrderedByIndex(r) && forall k | 0 <= k < |d| :: d[k].data16.Fresh()
  {
    ghost var t, c;
    var head;
    head, t, c := MergeSort(cmp, list0, s, d);
    r := RearrangedIsList(head, s, c);
    list := head;
    SortedFacts(cmp, s, d, t, c, r);
    hide SortedRun, IsRearranged, IsList, SameNodes;
    forall k | 0 <= k < |d|
      ensures d[k].data16.backup == old(d[k].data16).backup
      ensures cmp == ByIndex(true) ==> d[k].data16.Fresh()
    {
      assert Advanced(cmp, old(ItemOf(d[k])), t[k]);
    }
  }

  lemma SortedFacts(cmp: Comparator, r0: seq<Node>, e: seq<Data>, t: seq<Item>, c: seq<int>, r: seq<Node>)
    requires |r| == |c| == |r0| == |e| >= 2 && Infos(r0, e) && Sees(e, t)
    requires Permutes(c, |r0|) && SortedRun(cmp, t, c, 0, |c|)
    requires forall k | 0 <= k < |r| :: r[k] == r0[c[k]]
    ensures cmp == ByIndex(true) ==> OrderedByIndex(r) && forall k | 0 <= k < |e| :: t[k].word.Fresh()
  {
    forall k | 0 <= k < |e|
      ensures Settled(cmp, t[k])
    {
      PermutesHits(c, |r0|, k);
      var j :| 0 <= j < |c| && c[j] == k;
      assert if j == 0 then Before(cmp, t, c[0], c[1]) else Before(cmp, t, c[0], c[j]);
    }
    forall k, l | 0 <= k < l < |r|
      ensures cmp == ByIndex(true) ==> r[k].info.idx <= r[l].info.idx
    {
      assert Before(cmp, t, c[k], c[l]);
    }
  }

  /** r[m] can only be s[m], given that everything before is in its place. */
  lemma NextInPlace(s: seq<Node>, r: seq<Node>, m: nat, i: nat, j: nat)
    requires m < |s| == |r| && i < |r| && j < |s| && r[i] == s[m] && s[j] == r[m]
    requires Distinct(s) && Distinct(r) && forall k | 0 <= k < m :: s[k] == r[k]
    requires OrderedByIndex(s) && OrderedByIndex(r) && IndicesDistinct(s)
    ensures s[m] == r[m]
  {
    assert m <= i && m <= j by {
      hide OrderedByIndex, IndicesDistinct;
    }
    hide Distinct;
    assert s[m].info.idx <= s[j].info.idx == r[m].info.idx <= r[i].info.idx == s[m].info.idx;
  }

  /** With distinct indices there is only one order of the nodes that is sorted by index. */
  lemma {:induction false} IndexOrderUnique(s: seq<Node>, r: seq<Node>, m: nat)
    requires Distinct(s) && Distinct(r) && SameNodes(s, r)
    requires OrderedByIndex(s) && OrderedByIndex(r) && IndicesDistinct(s)
    requires m <= |s|
    ensures forall k | 0 <= k < m :: s[k] == r[k]
  {
    hide Distinct, OrderedByIndex, IndicesDistinct, SameNodes;
    if m > 0 {
      IndexOrderUnique(s, r, m - 1);
      var i, j := Positions(s, r, m - 1);
      NextInPlace(s, r, m - 1, i, j);
    }
  }

  lemma Positions(s: seq<Node>, r: seq<Node>, m: nat) returns (i: nat, j: nat)
    requires SameNodes(s, r) && m < |s|
    ensures |r| == |s| && i < |r| && j < |s| && r[i] == s[m] && s[j] == r[m]
  {
    assert s[m] in r && r[m] in s;
    i :| 0 <= i < |r| && r[i] == s[m];
    j :| 0 <= j < |s| && s[j] == r[m];
  }

  ghost predicate NonDecreasing(ix: seq<int16>) {
    forall k, l | 0 <= k < l < |ix| :: ix[k] <= ix[l]
  }

  lemma IndicesOf(s: seq<Node>, d: seq<Data>, ix: seq<int16>)
    requires Infos(s, d) && |ix| == |d| && forall k | 0 <= k < |d| :: d[k].idx == ix[k]
    ensures OrderedByIndex(s) <==> NonDecreasing(ix)
    ensures IndicesDistinct(s) <==> Distinct(ix)
  {
    assert forall k | 0 <= k < |s| :: s[k].info.idx == ix[k];
  }

  lemma IndicesBefore(list: Node, s: seq<Node>, d: seq<Data>) returns (ix: seq<int16>)
    requires IsList(list, s) && Infos(s, d) && s != []
    ensures |ix| == |d| && (forall k | 0 <= k < |d| :: d[k].idx == ix[k]) && Distinct(s) && s[0] == list
    ensures OrderedByIndex(s) && IndicesDistinct(s) ==> NonDecreasing(ix) && Distinct(ix)
  {
    ix := seq(|d|, k requires 0 <= k < |d| reads d => d[k].idx);
    IndicesOf(s, d, ix);
  }

  /** The node from which the rest of the list would be read. */
  method SearchRest(list: Node, idx: int16, low: Byte, ghost s: seq<Node>) returns (finder: Node?)
    requires IsList(list, s)
    ensures finder != null ==> finder in s
  {
    ghost var k;
    finder, k := Find(list, idx, low, s);
    if finder == null {
      finder := list.next;
      assert |s| > 1 ==> finder == s[1];
    }
  }

  /** The remove half of a round: the third node is taken out, what is left is searched, and it is
      put back. */
  method RemoveAndRestore(list: Node, idx: int16, low: Byte, ghost s: seq<Node>, ghost d: seq<Data>, ghost r: seq<Node>)
    requires IsList(list, r) && SameNodes(s, r) && Infos(s, d) && |s| >= 3
    modifies s
    ensures IsList(list, r) && Infos(s, d)
  {
    FirstNodes(list, s, r);
    hide IsList, SameNodes;
    ghost var r';
    var remover;
    remover, r' := Remove(list.next, list, r, 1);
    WithoutThird(r, r');
    var _ := SearchRest(list, idx, low, r');
    r' := UndoRemove(remover, list.next, list, r', 1);
    assert r' == r;
  }

  lemma FirstNodes(list: Node, s: seq<Node>, r: seq<Node>)
    requires IsList(list, r) && SameNodes(s, r) && |s| >= 3
    ensures |r| == |s| && list == r[0] && r[0] in s && r[1] in s && r[2] in s && Distinct(r) && r[0] != r[1]
    ensures list.next == r[1] && r[1].next == r[2]
  {
  }

  lemma WithoutThird(r: seq<Node>, r': seq<Node>)
    requires |r| >= 3 && Distinct(r) && r' == r[..2] + r[3..]
    ensures r'[0] == r[0] && r'[1] == r[1] && r[2] !in r'
    ensures r'[..2] + [r[2]] + r'[2..] == r
  {
    assert forall k | 0 <= k < |r'| :: r'[k] == r[if k < 2 then k else k + 1];
  }

  lemma Restored(list: Node, s: seq<Node>, d: seq<Data>, ix: seq<int16>, r: seq<Node>)
    requires Distinct(s) && Infos(s, d) && |ix| == |d| && forall k | 0 <= k < |d| :: d[k].idx == ix[k]
    requires IsList(list, r) && SameNodes(s, r) && OrderedByIndex(r)
    ensures |s| > 0 && NonDecreasing(ix) && Distinct(ix) ==> r == s && list == s[0]
  {
    if NonDecreasing(ix) && Distinct(ix) {
      IndicesOf(s, d, ix);
      IndexOrderUnique(s, r, |s|);
    }
  }

  /** Everything core_bench_list does before the final sort. */
  method Scramble(list0: Node, findNum: int16, finderIdx: int16, ghost s: seq<Node>, ghost d: seq<Data>)
    returns (list: Node, ghost r: seq<Node>)
    requires IsList(list0, s) && Infos(s, d) && 3 <= |s| <= 0x7fff_ffff
    modifies s, d`data16
    ensures IsList(list, r) && SameNodes(s, r) && Infos(s, d)
    ensures forall k | 0 <= k < |d| :: d[k].data16.backup == old(d[k].data16.backup)
  {
    hide SameNodes, OrderedByIndex, IsList, Distinct;
    var idx, low;
    list, idx, low, r := FindRounds(list0, findNum, finderIdx, s);
    assert Infos(s, d);
    hide Infos;
    if finderIdx > 0 {
      list, r := Resort(ByValue, list, s, d, r);
    }
    RemoveAndRestore(list, idx, low, s, d, r);
  }

  /** core_bench_list. Whatever the sort by data does to the order and to the cached bytes, the round
      ends with the same nodes on the list, sorted by index, every node with the info it had and
      every data word regenerated from its backup byte. If no two indices are equal the list is
      restored: the same nodes in the same order behind the same head. */
  method BenchList(list0: Node, findNum: int16, finderIdx: int16, ghost s: seq<Node>, ghost d: seq<Data>)
    returns (list: Node, ghost r: seq<Node>)
    requires IsList(list0, s) && Infos(s, d) && 3 <= |s| <= 0x7fff_ffff
    modifies s, d`data16
    ensures IsList(list, r) && SameNodes(s, r) && OrderedByIndex(r) && Infos(s, d)
    ensures forall k | 0 <= k < |d| :: d[k].data16 == Word(old(d[k].data16.backup), old(d[k].data16.backup))
    ensures old(OrderedByIndex(s) && IndicesDistinct(s)) ==> r == s && list == list0
  {
    hide SameNodes, OrderedByIndex, IndicesDistinct, IsList, Distinct, NonDecreasing, Infos;
    ghost var ix := IndicesBefore(list0, s, d);
    list, r := Scramble(list0, findNum, finderIdx, s, d);
    list, r := Resort(ByIndex(true), list, s, d, r);
    Restored(list, s, d, ix, r);
  }

  lemma AdjacentEqual(s: seq<Node>) returns (k: nat)
    requires OrderedByIndex(s) && !IndicesDistinct(s)
    ensures k + 1 < |s| && s[k].info.idx == s[k + 1].info.idx
  {
    var l;
    k, l :| 0 <= k < l < |s| && s[k].info.idx == s[l].info.idx;
    if k + 1 < l {
      assert s[k].info.idx <= s[k + 1].info.idx && s[k + 1].info.idx <= s[l].info.idx;
    }
  }

  lemma SwapPermutes(n: nat, k: nat) returns (c: seq<int>)
    requires k + 1 < n
    ensures Permutes(c, n) && c[k] == k + 1 && c[k + 1] == k
    ensures forall j | 0 <= j < n && j != k && j != k + 1 :: c[j] == j
  {
    c := seq(n, j requires 0 <= j < n => if j == k then k + 1 else if j == k + 1 then k else j);
  }

  lemma SameIndices(s: seq<Node>, r: seq<Node>, c: seq<int>, k: nat)
    requires k + 1 < |s| == |r| == |c| && s[k].info.idx == s[k + 1].info.idx && InRange(c, |s|)
    requires forall j | 0 <= j < |s| :: r[j] == s[c[j]]
    requires c[k] == k + 1 && c[k + 1] == k && forall j | 0 <= j < |s| && j != k && j != k + 1 :: c[j] == j
    requires OrderedByIndex(s)
    ensures OrderedByIndex(r)
  {
    assert forall j | 0 <= j < |s| :: r[j].info.idx == s[j].info.idx;
  }

  /** With two equal indices the order by index does not determine the list: another order of the nodes is
      sorted too, and which of them the sort leaves depends on the order it is given. */
  lemma EqualIndicesNotDetermined(s: seq<Node>) returns (r: seq<Node>)
    requires Distinct(s) && OrderedByIndex(s) && !IndicesDistinct(s)
    ensures SameNodes(s, r) && Distinct(r) && OrderedByIndex(r) && r != s
  {
    var k := AdjacentEqual(s);
    assert s[k] != s[k + 1];
    hide SameNodes, Distinct, OrderedByIndex, IndicesDistinct;
    var c := SwapPermutes(|s|, k);
    r := seq(|s|, j requires 0 <= j < |s| => s[c[j]]);
    RearrangedSameNodes(s, c, r);
    assert r[k] != s[k];
    SameIndices(s, r, c, k);
  }

  /** The rounds of iterate in core_main.c all start from res->list, which must still be the list. */
  method Iterate(list: Node, iterations: nat, seed3: int16, ghost s: seq<Node>, ghost d: seq<Data>)
    requires IsList(list, s) && Infos(s, d) && 3 <= |s| <= 0x7fff_ffff
    requires OrderedByIndex(s) && IndicesDistinct(s) && forall k | 0 <= k < |d| :: d[k].data16.Fresh()
    modifies s, d`data16
    ensures IsList(list, s) && Infos(s, d) && forall k | 0 <= k < |d| :: d[k].data16 == old(d[k].data16)
  {
    ghost var ix := seq(|d|, k requires 0 <= k < |d| reads d => d[k].idx);
    IndicesOf(s, d, ix);
    hide IsList, Distinct, NonDecreasing, OrderedByIndex, IndicesDistinct;
    for i := 0 to iterations
      invariant IsList(list, s) && Infos(s, d)
      invariant forall k | 0 <= k < |d| :: d[k].data16 == old(d[k].data16)
    {
      IndicesOf(s, d, ix);
      var again, r := BenchList(list, seed3, 1, s, d);
      IndicesOf(s, d, ix);
      again, r := BenchList(list, seed3, -1, s, d);
    }
  }
}
