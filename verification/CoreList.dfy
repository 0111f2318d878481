/** The linked-list half of CoreMark (core_list_join.c): nodes are relinked in place, and the
    comparators may cache a computed value in the data they compare. */
module CoreList {
  import opened Wrappers

  newtype int16 = x: int | -0x8000 <= x < 0x8000

  /** The 16-bit data word: its high byte is a backup of the original low byte. */
  datatype Word = Word(backup: Byte, low: Byte) {
    /** Bit 7 says that bits 0-6 hold a cached result. */
    predicate Cached() { low >= 0x80 }

    function Value(): (v: int)
      ensures 0 <= v < 0x80
    {
      low % 0x80
    }

    function Regenerated(): Word { Word(backup, backup) }

    predicate Fresh() { low == backup }
  }

  /** list_data */
  class Data {
    var data16: Word
    var idx: int16

    constructor (data16: Word, idx: int16)
      ensures this.data16 == data16 && this.idx == idx
    {
      this.data16, this.idx := data16, idx;
    }
  }

  /** list_head */
  class Node {
    var next: Node?
    var info: Data

    constructor (info: Data)
      ensures this.info == info && next == null
    {
      this.info, next := info, null;
    }
  }

  // ---------- comparators ----------

  /** The comparison passed to the sort: any fixed order on the data, cmp_complex, or cmp_idx
      (which regenerates the data words when its last argument is NULL). */
  datatype Comparator =
    | ByOrder(leq: (Data, Data) -> bool)
    | ByValue
    | ByIndex(regenerate: bool)

  /** What a comparator sees of one element: the object itself and its current contents. */
  datatype Item = Item(ref: Data, word: Word, idx: int16)

  ghost function ItemOf(d: Data): Item
    reads d
  {
    Item(d, d.data16, d.idx)
  }

  /** t is what a comparator sees of the data d now. */
  ghost predicate Sees(d: seq<Data>, t: seq<Item>)
    reads d
  {
    |t| == |d| && forall k | 0 <= k < |d| :: t[k] == ItemOf(d[k])
  }

  /** Nothing more will happen to the element when it is compared again. */
  ghost predicate Settled(cmp: Comparator, i: Item) {
    match cmp
    case ByOrder(_) => true
    case ByValue => i.word.Cached()
    case ByIndex(regenerate) => regenerate ==> i.word.Fresh()
  }

  ghost predicate Leq(cmp: Comparator, i: Item, j: Item) {
    match cmp
    case ByOrder(leq) => leq(i.ref, j.ref)
    case ByValue => i.word.Value() <= j.word.Value()
    case ByIndex(_) => i.idx <= j.idx
  }

  /** cmp_complex and cmp_idx are total preorders by construction; any other comparator must be. */
  ghost predicate TotalPreorder(cmp: Comparator, d: seq<Data>) {
    cmp.ByOrder? ==>
      && (forall a, b | a in d && b in d :: cmp.leq(a, b) || cmp.leq(b, a))
      && (forall a, b, c | a in d && b in d && c in d && cmp.leq(a, b) && cmp.leq(b, c) :: cmp.leq(a, c))
  }

  ghost predicate ItemsFor(d: seq<Data>, t: seq<Item>) {
    |t| == |d| && forall k | 0 <= k < |d| :: t[k].ref == d[k]
  }

  /** One element after a comparison that may have settled it. */
  ghost predicate Advanced(cmp: Comparator, i: Item, i': Item) {
    && i'.ref == i.ref && i'.idx == i.idx && i'.word.backup == i.word.backup
    && (Settled(cmp, i) ==> i' == i)
  }

  /** calc_func. The two benchmark kernels are an arbitrary function of state the list does not
      share, so their result is chosen freely. */
  method CalcFunc(d: Data) returns (v: int)
    modifies d`data16
    ensures d.data16.Cached() && v == d.data16.Value() == d.data16.low - 0x80
    ensures old(d.data16.Cached()) ==> d.data16 == old(d.data16)
    ensures d.data16.backup == old(d.data16).backup
    ensures old(!d.data16.Cached() && d.data16.low % 8 >= 2) ==> v == old(d.data16.low)
  {
    var data := d.data16;
    if data.low / 0x80 % 2 != 0 {
      v := data.low % 0x80;
    } else {
      var flag := data.low % 8;
      var retval: int := data.low;
      if flag == 0 || flag == 1 {
        retval := *;
      }
      v := retval % 0x80;
      d.data16 := Word(data.backup, 0x80 + v);
    }
  }

  /** Whether cmp(a, b) <= 0, for cmp_complex, cmp_idx, or a comparator that leaves the data
      alone. The sort looks only at the sign of the result, and the differences the comparators
      return fit in 32 bits. The answer agrees with the data as they stand afterwards, and
      settled data are not touched. */
  method Compare(cmp: Comparator, a: Data, b: Data) returns (notGreater: bool)
    modifies a`data16, b`data16
    ensures cmp.ByOrder? ==> (notGreater <==> cmp.leq(a, b))
    ensures cmp.ByValue? ==>
              && a.data16.low >= 0x80 && b.data16.low >= 0x80
              && (notGreater <==> a.data16.low - 0x80 <= b.data16.low - 0x80)
    ensures cmp.ByIndex? ==> (notGreater <==> a.idx <= b.idx)
    ensures notGreater <==> Leq(cmp, ItemOf(a), ItemOf(b))
    ensures Settled(cmp, ItemOf(a)) && Settled(cmp, ItemOf(b))
    ensures Advanced(cmp, old(ItemOf(a)), ItemOf(a)) && Advanced(cmp, old(ItemOf(b)), ItemOf(b))
  {
    match cmp {
      case ByOrder(leq) =>
        notGreater := leq(a, b);
      case ByValue =>
        var val1 := CalcFunc(a);
        var val2 := CalcFunc(b);
        notGreater := val1 - val2 <= 0;
      case ByIndex(regenerate) =>
        if regenerate {
          a.data16 := a.data16.Regenerated();
          b.data16 := b.data16.Regenerated();
        }
        notGreater := a.idx as int - b.idx as int <= 0;
    }
  }

  // ---------- lists ----------

  /** head is the first of exactly the nodes of s, linked in that order. */
  ghost predicate IsList(head: Node?, s: seq<Node>)
    reads s
  {
    && Distinct(s)
    && (s == [] ==> head == null)
    && (s != [] ==> head == s[0] && s[|s| - 1].next == null)
    && forall k | 0 <= k < |s| - 1 :: s[k].next == s[k + 1]
  }

  ghost predicate Infos(s: seq<Node>, d: seq<Data>)
    reads s
  {
    |d| == |s| && forall k | 0 <= k < |s| :: s[k].info == d[k]
  }

  // ---------- merge sort ----------

  ghost predicate InRange(c: seq<int>, n: int) {
    forall k | 0 <= k < |c| :: 0 <= c[k] < n
  }

  /** The numbers 0..n, each once. */
  ghost predicate Permutes(c: seq<int>, n: nat) {
    |c| == n && Distinct(c) && InRange(c, n)
  }

  /** The nodes of s in the order c. */
  ghost predicate Rearranges(n: seq<Node>, s: seq<Node>, c: seq<int>) {
    |n| == |c| && InRange(c, |s|) && forall k | 0 <= k < |n| :: n[k] == s[c[k]]
  }

  /** Elements x and y of the original list belong in this order: x is less, or equal and came
      first. */
  ghost predicate Before(cmp: Comparator, t: seq<Item>, x: int, y: int) {
    && 0 <= x < |t| && 0 <= y < |t|
    && Settled(cmp, t[x]) && Settled(cmp, t[y])
    && Leq(cmp, t[x], t[y])
    && (Leq(cmp, t[y], t[x]) ==> x < y)
  }

  lemma BeforeTransitive(cmp: Comparator, d: seq<Data>, t: seq<Item>, x: int, y: int, z: int)
    requires TotalPreorder(cmp, d) && ItemsFor(d, t)
    requires Before(cmp, t, x, y) && Before(cmp, t, y, z)
    ensures Before(cmp, t, x, z)
  {
  }

  /** Positions lo..hi of c hold elements of that range only, in order. */
  ghost predicate SortedRun(cmp: Comparator, t: seq<Item>, c: seq<int>, lo: int, hi: int)
    requires 0 <= lo <= hi <= |c|
  {
    && (forall k | lo <= k < hi :: lo <= c[k] < hi)
    && forall k, l | lo <= k < l < hi :: Before(cmp, t, c[k], c[l])
  }

  /** From position lo on, c is cut into sorted runs of w elements (the last may be shorter). */
  ghost predicate Runs(cmp: Comparator, t: seq<Item>, c: seq<int>, w: int, lo: int)
    requires 0 < w && 0 <= lo <= |c|
    decreases |c| - lo
  {
    lo < |c| ==>
      var hi := if lo + w <= |c| then lo + w else |c|;
      SortedRun(cmp, t, c, lo, hi) && Runs(cmp, t, c, w, hi)
  }

  ghost predicate AllAdvanced(cmp: Comparator, t: seq<Item>, t': seq<Item>) {
    |t'| == |t| && forall k | 0 <= k < |t| :: Advanced(cmp, t[k], t'[k])
  }

  lemma RunAdvances(cmp: Comparator, t: seq<Item>, t': seq<Item>, c: seq<int>, lo: int, hi: int)
    requires AllAdvanced(cmp, t, t')
    requires 0 <= lo <= hi <= |c| && SortedRun(cmp, t, c, lo, hi)
    ensures SortedRun(cmp, t', c, lo, hi)
  {
    forall k, l | lo <= k < l < hi
      ensures Before(cmp, t', c[k], c[l])
    {
      assert Before(cmp, t, c[k], c[l]);
    }
  }

  // A merge of the bottom-up sort under way, in terms of positions in the original list. Earlier
  // passes have rearranged it into c, whose runs c[lo..mid] and c[mid..end] are being merged:
  // c[a..mid] and c[b..end] are left over. The output is out, finished before lo.

  ghost predicate Shape(c: seq<int>, out: seq<int>, lo: int, a: int, mid: int, b: int, end: int) {
    && 0 <= lo <= a <= mid <= b <= end <= |c| && |out| == a + b - mid
    && InRange(c, |c|) && InRange(out, |c|)
  }

  /** Every element is in one place only. */
  ghost predicate Apart(c: seq<int>, out: seq<int>, lo: int, a: int, mid: int, b: int, end: int) {
    && Shape(c, out, lo, a, mid, b, end)
    && Distinct(c) && Distinct(out)
    && (forall k | 0 <= k < lo :: out[k] < lo)
    && (forall k | lo <= k < |out| :: lo <= out[k] < end)
    && (forall k | lo <= k < mid :: lo <= c[k] < mid)
    && (forall k | mid <= k < end :: mid <= c[k] < end)
    && (forall k | end <= k < |c| :: end <= c[k])
    && (forall k, l | lo <= k < |out| && a <= l < mid :: out[k] != c[l])
    && (forall k, l | lo <= k < |out| && b <= l < end :: out[k] != c[l])
  }

  /** The runs are sorted, and everything merged belongs before everything left over. */
  ghost predicate Ordered(cmp: Comparator, t: seq<Item>,
                          c: seq<int>, out: seq<int>, lo: int, a: int, mid: int, b: int, end: int) {
    && Shape(c, out, lo, a, mid, b, end)
    && SortedRun(cmp, t, c, lo, mid) && SortedRun(cmp, t, c, mid, end)
    && (forall k, l | lo <= k < l < |out| :: Before(cmp, t, out[k], out[l]))
    && (forall k, l | lo <= k < |out| && a <= l < mid :: Before(cmp, t, out[k], c[l]))
    && (forall k, l | lo <= k < |out| && b <= l < end :: Before(cmp, t, out[k], c[l]))
  }

  lemma StillApart(c: seq<int>, out: seq<int>, lo: int, a: int, mid: int, b: int, end: int)
    requires Apart(c, out, lo, a, mid, b, end)
    ensures a < mid ==> Apart(c, out + [c[a]], lo, a + 1, mid, b, end)
    ensures b < end ==> Apart(c, out + [c[b]], lo, a, mid, b + 1, end)
    ensures a < mid ==> Shape(c, out + [c[a]], lo, a + 1, mid, b, end)
    ensures b < end ==> Shape(c, out + [c[b]], lo, a, mid, b + 1, end)
  {
    if a < mid {
      ApartFromP(c, out, lo, a, mid, b, end);
    }
    if b < end {
      ApartFromQ(c, out, lo, a, mid, b, end);
    }
    hide Apart;
  }

  lemma ApartFromP(c: seq<int>, out: seq<int>, lo: int, a: int, mid: int, b: int, end: int)
    requires Apart(c, out, lo, a, mid, b, end) && a < mid
    ensures Apart(c, out + [c[a]], lo, a + 1, mid, b, end)
  {
  }

  lemma ApartFromQ(c: seq<int>, out: seq<int>, lo: int, a: int, mid: int, b: int, end: int)
    requires Apart(c, out, lo, a, mid, b, end) && b < end
    ensures Apart(c, out + [c[b]], lo, a, mid, b + 1, end)
  {
  }

  lemma TakenFromP(cmp: Comparator, d: seq<Data>, t: seq<Item>,
                   c: seq<int>, out: seq<int>, lo: int, a: int, mid: int, b: int, end: int)
    requires TotalPreorder(cmp, d) && ItemsFor(d, t)
    requires Ordered(cmp, t, c, out, lo, a, mid, b, end)
    requires a < mid && (b < end ==> Before(cmp, t, c[a], c[b]))
    ensures Ordered(cmp, t, c, out + [c[a]], lo, a + 1, mid, b, end)
  {
    forall l | b <= l < end
      ensures Before(cmp, t, c[a], c[l])
    {
      if b < l {
        BeforeTransitive(cmp, d, t, c[a], c[b], c[l]);
      }
    }
  }

  lemma TakenFromQ(cmp: Comparator, d: seq<Data>, t: seq<Item>,
                   c: seq<int>, out: seq<int>, lo: int, a: int, mid: int, b: int, end: int)
    requires TotalPreorder(cmp, d) && ItemsFor(d, t)
    requires Ordered(cmp, t, c, out, lo, a, mid, b, end)
    requires b < end && (a < mid ==> Before(cmp, t, c[b], c[a]))
    ensures Ordered(cmp, t, c, out + [c[b]], lo, a, mid, b + 1, end)
  {
    forall l | a <= l < mid
      ensures Before(cmp, t, c[b], c[l])
    {
      if a < l {
        BeforeTransitive(cmp, d, t, c[b], c[a], c[l]);
      }
    }
  }

  lemma StillOrdered(cmp: Comparator, t: seq<Item>, t': seq<Item>,
                     c: seq<int>, out: seq<int>, lo: int, a: int, mid: int, b: int, end: int)
    requires AllAdvanced(cmp, t, t') && Ordered(cmp, t, c, out, lo, a, mid, b, end)
    ensures Ordered(cmp, t', c, out, lo, a, mid, b, end)
  {
    RunAdvances(cmp, t, t', c, lo, mid);
    RunAdvances(cmp, t, t', c, mid, end);
    forall x, y | Before(cmp, t, x, y)
      ensures Before(cmp, t', x, y)
    {
    }
  }

  /** The last output node is none of the other output nodes and none of those left over. */
  lemma TailApart(c: seq<int>, out: seq<int>, lo: int, a: int, mid: int, b: int, end: int,
                  s: seq<Node>, n: seq<Node>, o: seq<Node>)
    requires Apart(c, out, lo, a, mid, b, end)
    requires Distinct(s) && |s| == |c| && Rearranges(n, s, c) && Rearranges(o, s, out)
    requires o != []
    ensures forall k | 0 <= k < |o| - 1 :: o[k] != o[|o| - 1]
    ensures forall k | a <= k < mid || b <= k < |n| :: n[k] != o[|o| - 1]
  {
    var x := out[|out| - 1];
    assert forall k | a <= k < mid || b <= k < |c| :: c[k] != x;
  }

  datatype Merge = Merge(c: seq<int>, done: seq<int>, out: seq<int>, lo: int, a: int, mid: int, b: int, end: int) {

    ghost predicate Formed() { Shape(c, out, lo, a, mid, b, end) && |done| == lo && done <= out }

    ghost predicate Separate() { Apart(c, out, lo, a, mid, b, end) }

    ghost predicate InOrder(cmp: Comparator, t: seq<Item>) { Ordered(cmp, t, c, out, lo, a, mid, b, end) }

    ghost predicate CanTake(fromP: bool) { Formed() && if fromP then a < mid else b < end }

    ghost function Taken(fromP: bool): (m: Merge)
      requires CanTake(fromP)
    {
      if fromP then this.(out := out + [c[a]], a := a + 1) else this.(out := out + [c[b]], b := b + 1)
    }

    ghost predicate Follows(m: Merge) { c == m.c && done == m.done && lo == m.lo && mid == m.mid && end == m.end }

    ghost function Left(): int { mid - a + end - b }
  }

  /** Compares elements x and y of the list, x having come first. */
  method CompareItems(cmp: Comparator, p: Data, q: Data, ghost d: seq<Data>, ghost t: seq<Item>, ghost x: int,
          ghost y: int)
    returns (notGreater: bool, ghost t': seq<Item>)
    requires TotalPreorder(cmp, d) && Sees(d, t)
    requires 0 <= x < y < |d| && p == d[x] && q == d[y]
    modifies p`data16, q`data16
    ensures Sees(d, t') && ItemsFor(d, t') && AllAdvanced(cmp, t, t')
    ensures if notGreater then Before(cmp, t', x, y) else Before(cmp, t', y, x)
  {
    notGreater := Compare(cmp, p, q);
    t' := seq(|d|, k requires 0 <= k < |d| reads d => ItemOf(d[k]));
    forall k | 0 <= k < |d|
      ensures Advanced(cmp, t[k], t'[k])
    {
      if d[k] != p && d[k] != q {
        assert ItemOf(d[k]) == old(ItemOf(d[k]));
      }
    }
  }

  /** Where the pointers of a merge stand: p heads n[a..mid] and q heads n[b..], the nodes left
      over; list..tail is the output o. */
  ghost predicate Pointers(n: seq<Node>, o: seq<Node>, a: int, mid: int, b: int,
                           p: Node?, q: Node?, list: Node?, tail: Node?)
    reads n, o
  {
    && 0 <= a <= mid <= b <= |n|
    && (a < mid ==> p == n[a]) && q == (if b < |n| then n[b] else null)
    && (forall k | a <= k < mid - 1 || b <= k < |n| - 1 :: n[k].next == n[k + 1])
    && (b < |n| ==> n[|n| - 1].next == null)
    && (forall k | 0 <= k < |o| - 1 :: o[k].next == o[k + 1])
    && (if o == [] then tail == null else list == o[0] && tail == o[|o| - 1])
  }

  /** Takes the head of p or of q and links it at the end of the output. */
  method MoveNode(ghost n: seq<Node>, ghost o: seq<Node>, ghost a: int, ghost mid: int, ghost b: int,
                  p: Node?, q: Node?, list: Node?, tail: Node?, fromP: bool)
    returns (p': Node?, q': Node?, list': Node?, tail': Node?)
    requires Pointers(n, o, a, mid, b, p, q, list, tail)
    requires if fromP then a < mid else b < |n|
    requires o != [] ==> forall k | 0 <= k < |o| - 1 :: o[k] != o[|o| - 1]
    requires o != [] ==> forall k | a <= k < mid || b <= k < |n| :: n[k] != o[|o| - 1]
    modifies if tail == null then {} else {tail}`next
    ensures Pointers(n, o + [if fromP then n[a] else n[b]], if fromP then a + 1 else a, mid,
                     if fromP then b else b + 1, p', q', list', tail')
    ensures q' == null <==> (if fromP then b else b + 1) == |n|
  {
    p', q', list', tail' := p, q, list, tail;
    var e: Node;
    if fromP {
      e := p;
      p' := p.next;
    } else {
      e := q;
      q' := q.next;
    }
    if tail != null {
      tail.next := e;
    } else {
      list' := e;
    }
    tail' := e;
  }

  /** The heap side of a merge: every node is where m says, and linked accordingly. */
  ghost predicate Placed(s: seq<Node>, d: seq<Data>, n: seq<Node>, o: seq<Node>, m: Merge,
                         p: Node?, q: Node?, list: Node?, tail: Node?)
    reads s, n, o
  {
    && |s| == |d| == |n| == |m.c| && Distinct(s) && Infos(s, d)
    && m.Formed() && m.Separate() && Rearranges(n, s, m.c) && Rearranges(o, s, m.out)
    && Pointers(n, o, m.a, m.mid, m.b, p, q, list, tail)
  }

  lemma TakenInPlace(s: seq<Node>, n: seq<Node>, o: seq<Node>, m: Merge, fromP: bool)
    requires m.Formed() && m.Separate() && m.CanTake(fromP)
    requires Rearranges(n, s, m.c) && Rearranges(o, s, m.out)
    ensures m.Taken(fromP).Formed() && m.Taken(fromP).Separate()
    ensures Rearranges(o + [n[if fromP then m.a else m.b]], s, m.Taken(fromP).out)
  {
    StillApart(m.c, m.out, m.lo, m.a, m.mid, m.b, m.end);
    hide Apart;
  }

  lemma TakenInOrder(cmp: Comparator, d: seq<Data>, t: seq<Item>, t': seq<Item>, m: Merge, fromP: bool)
    requires TotalPreorder(cmp, d) && ItemsFor(d, t') && AllAdvanced(cmp, t, t')
    requires m.InOrder(cmp, t) && m.CanTake(fromP)
    requires m.a < m.mid && m.b < m.end ==>
      if fromP then Before(cmp, t', m.c[m.a], m.c[m.b]) else Before(cmp, t', m.c[m.b], m.c[m.a])
    ensures m.Taken(fromP).InOrder(cmp, t')
  {
    StillOrdered(cmp, t, t', m.c, m.out, m.lo, m.a, m.mid, m.b, m.end);
    if fromP {
      TakenFromP(cmp, d, t', m.c, m.out, m.lo, m.a, m.mid, m.b, m.end);
    } else {
      TakenFromQ(cmp, d, t', m.c, m.out, m.lo, m.a, m.mid, m.b, m.end);
    }
  }

  lemma CanMove(p: Node?, q: Node?, list: Node?, tail: Node?, fromP: bool,
                s: seq<Node>, d: seq<Data>, n: seq<Node>, o: seq<Node>, m: Merge)
    requires Placed(s, d, n, o, m, p, q, list, tail) && m.CanTake(fromP)
    ensures |n| == |m.c| && 0 <= (if fromP then m.a else m.b) < |n|
    ensures if fromP then m.a < m.mid else m.b < |n|
    ensures if o == [] then tail == null else tail == o[|o| - 1] && tail in s
    ensures o != [] ==> forall k | 0 <= k < |o| - 1 :: o[k] != o[|o| - 1]
    ensures o != [] ==> forall k | m.a <= k < m.mid || m.b <= k < |n| :: n[k] != o[|o| - 1]
    ensures Pointers(n, o, m.a, m.mid, m.b, p, q, list, tail)
    ensures |s| == |d| == |m.c| && Distinct(s) && Rearranges(n, s, m.c)
    ensures var m' := m.Taken(fromP);
            && m'.Formed() && m'.Separate() && m'.mid == m.mid && m'.c == m.c
            && m'.a == (if fromP then m.a + 1 else m.a) && m'.b == (if fromP then m.b else m.b + 1)
            && Rearranges(o + [n[if fromP then m.a else m.b]], s, m'.out)
  {
    if o != [] {
      TailApart(m.c, m.out, m.lo, m.a, m.mid, m.b, m.end, s, n, o);
    }
    hide Apart, Pointers, Infos;
    TakenInPlace(s, n, o, m, fromP);
  }

  method MoveElement(p: Node?, q: Node?, list: Node?, tail: Node?, fromP: bool,
                     ghost s: seq<Node>, ghost d: seq<Data>, ghost n: seq<Node>, ghost o: seq<Node>, ghost m: Merge)
    returns (p': Node?, q': Node?, list': Node?, tail': Node?, ghost o': seq<Node>)
    requires Placed(s, d, n, o, m, p, q, list, tail) && m.CanTake(fromP)
    modifies s`next
    ensures Placed(s, d, n, o', m.Taken(fromP), p', q', list', tail')
    ensures q' == null <==> m.Taken(fromP).b == |m.c|
  {
    hide Pointers, Rearranges, Distinct, Merge.Separate, Merge.Formed, Merge.Taken;
    CanMove(p, q, list, tail, fromP, s, d, n, o, m);
    ghost var k := if fromP then m.a else m.b;
    p', q', list', tail' := MoveNode(n, o, m.a, m.mid, m.b, p, q, list, tail, fromP);
    o' := o + [n[k]];
  }

  /** Decides whether the next element of the merge comes from p. */
  method PickFromP(cmp: Comparator, p: Node?, psize: int, q: Node?, qsize: int, list: Node?, tail: Node?,
                   ghost s: seq<Node>, ghost d: seq<Data>, ghost t: seq<Item>,
                   ghost n: seq<Node>, ghost o: seq<Node>, ghost m: Merge)
    returns (fromP: bool, ghost t': seq<Item>)
    requires TotalPreorder(cmp, d) && Sees(d, t)
    requires Placed(s, d, n, o, m, p, q, list, tail) && m.InOrder(cmp, t)
    requires m.Left() > 0 && psize == m.mid - m.a
    requires qsize >= 0 && (m.b < m.end <==> qsize > 0 && q != null)
    modifies d`data16
    ensures Sees(d, t') && AllAdvanced(cmp, t, t')
    ensures m.CanTake(fromP) && m.Taken(fromP).InOrder(cmp, t')
  {
    ghost var x, y;
    if m.a < m.mid && m.b < m.end {
      x, y := m.c[m.a], m.c[m.b];
      assert 0 <= x < y < |d| && p == n[m.a] && q == n[m.b] && p.info == d[x] && q.info == d[y];
    }
    assert ItemsFor(d, t) && AllAdvanced(cmp, t, t) && m.Formed();
    hide Placed, Ordered, AllAdvanced, Sees, TotalPreorder, ItemsFor;
    t' := t;
    if psize == 0 {
      fromP := false;
    } else if qsize == 0 || q == null {
      fromP := true;
    } else {
      fromP, t' := CompareItems(cmp, p.info, q.info, d, t, x, y);
    }
    TakenInOrder(cmp, d, t, t', m, fromP);
  }

  /** One round of the merge loop: the next element is chosen and moved to the output. */
  method MergeStep(cmp: Comparator, p: Node?, psize: int, q: Node?, qsize: int, list: Node?, tail: Node?,
                   ghost s: seq<Node>, ghost d: seq<Data>, ghost t: seq<Item>,
                   ghost n: seq<Node>, ghost o: seq<Node>, ghost m: Merge)
    returns (p': Node?, q': Node?, list': Node?, tail': Node?, fromP: bool,
             ghost t': seq<Item>, ghost o': seq<Node>, ghost m': Merge)
    requires TotalPreorder(cmp, d) && Sees(d, t)
    requires Placed(s, d, n, o, m, p, q, list, tail) && m.InOrder(cmp, t)
    requires m.a <= m.mid && m.b <= m.end && m.Left() > 0 && psize == m.mid - m.a
    requires qsize >= 0 && (m.b < m.end <==> qsize > 0 && q != null)
    modifies s`next, d`data16
    ensures Sees(d, t') && AllAdvanced(cmp, t, t')
    ensures m'.InOrder(cmp, t') && Placed(s, d, n, o', m', p', q', list', tail')
    ensures m'.Follows(m) && m'.a <= m.mid && m'.b <= m.end
    ensures m'.a == (if fromP then m.a + 1 else m.a) && m'.b == (if fromP then m.b else m.b + 1)
    ensures q' == null <==> m'.b == |m'.c|
  {
    hide Ordered, TotalPreorder, AllAdvanced, Placed, Shape, Sees;
    fromP, t' := PickFromP(cmp, p, psize, q, qsize, list, tail, s, d, t, n, o, m);
    m' := m.Taken(fromP);
    p', q', list', tail', o' := MoveElement(p, q, list, tail, fromP, s, d, n, o, m);
  }

  lemma AdvancedTwice(cmp: Comparator, t: seq<Item>, t': seq<Item>, t'': seq<Item>)
    requires AllAdvanced(cmp, t, t') && AllAdvanced(cmp, t', t'')
    ensures AllAdvanced(cmp, t, t'')
  {
    forall k | 0 <= k < |t|
      ensures Advanced(cmp, t[k], t''[k])
    {
      assert Advanced(cmp, t[k], t'[k]) && Advanced(cmp, t'[k], t''[k]);
    }
  }

  /** One merge of the bottom-up sort: the run headed by p0 and the run headed by q0 go to the end of
      the output list. */
  method MergeRuns(cmp: Comparator, p0: Node, psize0: int, q0: Node?, insize: int, list0: Node?, tail0: Node?,
                   ghost s: seq<Node>, ghost d: seq<Data>, ghost t0: seq<Item>,
                   ghost n: seq<Node>, ghost o0: seq<Node>, ghost m0: Merge)
    returns (q: Node?, list: Node?, tail: Node?, ghost t: seq<Item>, ghost o: seq<Node>, ghost m: Merge)
    requires TotalPreorder(cmp, d) && Sees(d, t0)
    requires Placed(s, d, n, o0, m0, p0, q0, list0, tail0) && m0.InOrder(cmp, t0)
    requires m0.a == m0.lo < m0.mid == m0.b && m0.done == m0.out
    requires m0.end == if m0.mid + insize <= |m0.c| then m0.mid + insize else |m0.c|
    requires insize > 0 && psize0 == m0.mid - m0.lo
    modifies s`next, d`data16
    ensures Sees(d, t) && AllAdvanced(cmp, t0, t)
    ensures m.Follows(m0) && m.a == m.mid && m.b == m.end
    ensures m.InOrder(cmp, t) && exists p :: Placed(s, d, n, o, m, p, q, list, tail)
  {
    assert AllAdvanced(cmp, t0, t0);
    assert m0.mid <= m0.end <= |m0.c| && (q0 == null <==> m0.b == |m0.c|);
    hide Ordered, TotalPreorder, AllAdvanced, Placed, Shape, Sees;
    var p: Node? := p0;
    q, list, tail := q0, list0, tail0;
    var psize, qsize := psize0, insize;
    t, o, m := t0, o0, m0;
    while psize > 0 || (qsize > 0 && q != null)
      invariant m.Follows(m0)
      invariant m.lo <= m.a <= m.mid <= m.b <= m.end && (q == null <==> m.b == |m.c|)
      invariant psize == m.mid - m.a && qsize == insize - (m.b - m.mid)
      invariant Sees(d, t) && AllAdvanced(cmp, t0, t)
      invariant m.InOrder(cmp, t)
      invariant Placed(s, d, n, o, m, p, q, list, tail)
      decreases m.Left()
    {
      var fromP;
      ghost var t' := t;
      p, q, list, tail, fromP, t, o, m := MergeStep(cmp, p, psize, q, qsize, list, tail, s, d, t, n, o, m);
      AdvancedTwice(cmp, t0, t', t);
      if fromP {
        psize := psize - 1;
      } else {
        qsize := qsize - 1;
      }
    }
  }

  // ---------- passes ----------

  /** From position lo on, everything in c belongs at lo or later. */
  lemma RunsStayBehind(cmp: Comparator, t: seq<Item>, c: seq<int>, w: int, lo: int)
    requires 0 < w && 0 <= lo <= |c| && Runs(cmp, t, c, w, lo)
    ensures forall k | lo <= k < |c| :: lo <= c[k]
    decreases |c| - lo
  {
    if lo < |c| {
      var hi := if lo + w <= |c| then lo + w else |c|;
      RunsStayBehind(cmp, t, c, w, hi);
    }
  }

  lemma RunsAdvance(cmp: Comparator, t: seq<Item>, t': seq<Item>, c: seq<int>, w: int, lo: int)
    requires AllAdvanced(cmp, t, t')
    requires 0 < w && 0 <= lo <= |c| && Runs(cmp, t, c, w, lo)
    ensures Runs(cmp, t', c, w, lo)
    decreases |c| - lo
  {
    if lo < |c| {
      var hi := if lo + w <= |c| then lo + w else |c|;
      RunAdvances(cmp, t, t', c, lo, hi);
      RunsAdvance(cmp, t, t', c, w, hi);
    }
  }

  /** The whole of out is cut into sorted runs of exactly w elements. */
  ghost predicate FullRuns(cmp: Comparator, t: seq<Item>, out: seq<int>, w: int, hi: int)
    requires 0 < w && 0 <= hi <= |out|
    decreases hi
  {
    0 < hi ==> w <= hi && SortedRun(cmp, t, out, hi - w, hi) && FullRuns(cmp, t, out, w, hi - w)
  }

  lemma FullRunsAdvance(cmp: Comparator, t: seq<Item>, t': seq<Item>, out: seq<int>, out': seq<int>, w: int, hi: int)
    requires AllAdvanced(cmp, t, t') && out <= out'
    requires 0 < w && 0 <= hi <= |out| && FullRuns(cmp, t, out, w, hi)
    ensures FullRuns(cmp, t', out', w, hi)
    decreases hi
  {
    if 0 < hi {
      RunAdvances(cmp, t, t', out, hi - w, hi);
      FullRunsAdvance(cmp, t, t', out, out', w, hi - w);
    }
  }

  lemma FullRunsAreRuns(cmp: Comparator, t: seq<Item>, out: seq<int>, w: int, hi: int)
    requires 0 < w && 0 <= hi <= |out|
    requires FullRuns(cmp, t, out, w, hi) && Runs(cmp, t, out, w, hi)
    ensures Runs(cmp, t, out, w, 0)
    decreases hi
  {
    hide SortedRun;
    if 0 < hi {
      FullRunsAreRuns(cmp, t, out, w, hi - w);
    }
  }

  /** Steps insize places along from p. */
  method StepAlong(p: Node, insize: int, ghost n: seq<Node>, ghost i: int) returns (q: Node?, psize: int)
    requires 0 <= i < |n| && p == n[i] && insize > 0
    requires n[|n| - 1].next == null
    requires forall k | i <= k < |n| - 1 :: n[k].next == n[k + 1]
    ensures psize == (if i + insize <= |n| then insize else |n| - i)
    ensures q == (if i + psize < |n| then n[i + psize] else null)
  {
    q := p;
    psize := 0;
    for k := 0 to insize
      invariant psize == k && i + k < |n| && q == n[i + k]
    {
      psize := psize + 1;
      q := q.next;
      assert i + k < |n| - 1 ==> q == n[i + k + 1];
      if q == null {
        break;
      }
    }
  }

  /** A list partly rearranged by the pass: out is finished, c[i..] is to come. */
  ghost function AtRun(c: seq<int>, out: seq<int>, mid: int, end: int): Merge {
    Merge(c, out, out, |out|, |out|, mid, mid, end)
  }

  lemma StartMerge(cmp: Comparator, t: seq<Item>, s: seq<Node>, d: seq<Data>, n: seq<Node>, o: seq<Node>,
                   c: seq<int>, out: seq<int>, p: Node, q: Node?, list: Node?, tail: Node?, w: int, mid: int, end: int)
    requires Placed(s, d, n, o, AtRun(c, out, |out|, |out|), null, p, list, tail)
    requires 0 < w && |out| < mid <= end <= |c| && Runs(cmp, t, c, w, |out|)
    requires mid == (if |out| + w <= |c| then |out| + w else |c|) && end == (if mid + w <= |c| then mid + w else |c|)
    requires |n| == |c| && q == (if mid < |c| then n[mid] else null)
    ensures Placed(s, d, n, o, AtRun(c, out, mid, end), p, q, list, tail)
    ensures AtRun(c, out, mid, end).InOrder(cmp, t)
    ensures Runs(cmp, t, c, w, end)
  {
    NextTwoRuns(cmp, t, c, w, |out|, mid, end);
    StartApart(cmp, t, c, out, w, mid, end);
    hide Runs, SortedRun, Apart, Distinct, Infos, Before;
  }

  lemma NextTwoRuns(cmp: Comparator, t: seq<Item>, c: seq<int>, w: int, lo: int, mid: int, end: int)
    requires 0 < w && 0 <= lo < mid <= end <= |c| && Runs(cmp, t, c, w, lo)
    requires mid == (if lo + w <= |c| then lo + w else |c|) && end == (if mid + w <= |c| then mid + w else |c|)
    ensures SortedRun(cmp, t, c, lo, mid) && SortedRun(cmp, t, c, mid, end) && Runs(cmp, t, c, w, end)
  {
    assert Runs(cmp, t, c, w, mid);
  }

  lemma StartApart(cmp: Comparator, t: seq<Item>, c: seq<int>, out: seq<int>, w: int, mid: int, end: int)
    requires 0 < w && |out| < mid <= end <= |c| && Runs(cmp, t, c, w, end)
    requires Apart(c, out, |out|, |out|, |out|, |out|, |out|)
    requires SortedRun(cmp, t, c, |out|, mid) && SortedRun(cmp, t, c, mid, end)
    ensures Apart(c, out, |out|, |out|, mid, mid, end)
  {
    RunsStayBehind(cmp, t, c, w, end);
    hide Runs, Before;
  }

  lemma EndMerge(cmp: Comparator, t: seq<Item>, s: seq<Node>, d: seq<Data>, n: seq<Node>, o: seq<Node>,
                 m: Merge, q: Node?, list: Node?, tail: Node?)
    requires m.a == m.mid && m.b == m.end && m.InOrder(cmp, t)
    requires exists p :: Placed(s, d, n, o, m, p, q, list, tail)
    ensures Placed(s, d, n, o, AtRun(m.c, m.out, m.end, m.end), null, q, list, tail)
    ensures |m.out| == m.end && m.done <= m.out && |m.done| == m.lo <= m.end && SortedRun(cmp, t, m.out, m.lo, m.end)
  {
    var p :| Placed(s, d, n, o, m, p, q, list, tail);
  }

  /** What one pass has done when out is finished: runs of 2w elements, all of them full unless the
      list is used up. */
  ghost predicate PassInvariant(cmp: Comparator, t: seq<Item>, c: seq<int>, out: seq<int>, w: int, nmerges: int) {
    && 0 < w && |out| <= |c| && Runs(cmp, t, c, w, |out|)
    && (if |out| < |c| then FullRuns(cmp, t, out, 2 * w, |out|) else Runs(cmp, t, out, 2 * w, 0))
    && 0 <= nmerges <= |out|
    && (nmerges == 0 <==> |out| == 0)
    && (nmerges == 1 ==> |out| <= 2 * w)
    && (nmerges >= 2 ==> 2 * w < |out|)
    && (0 < |out| < |c| ==> 2 * w <= |out|)
  }

  lemma PassProgress(cmp: Comparator, t: seq<Item>, t': seq<Item>, c: seq<int>, done: seq<int>, out: seq<int>,
                     w: int, mid: int, end: int, nmerges: int)
    requires PassInvariant(cmp, t, c, done, w, nmerges) && AllAdvanced(cmp, t, t')
    requires |done| < mid <= end <= |c| && end == |out| && done <= out
    requires mid == (if |done| + w <= |c| then |done| + w else |c|) && end == (if mid + w <= |c| then mid + w else |c|)
    requires Runs(cmp, t', c, w, end) && SortedRun(cmp, t', out, |done|, end)
    ensures PassInvariant(cmp, t', c, out, w, nmerges + 1)
  {
    var lo := |done|;
    FullRunsAdvance(cmp, t, t', done, out, 2 * w, lo);
    if end < |c| {
      assert FullRuns(cmp, t', out, 2 * w, end);
    } else {
      assert Runs(cmp, t', out, 2 * w, end);
      assert Runs(cmp, t', out, 2 * w, lo);
      FullRunsAreRuns(cmp, t', out, 2 * w, lo);
    }
  }

  /** The nodes of s in the order c are exactly the list headed by head. */
  ghost predicate IsRearranged(head: Node?, s: seq<Node>, c: seq<int>)
    reads s
  {
    && Permutes(c, |s|)
    && (s == [] ==> head == null)
    && (s != [] ==> head == s[c[0]] && s[c[|c| - 1]].next == null)
    && forall k | 0 <= k < |c| - 1 :: s[c[k]].next == s[c[k + 1]]
  }

  lemma StartPass(list: Node, s: seq<Node>, d: seq<Data>, c: seq<int>) returns (n: seq<Node>)
    requires s != [] && Distinct(s) && Infos(s, d) && IsRearranged(list, s, c)
    requires |s| == |d|
    ensures Placed(s, d, n, [], AtRun(c, [], 0, 0), null, list, null, null)
    ensures |n| == |s|
  {
    n := seq(|c|, k requires 0 <= k < |c| => s[c[k]]);
  }

  lemma StillToCome(s: seq<Node>, d: seq<Data>, n: seq<Node>, o: seq<Node>, c: seq<int>, out: seq<int>,
                    p: Node?, list: Node?, tail: Node?)
    requires Placed(s, d, n, o, AtRun(c, out, |out|, |out|), null, p, list, tail)
    ensures |out| <= |n| == |c| == |s| && p == (if |out| < |n| then n[|out|] else null)
    ensures forall k | |out| <= k < |n| - 1 :: n[k].next == n[k + 1]
    ensures |out| < |n| ==> n[|n| - 1].next == null
  {
  }

  lemma PassRuns(cmp: Comparator, t: seq<Item>, c: seq<int>, out: seq<int>, w: int, nmerges: int)
    requires PassInvariant(cmp, t, c, out, w, nmerges)
    ensures 0 < w && |out| <= |c| && Runs(cmp, t, c, w, |out|)
    ensures |out| == |c| ==> Runs(cmp, t, out, 2 * w, 0)
    ensures 0 <= nmerges <= |out| && (nmerges == 0 <==> |out| == 0)
    ensures if nmerges <= 1 then |out| <= 2 * w else 2 * w < |out|
  {
  }

  lemma TailLinked(s: seq<Node>, d: seq<Data>, n: seq<Node>, o: seq<Node>, m: Merge, q: Node?, list: Node?, tail: Node?)
    requires Placed(s, d, n, o, m, null, q, list, tail) && m.out != []
    ensures tail != null && tail in s
  {
  }

  /** Writing NULL into the last node closes the output. */
  method ClosePass(list: Node?, tail: Node, ghost s: seq<Node>, ghost d: seq<Data>, ghost n: seq<Node>,
          ghost o: seq<Node>,
                   ghost c: seq<int>, ghost out: seq<int>)
    requires Placed(s, d, n, o, AtRun(c, out, |out|, |out|), null, null, list, tail)
    requires s != [] && |out| == |c|
    modifies tail`next
    ensures Infos(s, d) && IsRearranged(list, s, out)
  {
    assert Permutes(out, |s|);
    assert forall k | 0 <= k < |out| - 1 :: o[k] != tail;
    tail.next := null;
  }

  /** One round of a pass: the next two runs are found and merged. */
  method PassStep(cmp: Comparator, p: Node, insize: int, list0: Node?, tail0: Node?,
                  ghost s: seq<Node>, ghost d: seq<Data>, ghost t0: seq<Item>, ghost n: seq<Node>, ghost o0: seq<Node>,
                  ghost c: seq<int>, ghost done: seq<int>, ghost nmerges: int)
    returns (p': Node?, list: Node?, tail: Node?, ghost t: seq<Item>, ghost o: seq<Node>, ghost out: seq<int>)
    requires TotalPreorder(cmp, d) && Sees(d, t0)
    requires Placed(s, d, n, o0, AtRun(c, done, |done|, |done|), null, p, list0, tail0)
    requires PassInvariant(cmp, t0, c, done, insize, nmerges)
    modifies s`next, d`data16
    ensures Sees(d, t) && AllAdvanced(cmp, t0, t)
    ensures Placed(s, d, n, o, AtRun(c, out, |out|, |out|), null, p', list, tail)
    ensures PassInvariant(cmp, t, c, out, insize, nmerges + 1) && |done| < |out| <= |c|
  {
    hide TotalPreorder, AllAdvanced, Placed, Sees, PassInvariant, Ordered;
    StillToCome(s, d, n, o0, c, done, p, list0, tail0);
    PassRuns(cmp, t0, c, done, insize, nmerges);
    hide Runs, FullRuns, SortedRun;
    var q, psize := StepAlong(p, insize, n, |done|);
    ghost var mid := |done| + psize;
    ghost var end := if mid + insize <= |c| then mid + insize else |c|;
    StartMerge(cmp, t0, s, d, n, o0, c, done, p, q, list0, tail0, insize, mid, end);
    ghost var m;
    p', list, tail, t, o, m := MergeRuns(cmp, p, psize, q, insize, list0, tail0, s, d, t0, n, o0,
        AtRun(c, done, mid, end));
    EndMerge(cmp, t, s, d, n, o, m, p', list, tail);
    out := m.out;
    RunsAdvance(cmp, t0, t, c, insize, end);
    PassProgress(cmp, t0, t, c, done, out, insize, mid, end, nmerges);
  }

  /** One pass: neighbouring runs of insize elements are merged. */
  method SortPass(cmp: Comparator, list0: Node, insize: int,
                  ghost s: seq<Node>, ghost d: seq<Data>, ghost t0: seq<Item>, ghost c: seq<int>)
    returns (list: Node?, nmerges: int, ghost t: seq<Item>, ghost out: seq<int>)
    requires s != [] && Distinct(s) && Infos(s, d) && TotalPreorder(cmp, d) && Sees(d, t0)
    requires IsRearranged(list0, s, c) && 0 < insize && Runs(cmp, t0, c, insize, 0)
    modifies s`next, d`data16
    ensures Sees(d, t) && AllAdvanced(cmp, t0, t)
    ensures Infos(s, d) && IsRearranged(list, s, out) && Runs(cmp, t, out, 2 * insize, 0)
    ensures 0 < nmerges <= |s|
    ensures if nmerges <= 1 then |s| <= 2 * insize else 2 * insize < |s|
  {
    assert AllAdvanced(cmp, t0, t0) && |c| == |s|;
    ghost var n := StartPass(list0, s, d, c);
    assert PassInvariant(cmp, t0, c, [], insize, 0);
    hide TotalPreorder, AllAdvanced, Placed, Sees, IsRearranged, PassInvariant, Permutes, Runs;
    var p: Node? := list0;
    list := null;
    var tail: Node? := null;
    nmerges := 0;
    t, out := t0, [];
    ghost var o: seq<Node> := [];
    while p != null
      invariant |out| <= |c|
      invariant Sees(d, t) && AllAdvanced(cmp, t0, t)
      invariant Placed(s, d, n, o, AtRun(c, out, |out|, |out|), null, p, list, tail)
      invariant PassInvariant(cmp, t, c, out, insize, nmerges)
      decreases |c| - |out|
    {
      ghost var t' := t;
      p, list, tail, t, o, out := PassStep(cmp, p, insize, list, tail, s, d, t, n, o, c, out, nmerges);
      nmerges := nmerges + 1;
      AdvancedTwice(cmp, t0, t', t);
    }
    StillToCome(s, d, n, o, c, out, p, list, tail);
    PassRuns(cmp, t, c, out, insize, nmerges);
    TailLinked(s, d, n, o, AtRun(c, out, |out|, |out|), p, list, tail);
    ClosePass(list, tail, s, d, n, o, c, out);
  }

  lemma SingletonRuns(cmp: Comparator, t: seq<Item>, c: seq<int>, lo: int)
    requires 0 <= lo <= |c| && forall k | 0 <= k < |c| :: c[k] == k
    ensures Runs(cmp, t, c, 1, lo)
    decreases |c| - lo
  {
    if lo < |c| {
      SingletonRuns(cmp, t, c, lo + 1);
    }
  }

  lemma RunsToRun(cmp: Comparator, t: seq<Item>, c: seq<int>, w: int)
    requires 0 < w && |c| <= w && Runs(cmp, t, c, w, 0)
    ensures SortedRun(cmp, t, c, 0, |c|)
  {
  }

  lemma InOriginalOrder(head: Node?, s: seq<Node>) returns (c: seq<int>)
    requires IsList(head, s)
    ensures |c| == |s| && forall k | 0 <= k < |c| :: c[k] == k
    ensures IsRearranged(head, s, c)
  {
    c := seq(|s|, k requires 0 <= k < |s| => k);
  }

  /** The passes of core_list_mergesort, until one merge does it all. */
  method MergePasses(cmp: Comparator, list0: Node, ghost s: seq<Node>, ghost d: seq<Data>)
    returns (list: Node?, ghost t: seq<Item>, ghost c: seq<int>)
    requires IsList(list0, s) && s != [] && Infos(s, d) && TotalPreorder(cmp, d)
    requires |s| <= 0x7fff_ffff
    modifies s`next, d`data16
    ensures Infos(s, d) && IsRearranged(list, s, c)
    ensures Sees(d, t) && SortedRun(cmp, t, c, 0, |c|)
    ensures forall k | 0 <= k < |d| :: Advanced(cmp, old(ItemOf(d[k])), t[k])
  {
    ghost var t0 := seq(|d|, k requires 0 <= k < |d| reads d => ItemOf(d[k]));
    assert Sees(d, t0) && AllAdvanced(cmp, t0, t0);
    assert forall k | 0 <= k < |d| :: t0[k] == old(ItemOf(d[k]));
    assert Distinct(s);
    c := InOriginalOrder(list0, s);
    SingletonRuns(cmp, t0, c, 0);
    hide IsList, Sees, TotalPreorder, Infos, IsRearranged, Runs, Distinct;
    list := list0;
    t := t0;
    var insize := 1;
    while true
      invariant 1 <= insize && (insize == 1 || insize < |s|)
      invariant list != null && Infos(s, d) && IsRearranged(list, s, c) && Sees(d, t) && AllAdvanced(cmp, t0, t)
      invariant Runs(cmp, t, c, insize, 0)
      decreases |s| - insize
    {
      var nmerges;
      ghost var t' := t;
      list, nmerges, t, c := SortPass(cmp, list, insize, s, d, t, c);
      assert nmerges <= 0x7fff_ffff;
      AdvancedTwice(cmp, t0, t', t);
      HasHead(list, s, c);
      if nmerges <= 1 {
        RunsToRun(cmp, t, c, 2 * insize);
        return;
      }
      assert insize * 2 <= 0x7fff_ffff;
      insize := insize * 2;
    }
  }

  /** core_list_mergesort, for any list that a 32-bit insize can span. The nodes come back linked in
      the order c, each still carrying its own info: every node before another is less than it, or
      equal to it and earlier in the list given. For cmp_complex that order is by the values cached
      when the sort returns. */
  method MergeSort(cmp: Comparator, list0: Node, ghost s: seq<Node>, ghost d: seq<Data>)
    returns (list: Node?, ghost t: seq<Item>, ghost c: seq<int>)
    requires IsList(list0, s) && s != [] && Infos(s, d) && TotalPreorder(cmp, d)
    requires |s| <= 0x7fff_ffff
    modifies s`next, d`data16
    ensures Infos(s, d) && IsRearranged(list, s, c)
    ensures Sees(d, t) && SortedRun(cmp, t, c, 0, |c|)
    ensures forall k | 0 <= k < |d| :: Advanced(cmp, old(ItemOf(d[k])), t[k])
    ensures cmp.ByValue? && |c| >= 2 ==> forall k | 0 <= k < |c| :: d[c[k]].data16.low >= 0x80
    ensures forall k, l | 0 <= k < l < |c| :: cmp.ByValue? ==>
              && d[c[k]].data16.low <= d[c[l]].data16.low
              && (d[c[k]].data16.low == d[c[l]].data16.low ==> c[k] < c[l])
    ensures forall k, l | 0 <= k < l < |c| :: cmp.ByIndex? ==>
              d[c[k]].idx <= d[c[l]].idx && (d[c[k]].idx == d[c[l]].idx ==> c[k] < c[l])
    ensures forall k, l | 0 <= k < l < |c| :: cmp.ByOrder? ==>
              cmp.leq(d[c[k]], d[c[l]]) && (cmp.leq(d[c[l]], d[c[k]]) ==> c[k] < c[l])
  {
    list, t, c := MergePasses(cmp, list0, s, d);
    AllInRange(list, s, c);
    SortedByBytes(cmp, d, t, c);
    hide SortedRun, Sees, IsRearranged, IsList, Distinct;
  }

  lemma AllInRange(head: Node?, s: seq<Node>, c: seq<int>)
    requires IsRearranged(head, s, c)
    ensures InRange(c, |s|)
  {
  }

  /** What the order of the items says of the data themselves. */
  lemma SortedByBytes(cmp: Comparator, d: seq<Data>, t: seq<Item>, c: seq<int>)
    requires Sees(d, t) && InRange(c, |d|) && SortedRun(cmp, t, c, 0, |c|)
    ensures cmp.ByValue? && |c| >= 2 ==> forall k | 0 <= k < |c| :: d[c[k]].data16.low >= 0x80
    ensures forall k, l | 0 <= k < l < |c| :: cmp.ByValue? ==>
              && d[c[k]].data16.low <= d[c[l]].data16.low
              && (d[c[k]].data16.low == d[c[l]].data16.low ==> c[k] < c[l])
    ensures forall k, l | 0 <= k < l < |c| :: cmp.ByIndex? ==>
              d[c[k]].idx <= d[c[l]].idx && (d[c[k]].idx == d[c[l]].idx ==> c[k] < c[l])
    ensures forall k, l | 0 <= k < l < |c| :: cmp.ByOrder? ==>
              cmp.leq(d[c[k]], d[c[l]]) && (cmp.leq(d[c[l]], d[c[k]]) ==> c[k] < c[l])
  {
    forall k, l | 0 <= k < l < |c|
      ensures ByBytes(cmp, d[c[k]], d[c[l]], c[k] < c[l])
    {
      assert Before(cmp, t, c[k], c[l]);
      PairByBytes(cmp, d, t, c[k], c[l]);
    }
    hide Sees, SortedRun, InRange;
    forall k | 0 <= k < |c| && |c| >= 2
      ensures cmp.ByValue? ==> d[c[k]].data16.low >= 0x80
    {
      assert if k == 0 then ByBytes(cmp, d[c[0]], d[c[1]], c[0] < c[1])
          else ByBytes(cmp, d[c[0]], d[c[k]], c[0] < c[k]);
    }
  }

  ghost predicate ByBytes(cmp: Comparator, a: Data, b: Data, first: bool)
    reads a, b
  {
    match cmp
    case ByOrder(leq) => leq(a, b) && (leq(b, a) ==> first)
    case ByValue => 0x80 <= a.data16.low <= b.data16.low && (a.data16.low == b.data16.low ==> first)
    case ByIndex(_) => a.idx <= b.idx && (a.idx == b.idx ==> first)
  }

  lemma PairByBytes(cmp: Comparator, d: seq<Data>, t: seq<Item>, x: int, y: int)
    requires Sees(d, t) && Before(cmp, t, x, y)
    ensures ByBytes(cmp, d[x], d[y], x < y)
  {
    var i, j := t[x], t[y];
    assert i == ItemOf(d[x]) && j == ItemOf(d[y]);
    if cmp.ByValue? {
      ValueIs(i.word);
      ValueIs(j.word);
    }
  }

  lemma ValueIs(w: Word)
    requires w.Cached()
    ensures w.Value() == w.low - 0x80
  {
  }

  lemma HasHead(head: Node?, s: seq<Node>, c: seq<int>)
    requires IsRearranged(head, s, c) && s != []
    ensures head != null && |c| == |s|
  {
  }

  // ---------- the sorted order is determined ----------

  lemma {:induction false} PermutesHits(c: seq<int>, n: nat, v: int)
    requires Permutes(c, n) && 0 <= v < n
    ensures v in c
  {
    if v !in c {
      var low := seq(n, k requires 0 <= k < n => if c[k] < v then c[k] else c[k] - 1);
      assert forall k | 0 <= k < n :: low[k] == if c[k] < v then c[k] else c[k] - 1;
      Pigeonhole(low, n - 1);
    }
  }

  /** More numbers than values: two of them are the same. */
  lemma {:induction false} Pigeonhole(c: seq<int>, n: nat)
    requires InRange(c, n) && |c| > n
    ensures !Distinct(c)
    decreases n
  {
    if Distinct(c) {
      var last := c[|c| - 1];
      var rest := seq(|c| - 1, k requires 0 <= k < |c| - 1 => if c[k] < last then c[k] else c[k] - 1);
      assert forall k | 0 <= k < |rest| :: rest[k] == if c[k] < last then c[k] else c[k] - 1;
      if n > 0 {
        Pigeonhole(rest, n - 1);
      }
    }
  }

  /** There is one stable sorted order: two ways of putting the same elements in it agree. */
  lemma StableOrderUnique(cmp: Comparator, t: seq<Item>, c: seq<int>, e: seq<int>)
    requires Permutes(c, |t|) && SortedRun(cmp, t, c, 0, |c|)
    requires Permutes(e, |t|) && SortedRun(cmp, t, e, 0, |e|)
    ensures c == e
  {
    StableOrderAgrees(cmp, t, c, e, |c|);
    assert c == c[..|c|] && e == e[..|e|];
  }

  lemma BeforeOrSame(cmp: Comparator, t: seq<Item>, c: seq<int>, p: nat, i: nat)
    requires InRange(c, |t|) && SortedRun(cmp, t, c, 0, |c|) && p <= i < |c|
    ensures p == i || Before(cmp, t, c[p], c[i])
  {
  }

  lemma {:induction false} StableOrderAgrees(cmp: Comparator, t: seq<Item>, c: seq<int>, e: seq<int>, k: nat)
    requires Permutes(c, |t|) && SortedRun(cmp, t, c, 0, |c|)
    requires Permutes(e, |t|) && SortedRun(cmp, t, e, 0, |e|)
    requires k <= |c|
    ensures c[..k] == e[..k]
  {
    if k > 0 {
      StableOrderAgrees(cmp, t, c, e, k - 1);
      assert forall j | 0 <= j < k - 1 :: c[j] == c[..k - 1][j] == e[..k - 1][j] == e[j];
      PermutesHits(c, |t|, e[k - 1]);
      PermutesHits(e, |t|, c[k - 1]);
      var i :| 0 <= i < |c| && c[i] == e[k - 1];
      var j :| 0 <= j < |e| && e[j] == c[k - 1];
      BeforeOrSame(cmp, t, c, k - 1, i);
      BeforeOrSame(cmp, t, e, k - 1, j);
      assert c[..k] == c[..k - 1] + [c[k - 1]] && e[..k] == e[..k - 1] + [e[k - 1]];
    }
  }
}
