/** The intrusive binary heap of pqueue.c as a value.

    Nodes are small natural numbers (in the translation layer: line ids). The heap does not own
    priorities or positions: they live in the nodes, as the getpri/setpri and getpos/setpos
    callbacks do, so `pri` and `pos` cover every node, queued or not. Slot 0 of `d` is unused and
    `|d|` is the source's `q->size`. A smaller priority is nearer the root. */
module PriorityHeap {
  import opened Common

  datatype Heap = Heap(d: seq<nat>, pri: seq<int>, pos: seq<nat>) {

    /** Enough to index: every slot names a node. */
    ghost predicate InRange() {
      && |d| >= 1
      && |pri| == |pos|
      && forall i :: 1 <= i < |d| ==> d[i] < |pos|
    }

    /** Every recorded position is a slot. */
    ghost predicate Bounded() {
      && InRange()
      && forall x :: 0 <= x < |pos| ==> pos[x] < |d|
    }

    /** The back-pointer law: the node in slot i knows that it is in slot i. */
    ghost predicate Linked() {
      && InRange()
      && forall i :: 1 <= i < |d| ==> pos[d[i]] == i
    }

    /** A nonzero position is never stale. */
    ghost predicate Tight() {
      && Bounded()
      && forall x :: 0 <= x < |pos| && pos[x] != 0 ==> d[pos[x]] == x
    }

    /** Heap order. */
    ghost predicate Ordered() {
      && InRange()
      && forall i :: 2 <= i < |d| ==> pri[d[i / 2]] <= pri[d[i]]
    }

    /** Node x is queued: its position leads back to it. */
    predicate Has(x: nat) {
      x < |pos| && 1 <= pos[x] < |d| && d[pos[x]] == x
    }

    ghost predicate Sound() {
      Linked() && Tight() && Ordered()
    }

    /** Everything but slot i against its parent. */
    ghost predicate OrderedButUp(i: nat)
      requires InRange()
    {
      && (forall j :: 2 <= j < |d| && j != i ==> pri[d[j / 2]] <= pri[d[j]])
      && (forall j :: 2 <= j < |d| && j / 2 == i && 1 <= i / 2 ==> pri[d[i / 2]] <= pri[d[j]])
    }

    /** Everything but the children of slot i against slot i. */
    ghost predicate OrderedButDown(i: nat)
      requires InRange()
    {
      && (forall j :: 2 <= j < |d| && j / 2 != i ==> pri[d[j / 2]] <= pri[d[j]])
      && (forall j :: 2 <= j < |d| && j / 2 == i && 1 <= i / 2 ==> pri[d[i / 2]] <= pri[d[j]])
    }

    /** Put node x in slot i and record the position in the node. */
    function Place(i: nat, x: nat): (h: Heap)
      requires InRange() && 1 <= i < |d| && x < |pos|
      ensures h.InRange() && |h.d| == |d| && |h.pos| == |pos|
      ensures Bounded() ==> h.Bounded()
    {
      Heap(d[i := x], pri, pos[x := i])
    }

    function Swap(i: nat, j: nat): (h: Heap)
      requires InRange() && 1 <= i < |d| && 1 <= j < |d|
      ensures h.InRange() && |h.d| == |d| && |h.pos| == |pos|
      ensures Bounded() ==> h.Bounded()
    {
      Place(i, d[j]).Place(j, d[i])
    }

    function BubbleUp(i: nat): (h: Heap)
      requires InRange() && 1 <= i < |d|
      ensures h.InRange() && |h.d| == |d| && |h.pos| == |pos|
      ensures Bounded() ==> h.Bounded()
      decreases i
    {
      if i > 1 && pri[d[i / 2]] > pri[d[i]] then Swap(i, i / 2).BubbleUp(i / 2) else this
    }

    /** The child of slot i with the smaller priority, the left one on a tie; 0 for a leaf. */
    function MaxChild(i: nat): (c: nat)
      requires InRange() && 1 <= i
      ensures c == 0 <==> 2 * i >= |d|
      ensures c != 0 ==> c < |d| && c / 2 == i
      ensures c != 0 ==> forall j :: 2 <= j < |d| && j / 2 == i ==> pri[d[c]] <= pri[d[j]]
    {
      var child := 2 * i;
      if child >= |d| then 0
      else if child + 1 < |d| && pri[d[child]] > pri[d[child + 1]] then child + 1
      else child
    }

    function PercolateDown(i: nat): (h: Heap)
      requires InRange() && 1 <= i < |d|
      ensures h.InRange() && |h.d| == |d| && |h.pos| == |pos|
      ensures Bounded() ==> h.Bounded()
      decreases |d| - i
    {
      var c := MaxChild(i);
      if c != 0 && pri[d[i]] > pri[d[c]] then Swap(i, c).PercolateDown(c) else this
    }

    function Insert(x: nat): (h: Heap)
      requires InRange() && x < |pos|
      ensures h.InRange() && |h.d| == |d| + 1 && |h.pos| == |pos|
      ensures Bounded() ==> h.Bounded()
    {
      Heap(d + [x], pri, pos[x := |d|]).BubbleUp(|d|)
    }

    function ChangePriority(x: nat, newPri: int): (h: Heap)
      requires InRange() && x < |pos| && 1 <= pos[x] < |d|
      ensures h.InRange() && |h.d| == |d| && |h.pos| == |pos|
      ensures Bounded() ==> h.Bounded()
    {
      var h := Heap(d, pri[x := newPri], pos);
      if pri[x] > newPri then h.BubbleUp(pos[x]) else h.PercolateDown(pos[x])
    }

    /** Drop the last slot and put node `last` in slot i. */
    function Shrunk(i: nat, last: nat): (h: Heap)
      requires InRange() && 1 <= i < |d| - 1 && last < |pos|
      ensures h.InRange() && |h.d| == |d| - 1 && |h.pos| == |pos|
    {
      Heap(d[..|d| - 1][i := last], pri, pos[last := i])
    }

    /** The popped node keeps its own position field: the caller has to clear it. */
    function Pop(): (h: Heap)
      requires InRange() && |d| > 1
      ensures h.InRange() && |h.d| == |d| - 1 && |h.pos| == |pos|
    {
      var last := d[|d| - 1];
      if |d| == 2 then Heap(d[..1], pri, pos[last := 1])
      else Shrunk(1, last).PercolateDown(1)
    }

    /** What select_victim_line does to the node it popped. */
    function Cleared(x: nat): (h: Heap)
      requires InRange() && x < |pos|
      ensures h.InRange() && |h.d| == |d| && |h.pos| == |pos|
    {
      Heap(d, pri, pos[x := 0])
    }

    /** The removed node keeps its own position field, too. */
    function Remove(x: nat): (h: Heap)
      requires InRange() && x < |pos| && 1 <= pos[x] < |d|
      ensures h.InRange() && |h.d| == |d| - 1 && |h.pos| == |pos|
    {
      var last := d[|d| - 1];
      if pos[x] == |d| - 1 then Heap(d[..|d| - 1], pri, pos[last := pos[x]])
      else if pri[x] > pri[last] then Shrunk(pos[x], last).BubbleUp(pos[x])
      else Shrunk(pos[x], last).PercolateDown(pos[x])
    }

    function Peek(): (x: Option<nat>)
      requires InRange()
    {
      if |d| == 1 then None else Some(d[1])
    }

    /** subtree_is_valid (pqueue.c). */
    predicate SubtreeIsValid(p: nat)
      requires InRange() && 1 <= p
      decreases |d| - p
    {
      && (2 * p < |d| ==> pri[d[p]] <= pri[d[2 * p]] && SubtreeIsValid(2 * p))
      && (2 * p + 1 < |d| ==> pri[d[p]] <= pri[d[2 * p + 1]] && SubtreeIsValid(2 * p + 1))
    }

    /** Priorities in the order repeated popping yields them. */
    function Drain(): (out: seq<nat>)
      requires InRange()
      ensures |out| == |d| - 1
      decreases |d|
    {
      if |d| == 1 then [] else [d[1]] + Pop().Drain()
    }
  }

  // ---------- Which nodes are queued ----------

  /** The two heaps queue the same nodes, with the same priorities, and agree on every other
      node's position field. */
  ghost predicate SameNodes(h: Heap, k: Heap) {
    && |h.d| == |k.d| && h.pri == k.pri && |h.pos| == |k.pos|
    && (forall x: nat :: h.Has(x) <==> k.Has(x))
    && (forall x: nat :: x < |h.pos| && !h.Has(x) ==> h.pos[x] == k.pos[x])
  }

  lemma HasIsSlot(h: Heap, x: nat)
    requires h.Linked()
    ensures h.Has(x) <==> x in h.d[1..]
  {
    if h.Has(x) {
      assert h.d[1..][h.pos[x] - 1] == x;
    }
    if x in h.d[1..] {
      var m :| 0 <= m < |h.d[1..]| && h.d[1..][m] == x;
      assert h.d[m + 1] == x;
    }
  }

  lemma SwapKeepsNodes(h: Heap, i: nat, j: nat)
    requires h.Linked() && 1 <= i < |h.d| && 1 <= j < |h.d|
    ensures h.Swap(i, j).Linked()
    ensures SameNodes(h, h.Swap(i, j))
    ensures h.Tight() ==> h.Swap(i, j).Tight()
  {
    var k := h.Swap(i, j);
    assert k.d == h.d[i := h.d[j]][j := h.d[i]];
    assert forall m :: 1 <= m < |h.d| && m != i && m != j ==> h.d[m] != h.d[i] && h.d[m] != h.d[j];
  }

  // ---------- bubble_up and percolate_down restore the order ----------

  lemma SwapUpAlmostOrdered(h: Heap, i: nat)
    requires h.InRange() && 2 <= i < |h.d| && h.OrderedButUp(i) && h.pri[h.d[i / 2]] > h.pri[h.d[i]]
    ensures h.Swap(i, i / 2).OrderedButUp(i / 2)
  {
    var k := h.Swap(i, i / 2);
    assert forall m :: 1 <= m < |h.d| && m != i && m != i / 2 ==> k.d[m] == h.d[m];
  }

  lemma SwapDownAlmostOrdered(h: Heap, i: nat, c: nat)
    requires h.InRange() && 1 <= i < |h.d| && h.OrderedButDown(i)
    requires c == h.MaxChild(i) != 0 && h.pri[h.d[i]] > h.pri[h.d[c]]
    ensures h.Swap(i, c).OrderedButDown(c)
  {
    var k := h.Swap(i, c);
    assert forall m :: 1 <= m < |h.d| && m != i && m != c ==> k.d[m] == h.d[m];
  }

  lemma {:induction false} BubbleUpRestores(h: Heap, i: nat)
    requires h.Linked() && 1 <= i < |h.d|
    requires h.OrderedButUp(i)
    ensures h.BubbleUp(i).Linked() && h.BubbleUp(i).Ordered()
    ensures SameNodes(h, h.BubbleUp(i))
    ensures h.Tight() ==> h.BubbleUp(i).Tight()
    decreases i
  {
    if i > 1 && h.pri[h.d[i / 2]] > h.pri[h.d[i]] {
      SwapKeepsNodes(h, i, i / 2);
      SwapUpAlmostOrdered(h, i);
      BubbleUpRestores(h.Swap(i, i / 2), i / 2);
    }
  }

  lemma {:induction false} PercolateDownRestores(h: Heap, i: nat)
    requires h.Linked() && 1 <= i < |h.d|
    requires h.OrderedButDown(i)
    ensures h.PercolateDown(i).Linked() && h.PercolateDown(i).Ordered()
    ensures SameNodes(h, h.PercolateDown(i))
    ensures h.Tight() ==> h.PercolateDown(i).Tight()
    decreases |h.d| - i
  {
    var c := h.MaxChild(i);
    if c != 0 && h.pri[h.d[i]] > h.pri[h.d[c]] {
      SwapKeepsNodes(h, i, c);
      SwapDownAlmostOrdered(h, i, c);
      PercolateDownRestores(h.Swap(i, c), c);
    }
  }

  // ---------- The public operations ----------

  lemma InsertCorrect(h: Heap, x: nat)
    requires h.Linked() && h.Ordered() && x < |h.pos| && !h.Has(x)
    ensures var k := h.Insert(x);
            && k.Linked() && k.Ordered() && (h.Tight() ==> k.Tight())
            && k.pri == h.pri
            && (forall y: nat :: k.Has(y) <==> y == x || h.Has(y))
            && (forall y: nat :: y < |h.pos| && y != x && !h.Has(y) ==> k.pos[y] == h.pos[y])
  {
    hide Heap.BubbleUp, Heap.PercolateDown;
    var k := Heap(h.d + [x], h.pri, h.pos[x := |h.d|]);
    assert forall y: nat :: k.Has(y) <==> y == x || h.Has(y);
    BubbleUpRestores(k, |h.d|);
  }

  lemma RepricedAlmostOrdered(h: Heap, x: nat, newPri: int)
    requires h.Linked() && h.Ordered() && h.Has(x)
    ensures var k := Heap(h.d, h.pri[x := newPri], h.pos);
            if h.pri[x] > newPri then k.OrderedButUp(h.pos[x]) else k.OrderedButDown(h.pos[x])
  {
    var k := Heap(h.d, h.pri[x := newPri], h.pos);
    assert forall i :: 1 <= i < |h.d| && i != h.pos[x] ==> k.pri[k.d[i]] == h.pri[h.d[i]];
  }

  lemma ChangePriorityCorrect(h: Heap, x: nat, newPri: int)
    requires h.Linked() && h.Ordered() && h.Has(x)
    ensures var k := h.ChangePriority(x, newPri);
            && k.Linked() && k.Ordered() && (h.Tight() ==> k.Tight())
            && k.pri == h.pri[x := newPri]
            && (forall y: nat :: k.Has(y) <==> h.Has(y))
            && (forall y: nat :: y < |h.pos| && !h.Has(y) ==> k.pos[y] == h.pos[y])
  {
    hide Heap.BubbleUp, Heap.PercolateDown;
    var k := Heap(h.d, h.pri[x := newPri], h.pos);
    assert forall y: nat :: k.Has(y) <==> h.Has(y);
    RepricedAlmostOrdered(h, x, newPri);
    if h.pri[x] > newPri {
      BubbleUpRestores(k, h.pos[x]);
    } else {
      PercolateDownRestores(k, h.pos[x]);
    }
  }

  lemma ShrunkNodes(h: Heap, x: nat)
    requires h.Linked() && h.Has(x) && h.pos[x] < |h.d| - 1
    ensures var k := h.Shrunk(h.pos[x], h.d[|h.d| - 1]);
            && k.Linked()
            && (forall y: nat :: k.Has(y) <==> h.Has(y) && y != x)
            && (forall y: nat :: y < |h.pos| && !k.Has(y) ==> k.pos[y] == h.pos[y])
  {
  }

  lemma ShrunkAlmostOrdered(h: Heap, x: nat)
    requires h.Linked() && h.Ordered() && h.Has(x) && h.pos[x] < |h.d| - 1
    ensures var last := h.d[|h.d| - 1]; var k := h.Shrunk(h.pos[x], last);
            && (h.pri[x] > h.pri[last] ==> k.OrderedButUp(h.pos[x]))
            && (h.pri[x] <= h.pri[last] ==> k.OrderedButDown(h.pos[x]))
  {
    var k := h.Shrunk(h.pos[x], h.d[|h.d| - 1]);
    assert forall i :: 1 <= i < |k.d| && i != h.pos[x] ==> k.d[i] == h.d[i];
  }

  lemma RemoveCorrect(h: Heap, x: nat)
    requires h.Linked() && h.Ordered() && h.Has(x)
    ensures var k := h.Remove(x);
            && k.Linked() && k.Ordered()
            && k.pri == h.pri
            && (forall y: nat :: k.Has(y) <==> h.Has(y) && y != x)
            && (forall y: nat :: y < |h.pos| && !k.Has(y) ==> k.pos[y] == h.pos[y])
  {
    hide Heap.BubbleUp, Heap.PercolateDown;
    var last := h.d[|h.d| - 1];
    if h.pos[x] < |h.d| - 1 {
      var k := h.Shrunk(h.pos[x], last);
      ShrunkNodes(h, x);
      ShrunkAlmostOrdered(h, x);
      if h.pri[x] > h.pri[last] {
        BubbleUpRestores(k, h.pos[x]);
      } else {
        PercolateDownRestores(k, h.pos[x]);
      }
    }
  }

  /** Popping removes the root, and clearing the popped node's position makes every position
      trustworthy again. */
  lemma PopCorrect(h: Heap)
    requires h.Linked() && h.Ordered() && |h.d| > 1
    ensures var k := h.Pop(); var root := h.d[1];
            && h.Has(root)
            && k.Linked() && k.Ordered()
            && k.pri == h.pri
            && (forall y: nat :: k.Has(y) <==> h.Has(y) && y != root)
            && (forall y: nat :: y < |h.pos| && !k.Has(y) ==> k.pos[y] == h.pos[y])
  {
    hide Heap.BubbleUp, Heap.PercolateDown;
    if |h.d| > 2 {
      ShrunkNodes(h, h.d[1]);
      ShrunkAlmostOrdered(h, h.d[1]);
      PercolateDownRestores(h.Shrunk(1, h.d[|h.d| - 1]), 1);
    }
  }

  lemma PopClearedCorrect(h: Heap)
    requires h.Linked() && h.Ordered() && |h.d| > 1
    ensures var k := h.Pop().Cleared(h.d[1]);
            && k.Linked() && k.Ordered() && (h.Tight() ==> k.Tight())
            && k.pri == h.pri
            && (forall y: nat :: k.Has(y) <==> h.Has(y) && y != h.d[1])
            && (forall y: nat :: y < |h.pos| && !h.Has(y) ==> k.pos[y] == h.pos[y])
  {
    PopCorrect(h);
    var p, k, root := h.Pop(), h.Pop().Cleared(h.d[1]), h.d[1];
    assert h.Has(root) && !p.Has(root);
    assert forall i :: 1 <= i < |p.d| ==> p.d[i] != root;
    assert forall y: nat :: k.Has(y) <==> p.Has(y);
    if h.Tight() {
      forall y: nat | y < |k.pos|
        ensures k.pos[y] < |k.d| && (k.pos[y] != 0 ==> k.d[k.pos[y]] == y)
      {
        if y != root && !p.Has(y) {
          assert !h.Has(y);
        }
      }
    }
  }

  // ---------- Sound heaps: queued means a nonzero position ----------

  lemma SoundInsert(h: Heap, x: nat)
    requires h.Sound() && x < |h.pos| && h.pos[x] == 0
    ensures var k := h.Insert(x);
            && k.Sound() && k.pri == h.pri
            && forall y :: 0 <= y < |h.pos| ==> (k.pos[y] != 0 <==> h.pos[y] != 0 || y == x)
  {
    InsertCorrect(h, x);
    var k := h.Insert(x);
    forall y: nat | y < |h.pos|
      ensures k.pos[y] != 0 <==> h.pos[y] != 0 || y == x
    {
      assert k.Has(y) <==> k.pos[y] != 0;
      assert h.Has(y) <==> h.pos[y] != 0;
    }
  }

  lemma SoundReprice(h: Heap, x: nat, newPri: int)
    requires h.Sound() && x < |h.pos| && h.pos[x] != 0
    ensures var k := h.ChangePriority(x, newPri);
            && k.Sound() && k.pri == h.pri[x := newPri]
            && forall y :: 0 <= y < |h.pos| ==> (k.pos[y] != 0 <==> h.pos[y] != 0)
  {
    ChangePriorityCorrect(h, x, newPri);
    var k := h.ChangePriority(x, newPri);
    forall y: nat | y < |h.pos|
      ensures k.pos[y] != 0 <==> h.pos[y] != 0
    {
      assert k.Has(y) <==> k.pos[y] != 0;
      assert h.Has(y) <==> h.pos[y] != 0;
    }
  }

  /** The priority of a node that is not queued may be written directly. */
  lemma SoundUnqueued(h: Heap, x: nat, newPri: int)
    requires h.Sound() && x < |h.pos| && h.pos[x] == 0
    ensures Heap(h.d, h.pri[x := newPri], h.pos).Sound()
  {
    assert forall i :: 1 <= i < |h.d| ==> h.d[i] != x;
  }

  lemma SoundPop(h: Heap)
    requires h.Sound() && |h.d| > 1
    ensures var k := h.Pop().Cleared(h.d[1]);
            && k.Sound() && k.pri == h.pri
            && forall y :: 0 <= y < |h.pos| ==> (k.pos[y] != 0 <==> h.pos[y] != 0 && y != h.d[1])
  {
    PopClearedCorrect(h);
    var k := h.Pop().Cleared(h.d[1]);
    forall y: nat | y < |h.pos|
      ensures k.pos[y] != 0 <==> h.pos[y] != 0 && y != h.d[1]
    {
      assert k.Has(y) <==> k.pos[y] != 0;
      assert h.Has(y) <==> h.pos[y] != 0;
    }
  }

  /** A heap over n nodes, one of which is not queued, has a slot left among n + 1. */
  lemma HeapFits(h: Heap, x: nat)
    requires h.Linked() && x < |h.pos| && !h.Has(x)
    ensures |h.d| <= |h.pos|
  {
    var queued := set i | i in h.d[1..];
    forall i, j | 0 <= i < j < |h.d[1..]|
      ensures h.d[1..][i] != h.d[1..][j]
    {
      assert h.pos[h.d[i + 1]] == i + 1 && h.pos[h.d[j + 1]] == j + 1;
    }
    DistinctCount(h.d[1..], queued);
    HasIsSlot(h, x);
    assert queued <= Below(|h.pos|) - {x};
    SubsetSize(queued, Below(|h.pos|) - {x});
  }

  // ---------- The hole form used by the in-place loops ----------

  /** One step of percolate_down: move the child into the hole, and the hole down. */
  lemma HoleDown(h: Heap, i: nat, x: nat)
    requires h.InRange() && 1 <= i < |h.d| && x < |h.pos|
    ensures var c := h.MaxChild(i);
            if c != 0 && h.pri[x] > h.pri[h.d[c]]
            then h.Place(i, h.d[c]).Place(c, x).PercolateDown(c) == h.Place(i, x).PercolateDown(i)
            else h.Place(i, x).PercolateDown(i) == h.Place(i, x)
  {
    var c, k := h.MaxChild(i), h.Place(i, x);
    assert k.MaxChild(i) == c;
    if c != 0 {
      assert h.Place(i, h.d[c]).Place(c, x).d == k.Swap(i, c).d;
      assert h.Place(i, h.d[c]).Place(c, x).pos == k.Swap(i, c).pos;
    }
  }

  /** One step of bubble_up. */
  lemma HoleUp(h: Heap, i: nat, x: nat)
    requires h.InRange() && 1 <= i < |h.d| && x < |h.pos|
    ensures if i > 1 && h.pri[h.d[i / 2]] > h.pri[x]
            then h.Place(i, h.d[i / 2]).Place(i / 2, x).BubbleUp(i / 2) == h.Place(i, x).BubbleUp(i)
            else h.Place(i, x).BubbleUp(i) == h.Place(i, x)
  {
    if i > 1 {
      var k := h.Place(i, x);
      assert h.Place(i, h.d[i / 2]).Place(i / 2, x).d == k.Swap(i, i / 2).d;
      assert h.Place(i, h.d[i / 2]).Place(i / 2, x).pos == k.Swap(i, i / 2).pos;
    }
  }

  // ---------- The root is a global minimum ----------

  lemma {:induction false} RootIsLeast(h: Heap, i: nat)
    requires h.Ordered() && 1 <= i < |h.d|
    ensures h.pri[h.d[1]] <= h.pri[h.d[i]]
  {
    if i > 1 {
      RootIsLeast(h, i / 2);
    }
  }

  lemma PeekIsMinimum(h: Heap)
    requires h.Linked() && h.Ordered()
    ensures h.Peek().None? <==> forall x: nat :: !h.Has(x)
    ensures h.Peek().Some? ==> h.Has(h.Peek().value)
    ensures h.Peek().Some? ==> forall x: nat :: h.Has(x) ==> h.pri[h.Peek().value] <= h.pri[x]
  {
    if |h.d| > 1 {
      assert h.Has(h.d[1]);
      forall x: nat | h.Has(x)
        ensures h.pri[h.d[1]] <= h.pri[x]
      {
        RootIsLeast(h, h.pos[x]);
      }
    }
  }

  /** `out` lists the queued nodes, each once, in ascending priority. */
  ghost predicate SortedNodes(h: Heap, out: seq<nat>) {
    && (forall i :: 0 <= i < |out| ==> h.Has(out[i]) && out[i] < |h.pri|)
    && (forall x: nat :: h.Has(x) ==> x in out)
    && (forall i, j :: 0 <= i < j < |out| ==> out[i] != out[j] && h.pri[out[i]] <= h.pri[out[j]])
  }

  /** The root goes in front of what the rest of the heap yields. */
  lemma RootFirst(h: Heap, k: Heap, root: nat, rest: seq<nat>)
    requires h.InRange() && h.Has(root) && root < |h.pri| && k.pri == h.pri && SortedNodes(k, rest)
    requires forall y: nat :: k.Has(y) <==> h.Has(y) && y != root
    requires forall x: nat :: h.Has(x) ==> h.pri[root] <= h.pri[x]
    ensures SortedNodes(h, [root] + rest)
  {
    hide Heap.Has;
    var out := [root] + rest;
    assert forall i :: 0 < i < |out| ==> out[i] == rest[i - 1];
    forall x: nat | h.Has(x)
      ensures x in out
    {
      if x != root {
        assert x in rest;
      }
    }
  }

  /** Popping until empty is a sort: ascending priorities, every queued node exactly once. */
  lemma {:induction false} DrainSorts(h: Heap)
    requires h.Linked() && h.Ordered()
    ensures SortedNodes(h, h.Drain())
    decreases |h.d|
  {
    hide SortedNodes, Heap.Pop;
    if |h.d| > 1 {
      PopCorrect(h);
      PeekIsMinimum(h);
      DrainSorts(h.Pop());
      RootFirst(h, h.Pop(), h.d[1], h.Pop().Drain());
    } else {
      EmptySorted(h);
    }
  }

  lemma EmptySorted(h: Heap)
    requires h.InRange() && |h.d| == 1
    ensures SortedNodes(h, [])
  {
  }

  // ---------- subtree_is_valid decides heap order ----------

  /** Slot j lies in the subtree rooted at slot p. */
  ghost predicate Under(p: nat, j: nat) {
    j == p || (j > p && Under(p, j / 2))
  }

  ghost predicate OrderedUnder(h: Heap, p: nat)
    requires h.InRange() && 1 <= p
  {
    forall j :: 2 <= j < |h.d| && Under(p, j / 2) ==> h.pri[h.d[j / 2]] <= h.pri[h.d[j]]
  }

  /** A proper descendant sits under one of the two children, and conversely. */
  lemma {:induction false} UnderChild(p: nat, j: nat)
    requires 1 <= p
    ensures Under(p, j) <==> j == p || Under(2 * p, j) || Under(2 * p + 1, j)
    decreases j
  {
    if j > p {
      UnderChild(p, j / 2);
    }
  }

  lemma {:induction false} SubtreeValidUnder(h: Heap, p: nat)
    requires h.InRange() && 1 <= p
    ensures h.SubtreeIsValid(p) <==> OrderedUnder(h, p)
    decreases |h.d| - p
  {
    forall j: nat
      ensures Under(p, j) <==> j == p || Under(2 * p, j) || Under(2 * p + 1, j)
    {
      UnderChild(p, j);
    }
    if 2 * p < |h.d| {
      SubtreeValidUnder(h, 2 * p);
      assert (2 * p) / 2 == p && Under(p, p);
      if 2 * p + 1 < |h.d| {
        SubtreeValidUnder(h, 2 * p + 1);
        assert (2 * p + 1) / 2 == p;
      }
    }
  }

  lemma {:induction false} EverythingUnderRoot(j: nat)
    requires 1 <= j
    ensures Under(1, j)
  {
    if j > 1 {
      EverythingUnderRoot(j / 2);
    }
  }

  /** pqueue_is_valid: true exactly for ordered heaps. */
  lemma SubtreeIsValidIffOrdered(h: Heap)
    requires h.InRange()
    ensures h.SubtreeIsValid(1) <==> h.Ordered()
  {
    SubtreeValidUnder(h, 1);
    forall j: nat | 2 <= j < |h.d|
      ensures Under(1, j / 2)
    {
      EverythingUnderRoot(j / 2);
    }
  }
}
