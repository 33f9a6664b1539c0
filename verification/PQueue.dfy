/** pqueue.c in place: the slot array `d`, the size, and the node columns reached through the
    callbacks. Every method is proved against the value-level heap of PriorityHeap. */
module PQueues {
  import opened Common
  import opened PriorityHeap

  class PQueue {
    var d: array<nat>
    var size: nat
    const step: nat
    const pri: array<int>
    const pos: array<nat>

    ghost predicate Wf()
      reads this
    {
      && 1 <= size <= d.Length
      && d != pos
      && pri.Length == pos.Length
      && step >= 1
    }

    ghost function Value(): (h: Heap)
      requires Wf()
      reads this, d, pri, pos
    {
      Heap(d[..size], pri[..], pos[..])
    }

    /** pqueue_init: room for n nodes besides slot 0, which is never read and starts as 0 here. */
    constructor (n: nat, pri: array<int>, pos: array<nat>)
      requires pri.Length == pos.Length
      ensures Wf() && fresh(d) && this.pri == pri && this.pos == pos
      ensures d.Length == step == n + 1
      ensures Value() == Heap([0], pri[..], pos[..])
    {
      d := new nat[n + 1](i => 0);
      size := 1;
      step := n + 1;
      this.pri := pri;
      this.pos := pos;
    }

    /** The pair of writes every move consists of: slot, then back-pointer. */
    method PutAt(i: nat, x: nat)
      requires Wf() && Value().InRange() && 1 <= i < size && x < pos.Length
      modifies d, pos
      ensures Wf() && Value() == old(Value()).Place(i, x)
    {
      ghost var h := Value();
      d[i] := x;
      pos[x] := i;
      assert Value().d == h.d[i := x] && Value().pos == h.pos[x := i];
    }

    /** Moves ancestors down into the hole, then drops the moving node in: the swaps of
        Heap.BubbleUp with one write per level. */
    method BubbleUp(start: nat)
      requires Wf() && Value().InRange() && 1 <= start < size
      modifies d, pos
      ensures Wf()
      ensures Value() == old(Value().Place(start, d[start]).BubbleUp(start))
    {
      var i := start;
      var moving := d[i];
      var movingPri := pri[moving];
      var parent := i / 2;
      ghost var goal := Value().Place(i, moving).BubbleUp(i);
      while i > 1 && pri[d[parent]] > movingPri
        invariant Wf() && Value().InRange() && 1 <= i < size && parent == i / 2
        invariant movingPri == pri[moving] && moving < pos.Length
        invariant Value().Place(i, moving).BubbleUp(i) == goal
      {
        HoleUp(Value(), i, moving);
        PutAt(i, d[parent]);
        i := parent;
        parent := i / 2;
      }
      HoleUp(Value(), i, moving);
      PutAt(i, moving);
    }

    method MaxChild(i: nat) returns (child: nat)
      requires Wf() && Value().InRange() && 1 <= i
      ensures child == Value().MaxChild(i)
      ensures child == 0 <==> 2 * i >= size
      ensures forall j :: 2 <= j < size && j / 2 == i ==> child != 0 && pri[d[child]] <= pri[d[j]]
    {
      child := 2 * i;
      if child >= size {
        return 0;
      }
      if child + 1 < size && pri[d[child]] > pri[d[child + 1]] {
        child := child + 1;
      }
    }

    method PercolateDown(start: nat)
      requires Wf() && Value().InRange() && 1 <= start < size
      modifies d, pos
      ensures Wf()
      ensures Value() == old(Value().Place(start, d[start]).PercolateDown(start))
    {
      var i := start;
      var moving := d[i];
      var movingPri := pri[moving];
      ghost var goal := Value().Place(i, moving).PercolateDown(i);
      var child := MaxChild(i);
      while child != 0 && movingPri > pri[d[child]]
        invariant Wf() && Value().InRange() && 1 <= i < size
        invariant movingPri == pri[moving] && moving < pos.Length
        invariant child == Value().MaxChild(i)
        invariant Value().Place(i, moving).PercolateDown(i) == goal
        decreases size - i
      {
        HoleDown(Value(), i, moving);
        PutAt(i, d[child]);
        i := child;
        child := MaxChild(i);
      }
      HoleDown(Value(), i, moving);
      PutAt(i, moving);
    }

    /** pqueue_insert of the kernel module: it only warns when the array is full, so a free slot
        is the caller's obligation. */
    method Insert(x: nat)
      requires Wf() && Value().InRange() && x < pos.Length && size < d.Length
      modifies this`size, d, pos
      ensures Wf() && size == old(size) + 1
      ensures Value() == old(Value().Insert(x))
    {
      ghost var h := Value();
      var i := size;
      size := size + 1;
      d[i] := x;
      assert Value().Place(i, x) == Heap(h.d + [x], h.pri, h.pos[x := i]);
      BubbleUp(i);
    }

    /** pqueue_insert of the femu copy: grows the array by `step` when it is full; nonzero means
        the reallocation failed and nothing was inserted. */
    method InsertGrowing(x: nat, canAllocate: bool) returns (err: int)
      requires Wf() && Value().InRange() && x < pos.Length
      modifies this, d, pos
      ensures Wf() && (d == old(d) || fresh(d))
      ensures err != 0 <==> old(size) == old(d.Length) && !canAllocate
      ensures Value() == if err == 0 then old(Value().Insert(x)) else old(Value())
      ensures d.Length == old(d.Length) + if err == 0 && old(size) == old(d.Length) then step else 0
    {
      if size >= d.Length {
        if !canAllocate {
          return 1;
        }
        var bigger := new nat[size + step];
        forall i | 0 <= i < size {
          bigger[i] := d[i];
        }
        ghost var was := Value();
        d := bigger;
        assert Value() == was;
      }
      Insert(x);
      err := 0;
    }

    method ChangePriority(x: nat, newPri: int)
      requires Wf() && Value().InRange() && x < pos.Length && 1 <= pos[x] < size && d[pos[x]] == x
      modifies d, pos, pri
      ensures Wf()
      ensures Value() == old(Value().ChangePriority(x, newPri))
    {
      ghost var h := Value();
      var oldPri := pri[x];
      pri[x] := newPri;
      var posn := pos[x];
      ghost var k := Value();
      assert k == Heap(h.d, h.pri[x := newPri], h.pos);
      assert k.Place(posn, d[posn]) == k;
      if oldPri > newPri {
        BubbleUp(posn);
      } else {
        PercolateDown(posn);
      }
    }

    /** `d[posn] = d[--size]`: when x is the last node it lands in the slot it came from, now
        just beyond the end, and the walk below only rewrites its position. */
    method Remove(x: nat)
      requires Wf() && Value().InRange() && x < pos.Length && 1 <= pos[x] < size && d[pos[x]] == x
      modifies this`size, d, pos
      ensures Wf() && size == old(size) - 1
      ensures Value() == old(Value().Remove(x))
    {
      ghost var h := Value();
      var posn := pos[x];
      size := size - 1;
      d[posn] := d[size];
      if posn == size {
        pos[x] := posn;
        assert Value() == h.Remove(x);
      } else {
        assert Value().Place(posn, d[posn]) == h.Shrunk(posn, h.d[|h.d| - 1]);
        if pri[x] > pri[d[posn]] {
          BubbleUp(posn);
        } else {
          PercolateDown(posn);
        }
      }
    }

    method Pop() returns (head: Option<nat>)
      requires Wf() && Value().InRange()
      modifies this`size, d, pos
      ensures Wf()
      ensures head == old(Value().Peek())
      ensures Value() == if head.None? then old(Value()) else old(Value().Pop())
    {
      if size == 1 {
        return None;
      }
      ghost var h := Value();
      head := Some(d[1]);
      size := size - 1;
      d[1] := d[size];
      if size == 1 {
        // percolate_down on the emptied heap only rewrites the head's own position
        pos[d[1]] := 1;
        assert Value() == h.Pop();
      } else {
        assert Value().Place(1, d[1]) == h.Shrunk(1, h.d[|h.d| - 1]);
        PercolateDown(1);
      }
    }

    method Peek() returns (head: Option<nat>)
      requires Wf() && Value().InRange()
      ensures head == Value().Peek()
      ensures Value().Linked() && Value().Ordered() && head.Some? ==>
                forall x: nat :: Value().Has(x) ==> pri[head.value] <= pri[x]
    {
      if Value().Linked() && Value().Ordered() {
        PeekIsMinimum(Value());
      }
      if size == 1 {
        return None;
      }
      head := Some(d[1]);
    }

    /** pqueue_is_valid. */
    method IsValid() returns (ok: bool)
      requires Wf() && Value().InRange()
      ensures ok <==> Value().Ordered()
    {
      ok := SubtreeIsValid(1);
      SubtreeIsValidIffOrdered(Value());
    }

    method SubtreeIsValid(p: nat) returns (ok: bool)
      requires Wf() && Value().InRange() && 1 <= p
      ensures ok == Value().SubtreeIsValid(p)
      decreases size - p
    {
      if 2 * p < size {
        if pri[d[p]] > pri[d[2 * p]] {
          return false;
        }
        var left := SubtreeIsValid(2 * p);
        if !left {
          return false;
        }
      }
      if 2 * p + 1 < size {
        if pri[d[p]] > pri[d[2 * p + 1]] {
          return false;
        }
        var right := SubtreeIsValid(2 * p + 1);
        if !right {
          return false;
        }
      }
      return true;
    }
  }
}
