/** struct nvmev_proc_info in place: one table whose next and prev fields thread the free chain and
    the in-flight chain. Methods are proved against Scheds. */
module ProcInfos {
  import opened Scheds

  /** (unsigned int)-1. */
  const NIL: nat := 0xFFFF_FFFF

  datatype Entry = Entry(req: Req, next: nat, prev: nat)

  function Reqs(tbl: seq<Entry>): (r: seq<Req>)
    ensures |r| == |tbl| && forall i :: 0 <= i < |tbl| ==> r[i] == tbl[i].req
  {
    seq(|tbl|, i requires 0 <= i < |tbl| => tbl[i].req)
  }

  ghost predicate InTable(tbl: seq<Entry>, chain: seq<nat>) {
    forall i :: 0 <= i < |chain| ==> chain[i] < |tbl|
  }

  /** The i-th slot of the chain names its successor, or nothing at the end. */
  ghost predicate NextAt(tbl: seq<Entry>, chain: seq<nat>, i: nat)
    requires InTable(tbl, chain) && i < |chain|
  {
    tbl[chain[i]].next == if i == |chain| - 1 then NIL else chain[i + 1]
  }

  ghost predicate PrevAt(tbl: seq<Entry>, chain: seq<nat>, i: nat)
    requires InTable(tbl, chain) && i < |chain|
  {
    tbl[chain[i]].prev == if i == 0 then NIL else chain[i - 1]
  }

  ghost predicate NextLinks(tbl: seq<Entry>, chain: seq<nat>)
    requires InTable(tbl, chain)
  {
    forall i: nat :: i < |chain| ==> NextAt(tbl, chain, i)
  }

  ghost predicate PrevLinks(tbl: seq<Entry>, chain: seq<nat>)
    requires InTable(tbl, chain)
  {
    forall i: nat :: i < |chain| ==> PrevAt(tbl, chain, i)
  }

  /** Singly linked, from head to tail. */
  ghost predicate FreeChain(tbl: seq<Entry>, chain: seq<nat>, head: nat, tail: nat) {
    && InTable(tbl, chain) && NextLinks(tbl, chain)
    && |chain| >= 1 && head == chain[0] && tail == chain[|chain| - 1]
  }

  /** Doubly linked; the tail field means something only while the chain is not empty. */
  ghost predicate IoChain(tbl: seq<Entry>, chain: seq<nat>, head: nat, tail: nat) {
    && InTable(tbl, chain) && NextLinks(tbl, chain) && PrevLinks(tbl, chain)
    && (if chain == [] then head == NIL else head == chain[0] && tail == chain[|chain| - 1])
  }

  ghost predicate NotIn(e: nat, chain: seq<nat>) {
    forall i :: 0 <= i < |chain| ==> chain[i] != e
  }

  ghost predicate AllDifferent(chain: seq<nat>) {
    forall i, j :: 0 <= i < j < |chain| ==> chain[i] != chain[j]
  }

  /** The table after linking e in at position k: e and its two neighbours have changed. */
  ghost predicate LinkedIn(tbl: seq<Entry>, tbl': seq<Entry>, io: seq<nat>, e: nat, k: nat)
    requires InTable(tbl, io) && e < |tbl| && k <= |io|
  {
    && |tbl'| == |tbl|
    && tbl'[e].next == (if k == |io| then NIL else io[k])
    && tbl'[e].prev == (if k == 0 then NIL else io[k - 1])
    && (k > 0 ==> tbl'[io[k - 1]] == tbl[io[k - 1]].(next := e))
    && (k < |io| ==> tbl'[io[k]] == tbl[io[k]].(prev := e))
    && forall x :: 0 <= x < |tbl| && x != e && (k == 0 || x != io[k - 1]) && (k == |io| || x != io[k]) ==>
         tbl'[x] == tbl[x]
  }

  lemma LinkIn(tbl: seq<Entry>, tbl': seq<Entry>, io: seq<nat>, head: nat, tail: nat, e: nat, k: nat)
    requires IoChain(tbl, io, head, tail) && AllDifferent(io) && NotIn(e, io)
    requires e < |tbl| && k <= |io| && LinkedIn(tbl, tbl', io, e, k)
    ensures var io' := io[..k] + [e] + io[k..];
            IoChain(tbl', io', if k == 0 then e else head, if k == |io| then e else tail)
  {
    var io' := io[..k] + [e] + io[k..];
    assert InTable(tbl', io');
    forall i: nat | i < |io'|
      ensures NextAt(tbl', io', i) && PrevAt(tbl', io', i)
    {
      if i != k {
        var j := if i < k then i else i - 1;
        assert io'[i] == io[j];
        assert NextAt(tbl, io, j) && PrevAt(tbl, io, j);
        OnlyNeighboursChange(tbl, tbl', io, e, k, j);
      }
    }
  }

  lemma OnlyNeighboursChange(tbl: seq<Entry>, tbl': seq<Entry>, io: seq<nat>, e: nat, k: nat, j: nat)
    requires InTable(tbl, io) && AllDifferent(io) && NotIn(e, io) && e < |tbl| && k <= |io| && j < |io|
    requires LinkedIn(tbl, tbl', io, e, k)
    ensures tbl'[io[j]].next == if j + 1 == k then e else tbl[io[j]].next
    ensures tbl'[io[j]].prev == if j == k then e else tbl[io[j]].prev
  {
    assert k > 0 && j != k - 1 ==> io[j] != io[k - 1];
    assert k < |io| && j != k ==> io[j] != io[k];
  }

  /** The dispatcher's new request leaves the rest of the free chain alone. */
  lemma UnlinkFree(tbl: seq<Entry>, tbl': seq<Entry>, free: seq<nat>, io: seq<nat>, tail: nat, k: nat)
    requires |free| >= 2 && FreeChain(tbl, free, free[0], tail) && k <= |io| && InTable(tbl, io)
    requires AllDifferent(free) && forall i, j :: 0 <= i < |free| && 0 <= j < |io| ==> free[i] != io[j]
    requires LinkedIn(tbl, tbl', io, free[0], k)
    ensures FreeChain(tbl', free[1..], free[1], tail)
  {
    var rest := free[1..];
    assert InTable(tbl', rest);
    forall i: nat | i < |rest|
      ensures NextAt(tbl', rest, i)
    {
      assert NextAt(tbl, free, i + 1);
      assert rest[i] == free[i + 1] != free[0];
      assert tbl'[free[i + 1]] == tbl[free[i + 1]];
    }
  }

  class ProcInfo {
    const table: array<Entry>
    var freeSeq: nat
    var freeSeqEnd: nat
    var ioSeq: nat
    var ioSeqEnd: nat
    var procIoNsecs: nat
    ghost var free: seq<nat>
    ghost var io: seq<nat>

    ghost predicate Wf()
      reads this, table
    {
      && table.Length < NIL
      && Value().Split()
      && FreeChain(table[..], free, freeSeq, freeSeqEnd)
      && IoChain(table[..], io, ioSeq, ioSeqEnd)
    }

    ghost function Value(): (s: Sched)
      reads this, table
    {
      Sched(Reqs(table[..]), free, io, procIoNsecs)
    }

    /** NVMEV_IO_PROC_INIT for a table of n slots. */
    constructor (n: nat)
      requires 1 <= n < NIL
      ensures Wf() && fresh(table) && table.Length == n
      ensures Value() == InitTable(n)
    {
      table := new Entry[n](i requires 0 <= i =>
        Entry(Req(0, 0, 0, 0, 0, 0, false, false),
              if i == n - 1 then NIL else i + 1, if i == 0 then NIL else i - 1));
      freeSeq, freeSeqEnd, ioSeq, ioSeqEnd := 0, n - 1, NIL, NIL;
      procIoNsecs := 0;
      free, io := InitTable(n).free, [];
      new;
      assert free + io == free;
      assert Reqs(table[..]) == InitTable(n).slots;
    }

    /** __enqueue_io_req. A request is refused, and lost, when it would take the last free slot. */
    method Enqueue(r: Req) returns (accepted: bool)
      requires Wf()
      modifies this, table
      ensures Wf() && accepted == !old(Value()).Refuses()
      ensures Value() == old(Value()).Enqueue(r)
    {
      hide FreeChain, IoChain, LinkedIn, AllDifferent, NotIn, Sched.InsertAt, Sched.Split;
      ghost var s, tbl := Value(), table[..];
      EntryFacts(s);
      FreeFacts(tbl, free, freeSeq, freeSeqEnd);
      var entry := freeSeq;
      if table[entry].next >= table.Length {
        return false;
      }
      freeSeq := table[entry].next;
      assert freeSeq < table.Length;
      table[entry] := Entry(r.(copied := false, completed := false), NIL, NIL);
      ghost var k := Link(entry, r.target, s, tbl);
      Enqueued(s, r, tbl, table[..], old(freeSeq), freeSeqEnd, old(ioSeq), old(ioSeqEnd), k);
      free, io := free[1..], io[..k] + [entry] + io[k..];
      accepted := true;
    }

    /** Put a freshly written entry into the in-flight chain. */
    method Link(entry: nat, target: nat, ghost s: Sched, ghost tbl: seq<Entry>) returns (ghost k: nat)
      requires |tbl| == table.Length < NIL && entry < |tbl| && NotIn(entry, io)
      requires table[entry].next == NIL && table[entry].prev == NIL && table[..] == tbl[entry := table[entry]]
      requires IoChain(tbl, io, ioSeq, ioSeqEnd) && AllDifferent(io)
      requires s.Split() && s.io == io && s.now == procIoNsecs && s.slots == Reqs(tbl)
      modifies this`ioSeq, this`ioSeqEnd, table
      ensures k == s.InsertAt(target, |io|) && k <= |io|
      ensures LinkedIn(tbl, table[..], io, entry, k) && table[entry].req == old(table[entry].req)
      ensures ioSeq == if k == 0 then entry else old(ioSeq)
      ensures ioSeqEnd == if k == |io| then entry else old(ioSeqEnd)
    {
      if ioSeq == NIL {
        ioSeq := entry;
        ioSeqEnd := entry;
        k := 0;
      } else {
        ElsewhereKeeps(tbl, table[..], io, ioSeq, ioSeqEnd, entry);
        var curr;
        curr, k := FindPlace(target, s, tbl);
        Splice(entry, curr, s, k);
      }
    }

    /** __reclaim_completed_reqs for this worker. */
    method Reclaim()
      requires Wf()
      modifies this, table
      ensures Wf() && Value() == old(Value()).Reclaim()
    {
      hide PrevLinks, Sched.Split;
      ghost var s, tbl := Value(), table[..];
      var first, last, n := FindDone(s);
      ReclaimSplit(s);
      if last != NIL {
        var rest := table[last].next;
        Move(first, last, rest, s, n);
        SpliceFree(s, tbl, table[..], old(freeSeq), old(freeSeqEnd), old(ioSeq), old(ioSeqEnd), n);
        ioSeq := rest;
        freeSeqEnd := last;
        free, io := free + io[..n], io[n..];
      } else {
        assert free + io[..n] == free && io[n..] == io;
      }
    }

    /** The four writes of the splice. */
    method Move(first: nat, last: nat, rest: nat, ghost s: Sched, ghost n: nat)
      requires s.Split() && s.free == free && s.io == io && 1 <= n <= |io| && |s.slots| == table.Length < NIL
      requires FreeChain(table[..], free, freeSeq, freeSeqEnd) && InTable(table[..], io)
      requires first == io[0] && last == io[n - 1] && rest == if n == |io| then NIL else io[n]
      modifies table
      ensures Spliced(old(table[..]), table[..], free, io, n)
    {
      ChainFacts(s);
      if rest != NIL {
        table[rest] := table[rest].(prev := NIL);
      }
      table[last] := table[last].(next := NIL);
      table[first] := table[first].(prev := freeSeqEnd);
      table[freeSeqEnd] := table[freeSeqEnd].(next := first);
    }

    /** The run of completed requests at the head of the in-flight chain. */
    method FindDone(ghost s: Sched) returns (first: nat, last: nat, ghost n: nat)
      requires Wf() && s == Value()
      ensures n == s.DoneCount(0) && n <= |io|
      ensures last == if n == 0 then NIL else io[n - 1]
      ensures n > 0 ==> first == io[0] && last < table.Length && table[last].next == if n == |io| then NIL else io[n]
    {
      hide FreeChain, IoChain, Sched.Split;
      HeadOf(table[..], io, ioSeq, ioSeqEnd);
      first := ioSeq;
      last := NIL;
      n := 0;
      var curr := first;
      while curr != NIL
        invariant n <= |io| && s.DoneCount(0) == n + s.DoneCount(n)
        invariant curr == if n == |io| then NIL else io[n]
        invariant last == if n == 0 then NIL else io[n - 1]
        decreases |io| - n
      {
        NextOf(table[..], io, ioSeq, ioSeqEnd, n);
        var r := table[curr].req;
        if r.completed && r.copied && r.target <= procIoNsecs {
          last := curr;
          curr := table[curr].next;
          n := n + 1;
        } else {
          break;
        }
      }
      if n > 0 {
        NextOf(table[..], io, ioSeq, ioSeqEnd, n - 1);
      }
    }

    /** The worker's pass over the chain; clock(i) is its i-th reading. The result lists the calls of
        __fill_cq_result in order. */
    method WorkerPass(clock: nat -> nat) returns (posts: seq<Post>)
      requires Wf()
      modifies this`procIoNsecs, table
      ensures Wf()
      ensures (Value(), posts) == old(Value()).Pass(clock, 0)
    {
      hide FreeChain, IoChain, Sched.Split, Sched.VisitPosts, Sched.Visit, Sched.Pass, PassFrom;
      ghost var s := Value();
      posts := [];
      var curr := ioSeq;
      var i := 0;
      HeadOf(table[..], io, ioSeq, ioSeqEnd);
      PassBegins(s, clock);
      while curr != NIL
        invariant Wf() && i <= |io| && io == s.io
        invariant forall j :: 0 <= j < |io| ==> io[j] < table.Length
        invariant curr == if i == |io| then NIL else io[i]
        invariant PassFrom(s, Value(), posts, clock, i)
        decreases |io| - i
      {
        ghost var t := Value();
        var post, going := VisitEntry(curr, clock(i));
        NextOf(table[..], io, ioSeq, ioSeqEnd, i);
        PassStep(s, t, posts, clock, i);
        posts := posts + post;
        if !going {
          return;
        }
        curr := table[curr].next;
        i := i + 1;
      }
      PassIsOver(s, Value(), posts, clock);
    }

    /** One turn of the worker's loop: false when the pass ends here. */
    method VisitEntry(curr: nat, currNsecs: nat) returns (post: seq<Post>, going: bool)
      requires Wf() && curr < table.Length
      modifies this`procIoNsecs, table
      ensures Wf() && Value() == old(Value()).Visit(curr, currNsecs)
      ensures post == old(Value()).VisitPosts(curr, currNsecs)
      ensures going == !old(Value()).VisitEndsPass(curr, currNsecs)
      ensures io == old(io)
      ensures forall x :: 0 <= x < table.Length ==> table[x].next == old(table[x].next)
    {
      hide NextLinks, PrevLinks, Sched.Split;
      ghost var tbl := table[..];
      procIoNsecs := currNsecs;
      var pe := table[curr];
      post, going := [], true;
      if !pe.req.completed {
        if !pe.req.copied {
          pe := pe.(req := pe.req.(copied := true));
        }
        if pe.req.target <= currNsecs {
          post := [Tag(pe.req)];
          pe := pe.(req := pe.req.(completed := true));
        } else {
          going := false;
        }
        table[curr] := pe;
      }
      RelabelKeeps(tbl, table[..], free, io, freeSeq, freeSeqEnd, ioSeq, ioSeqEnd);
      assert Reqs(table[..]) == Reqs(tbl)[curr := pe.req];
      SplitSame(old(Value()), Value());
    }

    /** The three ways to link a new entry in. */
    method Splice(entry: nat, curr: nat, ghost s: Sched, ghost k: nat)
      requires entry < table.Length < NIL && NotIn(entry, io) && AllDifferent(io) && io != [] && k <= |io|
      requires IoChain(table[..], io, ioSeq, ioSeqEnd)
      requires curr == if k == 0 then NIL else io[k - 1]
      requires table[entry].next == NIL && table[entry].prev == NIL
      modifies this`ioSeq, this`ioSeqEnd, table
      ensures LinkedIn(old(table[..]), table[..], io, entry, k) && table[entry].req == old(table[entry].req)
      ensures ioSeq == if k == 0 then entry else old(ioSeq)
      ensures ioSeqEnd == if k == |io| then entry else old(ioSeqEnd)
    {
      if curr == NIL {
        // due before everything in flight
        table[ioSeq] := table[ioSeq].(prev := entry);
        table[entry] := table[entry].(next := ioSeq);
        ioSeq := entry;
      } else {
        assert NextAt(table[..], io, k - 1);
        if table[curr].next == NIL {
          // due last
          table[entry] := table[entry].(prev := curr);
          ioSeqEnd := entry;
          table[curr] := table[curr].(next := entry);
        } else {
          // between curr and its successor
          table[entry] := table[entry].(prev := curr);
          table[entry] := table[entry].(next := table[curr].next);
          table[table[entry].next] := table[table[entry].next].(prev := entry);
          table[curr] := table[curr].(next := entry);
        }
      }
    }

    /** The backward walk: the position behind which the new request goes, and the slot there. */
    method FindPlace(target: nat, ghost s: Sched, ghost tbl: seq<Entry>) returns (curr: nat, ghost k: nat)
      requires io != [] && s.Split() && s.io == io && s.now == procIoNsecs && |tbl| == table.Length < NIL
      requires IoChain(tbl, io, ioSeq, ioSeqEnd) && s.slots == Reqs(tbl)
      requires forall i :: 0 <= i < |io| ==> table[io[i]] == tbl[io[i]]
      ensures k == s.InsertAt(target, |io|) && k <= |io|
      ensures curr == if k == 0 then NIL else io[k - 1]
    {
      curr := ioSeqEnd;
      k := |io|;
      while curr != NIL
        invariant k <= |io| && s.InsertAt(target, |io|) == s.InsertAt(target, k)
        invariant curr == if k == 0 then NIL else io[k - 1]
        decreases k
      {
        assert PrevAt(tbl, io, k - 1);
        if table[curr].req.target <= procIoNsecs {
          break;
        }
        if table[curr].req.target <= target {
          break;
        }
        curr := table[curr].prev;
        k := k - 1;
      }
    }
  }

  /** Taken together: unlinking from the free chain and linking into the other is Sched.Enqueue. */
  lemma Enqueued(s: Sched, r: Req, tbl: seq<Entry>, tbl': seq<Entry>,
                 freeSeq: nat, freeEnd: nat, ioSeq: nat, ioEnd: nat, k: nat)
    requires s.Split() && !s.Refuses() && s.slots == Reqs(tbl)
    requires FreeChain(tbl, s.free, freeSeq, freeEnd) && IoChain(tbl, s.io, ioSeq, ioEnd)
    requires k == s.InsertAt(r.target, |s.io|) && LinkedIn(tbl, tbl', s.io, s.free[0], k)
    requires tbl'[s.free[0]].req == r.(copied := false, completed := false)
    ensures var t := s.Enqueue(r);
            && t.Split() && t.slots == Reqs(tbl') && t.free == s.free[1..] && t.now == s.now
            && t.io == s.io[..k] + [s.free[0]] + s.io[k..]
            && FreeChain(tbl', t.free, s.free[1], freeEnd)
            && IoChain(tbl', t.io, if k == 0 then s.free[0] else ioSeq, if k == |s.io| then s.free[0] else ioEnd)
  {
    hide NextLinks, PrevLinks;
    ChainFacts(s);
    UnlinkFree(tbl, tbl', s.free, s.io, freeEnd, k);
    LinkIn(tbl, tbl', s.io, ioSeq, ioEnd, s.free[0], k);
    InsertSplit(s, s.Enqueue(r), k);
    ReqsAfterInsert(tbl, tbl', s.io, s.free[0], k);
  }

  /** The head's next field is beyond the table exactly when the head is the last free slot. */
  lemma FreeFacts(tbl: seq<Entry>, free: seq<nat>, head: nat, tail: nat)
    requires FreeChain(tbl, free, head, tail) && |tbl| < NIL
    ensures |free| >= 1 && head == free[0] && head < |tbl| && (tbl[head].next >= |tbl| <==> |free| == 1)
    ensures |free| > 1 ==> tbl[head].next == free[1] < |tbl|
  {
    assert NextAt(tbl, free, 0);
  }

  /** The table after moving the first n in-flight entries behind the free chain. */
  ghost predicate Spliced(tbl: seq<Entry>, tbl': seq<Entry>, free: seq<nat>, io: seq<nat>, n: nat)
    requires |free| >= 1 && 1 <= n <= |io|
  {
    && |tbl'| == |tbl|
    && (forall x :: 0 <= x < |tbl| ==> tbl'[x].req == tbl[x].req)
    && (forall x :: 0 <= x < |tbl| ==>
          tbl'[x].next == if x == free[|free| - 1] then io[0] else if x == io[n - 1] then NIL else tbl[x].next)
    && (forall x :: 0 <= x < |tbl| ==>
          tbl'[x].prev == if x == io[0] then free[|free| - 1] else if n < |io| && x == io[n] then NIL else tbl[x].prev)
  }

  lemma SpliceFree(s: Sched, tbl: seq<Entry>, tbl': seq<Entry>,
                   freeSeq: nat, freeEnd: nat, ioSeq: nat, ioEnd: nat, n: nat)
    requires s.Split() && 1 <= n <= |s.io| && Spliced(tbl, tbl', s.free, s.io, n)
    requires FreeChain(tbl, s.free, freeSeq, freeEnd) && IoChain(tbl, s.io, ioSeq, ioEnd)
    ensures FreeChain(tbl', s.free + s.io[..n], freeSeq, s.io[n - 1])
    ensures IoChain(tbl', s.io[n..], if n == |s.io| then NIL else s.io[n], ioEnd)
    ensures Reqs(tbl') == Reqs(tbl)
  {
    ChainFacts(s);
    SplicedFree(s, tbl, tbl', freeSeq, freeEnd, n);
    SplicedIo(s, tbl, tbl', ioSeq, ioEnd, n);
  }

  lemma SplicedFree(s: Sched, tbl: seq<Entry>, tbl': seq<Entry>, freeSeq: nat, freeEnd: nat, n: nat)
    requires 1 <= n <= |s.io| && |s.free| >= 1 && Spliced(tbl, tbl', s.free, s.io, n)
    requires FreeChain(tbl, s.free, freeSeq, freeEnd) && InTable(tbl, s.io) && NextLinks(tbl, s.io)
    requires AllDifferent(s.free) && AllDifferent(s.io)
    requires forall i, j :: 0 <= i < |s.free| && 0 <= j < |s.io| ==> s.free[i] != s.io[j]
    ensures FreeChain(tbl', s.free + s.io[..n], freeSeq, s.io[n - 1])
  {
    var free', f := s.free + s.io[..n], |s.free|;
    forall i | 0 <= i < |free'|
      ensures free'[i] < |tbl'|
    {
      if i >= f {
        assert free'[i] == s.io[i - f];
      }
    }
    forall i: nat | i < |free'|
      ensures NextAt(tbl', free', i)
    {
      if i < f {
        assert NextAt(tbl, s.free, i);
      } else {
        assert free'[i] == s.io[i - f] && NextAt(tbl, s.io, i - f);
      }
    }
  }

  lemma SplicedIo(s: Sched, tbl: seq<Entry>, tbl': seq<Entry>, ioSeq: nat, ioEnd: nat, n: nat)
    requires 1 <= n <= |s.io| && |s.free| >= 1 && Spliced(tbl, tbl', s.free, s.io, n)
    requires IoChain(tbl, s.io, ioSeq, ioEnd) && AllDifferent(s.io)
    requires forall i, j :: 0 <= i < |s.free| && 0 <= j < |s.io| ==> s.free[i] != s.io[j]
    ensures IoChain(tbl', s.io[n..], if n == |s.io| then NIL else s.io[n], ioEnd)
  {
    var io' := s.io[n..];
    assert InTable(tbl', io');
    forall i: nat | i < |io'|
      ensures NextAt(tbl', io', i) && PrevAt(tbl', io', i)
    {
      assert io'[i] == s.io[n + i] && NextAt(tbl, s.io, n + i) && PrevAt(tbl, s.io, n + i);
    }
  }

  lemma ElsewhereKeeps(tbl: seq<Entry>, tbl': seq<Entry>, io: seq<nat>, head: nat, tail: nat, e: nat)
    requires IoChain(tbl, io, head, tail) && NotIn(e, io) && e < |tbl| == |tbl'| && tbl' == tbl[e := tbl'[e]]
    ensures IoChain(tbl', io, head, tail)
  {
    forall i: nat | i < |io|
      ensures NextAt(tbl', io, i) && PrevAt(tbl', io, i)
    {
      assert NextAt(tbl, io, i) && PrevAt(tbl, io, i);
    }
  }

  lemma HeadOf(tbl: seq<Entry>, io: seq<nat>, head: nat, tail: nat)
    requires IoChain(tbl, io, head, tail)
    ensures head == if io == [] then NIL else io[0]
    ensures forall i :: 0 <= i < |io| ==> io[i] < |tbl|
  {
  }

  lemma NextOf(tbl: seq<Entry>, io: seq<nat>, head: nat, tail: nat, i: nat)
    requires IoChain(tbl, io, head, tail) && i < |io|
    ensures io[i] < |tbl| && tbl[io[i]].next == if i + 1 == |io| then NIL else io[i + 1]
    ensures forall j :: 0 <= j < |io| ==> io[j] < |tbl|
  {
    assert NextAt(tbl, io, i);
  }

  /** Entries whose links are untouched keep both chains. */
  lemma RelabelKeeps(tbl: seq<Entry>, tbl': seq<Entry>, free: seq<nat>, io: seq<nat>,
                     freeSeq: nat, freeEnd: nat, ioSeq: nat, ioEnd: nat)
    requires |tbl'| == |tbl|
    requires forall x :: 0 <= x < |tbl| ==> tbl'[x].next == tbl[x].next && tbl'[x].prev == tbl[x].prev
    requires FreeChain(tbl, free, freeSeq, freeEnd) && IoChain(tbl, io, ioSeq, ioEnd)
    ensures FreeChain(tbl', free, freeSeq, freeEnd) && IoChain(tbl', io, ioSeq, ioEnd)
  {
    forall i: nat | i < |free|
      ensures NextAt(tbl', free, i)
    {
      assert NextAt(tbl, free, i);
    }
    forall i: nat | i < |io|
      ensures NextAt(tbl', io, i) && PrevAt(tbl', io, i)
    {
      assert NextAt(tbl, io, i) && PrevAt(tbl, io, i);
    }
  }

  lemma SplitSame(s: Sched, t: Sched)
    requires s.Split() && t.free == s.free && t.io == s.io && |t.slots| == |s.slots|
    ensures t.Split()
  {
  }

  /** The pass from s stands at number i in state t, having posted `posts`. */
  ghost predicate PassFrom(s: Sched, t: Sched, posts: seq<Post>, clock: nat -> nat, i: nat) {
    && s.Split() && t.Split() && t.io == s.io && i <= |s.io|
    && s.Pass(clock, 0) == (t.Pass(clock, i).0, posts + t.Pass(clock, i).1)
  }

  lemma PassBegins(s: Sched, clock: nat -> nat)
    requires s.Split()
    ensures PassFrom(s, s, [], clock, 0)
  {
    assert [] + s.Pass(clock, 0).1 == s.Pass(clock, 0).1;
  }

  lemma PassIsOver(s: Sched, t: Sched, posts: seq<Post>, clock: nat -> nat)
    requires PassFrom(s, t, posts, clock, |s.io|)
    ensures s.Pass(clock, 0) == (t, posts)
  {
    assert posts + [] == posts;
  }

  lemma PassStep(s: Sched, t: Sched, posts: seq<Post>, clock: nat -> nat, i: nat)
    requires PassFrom(s, t, posts, clock, i) && i < |s.io|
    ensures var e, clk := t.io[i], clock(i); var u := t.Visit(e, clk);
            if t.VisitEndsPass(e, clk) then s.Pass(clock, 0) == (u, posts + t.VisitPosts(e, clk))
            else PassFrom(s, u, posts + t.VisitPosts(e, clk), clock, i + 1)
  {
    var e, clk := t.io[i], clock(i);
    var u := t.Visit(e, clk);
    SplitSame(t, u);
    if !t.VisitEndsPass(e, clk) {
      var rest := u.Pass(clock, i + 1).1;
      assert posts + (t.VisitPosts(e, clk) + rest) == (posts + t.VisitPosts(e, clk)) + rest;
    } else {
      assert posts + [] == posts;
    }
  }

  lemma EntryFacts(s: Sched)
    requires s.Split()
    ensures |s.free| >= 1 && NotIn(s.free[0], s.io) && AllDifferent(s.io)
  {
    ChainFacts(s);
  }

  lemma ChainFacts(s: Sched)
    requires s.Split()
    ensures AllDifferent(s.free) && AllDifferent(s.io)
    ensures forall i, j :: 0 <= i < |s.free| && 0 <= j < |s.io| ==> s.free[i] != s.io[j]
  {
    FreeIsNotInFlight(s);
    SlotsDistinct(s);
    forall i, j | 0 <= i < j < |s.free|
      ensures s.free[i] != s.free[j]
    {
      assert (s.free + s.io)[i] != (s.free + s.io)[j];
    }
  }

  /** Linking changes no request but the new one. */
  lemma ReqsAfterInsert(tbl: seq<Entry>, tbl': seq<Entry>, io: seq<nat>, e: nat, k: nat)
    requires InTable(tbl, io) && e < |tbl| && k <= |io| && NotIn(e, io) && LinkedIn(tbl, tbl', io, e, k)
    ensures Reqs(tbl') == Reqs(tbl)[e := tbl'[e].req]
  {
  }
}
