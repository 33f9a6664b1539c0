/** The dispatcher over several I/O workers (vdev->proc_turn, nvmev_proc_io_sq). */
module Dispatch {
  import opened Arith
  import opened RoundRobins
  import opened Scheds

  datatype Workers = Workers(procs: seq<Sched>, turn: nat) {
    ghost predicate Ok() {
      && |procs| >= 1 && turn < |procs|
      && forall i :: 0 <= i < |procs| ==> procs[i].Safe()
    }

    function NextTurn(): (t: nat) {
      if turn + 1 == |procs| then 0 else turn + 1
    }

    /** __enqueue_io_req picks the worker whose turn it is; a refused request does not pass the
        turn on. */
    function Dispatch(r: Req): (w: Workers)
      requires turn < |procs| && procs[turn].Split()
    {
      if procs[turn].Refuses() then this
      else Workers(procs[turn := procs[turn].Enqueue(r)], NextTurn())
    }

    /** __reclaim_completed_reqs: every worker's completed requests. */
    function Reclaim(): (w: Workers)
      requires Ok()
      ensures |w.procs| == |procs| && w.turn == turn
      ensures forall i :: 0 <= i < |procs| ==> w.procs[i] == procs[i].Reclaim()
    {
      Workers(seq(|procs|, i requires 0 <= i < |procs| => procs[i].Reclaim()), turn)
    }

    /** No worker has a completed request to reclaim. */
    ghost predicate Settled()
      requires Ok()
    {
      forall i :: 0 <= i < |procs| ==> procs[i].DoneCount(0) == 0
    }
  }

  lemma DispatchKeeps(w: Workers, r: Req)
    requires w.Ok()
    ensures w.Dispatch(r).Ok() && |w.Dispatch(r).procs| == |w.procs|
    ensures !w.procs[w.turn].Refuses() ==> w.Dispatch(r).turn == (w.turn + 1) % |w.procs|
    ensures !w.procs[w.turn].Refuses() ==>
              forall i :: 0 <= i < |w.procs| ==>
                |w.Dispatch(r).procs[i].free| == |w.procs[i].free| - if i == w.turn then 1 else 0
  {
    EnqueueKeeps(w.procs[w.turn], r);
    if w.turn + 1 < |w.procs| {
      SmallMod(w.turn + 1, |w.procs|);
    }
  }

  /** The request is in the first free slot of the worker in turn; the other slots and the other workers
      keep theirs, and a refused request changes nothing. */
  lemma DispatchPlaces(w: Workers, r: Req)
    requires w.Ok()
    ensures |w.Dispatch(r).procs| == |w.procs|
    ensures forall i :: 0 <= i < |w.procs| && i != w.turn ==> w.Dispatch(r).procs[i] == w.procs[i]
    ensures if |w.procs[w.turn].free| <= 1 then w.Dispatch(r) == w
            else
              var p, q := w.procs[w.turn], w.Dispatch(r).procs[w.turn];
              && |q.slots| == |p.slots| && p.free[0] in q.io
              && q.slots[p.free[0]] == r.(copied := false, completed := false)
              && forall y: nat :: y < |p.slots| && y != p.free[0] ==> q.slots[y] == p.slots[y]
  {
    hide Sched.Sorted, Sched.NotEarly;
    if |w.procs[w.turn].free| > 1 {
      EnqueuePlaces(w.procs[w.turn], r);
    }
  }

  // ---------- reclaiming after every request ----------

  /** Reclaiming keeps the workers sound and leaves nothing to reclaim until a worker moves on. */
  lemma ReclaimSettles(w: Workers)
    requires w.Ok()
    ensures w.Reclaim().Ok() && w.Reclaim().Settled()
  {
    forall i | 0 <= i < |w.procs|
      ensures w.procs[i].Reclaim().Safe() && w.procs[i].Reclaim().DoneCount(0) == 0
    {
      ReclaimKeeps(w.procs[i]);
      ReclaimTwice(w.procs[i]);
    }
  }

  lemma ReclaimTwice(s: Sched)
    requires s.Split()
    ensures s.Reclaim().Split() && s.Reclaim().DoneCount(0) == 0
  {
    ReclaimSplit(s);
    var t, n := s.Reclaim(), s.DoneCount(0);
    if n < |s.io| {
      assert t.io[0] == s.io[n];
    }
  }

  lemma NothingToReclaim(s: Sched)
    requires s.Split() && s.DoneCount(0) == 0
    ensures s.Reclaim() == s
  {
    assert s.free + s.io[..0] == s.free && s.io[0..] == s.io;
  }

  /** A request just queued is not completed, so it never becomes the head of anything to reclaim. */
  lemma QueuedIsUndone(s: Sched, r: Req)
    requires s.Safe() && s.DoneCount(0) == 0
    ensures s.Enqueue(r).Split() && s.Enqueue(r).DoneCount(0) == 0
  {
    EnqueueKeeps(s, r);
    if !s.Refuses() {
      EnqueuePlaces(s, r);
    }
  }

  lemma DispatchSettled(w: Workers, r: Req)
    requires w.Ok() && w.Settled()
    ensures w.Dispatch(r).Ok() && w.Dispatch(r).Settled() && w.Dispatch(r).Reclaim() == w.Dispatch(r)
  {
    DispatchKeeps(w, r);
    QueuedIsUndone(w.procs[w.turn], r);
    var t := w.Dispatch(r);
    forall i | 0 <= i < |t.procs|
      ensures t.procs[i].Reclaim() == t.procs[i]
    {
      NothingToReclaim(t.procs[i]);
    }
    assert t.Reclaim().procs == t.procs;
  }

  /** A batch of requests, each followed by reclaiming, and how many of them are accepted. */
  function DispatchAll(w: Workers, rs: seq<Req>): (r: (Workers, nat))
    requires w.Ok()
    ensures r.1 <= |rs|
    decreases |rs|
  {
    if rs == [] then (w, 0)
    else
      DispatchKeeps(w, rs[0]);
      ReclaimSettles(w.Dispatch(rs[0]));
      var rest := DispatchAll(w.Dispatch(rs[0]).Reclaim(), rs[1..]);
      (rest.0, rest.1 + if w.procs[w.turn].Refuses() then 0 else 1)
  }

  /** With no worker moving meanwhile: once the worker in turn is full every request of the batch is
      dropped, however much room the other workers have. */
  lemma {:induction false} FullWorkerBlocksAll(w: Workers, rs: seq<Req>)
    requires w.Ok() && w.Settled() && w.procs[w.turn].Refuses()
    ensures DispatchAll(w, rs) == (w, 0)
    decreases |rs|
  {
    if rs != [] {
      DispatchSettled(w, rs[0]);
      FullWorkerBlocksAll(w, rs[1..]);
    }
  }

  /** Every worker has more free slots than its round-robin share of n requests. */
  ghost predicate RoomForShares(w: Workers, n: nat)
    requires |w.procs| >= 1
  {
    forall i :: 0 <= i < |w.procs| ==> Load(RoundRobin(w.turn, n, |w.procs|), i) < |w.procs[i].free|
  }

  lemma SharesAfterOne(w: Workers, r: Req, n: nat)
    requires w.Ok() && !w.procs[w.turn].Refuses()
    ensures |w.Dispatch(r).procs| == |w.procs|
    ensures RoomForShares(w, n + 1) <==> RoomForShares(w.Dispatch(r), n)
  {
    var m, t := |w.procs|, w.Dispatch(r);
    DispatchKeeps(w, r);
    ConsRoundRobin(w.turn, n, m);
    forall i | 0 <= i < m
      ensures Load(RoundRobin(w.turn, n + 1, m), i)
           == Load(RoundRobin(t.turn, n, m), i) + if w.turn == i then 1 else 0
    {
      LoadOfCons(w.turn, RoundRobin(t.turn, n, m), i);
    }
  }

  /** The first request of a batch goes to the worker in turn. */
  lemma FullWorkerLacksRoom(w: Workers, n: nat)
    requires w.Ok() && w.procs[w.turn].Refuses() && n >= 1
    ensures !RoomForShares(w, n)
  {
    ConsRoundRobin(w.turn, n - 1, |w.procs|);
    LoadOfCons(w.turn, RoundRobin((w.turn + 1) % |w.procs|, n - 1, |w.procs|), w.turn);
  }

  /** An empty batch needs no room. */
  lemma NoShares(w: Workers)
    requires w.Ok()
    ensures RoomForShares(w, 0)
  {
    forall i | 0 <= i < |w.procs|
      ensures Load(RoundRobin(w.turn, 0, |w.procs|), i) < |w.procs[i].free|
    {
    }
  }

  /** With no worker moving meanwhile, a batch is accepted in full exactly when every worker has room
      for its round-robin share and keeps its last free slot. */
  lemma {:induction false} BatchAcceptedExactly(w: Workers, rs: seq<Req>)
    requires w.Ok() && w.Settled()
    ensures DispatchAll(w, rs).1 == |rs| <==> RoomForShares(w, |rs|)
    decreases |rs|
  {
    hide RoomForShares, Sched.Split, Sched.Sorted, Sched.NotEarly, Sched.Enqueue, Sched.DoneCount, Workers.Settled;
    if rs == [] {
      NoShares(w);
    } else if w.procs[w.turn].Refuses() {
      FullWorkerBlocksAll(w, rs);
      FullWorkerLacksRoom(w, |rs|);
    } else {
      DispatchSettled(w, rs[0]);
      SharesAfterOne(w, rs[0], |rs| - 1);
      BatchAcceptedExactly(w.Dispatch(rs[0]), rs[1..]);
    }
  }

  // ---------- the submission queue ----------

  /** nvmev_proc_io_sq: the submission entries between two doorbell values, across the wrap. */
  method ProcIoSq(queueSize: nat, newDb: nat, oldDb: nat) returns (fetched: seq<nat>)
    requires queueSize >= 1 && newDb < queueSize && oldDb < queueSize
    ensures |fetched| == Distance(oldDb, newDb, queueSize)
    ensures forall i :: 0 <= i < |fetched| ==> fetched[i] == (oldDb + i) % queueSize
    ensures forall i, j :: 0 <= i < j < |fetched| ==> fetched[i] != fetched[j]
    ensures (oldDb + |fetched|) % queueSize == newDb
  {
    var numProc: int := newDb - oldDb;
    var sqEntry := oldDb;
    if numProc < 0 {
      numProc := numProc + queueSize;
    }
    fetched := [];
    SmallMod(oldDb, queueSize);
    for seqNo := 0 to numProc
      invariant |fetched| == seqNo && sqEntry < queueSize
      invariant sqEntry == (oldDb + seqNo) % queueSize
      invariant sqEntry == if oldDb + seqNo < queueSize then oldDb + seqNo else oldDb + seqNo - queueSize
      invariant forall i :: 0 <= i < seqNo ==> fetched[i] == (oldDb + i) % queueSize
      invariant forall i :: 0 <= i < seqNo ==>
                  fetched[i] == if oldDb + i < queueSize then oldDb + i else oldDb + i - queueSize
    {
      fetched := fetched + [sqEntry];
      NextQuotient(oldDb + seqNo, queueSize);
      sqEntry := sqEntry + 1;
      if sqEntry == queueSize {
        sqEntry := 0;
      }
    }
  }
}
