/** One command through the dispatcher (__nvmev_proc_io): the translation layer quotes a latency,
    the request is queued for the worker with the resulting target time, and both sides clean up. */
module Devices {
  import opened Geometries
  import opened Ssds
  import Mapping
  import opened Runs
  import opened Ftls
  import opened GcTiming
  import opened Scheds
  import opened ProcInfos

  /** What the dispatcher copies from the submission entry. */
  datatype Sqe = Sqe(sqid: nat, cqid: nat, sqEntry: nat, commandId: nat)

  /** Reads and writes are due when the quoted latency has passed, anything else at once. */
  function TargetOf(cmd: Cmd, stime: nat, lat: nat): (t: nat) {
    if cmd.Other? then 0 else stime + lat
  }

  function RequestOf(e: Sqe, cmd: Cmd, stime: nat, lat: nat): (r: Req) {
    Req(e.sqid, e.cqid, e.sqEntry, e.commandId, stime, TargetOf(cmd, stime, lat), false, false)
  }

  /** The worker's table after a request was offered and completed ones were reclaimed. */
  function Queued(p: Sched, r: Req): (q: Sched)
    requires p.Split()
    ensures q.Split()
  {
    QueuedSplit(p, r);
    p.Enqueue(r).Reclaim()
  }

  lemma QueuedSplit(p: Sched, r: Req)
    requires p.Split()
    ensures p.Enqueue(r).Split() && p.Enqueue(r).Reclaim().Split()
  {
    if !p.Refuses() {
      InsertSplit(p, p.Enqueue(r), p.InsertAt(r.target, |p.io|));
    }
    ReclaimSplit(p.Enqueue(r));
  }

  lemma QueuedIs(p: Sched, r: Req)
    requires p.Split()
    ensures p.Enqueue(r).Split() && Queued(p, r) == p.Enqueue(r).Reclaim()
  {
    QueuedSplit(p, r);
  }

  /** An accepted request is in the first slot that was free, in flight and not yet copied or completed;
      the other slots keep their requests. */
  lemma QueuedSlot(p: Sched, r: Req)
    requires p.Split() && |p.free| > 1
    ensures var q := Queued(p, r); var x := p.free[0];
            && x < |q.slots| == |p.slots| && x in q.io
            && q.slots[x] == r.(copied := false, completed := false)
            && forall y: nat :: y < |p.slots| && y != x ==> q.slots[y] == p.slots[y]
  {
    var x, q, k := p.free[0], p.Enqueue(r), p.InsertAt(r.target, |p.io|);
    QueuedSplit(p, r);
    assert q.io[k] == x;
    assert !q.Reclaimable(q.io[k]);
    var n := q.DoneCount(0);
    assert q.io[n..][k - n] == x;
  }

  /** Slot x of table q holds what the submission entry says, due when the quoted latency has passed;
      opcodes that take no flash time are due at once. */
  ghost predicate Holds(q: Sched, x: nat, e: Sqe, cmd: Cmd, stime: nat, lat: nat) {
    && x < |q.slots| && x in q.io
    && q.slots[x].sqid == e.sqid && q.slots[x].cqid == e.cqid
    && q.slots[x].sqEntry == e.sqEntry && q.slots[x].commandId == e.commandId
    && q.slots[x].start == stime && q.slots[x].target == (if cmd.Other? then 0 else stime + lat)
    && !q.slots[x].copied && !q.slots[x].completed
  }

  lemma QueuedHolds(p: Sched, e: Sqe, cmd: Cmd, stime: nat, lat: nat)
    requires p.Split() && |p.free| > 1
    ensures Holds(Queued(p, RequestOf(e, cmd, stime, lat)), p.free[0], e, cmd, stime, lat)
  {
    hide Queued;
    QueuedSlot(p, RequestOf(e, cmd, stime, lat));
  }

  lemma SplitWhenWf(p: ProcInfo)
    requires p.Wf()
    ensures p.Value().Split()
  {
  }

  class Device {
    const ftl: Ftl
    const proc: ProcInfo

    ghost predicate Ready()
      reads this, ftl, ftl.maptbl, ftl.rmap, ftl.ipc, ftl.victims, ftl.victims.d, ftl.victims.pri, ftl.victims.pos
      reads proc, proc.table
    {
      && ftl.g.Ok() && ftl.g.Calculated()
      && ftl.Wf() && Mapping.Inv(ftl.State()) && ftl.State().g == ftl.g
      && proc.Wf()
    }

    constructor (g: Geometry, clock: nat -> nat, slots: nat)
      requires g.Ok() && g.Calculated() && 1 <= slots < NIL
      ensures Ready() && ftl.g == g
      ensures ftl.State() == Start.Init(g) && proc.Value() == InitTable(slots)
    {
      hide Mapping.Inv, Start.Init, Geometry.Calculated, Ftl.State, Ssd.Shape;
      ftl := new Ftl(g, clock);
      proc := new ProcInfo(slots);
      new;
      Start.InitInv(g);
    }

    /** __nvmev_proc_io with one worker. A refused request is lost although its write has taken
        effect. */
    method ProcIo(e: Sqe, cmd: Cmd, stime: nat) returns (ok: bool, accepted: bool, lat: nat)
      requires Ready()
      modifies ftl, ftl.maptbl, ftl.rmap, ftl.ipc, ftl.avail
      modifies ftl.victims, ftl.victims.d, ftl.victims.pri, ftl.victims.pos
      modifies proc, proc.table
      ensures ok <==> Step(old(ftl.State()), cmd).Some?
      ensures ok ==> Ready() && ftl.State() == Step(old(ftl.State()), cmd).value
      ensures ok ==> (accepted <==> |old(proc.Value()).free| > 1)
      ensures ok && accepted ==> Holds(proc.Value(), old(proc.Value()).free[0], e, cmd, stime, lat)
      ensures ok ==> proc.Value() == Queued(old(proc.Value()), RequestOf(e, cmd, stime, lat))
      ensures ok && stime != 0 ==>
                Handled(old(ftl.State()), cmd, stime, old(ftl.Times()), ftl.Times(), lat, ftl.clock)
    {
      hide Mapping.Inv, Ssd.Shape, Ftl.State, Ftl.Wf, ProcInfo.Wf, ProcInfo.Value, Queued, RequestOf, TargetOf;
      hide Quoted, GcTime, BackgroundOps, Executed, Step;
      hide Sched.Enqueue, Sched.Reclaim, Sched.Split, Geometry.Calculated, Holds, Handled, EndLpn;
      ghost var s, p, times := ftl.State(), proc.Value(), ftl.Times();
      SameLengths(s);
      SplitWhenWf(proc);
      Ftl.StepKeepsInv(s, cmd);
      accepted := false;
      lat, ok := ftl.Execute(cmd, stime);
      if !ok {
        return;
      }
      ghost var quoted := ftl.Times();
      assert stime != 0 ==> Quoted(s, cmd, stime, times, quoted, lat, ftl.clock);
      QueuedIs(p, RequestOf(e, cmd, stime, lat));
      accepted := proc.Enqueue(RequestOf(e, cmd, stime, lat));
      ok := ftl.CheckGcAfter(cmd, s);
      if !ok {
        return;
      }
      proc.Reclaim();
      if stime != 0 {
        IsHandled(s, cmd, stime, times, quoted, ftl.Times(), lat, ftl.clock);
      }
      if accepted {
        QueuedHolds(p, e, cmd, stime, lat);
      }
    }
  }
}
