/** Whole runs of dispatcher and worker: the chains stay sound and no request is lost or completed
    twice. */
module SchedRuns {
  import opened Scheds

  // ---------- uncompleted requests ----------

  ghost function One(slots: seq<Req>, e: nat): (m: multiset<Post>) {
    if e < |slots| && !slots[e].completed then multiset{Tag(slots[e])} else multiset{}
  }

  /** Tags of the uncompleted requests of a chain. */
  ghost function Pending(slots: seq<Req>, chain: seq<nat>): (m: multiset<Post>) {
    if chain == [] then multiset{} else One(slots, chain[0]) + Pending(slots, chain[1..])
  }

  lemma {:induction false} PendingAppend(slots: seq<Req>, a: seq<nat>, b: seq<nat>)
    ensures Pending(slots, a + b) == Pending(slots, a) + Pending(slots, b)
  {
    if a == [] {
      assert a + b == b;
    } else {
      assert (a + b)[1..] == a[1..] + b;
      PendingAppend(slots, a[1..], b);
    }
  }

  lemma {:induction false} PendingElsewhere(slots: seq<Req>, chain: seq<nat>, e: nat, r: Req)
    requires e < |slots| && forall i :: 0 <= i < |chain| ==> chain[i] != e
    ensures Pending(slots[e := r], chain) == Pending(slots, chain)
  {
    if chain != [] {
      PendingElsewhere(slots, chain[1..], e, r);
    }
  }

  lemma {:induction false} PendingDone(slots: seq<Req>, chain: seq<nat>)
    requires forall i :: 0 <= i < |chain| ==> chain[i] < |slots| && slots[chain[i]].completed
    ensures Pending(slots, chain) == multiset{}
  {
    if chain != [] {
      PendingDone(slots, chain[1..]);
    }
  }

  lemma PendingMiddle(slots: seq<Req>, a: seq<nat>, e: nat, b: seq<nat>)
    ensures Pending(slots, a + [e] + b) == Pending(slots, a) + One(slots, e) + Pending(slots, b)
  {
    PendingAppend(slots, a + [e], b);
    PendingAppend(slots, a, [e]);
    assert [e][1..] == [];
  }

  /** Changing one slot of a chain changes only that slot's part. */
  lemma PendingAt(slots: seq<Req>, chain: seq<nat>, i: nat, r: Req)
    requires i < |chain| && chain[i] < |slots|
    requires forall j, k :: 0 <= j < k < |chain| ==> chain[j] != chain[k]
    ensures Pending(slots[chain[i] := r], chain) + One(slots, chain[i])
         == Pending(slots, chain) + One(slots[chain[i] := r], chain[i])
  {
    hide Pending, One;
    var a, e, b := chain[..i], chain[i], chain[i + 1..];
    assert chain == a + [e] + b;
    PendingMiddle(slots, a, e, b);
    PendingMiddle(slots[e := r], a, e, b);
    PendingElsewhere(slots, a, e, r);
    PendingElsewhere(slots, b, e, r);
  }

  // ---------- each step accounts for its requests ----------

  lemma EnqueueAccounts(s: Sched, r: Req)
    requires s.Split() && !s.Refuses()
    ensures var t := s.Enqueue(r); Pending(t.slots, t.io) == Pending(s.slots, s.io) + multiset{Tag(r)}
  {
    hide Pending, Sched.InsertAt;
    var t, k, e := s.Enqueue(r), s.InsertAt(r.target, |s.io|), s.free[0];
    var r' := r.(copied := false, completed := false);
    FreeIsNotInFlight(s);
    var a, b := s.io[..k], s.io[k..];
    PendingMiddle(t.slots, a, e, b);
    PendingElsewhere(s.slots, a, e, r');
    PendingElsewhere(s.slots, b, e, r');
    assert s.io == a + b;
    PendingAppend(s.slots, a, b);
  }

  lemma ReclaimAccounts(s: Sched)
    requires s.Split()
    ensures var t := s.Reclaim(); Pending(t.slots, t.io) == Pending(s.slots, s.io)
  {
    var n := s.DoneCount(0);
    assert s.io == s.io[..n] + s.io[n..];
    PendingAppend(s.slots, s.io[..n], s.io[n..]);
    PendingDone(s.slots, s.io[..n]);
  }

  lemma SameSum(now: multiset<Post>, was: multiset<Post>, kept: multiset<Post>, gone: multiset<Post>)
    requires now + (kept + gone) == was + kept
    ensures was == now + gone
  {
    forall p
      ensures was[p] == (now + gone)[p]
    {
      assert (now + (kept + gone))[p] == (was + kept)[p];
    }
  }

  /** What a visit posts leaves the pending requests. */
  lemma VisitAccounts(s: Sched, e: nat, clk: nat)
    requires s.Split() && e in s.io && e < |s.slots|
    ensures Pending(s.slots, s.io) == Pending(s.Visit(e, clk).slots, s.io) + multiset(s.VisitPosts(e, clk))
  {
    hide Pending;
    var i :| 0 <= i < |s.io| && s.io[i] == e;
    var t := s.Visit(e, clk);
    SlotsDistinct(s);
    if s.slots[e].completed {
      assert t.slots == s.slots;
    } else {
      PendingAt(s.slots, s.io, i, t.slots[e]);
      assert t.slots == s.slots[e := t.slots[e]];
      assert multiset([Tag(s.slots[e])]) == multiset{Tag(s.slots[e])};
      assert One(s.slots, e) == One(t.slots, e) + multiset(s.VisitPosts(e, clk));
      SameSum(Pending(t.slots, s.io), Pending(s.slots, s.io), One(t.slots, e), multiset(s.VisitPosts(e, clk)));
    }
  }

  lemma {:induction false} PassAccounts(s: Sched, clock: nat -> nat, i: nat)
    requires s.Split() && i <= |s.io|
    ensures var r := s.Pass(clock, i); Pending(s.slots, s.io) == Pending(r.0.slots, r.0.io) + multiset(r.1)
    decreases |s.io| - i
  {
    if i < |s.io| {
      var e, clk := s.io[i], clock(i);
      VisitAccounts(s, e, clk);
      if !s.VisitEndsPass(e, clk) {
        PassAccounts(s.Visit(e, clk), clock, i + 1);
      }
    }
  }

  // ---------- runs ----------

  /** A worker step is a whole pass or a single visit of some request in flight. */
  datatype Event = Arrive(r: Req) | Collect | WorkerPass(clock: nat -> nat) | WorkerVisit(e: nat, clk: nat)

  /** The state with the history of accepted and posted requests. */
  datatype Log = Log(s: Sched, accepted: seq<Post>, posted: seq<Post>)

  /** The clock does not run backwards, and the worker's cursor is in flight. */
  ghost predicate Enabled(s: Sched, ev: Event) {
    match ev
    case Arrive(_) => true
    case Collect => true
    case WorkerPass(clock) => Ticking(clock, s.now)
    case WorkerVisit(e, clk) => e in s.io && clk >= s.now
  }

  ghost function Do(l: Log, ev: Event): (m: Log)
    requires l.s.Split() && Enabled(l.s, ev)
  {
    match ev
    case Arrive(r) =>
      if l.s.Refuses() then l else Log(l.s.Enqueue(r), l.accepted + [Tag(r)], l.posted)
    case Collect => l.(s := l.s.Reclaim())
    case WorkerPass(clock) =>
      var r := l.s.Pass(clock, 0);
      Log(r.0, l.accepted, l.posted + r.1)
    case WorkerVisit(e, clk) =>
      Log(l.s.Visit(e, clk), l.accepted, l.posted + l.s.VisitPosts(e, clk))
  }

  /** Every accepted request has been posted exactly once or is still pending. */
  ghost predicate Accounted(l: Log) {
    multiset(l.accepted) == multiset(l.posted) + Pending(l.s.slots, l.s.io)
  }

  lemma {:induction false} PassKeepsSafe(s: Sched, clock: nat -> nat, i: nat)
    requires s.Safe() && i <= |s.io| && Ticking(clock, 0) && (i < |s.io| ==> clock(i) >= s.now)
    ensures s.Pass(clock, i).0.Safe() && s.Pass(clock, i).0.now >= s.now
    decreases |s.io| - i
  {
    if i < |s.io| {
      var e, clk := s.io[i], clock(i);
      VisitKeepsSafe(s, e, clk);
      if !s.VisitEndsPass(e, clk) {
        assert clock(i) <= clock(i + 1);
        PassKeepsSafe(s.Visit(e, clk), clock, i + 1);
      }
    }
  }

  lemma ArriveKeeps(l: Log, r: Req)
    requires l.s.Safe() && Accounted(l)
    ensures Accounted(Do(l, Arrive(r)))
  {
    hide Pending;
    if !l.s.Refuses() {
      EnqueueAccounts(l.s, r);
      assert multiset(l.accepted + [Tag(r)]) == multiset(l.accepted) + multiset{Tag(r)};
    }
  }

  lemma PassKeepsLog(l: Log, clock: nat -> nat)
    requires l.s.Safe() && Ticking(clock, l.s.now) && Accounted(l)
    ensures Accounted(Do(l, WorkerPass(clock)))
  {
    hide Pending;
    PassAccounts(l.s, clock, 0);
  }

  lemma VisitKeepsLog(l: Log, e: nat, clk: nat)
    requires l.s.Safe() && Enabled(l.s, WorkerVisit(e, clk)) && Accounted(l)
    ensures Accounted(Do(l, WorkerVisit(e, clk)))
  {
    hide Pending;
    VisitAccounts(l.s, e, clk);
  }

  lemma DoKeeps(l: Log, ev: Event)
    requires l.s.Safe() && Enabled(l.s, ev) && Accounted(l)
    ensures Do(l, ev).s.Safe() && Accounted(Do(l, ev))
    ensures ev.WorkerPass? || (l.s.Inv() && !ev.WorkerVisit?) ==> Do(l, ev).s.Inv()
  {
    hide Accounted, Pending, Sched.Sorted, Sched.NotEarly, Sched.DoneFirst;
    match ev
    case Arrive(r) =>
      EnqueueKeeps(l.s, r);
      ArriveKeeps(l, r);
    case Collect =>
      ReclaimKeeps(l.s);
      CollectKeeps(l);
    case WorkerPass(clock) =>
      PassKeepsSafe(l.s, clock, 0);
      PassKeepsLog(l, clock);
      PassKeeps(l.s, clock, 0);
    case WorkerVisit(e, clk) =>
      VisitKeepsSafe(l.s, e, clk);
      VisitKeepsLog(l, e, clk);
  }

  lemma CollectKeeps(l: Log)
    requires l.s.Safe() && Accounted(l)
    ensures Accounted(Do(l, Collect))
  {
    hide Pending;
    ReclaimAccounts(l.s);
  }

  /** evs can happen from l on, in this order. */
  ghost predicate Possible(l: Log, evs: seq<Event>)
    requires l.s.Safe() && Accounted(l)
    decreases |evs|
  {
    evs != [] ==>
      && Enabled(l.s, evs[0])
      && (DoKeeps(l, evs[0]); Possible(Do(l, evs[0]), evs[1..]))
  }

  ghost function Run(l: Log, evs: seq<Event>): (m: Log)
    requires l.s.Safe() && Accounted(l) && Possible(l, evs)
    decreases |evs|
  {
    if evs == [] then l
    else
      DoKeeps(l, evs[0]);
      Run(Do(l, evs[0]), evs[1..])
  }

  /** No visit of its own comes after number k, where a whole pass took place. */
  ghost predicate SettledAt(evs: seq<Event>, k: nat) {
    && k < |evs| && evs[k].WorkerPass?
    && forall j :: k < j < |evs| ==> !evs[j].WorkerVisit?
  }

  ghost predicate NoVisits(evs: seq<Event>) {
    forall j :: 0 <= j < |evs| ==> !evs[j].WorkerVisit?
  }

  /** Completed requests come first at the end of every run without interleaved visits. */
  lemma {:induction false} AtomicRunKeeps(l: Log, evs: seq<Event>)
    requires l.s.Inv() && Accounted(l) && Possible(l, evs) && NoVisits(evs)
    ensures Run(l, evs).s.Inv()
    decreases |evs|
  {
    if evs != [] {
      DoKeeps(l, evs[0]);
      assert forall j :: 0 <= j < |evs[1..]| ==> evs[1..][j] == evs[j + 1];
      AtomicRunKeeps(Do(l, evs[0]), evs[1..]);
    }
  }

  /** And whatever visits were interleaved before: one undisturbed pass puts them first again, and
      they stay there until the next visit outside a pass. */
  lemma {:induction false} PassRestoresPrefix(l: Log, evs: seq<Event>, k: nat)
    requires l.s.Safe() && Accounted(l) && Possible(l, evs) && SettledAt(evs, k)
    ensures Run(l, evs).s.Inv()
    decreases |evs|
  {
    hide Accounted;
    DoKeeps(l, evs[0]);
    assert forall j :: 0 <= j < |evs[1..]| ==> evs[1..][j] == evs[j + 1];
    if k == 0 {
      AtomicRunKeeps(Do(l, evs[0]), evs[1..]);
    } else {
      PassRestoresPrefix(Do(l, evs[0]), evs[1..], k - 1);
    }
  }

  /** Over every run, visits interleaved at will: the chains split the slots and are in order, no
      request is completed early, and requests accepted are those posted plus those pending. Completed
      requests also come first without interleaved visits, and from the last whole pass on. */
  lemma {:induction false} RunKeeps(l: Log, evs: seq<Event>)
    requires l.s.Safe() && Accounted(l) && Possible(l, evs)
    ensures Run(l, evs).s.Safe() && Accounted(Run(l, evs))
    ensures l.s.Inv() && NoVisits(evs) ==> Run(l, evs).s.Inv()
    ensures forall k: nat :: SettledAt(evs, k) ==> Run(l, evs).s.Inv()
    decreases |evs|
  {
    hide Accounted, Sched.Sorted, Sched.NotEarly, Sched.DoneFirst;
    if evs != [] {
      DoKeeps(l, evs[0]);
      RunKeeps(Do(l, evs[0]), evs[1..]);
    }
    if l.s.Inv() && NoVisits(evs) {
      AtomicRunKeeps(l, evs);
    }
    forall k: nat | SettledAt(evs, k)
      ensures Run(l, evs).s.Inv()
    {
      PassRestoresPrefix(l, evs, k);
    }
  }

  lemma InitKeeps(n: nat)
    requires n >= 1
    ensures InitTable(n).Inv() && Accounted(Log(InitTable(n), [], []))
  {
    var s := InitTable(n);
    assert s.free + s.io == s.free;
  }
}
