/** One I/O worker's table (struct nvmev_proc_info) as a value: a fixed set of slots, the chain of
    free slots and the chain of requests in flight. The dispatcher enqueues and reclaims, the worker
    visits slots and completes them. */
module Scheds {
  import opened Common

  datatype Req = Req(sqid: nat, cqid: nat, sqEntry: nat, commandId: nat, start: nat, target: nat,
                     copied: bool, completed: bool)

  /** What __fill_cq_result is called with; `due` is history, the target of the request. */
  datatype Post = Post(sqid: nat, cqid: nat, sqEntry: nat, commandId: nat, due: nat)

  function Tag(r: Req): (p: Post) { Post(r.sqid, r.cqid, r.sqEntry, r.commandId, r.target) }

  datatype Sched = Sched(slots: seq<Req>, free: seq<nat>, io: seq<nat>, now: nat) {

    /** The two chains split the slots, and the free chain is never empty. */
    ghost predicate Split() {
      && |free| >= 1
      && (forall i :: 0 <= i < |free| ==> free[i] < |slots|)
      && (forall i :: 0 <= i < |io| ==> io[i] < |slots|)
      && Distinct(free + io)
      && |free| + |io| == |slots|
    }

    /** The order of the in-flight chain: targets already reached are all alike. */
    function Key(e: nat): (k: nat)
      requires e < |slots|
    {
      Max(slots[e].target, now)
    }

    ghost predicate Sorted()
      requires Split()
    {
      forall i, j :: 0 <= i < j < |io| ==> Key(io[i]) <= Key(io[j])
    }

    /** Nothing is completed before its target or before its data is copied. */
    ghost predicate NotEarly()
      requires Split()
    {
      forall i :: 0 <= i < |io| && slots[io[i]].completed ==>
        slots[io[i]].copied && slots[io[i]].target <= now
    }

    /** Completed requests come first. */
    ghost predicate DoneFirst()
      requires Split()
    {
      forall i, j :: 0 <= i < j < |io| && slots[io[j]].completed ==> slots[io[i]].completed
    }

    /** What survives any interleaving of dispatcher and worker steps. */
    ghost predicate Safe() {
      Split() && Sorted() && NotEarly()
    }

    /** What holds when every worker pass is one step. */
    ghost predicate Inv() {
      Safe() && DoneFirst()
    }

    // ---------- dispatcher ----------

    /** The backward walk of __enqueue_io_req over the first k in-flight requests: where a request
        with this target goes. */
    function InsertAt(target: nat, k: nat): (p: nat)
      requires k <= |io| && forall i :: 0 <= i < |io| ==> io[i] < |slots|
      ensures p <= k
    {
      if k == 0 then 0
      else if slots[io[k - 1]].target <= now || slots[io[k - 1]].target <= target then k
      else InsertAt(target, k - 1)
    }

    /** The last free slot is never handed out. */
    predicate Refuses() { |free| <= 1 }

    function Enqueue(r: Req): (s: Sched)
      requires Split()
      ensures s.now == now && |s.slots| == |slots|
    {
      if Refuses() then this
      else
        var e := free[0];
        var k := InsertAt(r.target, |io|);
        Sched(slots[e := r.(copied := false, completed := false)], free[1..], io[..k] + [e] + io[k..], now)
    }

    predicate Reclaimable(e: nat)
      requires e < |slots|
    {
      slots[e].completed && slots[e].copied && slots[e].target <= now
    }

    /** How many requests, from number i on, the reclaim loop passes. */
    function DoneCount(i: nat): (n: nat)
      requires i <= |io| && forall j :: 0 <= j < |io| ==> io[j] < |slots|
      ensures i + n <= |io|
      ensures forall j :: i <= j < i + n ==> Reclaimable(io[j])
      ensures i + n < |io| ==> !Reclaimable(io[i + n])
      decreases |io| - i
    {
      if i < |io| && Reclaimable(io[i]) then 1 + DoneCount(i + 1) else 0
    }

    function Reclaim(): (s: Sched)
      requires Split()
      ensures s.now == now && s.slots == slots
    {
      var n := DoneCount(0);
      Sched(slots, free + io[..n], io[n..], now)
    }

    // ---------- worker ----------

    /** The visit of slot e when the clock reads clk. */
    function Visit(e: nat, clk: nat): (s: Sched)
      requires e < |slots|
      ensures s.io == io && s.free == free && s.now == clk && |s.slots| == |slots|
    {
      if slots[e].completed then this.(now := clk)
      else if slots[e].target <= clk then
        this.(now := clk, slots := slots[e := slots[e].(copied := true, completed := true)])
      else this.(now := clk, slots := slots[e := slots[e].(copied := true)])
    }

    function VisitPosts(e: nat, clk: nat): (posts: seq<Post>)
      requires e < |slots|
    {
      if !slots[e].completed && slots[e].target <= clk then [Tag(slots[e])] else []
    }

    predicate VisitEndsPass(e: nat, clk: nat)
      requires e < |slots|
    {
      !slots[e].completed && slots[e].target > clk
    }

    /** The worker's walk from the i-th request on; clock(i) is the reading at the i-th visit. */
    function Pass(clock: nat -> nat, i: nat): (r: (Sched, seq<Post>))
      requires i <= |io| && forall j :: 0 <= j < |io| ==> io[j] < |slots|
      ensures r.0.io == io && r.0.free == free && |r.0.slots| == |slots|
      decreases |io| - i
    {
      if i == |io| then (this, [])
      else
        var e, clk := io[i], clock(i);
        if VisitEndsPass(e, clk) then (Visit(e, clk), [])
        else
          var rest := Visit(e, clk).Pass(clock, i + 1);
          (rest.0, VisitPosts(e, clk) + rest.1)
    }
  }

  /** The table after NVMEV_IO_PROC_INIT. */
  function InitTable(n: nat): (s: Sched)
    requires n >= 1
    ensures |s.slots| == |s.free| == n && s.io == [] && s.now == 0
    ensures forall i :: 0 <= i < n ==> s.free[i] == i && !s.slots[i].completed && !s.slots[i].copied
  {
    Sched(seq(n, i => Req(0, 0, 0, 0, 0, 0, false, false)), seq(n, i requires 0 <= i => i), [], 0)
  }

  // ---------- enqueue ----------

  /** Where the walk stops: everything before is due no later, everything after is due strictly
      later. So the new request goes behind its equals. */
  lemma {:induction false} InsertAtSplits(s: Sched, target: nat, k: nat)
    requires s.Split() && s.Sorted() && k <= |s.io|
    requires forall i :: k <= i < |s.io| ==> s.Key(s.io[i]) > Max(target, s.now)
    ensures var p := s.InsertAt(target, k);
            && (forall i :: 0 <= i < p ==> s.Key(s.io[i]) <= Max(target, s.now))
            && (forall i :: p <= i < |s.io| ==> s.Key(s.io[i]) > Max(target, s.now))
    decreases k
  {
    if k > 0 && s.slots[s.io[k - 1]].target > s.now && s.slots[s.io[k - 1]].target > target {
      InsertAtSplits(s, target, k - 1);
    }
  }

  /** Moving the first free slot into the in-flight chain at k keeps the split. */
  lemma InsertSplit(s: Sched, t: Sched, k: nat)
    requires s.Split() && |s.free| > 1 && k <= |s.io| && |t.slots| == |s.slots|
    requires t.free == s.free[1..] && t.io == s.io[..k] + [s.free[0]] + s.io[k..]
    ensures t.Split()
  {
    var x, y, f := s.free + s.io, t.free + t.io, |s.free| - 1;
    forall i, j | 0 <= i < j < |y|
      ensures y[i] != y[j]
    {
      var i', j' := Source(i, f, k), Source(j, f, k);
      assert y[i] == x[i'] && y[j] == x[j'];
      if i' < j' { assert x[i'] != x[j']; } else { assert x[j'] != x[i']; }
    }
  }

  /** Where the i-th entry of the two chains after an insertion at k came from. */
  function Source(i: nat, f: nat, k: nat): (j: nat) {
    if i < f + k then i + 1 else if i == f + k then 0 else i
  }

  /** t.io is s.io with e inserted at k. */
  ghost predicate Inserted(s: Sched, t: Sched, e: nat, k: nat) {
    && k <= |s.io| && |t.io| == |s.io| + 1
    && t.io[k] == e
    && (forall i :: 0 <= i < k ==> t.io[i] == s.io[i])
    && (forall i :: k < i < |t.io| ==> t.io[i] == s.io[i - 1])
  }

  /** The walk's stopping place: requests due no later stay ahead, requests due later fall behind. */
  ghost predicate Behind(s: Sched, target: nat, k: nat)
    requires s.Split()
  {
    && k <= |s.io|
    && (forall i :: 0 <= i < k ==> s.Key(s.io[i]) <= Max(target, s.now))
    && (forall i :: k <= i < |s.io| ==> s.Key(s.io[i]) > Max(target, s.now))
  }

  lemma EnqueuePlaces(s: Sched, r: Req)
    requires s.Safe() && !s.Refuses()
    ensures var t, k, e := s.Enqueue(r), s.InsertAt(r.target, |s.io|), s.free[0];
            && Inserted(s, t, e, k) && Behind(s, r.target, k)
            && e < |s.slots| && (forall i :: 0 <= i < |s.io| ==> s.io[i] != e)
            && t.slots == s.slots[e := r.(copied := false, completed := false)] && t.now == s.now
  {
    InsertAtSplits(s, r.target, |s.io|);
    FreeIsNotInFlight(s);
  }

  /** t is s with a new uncompleted request e at k, behind those due no later. */
  ghost predicate Slipped(s: Sched, t: Sched, r: Req, e: nat, k: nat)
    requires s.Split()
  {
    && Inserted(s, t, e, k) && Behind(s, r.target, k)
    && e < |s.slots| && (forall i :: 0 <= i < |s.io| ==> s.io[i] != e)
    && t.slots == s.slots[e := r.(copied := false, completed := false)] && t.now == s.now
  }

  /** Entry i of the new chain is the new request or an old entry unchanged. */
  lemma EntryOf(s: Sched, t: Sched, r: Req, e: nat, k: nat, i: nat)
    requires s.Split() && t.Split() && Slipped(s, t, r, e, k) && i < |t.io|
    ensures i == k ==> t.io[i] == e && !t.slots[e].completed && t.Key(e) == Max(r.target, s.now)
    ensures i != k ==>
              var j := if i < k then i else i - 1;
              t.io[i] == s.io[j] && t.slots[t.io[i]] == s.slots[s.io[j]] && t.Key(t.io[i]) == s.Key(s.io[j])
  {
  }

  lemma InsertedKeepsSorted(s: Sched, t: Sched, r: Req, e: nat, k: nat)
    requires s.Split() && t.Split() && s.Sorted() && Slipped(s, t, r, e, k)
    ensures t.Sorted()
  {
    forall i, j | 0 <= i < j < |t.io|
      ensures t.Key(t.io[i]) <= t.Key(t.io[j])
    {
      EntryOf(s, t, r, e, k, i);
      EntryOf(s, t, r, e, k, j);
    }
  }

  lemma InsertedKeepsDone(s: Sched, t: Sched, r: Req, e: nat, k: nat)
    requires s.Split() && t.Split() && s.NotEarly() && s.Sorted() && Slipped(s, t, r, e, k)
    ensures t.NotEarly() && (s.DoneFirst() ==> t.DoneFirst())
  {
    hide Sched.Sorted;
    forall i: nat | i < |t.io|
      ensures i == k ==> !t.slots[t.io[i]].completed
      ensures i != k ==> t.slots[t.io[i]] == s.slots[s.io[if i < k then i else i - 1]]
    {
      EntryOf(s, t, r, e, k, i);
    }
    forall i | k <= i < |s.io|
      ensures !s.slots[s.io[i]].completed
    {
      assert s.Key(s.io[i]) > s.now;
    }
  }

  lemma InsertedKeepsOrder(s: Sched, t: Sched, r: Req, e: nat, k: nat)
    requires s.Safe() && t.Split() && Slipped(s, t, r, e, k)
    ensures t.Safe() && (s.DoneFirst() ==> t.DoneFirst())
  {
    hide Slipped, Sched.Sorted, Sched.NotEarly, Sched.DoneFirst;
    InsertedKeepsSorted(s, t, r, e, k);
    InsertedKeepsDone(s, t, r, e, k);
  }

  /** enqueue keeps the order, is stable, touches no other request, and is refused exactly when one
      free slot is left. */
  lemma EnqueueKeeps(s: Sched, r: Req)
    requires s.Safe()
    ensures s.Refuses() <==> |s.free| == 1
    ensures s.Enqueue(r).Safe() && (s.Inv() ==> s.Enqueue(r).Inv())
    ensures s.Refuses() ==> s.Enqueue(r) == s
    ensures !s.Refuses() ==> exists k :: Inserted(s, s.Enqueue(r), s.free[0], k) && Behind(s, r.target, k)
    ensures forall i :: 0 <= i < |s.io| ==> s.Enqueue(r).slots[s.io[i]] == s.slots[s.io[i]]
  {
    if !s.Refuses() {
      InsertSplit(s, s.Enqueue(r), s.InsertAt(r.target, |s.io|));
      EnqueuePlaces(s, r);
      InsertedKeepsOrder(s, s.Enqueue(r), r, s.free[0], s.InsertAt(r.target, |s.io|));
    }
  }

  lemma FreeIsNotInFlight(s: Sched)
    requires s.Split()
    ensures forall i, j :: 0 <= i < |s.free| && 0 <= j < |s.io| ==> s.free[i] != s.io[j]
  {
    forall i, j | 0 <= i < |s.free| && 0 <= j < |s.io|
      ensures s.free[i] != s.io[j]
    {
      assert (s.free + s.io)[i] != (s.free + s.io)[|s.free| + j];
    }
  }

  // ---------- reclaim ----------

  lemma ReclaimSplit(s: Sched)
    requires s.Split()
    ensures s.Reclaim().Split()
  {
    var t := s.Reclaim();
    assert t.free + t.io == s.free + s.io;
  }

  /** t is s with the first n requests in flight, all completed, moved to the end of the free chain. */
  ghost predicate Reclaimed(s: Sched, t: Sched, n: nat)
    requires s.Split()
  {
    && n <= |s.io|
    && t == Sched(s.slots, s.free + s.io[..n], s.io[n..], s.now)
    && forall i :: 0 <= i < n ==> s.slots[s.io[i]].completed
  }

  /** reclaim keeps the invariant, and with atomic passes it frees every completed request and no
      other. */
  lemma ReclaimKeeps(s: Sched)
    requires s.Safe()
    ensures s.Reclaim().Safe() && (s.Inv() ==> s.Reclaim().Inv())
    ensures exists n :: Reclaimed(s, s.Reclaim(), n)
    ensures s.Inv() ==> forall i :: 0 <= i < |s.Reclaim().io| ==> !s.slots[s.Reclaim().io[i]].completed
  {
    var t, n := s.Reclaim(), s.DoneCount(0);
    ReclaimSplit(s);
    assert forall i :: 0 <= i < |t.io| ==> t.io[i] == s.io[i + n];
    assert Reclaimed(s, t, n);
  }

  // ---------- visits, in any order ----------

  /** The order survives the clock: it compares targets only once they are all still ahead. */
  lemma VisitKeepsSafe(s: Sched, e: nat, clk: nat)
    requires s.Safe() && e in s.io && clk >= s.now
    ensures e < |s.slots| && s.Visit(e, clk).Safe()
  {
    var t := s.Visit(e, clk);
    forall i, j | 0 <= i < j < |t.io|
      ensures t.Key(t.io[i]) <= t.Key(t.io[j])
    {
      assert s.Key(s.io[i]) <= s.Key(s.io[j]);
    }
  }

  /** A post carries the numbers of the request it answers. */
  ghost predicate Answers(p: Post, r: Req) {
    && p.sqid == r.sqid && p.cqid == r.cqid && p.sqEntry == r.sqEntry && p.commandId == r.commandId
    && p.due == r.target
  }

  /** A visit copies a request, and completes it exactly when its target is reached; it posts once, for
      the request it completes, and touches no other slot. */
  lemma VisitIsNotEarly(s: Sched, e: nat, clk: nat)
    requires e < |s.slots|
    ensures var r, t := s.slots[e], s.Visit(e, clk);
            && (r.completed ==> t.slots == s.slots && s.VisitPosts(e, clk) == [])
            && (!r.completed ==>
                  && t.slots[e].copied && (t.slots[e].completed <==> r.target <= clk)
                  && t.slots[e].(copied := r.copied, completed := false) == r)
            && (!r.completed && r.target > clk ==> s.VisitPosts(e, clk) == [])
            && (!r.completed && r.target <= clk ==>
                  |s.VisitPosts(e, clk)| == 1 && Answers(s.VisitPosts(e, clk)[0], r))
            && (forall x :: 0 <= x < |s.slots| && x != e ==> t.slots[x] == s.slots[x])
  {
  }

  // ---------- a whole pass ----------

  ghost predicate Ticking(clock: nat -> nat, from: nat) {
    && clock(0) >= from
    && forall i: nat, j: nat :: i <= j ==> clock(i) <= clock(j)
  }

  ghost predicate DoneBefore(s: Sched, i: nat)
    requires s.Split() && i <= |s.io|
  {
    forall j :: 0 <= j < i ==> s.slots[s.io[j]].completed
  }

  /** Time has moved on, requests have only been copied and completed. */
  ghost predicate Advanced(s: Sched, t: Sched) {
    && t.now >= s.now && t.io == s.io && t.free == s.free && |t.slots| == |s.slots|
    && forall e :: 0 <= e < |s.slots| ==>
         && t.slots[e].target == s.slots[e].target
         && Tag(t.slots[e]) == Tag(s.slots[e])
         && (s.slots[e].completed ==> t.slots[e] == s.slots[e])
         && (e !in s.io ==> t.slots[e] == s.slots[e])
  }

  /** No request whose target has been reached is left uncompleted. */
  ghost predicate NothingDue(t: Sched)
    requires t.Split()
  {
    forall j :: 0 <= j < |t.io| && t.slots[t.io[j]].target <= t.now ==> t.slots[t.io[j]].completed
  }

  lemma VisitAdvances(s: Sched, e: nat, clk: nat)
    requires e in s.io && e < |s.slots| && clk >= s.now
    ensures Advanced(s, s.Visit(e, clk))
  {
  }

  /** A pass that starts with everything before i completed leaves nothing due, and completed
      requests come first again, whatever interleaving did to them before. */
  lemma {:induction false} PassKeeps(s: Sched, clock: nat -> nat, i: nat)
    requires s.Safe() && i <= |s.io| && DoneBefore(s, i)
    requires Ticking(clock, 0) && (i < |s.io| ==> clock(i) >= s.now)
    ensures var t := s.Pass(clock, i).0;
            t.Inv() && Advanced(s, t) && NothingDue(t)
    decreases |s.io| - i
  {
    hide Sched.Visit, Sched.VisitPosts;
    if i < |s.io| {
      var e, clk := s.io[i], clock(i);
      var t := s.Visit(e, clk);
      VisitKeepsSafe(s, e, clk);
      VisitAdvances(s, e, clk);
      VisitCursor(s, i, clk);
      if s.VisitEndsPass(e, clk) {
        StillAhead(s, e, clk);
        NothingDueBehind(t, i);
      } else {
        assert clock(i) <= clock(i + 1);
        PassKeeps(t, clock, i + 1);
      }
    }
  }

  lemma StillAhead(s: Sched, e: nat, clk: nat)
    requires e < |s.slots| && s.VisitEndsPass(e, clk)
    ensures s.Visit(e, clk).slots[e].target > s.Visit(e, clk).now
  {
  }

  /** The visit at the cursor moves the completed prefix on, or ends the pass. */
  lemma VisitCursor(s: Sched, i: nat, clk: nat)
    requires s.Split() && i < |s.io| && DoneBefore(s, i) && s.Visit(s.io[i], clk).Split()
    ensures var t := s.Visit(s.io[i], clk);
            if s.VisitEndsPass(s.io[i], clk) then DoneBefore(t, i) else DoneBefore(t, i + 1)
  {
    SlotsDistinct(s);
  }

  lemma SlotsDistinct(s: Sched)
    requires s.Split()
    ensures forall i, j :: 0 <= i < j < |s.io| ==> s.io[i] != s.io[j]
  {
    forall i, j | 0 <= i < j < |s.io|
      ensures s.io[i] != s.io[j]
    {
      assert (s.free + s.io)[|s.free| + i] != (s.free + s.io)[|s.free| + j];
    }
  }

  /** Behind a request that is still ahead of the clock everything is still ahead. */
  lemma NothingDueBehind(t: Sched, i: nat)
    requires t.Safe() && i < |t.io| && DoneBefore(t, i) && t.slots[t.io[i]].target > t.now
    ensures NothingDue(t) && t.DoneFirst()
  {
    forall j | i < j < |t.io|
      ensures t.slots[t.io[j]].target > t.now
    {
      assert t.Key(t.io[i]) <= t.Key(t.io[j]);
    }
  }

  /** Once every target is reached a pass completes everything, and the next reclaim empties the
      chain. */
  lemma QuietPassDrains(s: Sched, clock: nat -> nat)
    requires s.Safe() && Ticking(clock, s.now)
    requires forall i :: 0 <= i < |s.io| ==> s.slots[s.io[i]].target <= clock(0)
    ensures s.Pass(clock, 0).0.Inv() && s.Pass(clock, 0).0.Reclaim().io == []
  {
    PassKeeps(s, clock, 0);
    var t := s.Pass(clock, 0).0;
    if s.io != [] {
      PassReachesClock(s, clock, 0);
    }
    ReclaimKeeps(t);
  }

  lemma {:induction false} PassReachesClock(s: Sched, clock: nat -> nat, i: nat)
    requires s.Split() && i < |s.io| && Ticking(clock, 0)
    ensures s.Pass(clock, i).0.now >= clock(0)
    decreases |s.io| - i
  {
    assert clock(0) <= clock(i);
    var e, clk := s.io[i], clock(i);
    if !s.VisitEndsPass(e, clk) && i + 1 < |s.io| {
      assert s.Visit(e, clk).Split();
      PassReachesClock(s.Visit(e, clk), clock, i + 1);
    }
  }

  // ---------- the clock may advance while the dispatcher walks ----------

  /** The backward walk when the worker moves proc_io_nsecs on meanwhile: seen(k) is the value seen
      at the k-th request. */
  function RacyInsertAt(s: Sched, target: nat, seen: nat -> nat, k: nat): (p: nat)
    requires s.Split() && k <= |s.io|
    ensures p <= k
  {
    if k == 0 then 0
    else if s.slots[s.io[k - 1]].target <= seen(k) || s.slots[s.io[k - 1]].target <= target then k
    else RacyInsertAt(s, target, seen, k - 1)
  }

  lemma {:induction false} RacyInsertSplits(s: Sched, target: nat, seen: nat -> nat, k: nat, now: nat)
    requires s.Split() && s.Sorted() && k <= |s.io| && now >= s.now
    requires forall i: nat :: s.now <= seen(i) <= now
    requires forall i :: k <= i < |s.io| ==> s.slots[s.io[i]].target >= target
    ensures var p := RacyInsertAt(s, target, seen, k); var t := s.(now := now);
            && (forall i :: 0 <= i < p ==> t.Key(s.io[i]) <= Max(target, now))
            && (forall i :: p <= i < |s.io| ==> s.slots[s.io[i]].target >= target)
    decreases k
  {
    if k > 0 {
      var last := s.slots[s.io[k - 1]].target;
      if last > seen(k) && last > target {
        RacyInsertSplits(s, target, seen, k - 1, now);
      } else {
        forall i | 0 <= i < k
          ensures s.Key(s.io[i]) <= s.Key(s.io[k - 1])
        {
        }
      }
    }
  }

  /** Even so the chain ends up in order, at the clock value the walk ends with. */
  lemma RacyEnqueueSorted(s: Sched, r: Req, seen: nat -> nat, now: nat)
    requires s.Split() && s.Sorted() && !s.Refuses() && now >= s.now
    requires forall i: nat :: s.now <= seen(i) <= now
    ensures var p := RacyInsertAt(s, r.target, seen, |s.io|);
            var t := Sched(s.slots[s.free[0] := r], s.free[1..], s.io[..p] + [s.free[0]] + s.io[p..], now);
            t.Split() && t.Sorted()
  {
    var p, e := RacyInsertAt(s, r.target, seen, |s.io|), s.free[0];
    var t := Sched(s.slots[e := r], s.free[1..], s.io[..p] + [e] + s.io[p..], now);
    InsertSplit(s, t, p);
    RacyInsertSplits(s, r.target, seen, |s.io|, now);
    FreeIsNotInFlight(s);
    WeaklySorted(s, t, r, e, p);
  }

  lemma WeaklySorted(s: Sched, t: Sched, r: Req, e: nat, p: nat)
    requires s.Split() && s.Sorted() && t.Split() && t.now >= s.now && Inserted(s, t, e, p)
    requires e < |s.slots| && t.slots == s.slots[e := r] && forall i :: 0 <= i < |s.io| ==> s.io[i] != e
    requires forall i :: 0 <= i < p ==> s.(now := t.now).Key(s.io[i]) <= Max(r.target, t.now)
    requires forall i :: p <= i < |s.io| ==> s.slots[s.io[i]].target >= r.target
    ensures t.Sorted()
  {
    forall i, j | 0 <= i < j < |t.io|
      ensures t.Key(t.io[i]) <= t.Key(t.io[j])
    {
      if i == p {
        assert t.io[j] == s.io[j - 1];
      } else if j == p {
        assert t.io[i] == s.io[i];
      } else {
        var i', j' := if i < p then i else i - 1, if j < p then j else j - 1;
        assert t.io[i] == s.io[i'] && t.io[j] == s.io[j'];
        assert s.Key(s.io[i']) <= s.Key(s.io[j']);
      }
    }
  }

  // ---------- when an interleaved step breaks the completed prefix ----------

  /** A visit anywhere keeps completed requests first exactly when it completes nothing new or has
      only completed requests ahead of it. */
  lemma VisitKeepsPrefixExactly(s: Sched, i: nat, clk: nat)
    requires s.Split() && s.DoneFirst() && i < |s.io|
    ensures s.Visit(s.io[i], clk).Split()
    ensures s.Visit(s.io[i], clk).DoneFirst() <==>
              s.slots[s.io[i]].completed || s.slots[s.io[i]].target > clk || DoneBefore(s, i)
  {
    SlotsDistinct(s);
    var t := s.Visit(s.io[i], clk);
    SplitOfVisit(s, s.io[i], clk);
    if !s.slots[s.io[i]].completed && s.slots[s.io[i]].target <= clk && !DoneBefore(s, i) {
      var j :| 0 <= j < i && !s.slots[s.io[j]].completed;
      assert t.slots[t.io[i]].completed && !t.slots[t.io[j]].completed;
    }
  }

  lemma SplitOfVisit(s: Sched, e: nat, clk: nat)
    requires s.Split() && e < |s.slots|
    ensures s.Visit(e, clk).Split()
  {
  }

  /** The worker waits at the first uncompleted request, number i, and a request r is queued before it
      visits. The prefix breaks exactly when the waiting request was still ahead of the clock, so that
      the walk could pass it, r is due before it, and the visit completes it. */
  lemma InterleavingBreaksExactly(s: Sched, r: Req, i: nat, clk: nat)
    requires s.Inv() && !s.Refuses() && clk >= s.now
    requires i < |s.io| && DoneBefore(s, i) && !s.slots[s.io[i]].completed
    ensures s.io[i] < |s.slots| && s.Enqueue(r).Split() && s.Enqueue(r).Visit(s.io[i], clk).Split()
    ensures s.Enqueue(r).Visit(s.io[i], clk).DoneFirst() <==>
              !(s.now < s.slots[s.io[i]].target <= clk && r.target < s.slots[s.io[i]].target)
  {
    hide Sched.Enqueue, Sched.Visit, Sched.InsertAt;
    EnqueueKeeps(s, r);
    EnqueuePlaces(s, r);
    var t, k := s.Enqueue(r), s.InsertAt(r.target, |s.io|);
    SlotsDistinct(s);
    var j := if i < k then i else i + 1;
    assert t.io[j] == s.io[i] && t.slots[t.io[j]] == s.slots[s.io[i]];
    VisitKeepsPrefixExactly(t, j, clk);
    BehindCursor(s, t, r, i, k);
  }

  /** Everything ahead of the cursor is completed after the insertion exactly when the new request
      went behind it. */
  lemma BehindCursor(s: Sched, t: Sched, r: Req, i: nat, k: nat)
    requires s.Split() && t.Split() && i < |s.io| && DoneBefore(s, i) && Behind(s, r.target, k)
    requires Inserted(s, t, s.free[0], k) && t.slots == s.slots[s.free[0] := r.(copied := false, completed := false)]
    ensures DoneBefore(t, if i < k then i else i + 1) <==> i < k
    ensures i < k <==> s.slots[s.io[i]].target <= Max(r.target, s.now)
  {
    FreeIsNotInFlight(s);
    if i < k {
      forall j | 0 <= j < i
        ensures t.slots[t.io[j]].completed
      {
        assert t.io[j] == s.io[j];
      }
    } else {
      assert t.io[k] == s.free[0] && !t.slots[t.io[k]].completed;
    }
  }

  // ---------- a run that breaks it ----------

  function Fresh(id: nat, target: nat): (r: Req) { Req(1, 1, id, id, 0, target, false, false) }

  /** Two requests in flight, due at 10 and at 100. */
  function TwoWaiting(): (s: Sched) {
    Sched([Fresh(0, 10), Fresh(1, 100), Fresh(2, 0), Fresh(3, 0)], [2, 3], [0, 1], 0)
  }

  function Done(r: Req): (d: Req) { r.(copied := true, completed := true) }

  function OneDone(): (s: Sched) {
    Sched([Done(Fresh(0, 10)), Fresh(1, 100), Fresh(2, 0), Fresh(3, 0)], [2, 3], [0, 1], 20)
  }

  function SlippedIn(): (s: Sched) {
    Sched([Done(Fresh(0, 10)), Fresh(1, 100), Fresh(9, 0), Fresh(3, 0)], [3], [0, 2, 1], 20)
  }

  lemma FlushSlipsIn()
    ensures OneDone().Split() && OneDone().Enqueue(Fresh(9, 0)) == SlippedIn()
  {
    var a := OneDone();
    assert a.InsertAt(0, 2) == a.InsertAt(0, 1) == 1;
    assert a.io[..1] + [2] + a.io[1..] == [0, 2, 1];
    assert a.free + a.io == [2, 3, 0, 1];
  }

  lemma FirstVisit()
    ensures TwoWaiting().Inv() && TwoWaiting().Visit(0, 20) == OneDone()
  {
    assert TwoWaiting().free + TwoWaiting().io == [2, 3, 0, 1];
  }

  function OutOfOrder(): (s: Sched) {
    Sched([Done(Fresh(0, 10)), Done(Fresh(1, 100)), Fresh(9, 0), Fresh(3, 0)], [3], [0, 2, 1], 110)
  }

  lemma SecondVisit()
    ensures SlippedIn().Visit(1, 110) == OutOfOrder() && OutOfOrder().Safe()
  {
    assert OutOfOrder().free + OutOfOrder().io == [3, 0, 2, 1];
  }

  /** With the worker between two visits the dispatcher may put a request that is due at once
      behind the completed ones but ahead of the worker's cursor: then a completed request has an
      uncompleted one ahead of it, and reclaim leaves it behind. Passes that are one step never see
      this. */
  lemma InterleavingBreaksDoneFirst()
    ensures TwoWaiting().Inv() && TwoWaiting().Visit(0, 20) == OneDone()
    ensures OneDone().Split() && OneDone().Enqueue(Fresh(9, 0)) == SlippedIn()
    ensures SlippedIn().Visit(1, 110) == OutOfOrder()
    ensures OutOfOrder().Safe() && !OutOfOrder().DoneFirst() && OutOfOrder().Reclaim().io == [2, 1]
  {
    hide TwoWaiting, OneDone, SlippedIn;
    FirstVisit();
    FlushSlipsIn();
    SecondVisit();
    var s := OutOfOrder();
    assert s.io[1] == 2 && s.io[2] == 1 && !s.slots[2].completed && s.slots[1].completed;
    assert s.DoneCount(0) == 1 + s.DoneCount(1) == 1;
  }
}
