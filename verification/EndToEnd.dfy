/** The whole path of a command: translation layer, worker table, completion queue and host in one
    transition system. One worker; the completion queue cq is watched, others are left alone. */
module EndToEnd {
  import Common
  import opened Geometries
  import opened Ssds
  import Mapping
  import Start
  import opened Runs
  import opened GcTiming
  import opened Scheds
  import S = SchedRuns
  import opened CompletionRing
  import opened Devices

  /** `stamps` is history: the clock reading at which each request was posted. */
  datatype World = World(ssd: Ssd, luns: Luns, log: S.Log, stamps: seq<nat>, host: System)

  datatype Happening =
    | Submit(e: Sqe, cmd: Cmd, stime: nat, lat: nat, after: Luns)
    | Work(ev: S.Event)
    | Poll

  // ---------- posts of one completion queue ----------

  function OnQueue(posts: seq<Post>, cq: nat): (r: seq<Post>)
    decreases |posts|
  {
    if posts == [] then []
    else (if posts[0].cqid == cq then [posts[0]] else []) + OnQueue(posts[1..], cq)
  }

  lemma {:induction false} OnQueueAppend(a: seq<Post>, b: seq<Post>, cq: nat)
    ensures OnQueue(a + b, cq) == OnQueue(a, cq) + OnQueue(b, cq)
    decreases |a|
  {
    if a == [] {
      assert a + b == b;
    } else {
      assert (a + b)[1..] == a[1..] + b;
      OnQueueAppend(a[1..], b, cq);
      var x, y, z := if a[0].cqid == cq then [a[0]] else [], OnQueue(a[1..], cq), OnQueue(b, cq);
      assert OnQueue(a + b, cq) == x + (y + z) && x + (y + z) == (x + y) + z;
    }
  }

  /** Exactly the posts to that queue, each as often as it was made; by OnQueueAppend in order. */
  lemma {:induction false} OnQueueSelects(posts: seq<Post>, cq: nat, p: Post)
    ensures multiset(OnQueue(posts, cq))[p] == if p.cqid == cq then multiset(posts)[p] else 0
    decreases |posts|
  {
    if posts != [] {
      assert posts == [posts[0]] + posts[1..];
      OnQueueSelects(posts[1..], cq, p);
    }
  }

  function PostAll(host: System, posts: seq<Post>): (r: System)
    requires host.ring.Shape() && host.host.head < |host.ring.entries|
    decreases |posts|
  {
    if posts == [] then host else PostAll(Play(host, DevicePosts(posts[0])), posts[1..])
  }

  /** Posts that leave at most a ring full of completions unread keep the host in step. */
  lemma {:induction false} PostAllKeepsStep(host: System, posts: seq<Post>)
    requires InStep(host) && |host.posted| + |posts| <= |host.read| + |host.ring.entries|
    ensures host.ring.Shape() && InStep(PostAll(host, posts))
    ensures PostAll(host, posts).posted == host.posted + posts && PostAll(host, posts).read == host.read
    ensures |PostAll(host, posts).ring.entries| == |host.ring.entries|
    decreases |posts|
  {
    hide At;
    if posts == [] {
      assert host.posted + posts == host.posted;
    } else {
      PlayKeepsStep(host, DevicePosts(posts[0]));
      PostAllKeepsStep(Play(host, DevicePosts(posts[0])), posts[1..]);
      assert host.posted + posts == host.posted + [posts[0]] + posts[1..];
    }
  }

  // ---------- nothing is posted early ----------

  /** Every post was made at a clock reading at which it was due. */
  ghost predicate OnTime(posted: seq<Post>, stamps: seq<nat>, now: nat) {
    && |stamps| == |posted|
    && forall i :: 0 <= i < |posted| ==> posted[i].due <= stamps[i] <= now
  }

  /** The clock readings at the posts of a visit, of a pass from number i on, and of a worker step. */
  function VisitStamps(s: Sched, e: nat, clk: nat): (t: seq<nat>)
    requires e < |s.slots|
  {
    if s.VisitPosts(e, clk) == [] then [] else [clk]
  }

  function PassStamps(s: Sched, clock: nat -> nat, i: nat): (t: seq<nat>)
    requires i <= |s.io| && forall j :: 0 <= j < |s.io| ==> s.io[j] < |s.slots|
    decreases |s.io| - i
  {
    if i == |s.io| then []
    else
      var e, clk := s.io[i], clock(i);
      if s.VisitEndsPass(e, clk) then []
      else VisitStamps(s, e, clk) + PassStamps(s.Visit(e, clk), clock, i + 1)
  }

  ghost function Stamps(s: Sched, ev: S.Event): (t: seq<nat>)
    requires s.Split() && S.Enabled(s, ev)
  {
    match ev
    case Arrive(_) => []
    case Collect => []
    case WorkerPass(clock) => PassStamps(s, clock, 0)
    case WorkerVisit(e, clk) => VisitStamps(s, e, clk)
  }

  lemma OnTimeJoin(a: seq<Post>, x: seq<nat>, b: seq<Post>, y: seq<nat>, now: nat, later: nat)
    requires OnTime(a, x, now) && OnTime(b, y, later) && now <= later
    ensures OnTime(a + b, x + y, later)
  {
  }

  lemma {:induction false} PassOnTime(s: Sched, clock: nat -> nat, i: nat)
    requires s.Split() && i <= |s.io| && Ticking(clock, 0) && (i < |s.io| ==> clock(i) >= s.now)
    ensures var r := s.Pass(clock, i); r.0.now >= s.now && OnTime(r.1, PassStamps(s, clock, i), r.0.now)
    decreases |s.io| - i
  {
    if i < |s.io| {
      var e, clk := s.io[i], clock(i);
      if !s.VisitEndsPass(e, clk) {
        SplitOfVisit(s, e, clk);
        assert clock(i) <= clock(i + 1);
        var t := s.Visit(e, clk);
        PassOnTime(t, clock, i + 1);
        OnTimeJoin(s.VisitPosts(e, clk), VisitStamps(s, e, clk),
                   t.Pass(clock, i + 1).1, PassStamps(t, clock, i + 1), clk, t.Pass(clock, i + 1).0.now);
      }
    }
  }

  /** The posts of one worker step, each on time. */
  lemma StepOnTime(l: S.Log, ev: S.Event, stamps: seq<nat>)
    requires l.s.Safe() && S.Enabled(l.s, ev) && OnTime(l.posted, stamps, l.s.now)
    ensures l.posted <= S.Do(l, ev).posted
    ensures OnTime(S.Do(l, ev).posted, stamps + Stamps(l.s, ev), S.Do(l, ev).s.now)
  {
    match ev
    case Arrive(_) =>
    case Collect =>
    case WorkerPass(clock) =>
      PassOnTime(l.s, clock, 0);
      var r := l.s.Pass(clock, 0);
      OnTimeJoin(l.posted, stamps, r.1, PassStamps(l.s, clock, 0), l.s.now, r.0.now);
    case WorkerVisit(e, clk) =>
      OnTimeJoin(l.posted, stamps, l.s.VisitPosts(e, clk), VisitStamps(l.s, e, clk), l.s.now, clk);
  }

  // ---------- the transition system ----------

  ghost predicate Good(w: World, cq: nat) {
    && Mapping.Inv(w.ssd) && w.ssd.Shape() && |w.ssd.maptbl| == w.ssd.g.ttPgs && w.ssd.g.Positive()
    && Fitted(w.ssd.g, w.luns)
    && w.log.s.Safe() && S.Accounted(w.log)
    && OnTime(w.log.posted, w.stamps, w.log.s.now)
    && InStep(w.host) && w.host.posted == OnQueue(w.log.posted, cq)
  }

  lemma PostsGrow(l: S.Log, ev: S.Event)
    requires l.s.Safe() && S.Enabled(l.s, ev)
    ensures l.posted <= S.Do(l, ev).posted
  {
  }

  /** What a worker step posts. */
  ghost function NewPosts(l: S.Log, ev: S.Event): (p: seq<Post>)
    requires l.s.Safe() && S.Enabled(l.s, ev)
  {
    PostsGrow(l, ev);
    S.Do(l, ev).posted[|l.posted|..]
  }

  /** A command may be submitted when the device handles it in the latency it quotes; a worker step
      may happen when it does not leave more than a ring full of completions unread. */
  ghost predicate May(w: World, cq: nat, h: Happening, clock: nat -> nat)
    requires Good(w, cq)
  {
    match h
    case Submit(_, cmd, stime, lat, after) =>
      Step(w.ssd, cmd).Some? && stime != 0 && Handled(w.ssd, cmd, stime, w.luns, after, lat, clock)
    case Work(ev) =>
      && !ev.Arrive? && S.Enabled(w.log.s, ev)
      && |w.host.posted| + |OnQueue(NewPosts(w.log, ev), cq)| <= |w.host.read| + |w.host.ring.entries|
    case Poll => true
  }

  ghost function Arrived(l: S.Log, r: Req): (m: S.Log)
    requires l.s.Safe() && S.Accounted(l)
  {
    S.DoKeeps(l, S.Arrive(r));
    S.Do(S.Do(l, S.Arrive(r)), S.Collect)
  }

  ghost function Next(w: World, cq: nat, h: Happening, clock: nat -> nat): (v: World)
    requires Good(w, cq) && May(w, cq, h, clock)
  {
    match h
    case Submit(e, cmd, stime, lat, after) =>
      World(Step(w.ssd, cmd).value, after, Arrived(w.log, RequestOf(e, cmd, stime, lat)), w.stamps, w.host)
    case Work(ev) =>
      w.(log := S.Do(w.log, ev), stamps := w.stamps + Stamps(w.log.s, ev),
         host := PostAll(w.host, OnQueue(NewPosts(w.log, ev), cq)))
    case Poll => w.(host := Play(w.host, HostPolls))
  }

  lemma ArrivedKeeps(l: S.Log, r: Req)
    requires l.s.Safe() && S.Accounted(l)
    ensures var m := Arrived(l, r);
            && m.s.Safe() && S.Accounted(m) && m.posted == l.posted && m.s.now == l.s.now
            && m.accepted == if l.s.Refuses() then l.accepted else l.accepted + [Tag(r)]
  {
    hide S.Accounted, Sched.Sorted, Sched.NotEarly;
    S.DoKeeps(l, S.Arrive(r));
    S.DoKeeps(S.Do(l, S.Arrive(r)), S.Collect);
  }

  /** The worker table a submission leaves is the one the dispatcher's method leaves. */
  lemma ArrivedIsQueued(l: S.Log, r: Req)
    requires l.s.Safe() && S.Accounted(l)
    ensures Arrived(l, r).s == Queued(l.s, r)
  {
    hide S.Accounted, Sched.Sorted, Sched.NotEarly, Sched.Reclaim;
    QueuedIs(l.s, r);
  }

  lemma SubmitKeeps(w: World, cq: nat, e: Sqe, cmd: Cmd, stime: nat, lat: nat, after: Luns, clock: nat -> nat)
    requires Good(w, cq) && May(w, cq, Submit(e, cmd, stime, lat, after), clock)
    ensures Good(Next(w, cq, Submit(e, cmd, stime, lat, after), clock), cq)
  {
    hide Mapping.Inv, Ssd.Shape, Step, Handled, S.Accounted, Sched.Safe, InStep, OnQueue, Fitted, OnTime;
    StepRefines(w.ssd, cmd);
    SameLengths(Step(w.ssd, cmd).value);
    HandledFits(w.ssd, cmd, stime, w.luns, after, lat, clock);
    ArrivedKeeps(w.log, RequestOf(e, cmd, stime, lat));
  }

  lemma WorkKeeps(w: World, cq: nat, ev: S.Event, clock: nat -> nat)
    requires Good(w, cq) && May(w, cq, Work(ev), clock)
    ensures Good(Next(w, cq, Work(ev), clock), cq)
  {
    hide Mapping.Inv, Ssd.Shape, S.Accounted, InStep;
    var l, news := w.log, NewPosts(w.log, ev);
    S.DoKeeps(l, ev);
    StepOnTime(l, ev, w.stamps);
    assert S.Do(l, ev).posted == l.posted + news;
    OnQueueAppend(l.posted, news, cq);
    PostAllKeepsStep(w.host, OnQueue(news, cq));
  }

  lemma PollKeeps(w: World, cq: nat, clock: nat -> nat)
    requires Good(w, cq)
    ensures Good(Next(w, cq, Poll, clock), cq)
  {
    hide Mapping.Inv, Ssd.Shape, S.Accounted, Sched.Safe, InStep;
    PlayKeepsStep(w.host, HostPolls);
  }

  lemma NextKeeps(w: World, cq: nat, h: Happening, clock: nat -> nat)
    requires Good(w, cq) && May(w, cq, h, clock)
    ensures Good(Next(w, cq, h, clock), cq)
  {
    hide Good, May, Next;
    match h
    case Submit(e, cmd, stime, lat, after) => SubmitKeeps(w, cq, e, cmd, stime, lat, after, clock);
    case Work(ev) => WorkKeeps(w, cq, ev, clock);
    case Poll => PollKeeps(w, cq, clock);
  }

  // ---------- runs ----------

  ghost predicate Possible(w: World, cq: nat, hs: seq<Happening>, clock: nat -> nat)
    requires Good(w, cq)
    decreases |hs|
  {
    hs != [] ==>
      && May(w, cq, hs[0], clock)
      && (NextKeeps(w, cq, hs[0], clock); Possible(Next(w, cq, hs[0], clock), cq, hs[1..], clock))
  }

  ghost function End(w: World, cq: nat, hs: seq<Happening>, clock: nat -> nat): (v: World)
    requires Good(w, cq) && Possible(w, cq, hs, clock)
    decreases |hs|
  {
    if hs == [] then w
    else
      NextKeeps(w, cq, hs[0], clock);
      End(Next(w, cq, hs[0], clock), cq, hs[1..], clock)
  }

  function CommandOf(h: Happening): (cmds: seq<Cmd>) {
    if h.Submit? then [h.cmd] else []
  }

  /** The commands of a run, in order. */
  function Commands(hs: seq<Happening>): (cmds: seq<Cmd>)
    decreases |hs|
  {
    if hs == [] then [] else CommandOf(hs[0]) + Commands(hs[1..])
  }

  /** The request of a command: due at start plus quoted latency, at once for other opcodes. */
  function RequestIn(h: Happening): (posts: seq<Post>) {
    match h
    case Submit(e, cmd, stime, lat, _) =>
      [Post(e.sqid, e.cqid, e.sqEntry, e.commandId, if cmd.Other? then 0 else stime + lat)]
    case Work(_) => []
    case Poll => []
  }

  function Asked(hs: seq<Happening>): (posts: seq<Post>)
    decreases |hs|
  {
    if hs == [] then [] else RequestIn(hs[0]) + Asked(hs[1..])
  }

  /** One happening: a submitted command does to the contents what a plain array of pages would do, and
      is accepted exactly when more than one slot is free; the rest changes neither. */
  lemma NextEffect(w: World, cq: nat, h: Happening, clock: nat -> nat)
    requires Good(w, cq) && May(w, cq, h, clock)
    ensures var v := Next(w, cq, h, clock);
            && v.ssd.g == w.ssd.g && Good(v, cq)
            && v.ssd.View() == (if h.Submit? then HostStep(w.ssd.g, w.ssd.View(), h.cmd) else w.ssd.View())
            && v.log.accepted == w.log.accepted + (if |w.log.s.free| > 1 then RequestIn(h) else [])
            && w.host.read <= v.host.read
  {
    hide S.Accounted, InStep, Mapping.Inv, Ssd.Shape, Sched.Safe, OnTime, Good, HostStep, Step, Handled, OnQueue;
    NextKeeps(w, cq, h, clock);
    ReadStays(w, cq, h, clock);
    match h
    case Submit(e, cmd, stime, lat, after) => SubmitEffect(w, cq, e, cmd, stime, lat, after, clock);
    case Work(_) =>
      assert w.log.accepted + [] == w.log.accepted;
    case Poll =>
      assert w.log.accepted + [] == w.log.accepted;
  }

  lemma SubmitEffect(w: World, cq: nat, e: Sqe, cmd: Cmd, stime: nat, lat: nat, after: Luns, clock: nat -> nat)
    requires Good(w, cq) && May(w, cq, Submit(e, cmd, stime, lat, after), clock)
    ensures var v := Next(w, cq, Submit(e, cmd, stime, lat, after), clock);
            && Mapping.Inv(v.ssd) && v.ssd.g == w.ssd.g
            && v.ssd.View() == HostStep(w.ssd.g, w.ssd.View(), cmd)
            && v.log.accepted == w.log.accepted
                 + (if |w.log.s.free| > 1 then RequestIn(Submit(e, cmd, stime, lat, after)) else [])
  {
    hide S.Accounted, InStep, Mapping.Inv, Ssd.Shape, Sched.Safe, OnTime, HostStep, Step, Handled, OnQueue;
    StepRefines(w.ssd, cmd);
    ArrivedKeeps(w.log, RequestOf(e, cmd, stime, lat));
    assert w.log.accepted + [] == w.log.accepted;
  }

  /** What the host has read stays read. */
  lemma ReadStays(w: World, cq: nat, h: Happening, clock: nat -> nat)
    requires Good(w, cq) && May(w, cq, h, clock)
    ensures w.host.read <= Next(w, cq, h, clock).host.read
  {
    hide S.Accounted, InStep, Mapping.Inv, Ssd.Shape, Sched.Safe, OnTime;
    match h
    case Submit(_, _, _, _, _) =>
    case Work(ev) =>
      PostAllKeepsStep(w.host, OnQueue(NewPosts(w.log, ev), cq));
    case Poll =>
  }

  lemma HostRunFirst(g: Geometry, v: seq<Common.Option<nat>>, h: Happening, rest: seq<Cmd>)
    requires g.Positive() && |v| == g.ttPgs
    ensures HostRun(g, v, CommandOf(h) + rest) == HostRun(g, if h.Submit? then HostStep(g, v, h.cmd) else v, rest)
  {
    hide HostStep;
    if h.Submit? {
      assert ([h.cmd] + rest)[1..] == rest;
    } else {
      assert [] + rest == rest;
    }
  }

  /** Over every run: the device holds what a plain array of pages would after its commands; what was
      accepted are commands of the run, each with its own due time; each accepted command has been
      posted exactly once or is pending; each was posted at a clock reading at which it was due; and the host has read
      the first completions of its queue, once each and in order. */
  lemma {:induction false} CommandsAreAnswered(w: World, cq: nat, hs: seq<Happening>, clock: nat -> nat)
    requires Good(w, cq) && Possible(w, cq, hs, clock)
    ensures var v := End(w, cq, hs, clock);
            && Good(v, cq) && v.ssd.g == w.ssd.g
            && v.ssd.View() == HostRun(w.ssd.g, w.ssd.View(), Commands(hs))
            && multiset(v.log.accepted) <= multiset(w.log.accepted) + multiset(Asked(hs))
            && multiset(v.log.accepted) == multiset(v.log.posted) + S.Pending(v.log.s.slots, v.log.s.io)
            && OnTime(v.log.posted, v.stamps, v.log.s.now)
            && ReadInOrder(v.host, OnQueue(v.log.posted, cq))
    decreases |hs|
  {
    hide May, Next, Mapping.Inv, Ssd.Shape, Sched.Safe, InStep, S.Pending, HostStep, HostRun, RequestIn, CommandOf;
    if hs != [] {
      var v := Next(w, cq, hs[0], clock);
      NextKeeps(w, cq, hs[0], clock);
      NextEffect(w, cq, hs[0], clock);
      HostRunFirst(w.ssd.g, w.ssd.View(), hs[0], Commands(hs[1..]));
      CommandsAreAnswered(v, cq, hs[1..], clock);
      assert multiset(Asked(hs)) == multiset(RequestIn(hs[0])) + multiset(Asked(hs[1..]));
    } else {
      NothingRun(w.ssd.g, w.ssd.View());
    }
    InStepReads(End(w, cq, hs, clock).host);
  }

  lemma NothingRun(g: Geometry, v: seq<Common.Option<nat>>)
    requires g.Positive() && |v| == g.ttPgs
    ensures HostRun(g, v, []) == v
  {
  }

  /** The first happenings of a possible run are a possible run, so the theorem holds at every moment. */
  lemma {:induction false} PrefixIsPossible(
    w: World, cq: nat, hs: seq<Happening>, more: seq<Happening>, clock: nat -> nat)
    requires Good(w, cq) && Possible(w, cq, hs + more, clock)
    ensures Possible(w, cq, hs, clock) && Good(End(w, cq, hs, clock), cq)
    ensures Possible(End(w, cq, hs, clock), cq, more, clock)
    ensures End(End(w, cq, hs, clock), cq, more, clock) == End(w, cq, hs + more, clock)
    decreases |hs|
  {
    hide Good, May, Next;
    if hs == [] {
      assert hs + more == more;
    } else {
      NextKeeps(w, cq, hs[0], clock);
      assert (hs + more)[1..] == hs[1..] + more;
      PrefixIsPossible(Next(w, cq, hs[0], clock), cq, hs[1..], more, clock);
    }
  }

  /** A command whose write does not run out of lines can always be submitted, in some latency. */
  lemma MaySubmit(w: World, cq: nat, e: Sqe, cmd: Cmd, stime: nat, clock: nat -> nat) returns (h: Happening)
    requires Good(w, cq) && Step(w.ssd, cmd).Some? && stime != 0
    ensures h.Submit? && h.cmd == cmd && h.e == e && h.stime == stime && May(w, cq, h, clock)
  {
    hide Mapping.Inv, Ssd.Shape, Step, Handled, S.Accounted, Sched.Safe, InStep, OnQueue, Fitted, OnTime;
    var after, lat := HandledExists(w.ssd, cmd, stime, w.luns, clock);
    h := Submit(e, cmd, stime, lat, after);
  }

  /** The world after start-up: a blank device, an empty table, and a zeroed ring of n entries. */
  lemma StartsGood(g: Geometry, slots: nat, n: nat, luns: Luns, cq: nat)
    requires g.Ok() && g.Calculated() && slots >= 1 && n >= 1 && Fitted(g, luns)
    ensures Good(World(Start.Init(g), luns, S.Log(InitTable(slots), [], []), [], Begin(n)), cq)
  {
    hide Mapping.Inv, InStep, S.Accounted, Sched.Safe, Start.Init;
    Start.InitInv(g);
    SameLengths(Start.Init(g));
    S.InitKeeps(slots);
    BeginsInStep(n);
  }
}
