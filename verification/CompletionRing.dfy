/** The completion queue ring: __fill_cq_result on the device side, and a host that follows the
    phase tag (section 4.6 of NVM Express 1.2). Posts are serialised. */
module CompletionRing {
  import opened Arith
  import opened Scheds

  datatype Cqe = Cqe(commandId: nat, sqId: nat, sqHead: nat, phase: nat)

  function CqeOf(p: Post, phase: nat): (c: Cqe) { Cqe(p.commandId, p.sqid, p.sqEntry, phase) }

  /** The entry tells of completion p, with the given phase. */
  ghost predicate Tells(c: Cqe, p: Post, phase: nat) {
    c.commandId == p.commandId && c.sqId == p.sqid && c.sqHead == p.sqEntry && c.phase == phase
  }

  datatype Ring = Ring(entries: seq<Cqe>, phase: nat, head: nat) {
    predicate Shape() {
      |entries| >= 1 && head < |entries| && phase <= 1
    }

    /** __fill_cq_result. */
    function Fill(p: Post): (r: Ring)
      requires Shape()
      ensures r.Shape() && |r.entries| == |entries|
    {
      var filled := entries[head := CqeOf(p, phase)];
      if head + 1 == |entries| then Ring(filled, 1 - phase, 0) else Ring(filled, phase, head + 1)
    }
  }

  /** The phase tag of the k-th completion of a queue of n entries: 1 on the first lap. */
  function PhaseOf(k: nat, n: nat): (p: nat)
    requires n >= 1
    ensures p <= 1
  {
    1 - k / n % 2
  }

  /** The ring after the posts of `posted`: the k-th went to slot k mod n with the phase of its lap,
      each slot shows its latest completion, and a slot never used shows phase 0. */
  ghost predicate Shows(r: Ring, posted: seq<Post>) {
    var n, k := |r.entries|, |posted|;
    && r.Shape()
    && r.head == k % n && r.phase == PhaseOf(k, n)
    && (forall i: nat :: i < n ==> SlotShows(r, posted, i))
  }

  /** How many of the first k completions went to slot i. */
  function Laps(k: nat, n: nat, i: nat): (u: nat)
    requires n >= 1
  {
    k / n + if i < k % n then 1 else 0
  }

  /** The latest completion of slot i is number (laps - 1) * n + i. */
  ghost predicate SlotShows(r: Ring, posted: seq<Post>, i: nat)
    requires |r.entries| >= 1 && i < |r.entries|
  {
    var n := |r.entries|;
    var laps := Laps(|posted|, n, i);
    if laps == 0 then r.entries[i].phase == 0
    else
      var j := (laps - 1) * n + i;
      0 <= j < |posted| && Tells(r.entries[i], posted[j], 1 - (laps - 1) % 2)
  }

  /** One more completion. */
  lemma FillShows(r: Ring, posted: seq<Post>, p: Post)
    requires Shows(r, posted)
    ensures Shows(r.Fill(p), posted + [p])
  {
    hide SlotShows;
    var n, k, t := |r.entries|, |posted|, r.Fill(p);
    NextQuotient(k, n);
    PhaseStep(k, n);
    forall i: nat | i < n
      ensures SlotShows(t, posted + [p], i)
    {
      assert SlotShows(r, posted, i);
      SlotAfterFill(r, t, posted, p, i);
    }
  }

  lemma SlotAfterFill(r: Ring, t: Ring, posted: seq<Post>, p: Post, i: nat)
    requires |r.entries| >= 1 && i < |r.entries| && SlotShows(r, posted, i)
    requires t.entries == r.entries[|posted| % |r.entries| := CqeOf(p, PhaseOf(|posted|, |r.entries|))]
    ensures SlotShows(t, posted + [p], i)
  {
    var n, k := |r.entries|, |posted|;
    LapsAfterOne(k, n, i);
  }

  lemma LapsAfterOne(k: nat, n: nat, i: nat)
    requires n >= 1 && i < n
    ensures Laps(k + 1, n, i) == Laps(k, n, i) + if i == k % n then 1 else 0
    ensures i == k % n ==> Laps(k, n, i) == k / n && k / n * n + i == k
  {
    NextQuotient(k, n);
  }

  lemma PhaseStep(k: nat, n: nat)
    requires n >= 1
    ensures PhaseOf(k + 1, n) == if k % n + 1 == n then 1 - PhaseOf(k, n) else PhaseOf(k, n)
  {
    NextQuotient(k, n);
  }

  /** A host that has read `seen` completions: it waits at slot seen mod n for the phase of its own
      lap. */
  datatype Host = Host(head: nat, phase: nat)

  predicate HostSees(h: Host, r: Ring)
    requires h.head < |r.entries|
  {
    r.entries[h.head].phase == h.phase
  }

  function HostNext(h: Host, n: nat): (next: Host) {
    if h.head + 1 == n then Host(0, if h.phase == 0 then 1 else 0) else Host(h.head + 1, h.phase)
  }

  ghost predicate At(h: Host, n: nat, seen: nat)
    requires n >= 1
  {
    h.head == seen % n && h.phase == PhaseOf(seen, n)
  }

  lemma HostAdvances(h: Host, n: nat, seen: nat)
    requires n >= 1 && At(h, n, seen)
    ensures At(HostNext(h, n), n, seen + 1)
  {
    NextQuotient(seen, n);
    PhaseStep(seen, n);
  }

  /** How often the host's slot has been used for the completions not yet read. */
  function Uses(unread: nat, n: nat): (u: nat)
    requires n >= 1
  {
    CeilDiv(unread, n)
  }

  /** Before completion number `seen` its slot has been used seen / n times, and since then once for
      every n completions started. */
  lemma LapsWithin(k: nat, n: nat, seen: nat)
    requires n >= 1 && seen <= k
    ensures Laps(k, n, seen % n) == seen / n + Uses(k - seen, n)
    ensures seen / n * n + seen % n == seen
  {
    var q, i, p, j := seen / n, seen % n, (k - seen) / n, (k - seen) % n;
    SumSplits(seen, k - seen, n, q, i, p, j);
    if i + j < n {
      DigitSplits(q + p, i + j, n);
    } else {
      DigitSplits(q + p + 1, i + j - n, n);
    }
  }

  lemma SumSplits(x: nat, y: nat, n: nat, q: nat, i: nat, p: nat, j: nat)
    requires x == q * n + i && y == p * n + j
    ensures x + y == (q + p) * n + (i + j) && (q + p + 1) * n == (q + p) * n + n
  {
  }

  /** A slot used `laps` times shows the parity of its laps. */
  lemma PhaseIsParity(r: Ring, posted: seq<Post>, i: nat)
    requires Shows(r, posted) && i < |r.entries|
    ensures r.entries[i].phase == Laps(|posted|, |r.entries|, i) % 2
  {
    assert SlotShows(r, posted, i);
  }

  /** Whatever the number of unread completions: the host sees the phase it waits for exactly when its
      slot has been used an odd number of times since it last read there. */
  lemma HostSeesExactly(r: Ring, posted: seq<Post>, h: Host, seen: nat)
    requires Shows(r, posted) && At(h, |r.entries|, seen) && seen <= |posted|
    ensures h.head < |r.entries|
    ensures HostSees(h, r) <==> Uses(|posted| - seen, |r.entries|) % 2 == 1
  {
    hide Shows, Laps, Uses;
    var n := |r.entries|;
    NonEmptyRing(r, posted);
    HeadInRange(h, n, seen);
    PhaseIsParity(r, posted, h.head);
    LapsWithin(|posted|, n, seen);
    Parity(seen / n, Uses(|posted| - seen, n));
  }

  lemma Parity(q: nat, u: nat)
    ensures (q + u) % 2 == 1 - q % 2 <==> u % 2 == 1
  {
  }

  lemma NonEmptyRing(r: Ring, posted: seq<Post>)
    requires Shows(r, posted)
    ensures |r.entries| >= 1
  {
  }

  lemma HeadInRange(h: Host, n: nat, seen: nat)
    requires n >= 1 && At(h, n, seen)
    ensures h.head < n
  {
  }

  /** What it then reads is the latest completion of the slot: the oldest unread one exactly when the
      slot has been used once, so when between 1 and n completions are unread. */
  lemma HostReadsExactly(r: Ring, posted: seq<Post>, h: Host, seen: nat)
    requires Shows(r, posted) && At(h, |r.entries|, seen) && seen < |posted|
    ensures h.head < |r.entries|
    ensures var u := Uses(|posted| - seen, |r.entries|); var j := seen + (u - 1) * |r.entries|;
            && 0 <= j < |posted| && Tells(r.entries[h.head], posted[j], PhaseOf(j, |r.entries|))
            && (j == seen <==> |posted| <= seen + |r.entries|)
  {
    hide Shows, Laps, Uses;
    NonEmptyRing(r, posted);
    var n, u := |r.entries|, Uses(|posted| - seen, |r.entries|);
    HeadInRange(h, n, seen);
    LapsWithin(|posted|, n, seen);
    UsedOnce(|posted| - seen, n);
    LatestOf(r, posted, h.head);
    LatestNumber(seen, n, u);
  }

  /** The number of the slot's latest completion, counted from the start and from `seen`. */
  lemma LatestNumber(seen: nat, n: nat, u: nat)
    requires n >= 1 && u >= 1
    ensures (seen / n + u - 1) * n + seen % n == seen + (u - 1) * n
    ensures PhaseOf(seen + (u - 1) * n, n) == 1 - (seen / n + u - 1) % 2
  {
    var q, i := seen / n, seen % n;
    SumSplits(seen, (u - 1) * n, n, q, i, u - 1, 0);
    DigitSplits(q + (u - 1), i, n);
  }

  lemma LatestOf(r: Ring, posted: seq<Post>, i: nat)
    requires Shows(r, posted) && i < |r.entries| && Laps(|posted|, |r.entries|, i) >= 1
    ensures var laps := Laps(|posted|, |r.entries|, i); var j := (laps - 1) * |r.entries| + i;
            0 <= j < |posted| && Tells(r.entries[i], posted[j], 1 - (laps - 1) % 2)
  {
    assert SlotShows(r, posted, i);
  }

  lemma UsedOnce(unread: nat, n: nat)
    requires n >= 1 && unread >= 1
    ensures 1 <= Uses(unread, n) && ((Uses(unread, n) - 1) * n == 0 <==> unread <= n)
  {
    if unread <= n {
      if unread < n {
        SmallMod(unread, n);
      } else {
        DigitSplits(1, 0, n);
      }
    } else {
      MulCancels(1, Uses(unread, n), n);
    }
  }

  /** With at most n completions unread, the phase tag at the host's slot is the expected one exactly
      when a completion is unread, and the slot then holds the oldest unread one. */
  lemma PhaseTagWorks(r: Ring, posted: seq<Post>, h: Host, seen: nat)
    requires Shows(r, posted) && At(h, |r.entries|, seen)
    requires seen <= |posted| <= seen + |r.entries|
    ensures h.head < |r.entries|
    ensures HostSees(h, r) <==> seen < |posted|
    ensures seen < |posted| ==> Tells(r.entries[h.head], posted[seen], h.phase)
  {
    hide Shows;
    NonEmptyRing(r, posted);
    HostSeesExactly(r, posted, h, seen);
    if seen < |posted| {
      HostReadsExactly(r, posted, h, seen);
      UsedOnce(|posted| - seen, |r.entries|);
      MulCancels(Uses(|posted| - seen, |r.entries|) - 1, 1, |r.entries|);
    } else {
      SmallMod(0, |r.entries|);
    }
  }

  /** One completion too many: the host's slot is overwritten with the phase of the next lap, so the
      host sees nothing although n + 1 completions are unread. The device does not check. */
  lemma OverrunHidesEverything(r: Ring, posted: seq<Post>, p: Post, h: Host, seen: nat)
    requires Shows(r, posted) && At(h, |r.entries|, seen) && |posted| == seen + |r.entries|
    ensures h.head < |r.entries| && !HostSees(h, r.Fill(p))
  {
    hide Shows;
    NonEmptyRing(r, posted);
    FillShows(r, posted, p);
    HostSeesExactly(r.Fill(p), posted + [p], h, seen);
    UsedTwice(|r.entries|);
  }

  lemma UsedTwice(n: nat)
    requires n >= 1
    ensures Uses(n + 1, n) == 2
  {
    if n == 1 {
      DigitSplits(2, 0, 1);
    } else {
      DigitSplits(1, 1, n);
    }
  }

  // ---------- runs of device and host ----------

  datatype Move = DevicePosts(p: Post) | HostPolls

  datatype System = System(ring: Ring, host: Host, posted: seq<Post>, read: seq<Cqe>)

  function Play(s: System, m: Move): (t: System)
    requires s.ring.Shape() && s.host.head < |s.ring.entries|
  {
    match m
    case DevicePosts(p) => s.(ring := s.ring.Fill(p), posted := s.posted + [p])
    case HostPolls =>
      if HostSees(s.host, s.ring) then
        s.(host := HostNext(s.host, |s.ring.entries|), read := s.read + [s.ring.entries[s.host.head]])
      else s
  }

  /** The host has read the first completions, once each and in order. */
  ghost predicate InStep(s: System) {
    && Shows(s.ring, s.posted)
    && At(s.host, |s.ring.entries|, |s.read|)
    && s.host.head < |s.ring.entries|
    && |s.read| <= |s.posted| <= |s.read| + |s.ring.entries|
    && forall j: nat :: j < |s.read| ==> Tells(s.read[j], s.posted[j], PhaseOf(j, |s.ring.entries|))
  }

  ghost predicate Paced(s: System, moves: seq<Move>)
    requires InStep(s)
    decreases |moves|
  {
    moves != [] ==>
      && (moves[0].DevicePosts? ==> |s.posted| < |s.read| + |s.ring.entries|)
      && (PlayKeepsStep(s, moves[0]); Paced(Play(s, moves[0]), moves[1..]))
  }

  lemma PlayKeepsStep(s: System, m: Move)
    requires InStep(s) && (m.DevicePosts? ==> |s.posted| < |s.read| + |s.ring.entries|)
    ensures InStep(Play(s, m))
    ensures m.HostPolls? ==> |Play(s, m).read| == |s.read| + if |s.read| < |s.posted| then 1 else 0
  {
    match m
    case DevicePosts(p) =>
      FillShows(s.ring, s.posted, p);
    case HostPolls =>
      PhaseTagWorks(s.ring, s.posted, s.host, |s.read|);
      HostAdvances(s.host, |s.ring.entries|, |s.read|);
      HeadInRange(HostNext(s.host, |s.ring.entries|), |s.ring.entries|, |s.read| + 1);
  }

  ghost function PlayAll(s: System, moves: seq<Move>): (t: System)
    requires InStep(s) && Paced(s, moves)
    decreases |moves|
  {
    if moves == [] then s
    else
      PlayKeepsStep(s, moves[0]);
      PlayAll(Play(s, moves[0]), moves[1..])
  }

  /** A zeroed ring of n entries and a host that waits for phase 1 at slot 0. */
  function Begin(n: nat): (s: System)
    requires n >= 1
  {
    System(Ring(seq(n, i => Cqe(0, 0, 0, 0)), 1, 0), Host(0, 1), [], [])
  }

  lemma BeginsInStep(n: nat)
    requires n >= 1
    ensures InStep(Begin(n))
  {
    SmallMod(0, n);
    forall i: nat | i < n
      ensures SlotShows(Begin(n).ring, [], i)
    {
      assert Laps(0, n, i) == 0;
    }
  }

  /** The host has read a prefix of the posts, once each and in order, field by field. */
  ghost predicate ReadInOrder(s: System, posts: seq<Post>) {
    && |s.read| <= |posts|
    && forall j: nat :: j < |s.read| ==>
         && s.read[j].commandId == posts[j].commandId
         && s.read[j].sqId == posts[j].sqid
         && s.read[j].sqHead == posts[j].sqEntry
  }

  lemma InStepReads(s: System)
    requires InStep(s)
    ensures ReadInOrder(s, s.posted)
  {
  }

  /** Whatever the interleaving, as long as at most n completions are unread the host reads every
      completion once and in order. */
  lemma {:induction false} HostReadsInOrder(s: System, moves: seq<Move>)
    requires InStep(s) && Paced(s, moves)
    ensures InStep(PlayAll(s, moves))
    ensures ReadInOrder(PlayAll(s, moves), PlayAll(s, moves).posted)
    decreases |moves|
  {
    if moves != [] {
      PlayKeepsStep(s, moves[0]);
      HostReadsInOrder(Play(s, moves[0]), moves[1..]);
    }
    InStepReads(PlayAll(s, moves));
  }

  // ---------- the queue in place ----------

  class CompletionQueue {
    const cq: array<Cqe>
    var phase: nat
    var cqHead: nat
    var interruptReady: bool

    ghost predicate Wf()
      reads this, cq
    {
      Value().Shape()
    }

    ghost function Value(): (r: Ring)
      reads this, cq
    {
      Ring(cq[..], phase, cqHead)
    }

    /** Creation by the admin queue, on host memory `cq` of queue_size entries. */
    constructor (cq: array<Cqe>)
      requires cq.Length >= 1
      ensures Wf() && this.cq == cq && Value() == Ring(cq[..], 1, 0) && !interruptReady
    {
      this.cq := cq;
      phase := 1;
      cqHead := 0;
      interruptReady := false;
    }

    method FillCqResult(p: Post)
      requires Wf()
      modifies this, cq
      ensures Wf() && Value() == old(Value()).Fill(p) && interruptReady
      ensures cq[old(cqHead)].commandId == p.commandId && cq[old(cqHead)].sqId == p.sqid
      ensures cq[old(cqHead)].sqHead == p.sqEntry && cq[old(cqHead)].phase == old(phase)
      ensures forall i :: 0 <= i < cq.Length && i != old(cqHead) ==> cq[i] == old(cq[i])
      ensures if old(cqHead) + 1 == cq.Length then cqHead == 0 && phase == 1 - old(phase)
              else cqHead == old(cqHead) + 1 && phase == old(phase)
    {
      var head := cqHead;
      cq[head] := CqeOf(p, phase);
      head := head + 1;
      if head == cq.Length {
        head := 0;
        phase := 1 - phase;
      }
      cqHead := head;
      interruptReady := true;
    }
  }
}
