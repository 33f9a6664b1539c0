/** The time collection takes on the LUNs. With GC delays enabled every copy costs a read and a
    program, every block an erase, each issued at the clock reading of that moment. */
module GcTiming {
  import opened Common
  import opened Arith
  import opened RoundRobins
  import opened Geometries
  import opened Ssds
  import opened Space
  import opened Mapping
  import opened Gc
  import opened GcPass
  import opened Totals
  import opened Runs
  import opened Timing

  /** When each LUN is free, and how often the clock has been read. */
  datatype Luns = Luns(avail: seq<nat>, ticks: nat)

  /** One flash operation of collection. */
  datatype Op = Op(lun: nat, cmd: NandCmd)

  // ---------- the operations of a pass, in order ----------

  /** gc_read_page and gc_write_page for valid page a. */
  function CopyOps(s: Ssd, a: Ppa): (ops: seq<Op>) {
    [Op(LunNo(s.g, a), NandRead), Op(LunNo(s.g, s.NewPage()), NandWrite)]
  }

  /** clean_one_block from page pg on. */
  function BlockOps(s: Ssd, k: BlockId, pg: nat): (ops: seq<Op>)
    requires s.Shape() && s.g.HasBlock(k) && pg <= s.g.pgsPerBlk
    decreases s.g.pgsPerBlk - pg
  {
    if pg == s.g.pgsPerBlk then []
    else
      var a := Ppa(k.ch, k.lun, 0, k.blk, pg);
      if s.status[a] != PgValid then BlockOps(s, k, pg + 1)
      else
        match s.GcWritePage(a)
        case None => []
        case Some(t) => CopyOps(s, a) + BlockOps(t, k, pg + 1)
  }

  function EraseOp(g: Geometry, k: BlockId): (op: Op) {
    Op(LunNo(g, Ppa(k.ch, k.lun, 0, k.blk, 0)), NandErase)
  }

  /** The double loop of do_gc from channel ch, LUN lun on. */
  function LineOps(s: Ssd, ch: nat, lun: nat, b: nat): (ops: seq<Op>)
    requires s.Shape() && b < s.g.blksPerPl && ch <= s.g.nchs && lun <= s.g.lunsPerCh
    decreases s.g.nchs - ch, s.g.lunsPerCh - lun
  {
    if ch == s.g.nchs then []
    else if lun == s.g.lunsPerCh then LineOps(s, ch + 1, 0, b)
    else
      var k := BlockId(ch, lun, b);
      match s.CleanBlock(k, 0)
      case None => []
      case Some(t) => BlockOps(s, k, 0) + [EraseOp(s.g, k)] + LineOps(t.MarkBlockFree(k), ch, lun + 1, b)
  }

  /** do_gc. */
  function PassOps(s: Ssd, force: bool): (ops: seq<Op>)
    requires s.Shape() && s.q.Sound()
  {
    match s.VictimLine(force)
    case None => []
    case Some(v) => LineOps(s.Detach(), 0, 0, v)
  }

  /** The loop at the head of ssd_write. */
  ghost function ForcedOps(s: Ssd): (ops: seq<Op>)
    requires Inv(s)
    decreases InvalidPages(s)
  {
    if !s.ShouldGcHigh() then []
    else
      match s.DoGc(true)
      case NoVictim => []
      case Stopped => []
      case Cleaned(t) =>
        DoGcKeepsInv(s, true);
        DoGcConserves(s, true);
        PassOps(s, true) + ForcedOps(t)
  }

  /** __check_gc_and_run. */
  ghost function BackgroundOps(s: Ssd): (ops: seq<Op>)
    requires Inv(s)
  {
    if s.ShouldGc() then PassOps(s, false) else []
  }

  // ---------- what operations cost ----------

  /** ssd_advance_status for an operation without a start time of its own. */
  function Charge(g: Geometry, l: Luns, op: Op, clock: nat -> nat): (r: Luns)
    ensures |r.avail| == |l.avail|
  {
    if op.lun < |l.avail| then
      Luns(l.avail[op.lun := Finish(l.avail[op.lun], clock(l.ticks), Latency(g, op.cmd))], l.ticks + 1)
    else l
  }

  function ChargeAll(g: Geometry, l: Luns, ops: seq<Op>, clock: nat -> nat): (r: Luns)
    ensures |r.avail| == |l.avail|
    decreases |ops|
  {
    if ops == [] then l else ChargeAll(g, Charge(g, l, ops[0], clock), ops[1..], clock)
  }

  /** Collection costs nothing unless GC delays are enabled. */
  function GcTime(g: Geometry, l: Luns, ops: seq<Op>, clock: nat -> nat): (r: Luns)
    ensures |r.avail| == |l.avail|
  {
    if g.enableGcDelay then ChargeAll(g, l, ops, clock) else l
  }

  lemma {:induction false} ChargeAppend(g: Geometry, l: Luns, a: seq<Op>, b: seq<Op>, clock: nat -> nat)
    ensures ChargeAll(g, l, a + b, clock) == ChargeAll(g, ChargeAll(g, l, a, clock), b, clock)
    decreases |a|
  {
    if a == [] {
      assert a + b == b;
    } else {
      assert (a + b)[1..] == a[1..] + b;
      ChargeAppend(g, Charge(g, l, a[0], clock), a[1..], b, clock);
    }
  }

  /** Operations one after the other. */
  lemma GcTimeAppend(g: Geometry, l: Luns, a: seq<Op>, b: seq<Op>, clock: nat -> nat)
    ensures GcTime(g, l, a + b, clock) == GcTime(g, GcTime(g, l, a, clock), b, clock)
  {
    ChargeAppend(g, l, a, b, clock);
  }

  lemma GcTimeOne(g: Geometry, l: Luns, op: Op, clock: nat -> nat)
    ensures GcTime(g, l, [op], clock) == if g.enableGcDelay then Charge(g, l, op, clock) else l
  {
    assert [op][1..] == [];
    assert ChargeAll(g, Charge(g, l, op, clock), [], clock) == Charge(g, l, op, clock);
  }

  lemma GcTimeNone(g: Geometry, l: Luns, clock: nat -> nat)
    ensures GcTime(g, l, [], clock) == l
  {
  }

  // ---------- what a command is quoted ----------

  /** Pages lpn..end written after forced collection from s, on LUNs as in `busy`, leave the LUNs as
      in `after` and take m. */
  ghost predicate WriteTimed(
    s: Ssd, lpn: nat, end: nat, content: nat, busy: Luns, t: nat, after: Luns, m: nat)
    requires Inv(s)
  {
    && ForcedGc(s).Some?
    && var u := ForcedGc(s).value;
       && u.Shape() && end < |u.maptbl| && u.WritePages(lpn, end, content).Some?
       && Timed(busy.avail, LunsWritten(u, lpn, end, content), t, s.g.pgWrLat, after.avail, m)
       && after.ticks == busy.ticks
  }

  /** The latency of a command in state s that is issued at stime, nonzero, with the LUNs as in
      `before`; afterwards they are as in `after`. */
  ghost predicate Quoted(
    s: Ssd, cmd: Cmd, stime: nat, before: Luns, after: Luns, lat: nat, clock: nat -> nat)
    requires Inv(s) && s.Shape() && |s.maptbl| == s.g.ttPgs
  {
    match cmd
    case Write(slba, length, content) =>
      if EndLpn(s.g, slba, length) >= s.g.ttPgs then lat == 0 && after == before
      else WriteTimed(s, StartLpn(s.g, slba), EndLpn(s.g, slba, length), content,
                      GcTime(s.g, before, ForcedOps(s), clock), stime, after, lat)
    case Read(slba, length) =>
      if EndLpn(s.g, slba, length) >= s.g.ttPgs then lat == 0 && after == before
      else
        && Timed(before.avail, LunsRead(s, StartLpn(s.g, slba), EndLpn(s.g, slba, length)),
                 stime, s.g.pgRdLat, after.avail, lat)
        && after.ticks == before.ticks
    case Other => lat == 0 && after == before
  }

  /** On LUNs that are all free at the start time a write of n pages takes ceil(n / tt_luns) program
      times. */
  lemma IdleLatency(
    s: Ssd, lpn: nat, end: nat, content: nat, busy: Luns, t: nat, after: Luns, m: nat, luns: nat)
    requires Inv(s) && WriteTimed(s, lpn, end, content, busy, t, after, m)
    requires luns >= 1 && luns == s.g.ttLuns == s.g.lunsPerCh * s.g.nchs == |busy.avail|
    requires forall l :: 0 <= l < luns ==> busy.avail[l] <= t
    ensures m == CeilDiv(PageCount(lpn, end), luns) * s.g.pgWrLat
  {
    hide Inv, ForcedGc, Ssd.Shape, LunsWritten, Load, Serve, MaxLatency, Ssd.WritePages, CeilDiv;
    ForcedGcOutcome(s);
    UserWriteLatency(ForcedGc(s).value, lpn, end, content, busy.avail, t);
  }

  /** No LUN time passes before the write when nothing has to be collected, or without GC delays. */
  lemma NoCollection(s: Ssd, l: Luns, clock: nat -> nat)
    requires Inv(s) && (s.freeCnt > s.g.gcThresLinesHigh || !s.g.enableGcDelay)
    ensures GcTime(s.g, l, ForcedOps(s), clock) == l
  {
    hide Inv;
  }

  // ---------- what a read takes ----------

  /** The mapped pages on LUN l that have a sector of the read. */
  ghost function ReadOn(s: Ssd, slba: U64, length: U16, l: nat): (w: set<nat>)
    requires s.Shape()
    ensures forall i: nat :: i in w <==>
              i < |s.maptbl| && Covers(s.g, slba, length, i) && s.maptbl[i].Some? && LunNo(s.g, s.maptbl[i].value) == l
  {
    set i: nat | i < |s.maptbl| && Covers(s.g, slba, length, i)
                 && s.maptbl[i].Some? && LunNo(s.g, s.maptbl[i].value) == l
  }

  /** A read issued at t takes m: a LUN with n > 0 of its mapped pages is busy for n read times from
      when it is free, other LUNs are as before, and m is the longest of these, 0 for no mapped page. */
  ghost predicate ReadTook(s: Ssd, slba: U64, length: U16, avail: seq<nat>, t: nat, busy: seq<nat>, m: nat)
    requires s.Shape()
  {
    && |busy| == |avail|
    && (forall l :: 0 <= l < |avail| ==>
          busy[l] == if ReadOn(s, slba, length, l) == {} then avail[l]
                     else Max(avail[l], t) + |ReadOn(s, slba, length, l)| * s.g.pgRdLat)
    && (forall l :: 0 <= l < |avail| && ReadOn(s, slba, length, l) != {} ==> busy[l] - t <= m)
    && (m == 0 || exists l :: 0 <= l < |avail| && ReadOn(s, slba, length, l) != {} && busy[l] - t == m)
  }

  lemma ReadOnPages(s: Ssd, slba: U64, length: U16, l: nat)
    requires s.Shape() && s.g.Positive() && |s.maptbl| == s.g.ttPgs && EndLpn(s.g, slba, length) < s.g.ttPgs
    ensures ReadOn(s, slba, length, l) == MappedOn(s, StartLpn(s.g, slba), EndLpn(s.g, slba, length), l)
  {
    hide Ssd.Shape, StartLpn, EndLpn, Covers, LunNo;
    forall i: nat
      ensures StartLpn(s.g, slba) <= i <= EndLpn(s.g, slba, length) <==> Covers(s.g, slba, length, i)
    {
      PagesOfSectors(s.g, slba, length, i);
    }
  }

  lemma ReadServes(s: Ssd, slba: U64, length: U16, avail: seq<nat>, t: nat, busy: seq<nat>, m: nat)
    requires s.Shape() && s.g.Positive() && |s.maptbl| == s.g.ttPgs && EndLpn(s.g, slba, length) < s.g.ttPgs
    requires Timed(avail, LunsRead(s, StartLpn(s.g, slba), EndLpn(s.g, slba, length)), t, s.g.pgRdLat, busy, m)
    ensures ReadTook(s, slba, length, avail, t, busy, m)
  {
    hide Ssd.Shape, StartLpn, EndLpn, LunsRead, Serve, MaxLatency, Load, ReadOn;
    var luns := LunsRead(s, StartLpn(s.g, slba), EndLpn(s.g, slba, length));
    LatencyClosedForm(avail, luns, t, s.g.pgRdLat);
    forall l: nat
      ensures |ReadOn(s, slba, length, l)| == Load(luns, l) && (ReadOn(s, slba, length, l) != {} <==> l in luns)
      ensures l < |avail| ==>
                busy[l] == if ReadOn(s, slba, length, l) == {} then avail[l]
                           else Max(avail[l], t) + |ReadOn(s, slba, length, l)| * s.g.pgRdLat
    {
      ReadOnPages(s, slba, length, l);
      LunsReadLoad(s, StartLpn(s.g, slba), EndLpn(s.g, slba, length), l);
      LoadedIsListed(luns, l);
      if l < |avail| {
        ServeClosedForm(avail, luns, t, s.g.pgRdLat, l);
      }
    }
  }

  /** On LUNs that are all free at the start time a read takes the largest number of its mapped pages
      on one LUN, times the read latency. */
  lemma IdleRead(s: Ssd, slba: U64, length: U16, avail: seq<nat>, t: nat, busy: seq<nat>, m: nat)
    requires s.Shape() && s.g.Positive() && |avail| == s.g.lunsPerCh * s.g.nchs
    requires ReadTook(s, slba, length, avail, t, busy, m)
    requires forall l :: 0 <= l < |avail| ==> avail[l] <= t
    ensures forall l: nat :: |ReadOn(s, slba, length, l)| * s.g.pgRdLat <= m
    ensures m == 0 || exists l: nat :: m == |ReadOn(s, slba, length, l)| * s.g.pgRdLat
  {
    hide Ssd.Shape, LunNo, Covers;
    forall l: nat
      ensures |ReadOn(s, slba, length, l)| * s.g.pgRdLat <= m
    {
      if i: nat :| i in ReadOn(s, slba, length, l) {
        HomeFits(s, i);
        LunNoInRange(s.g, s.maptbl[i].value);
        assert busy[l] == t + |ReadOn(s, slba, length, l)| * s.g.pgRdLat;
      } else {
        assert ReadOn(s, slba, length, l) == {};
      }
    }
  }

  /** State, start time, LUNs and clock determine the latency and the LUNs afterwards. */
  lemma QuotedOnce(
    s: Ssd, cmd: Cmd, stime: nat, before: Luns, a: Luns, lat: nat, a': Luns, lat': nat, clock: nat -> nat)
    requires Inv(s) && s.Shape() && |s.maptbl| == s.g.ttPgs
    requires Quoted(s, cmd, stime, before, a, lat, clock) && Quoted(s, cmd, stime, before, a', lat', clock)
    ensures a == a' && lat == lat'
  {
    hide Inv, ForcedGc, ForcedOps, GcTime, Ssd.Shape, Ssd.WritePages, LunsWritten, StartLpn, EndLpn, Serve, MaxLatency;
  }

  /** A whole command: quoted as above, and after a write background collection. */
  ghost predicate Handled(
    s: Ssd, cmd: Cmd, stime: nat, before: Luns, after: Luns, lat: nat, clock: nat -> nat)
  {
    && Inv(s) && s.Shape() && |s.maptbl| == s.g.ttPgs
    && Executed(s, cmd).Some? && Inv(Executed(s, cmd).value)
    && exists quoted :: Quoted(s, cmd, stime, before, quoted, lat, clock)
         && after == if cmd.Write? then GcTime(s.g, quoted, BackgroundOps(Executed(s, cmd).value), clock) else quoted
  }

  lemma IsHandled(
    s: Ssd, cmd: Cmd, stime: nat, before: Luns, quoted: Luns, after: Luns, lat: nat, clock: nat -> nat)
    requires Inv(s) && s.Shape() && |s.maptbl| == s.g.ttPgs && Quoted(s, cmd, stime, before, quoted, lat, clock)
    requires Executed(s, cmd).Some? && Inv(Executed(s, cmd).value)
    requires after == if cmd.Write? then GcTime(s.g, quoted, BackgroundOps(Executed(s, cmd).value), clock) else quoted
    ensures Handled(s, cmd, stime, before, after, lat, clock)
  {
    hide Inv, Ssd.Shape, Quoted, BackgroundOps, Executed, GcTime;
  }

  // ---------- background collection ----------

  /** Line b waits in the victim heap with at least an eighth of its pages invalid. */
  ghost predicate WorthIt(s: Ssd, b: nat)
    requires s.Shape()
  {
    b < s.g.blksPerPl && s.q.pos[b] != 0 && s.ipc[b] >= s.g.pgsPerLine / 8
  }

  /** Background collection runs one pass exactly when the free lines are at or below the low threshold
      and some waiting line is worth it. The pass gains the invalid pages of the line with the most;
      without it nothing happens and no time passes. It stops the machine exactly when the valid pages
      of that line are at least as many as are free. */
  lemma BackgroundExactly(s: Ssd)
    requires Inv(s) && s.Shape()
    ensures var r := BackgroundGc(s);
            if s.freeCnt <= s.g.gcThresLines && exists b: nat :: WorthIt(s, b) then
              && |s.q.d| > 1 && s.q.d[1] < s.g.blksPerPl == |s.ipc| && BackgroundOps(s) == PassOps(s, false)
              && (forall b: nat :: b < s.g.blksPerPl && s.q.pos[b] != 0 ==> s.ipc[b] <= s.ipc[s.q.d[1]])
              && (r.Some? <==> s.q.pri[s.q.d[1]] < FreePages(s))
              && (r.Some? ==> r.value != s && FreePages(r.value) == FreePages(s) + s.ipc[s.q.d[1]])
            else r == Some(s) && BackgroundOps(s) == []
  {
    hide Ssd.Shape, Ssd.DoGc, FreePages, Inv, PassOps;
    SameLengths(s);
    DoGcOutcome(s, false);
    NoVictimExactly(s, false);
    NoVictimNoOps(s);
    if s.freeCnt <= s.g.gcThresLines {
      if exists b: nat :: WorthIt(s, b) {
        var b: nat :| WorthIt(s, b);
        BestIsRoot(s, b);
        RoomIsFreePages(s);
        if s.DoGc(false).Cleaned? {
          DoGcConserves(s, false);
        }
      } else if s.DoGc(false).NoVictim? {
      } else {
        VictimIsWorthIt(s);
      }
    }
  }

  /** A completed write command goes on to exactly that background collection. */
  lemma StepCollects(s: Ssd, cmd: Cmd)
    requires Inv(s) && cmd.Write? && Step(s, cmd).Some?
    ensures SsdWrite(s, cmd.slba, cmd.length, cmd.content).Some?
    ensures var u, t := SsdWrite(s, cmd.slba, cmd.length, cmd.content).value, Step(s, cmd).value;
            && Inv(u) && u.Shape()
            && if u.freeCnt <= u.g.gcThresLines && exists b: nat :: WorthIt(u, b)
               then |u.q.d| > 1 && u.q.d[1] < u.g.blksPerPl && FreePages(t) == FreePages(u) + u.ipc[u.q.d[1]]
               else t == u
  {
    hide Inv, Ssd.Shape, SsdWrite, BackgroundGc, WorthIt, FreePages, BackgroundOps, PassOps;
    SsdWriteOutcome(s, cmd.slba, cmd.length, cmd.content);
    var u := SsdWrite(s, cmd.slba, cmd.length, cmd.content).value;
    SameLengths(u);
    BackgroundExactly(u);
  }

  lemma NoVictimNoOps(s: Ssd)
    requires s.Shape() && s.q.Sound()
    ensures s.DoGc(false).NoVictim? ==> PassOps(s, false) == []
  {
  }

  lemma VictimIsWorthIt(s: Ssd)
    requires Inv(s) && s.Shape() && s.q.Sound() && !s.DoGc(false).NoVictim?
    ensures |s.q.d| > 1 && WorthIt(s, s.q.d[1])
  {
    hide Inverse, BlockCounted, Ssd.CleanLine;
    assert s.q.pos[s.q.d[1]] == 1;
  }

  lemma BestIsRoot(s: Ssd, b: nat)
    requires Inv(s) && s.Shape() && WorthIt(s, b)
    ensures |s.q.d| > 1 && s.q.d[1] < s.g.blksPerPl == |s.ipc| && s.ipc[s.q.d[1]] >= s.g.pgsPerLine / 8
    ensures s.VictimLine(false) == Some(s.q.d[1]) && s.ipc[s.q.d[1]] >= 1
    ensures forall x: nat :: x < s.g.blksPerPl && s.q.pos[x] != 0 ==> s.ipc[x] <= s.ipc[s.q.d[1]]
  {
    hide Inverse, BlockCounted;
    assert s.q.pos[b] < |s.q.d|;
    forall x: nat | x < s.g.blksPerPl && s.q.pos[x] != 0
      ensures s.ipc[x] <= s.ipc[s.q.d[1]]
    {
      RootIsBestVictim(s, x);
    }
    assert s.q.pos[s.q.d[1]] == 1;
    assert LineOk(s, s.q.d[1], false);
  }

  // ---------- every command that completes can be quoted ----------

  /** As many LUN times as the geometry has LUNs. */
  ghost predicate Fitted(g: Geometry, l: Luns) {
    |l.avail| == g.ttLuns == g.lunsPerCh * g.nchs && g.ttLuns >= 1
  }

  lemma {:induction false} ReadLunsFit(s: Ssd, lpn: nat, end: nat, luns: nat)
    requires s.Shape() && end < |s.maptbl| && luns == s.g.lunsPerCh * s.g.nchs
    ensures forall k :: 0 <= k < |LunsRead(s, lpn, end)| ==> LunsRead(s, lpn, end)[k] < luns
    decreases end + 1 - lpn
  {
    hide Ssd.Shape, LunNo;
    if lpn <= end {
      ReadLunsFit(s, lpn + 1, end, luns);
      if s.maptbl[lpn].Some? {
        HomeFits(s, lpn);
        LunNoInRange(s.g, s.maptbl[lpn].value);
      }
    }
  }

  lemma HomeFits(s: Ssd, lpn: nat)
    requires s.Shape() && lpn < |s.maptbl| && s.maptbl[lpn].Some?
    ensures s.g.Has(s.maptbl[lpn].value)
  {
  }

  lemma QuoteForWrite(s: Ssd, slba: U64, length: U16, content: nat, stime: nat, busy: Luns)
    returns (after: Luns, lat: nat)
    requires Inv(s) && s.Shape() && s.g.Positive() && Fitted(s.g, busy) && EndLpn(s.g, slba, length) < s.g.ttPgs
    requires SsdWrite(s, slba, length, content).Some?
    ensures WriteTimed(s, StartLpn(s.g, slba), EndLpn(s.g, slba, length), content, busy, stime, after, lat)
    ensures |after.avail| == |busy.avail|
  {
    hide Inv, ForcedGc, Ssd.Shape, Ssd.WritePages, LunsWritten, Serve, MaxLatency, Load, CeilDiv, StartLpn, EndLpn;
    ForcedGcOutcome(s);
    var u, lpn, end := ForcedGc(s).value, StartLpn(s.g, slba), EndLpn(s.g, slba, length);
    SameLengths(u);
    var luns := LunsWritten(u, lpn, end, content);
    WrittenLunsFit(u, lpn, end, content);
    after := Luns(Serve(busy.avail, luns, stime, s.g.pgWrLat), busy.ticks);
    lat := MaxLatency(busy.avail, luns, stime, s.g.pgWrLat);
  }

  lemma QuoteForRead(s: Ssd, slba: U64, length: U16, stime: nat, before: Luns) returns (after: Luns, lat: nat)
    requires s.Shape() && s.g.Positive() && |s.maptbl| == s.g.ttPgs && Fitted(s.g, before)
    requires EndLpn(s.g, slba, length) < s.g.ttPgs
    ensures Timed(before.avail, LunsRead(s, StartLpn(s.g, slba), EndLpn(s.g, slba, length)),
                  stime, s.g.pgRdLat, after.avail, lat)
    ensures after.ticks == before.ticks && |after.avail| == |before.avail|
  {
    hide Ssd.Shape, Serve, MaxLatency, LunsRead, StartLpn, EndLpn;
    var luns := LunsRead(s, StartLpn(s.g, slba), EndLpn(s.g, slba, length));
    ReadLunsFit(s, StartLpn(s.g, slba), EndLpn(s.g, slba, length), |before.avail|);
    after := Luns(Serve(before.avail, luns, stime, s.g.pgRdLat), before.ticks);
    lat := MaxLatency(before.avail, luns, stime, s.g.pgRdLat);
  }

  lemma QuoteExists(s: Ssd, cmd: Cmd, stime: nat, before: Luns, clock: nat -> nat) returns (after: Luns, lat: nat)
    requires Inv(s) && s.Shape() && |s.maptbl| == s.g.ttPgs && Fitted(s.g, before) && Executed(s, cmd).Some?
    ensures Quoted(s, cmd, stime, before, after, lat, clock) && |after.avail| == |before.avail|
  {
    hide Inv, Ssd.Shape, SsdWrite, GcTime, ForcedOps, WriteTimed, Timed, LunsRead, StartLpn, EndLpn;
    SameLengths(s);
    after, lat := before, 0;
    match cmd
    case Write(slba, length, content) =>
      if EndLpn(s.g, slba, length) < s.g.ttPgs {
        after, lat := QuoteForWrite(s, slba, length, content, stime, GcTime(s.g, before, ForcedOps(s), clock));
      }
    case Read(slba, length) =>
      if EndLpn(s.g, slba, length) < s.g.ttPgs {
        after, lat := QuoteForRead(s, slba, length, stime, before);
      }
    case Other =>
  }

  /** Every command that completes is handled in some latency, and by QuotedOnce in one only. */
  lemma HandledExists(s: Ssd, cmd: Cmd, stime: nat, before: Luns, clock: nat -> nat) returns (after: Luns, lat: nat)
    requires Inv(s) && s.Shape() && |s.maptbl| == s.g.ttPgs && Fitted(s.g, before) && Step(s, cmd).Some?
    ensures Handled(s, cmd, stime, before, after, lat, clock) && Fitted(s.g, after)
  {
    hide Inv, Ssd.Shape, SsdWrite, BackgroundGc, GcTime, BackgroundOps, Quoted;
    if cmd.Write? {
      SsdWriteOutcome(s, cmd.slba, cmd.length, cmd.content);
    }
    var quoted;
    quoted, lat := QuoteExists(s, cmd, stime, before, clock);
    after := if cmd.Write? then GcTime(s.g, quoted, BackgroundOps(Executed(s, cmd).value), clock) else quoted;
  }

  /** Handling a command keeps the number of LUN times. */
  lemma HandledFits(s: Ssd, cmd: Cmd, stime: nat, before: Luns, after: Luns, lat: nat, clock: nat -> nat)
    requires Inv(s) && s.Shape() && |s.maptbl| == s.g.ttPgs && Fitted(s.g, before)
    requires Handled(s, cmd, stime, before, after, lat, clock)
    ensures Fitted(s.g, after)
  {
    hide Inv, Ssd.Shape, SsdWrite, BackgroundGc, BackgroundOps, Quoted;
    var quoted :| Quoted(s, cmd, stime, before, quoted, lat, clock)
      && after == if cmd.Write? then GcTime(s.g, quoted, BackgroundOps(Executed(s, cmd).value), clock) else quoted;
    var q, m := QuoteExists(s, cmd, stime, before, clock);
    QuotedOnce(s, cmd, stime, before, quoted, lat, q, m, clock);
  }
}
