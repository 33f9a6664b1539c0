/** Commands as the dispatcher handles them, runs of commands, and space safety. */
module Runs {
  import opened Common
  import opened Arith
  import opened Geometries
  import opened Ssds
  import opened Space
  import opened Mapping
  import opened Gc
  import opened Totals
  import opened GcPass

  type U16 = x: nat | x < 0x1_0000
  type U64 = x: nat | x < 0x1_0000_0000_0000_0000

  /** `length` is the zero-based sector count of the command. */
  datatype Cmd = Write(slba: U64, length: U16, content: nat) | Read(rslba: U64, rlength: U16) | Other

  // ---------- forced garbage collection ----------

  /** The loop at the head of ssd_write. */
  ghost function ForcedGc(s: Ssd): (r: Option<Ssd>)
    requires Inv(s)
    decreases InvalidPages(s)
  {
    if !s.ShouldGcHigh() then Some(s)
    else
      match s.DoGc(true)
      case NoVictim => Some(s)
      case Stopped => None
      case Cleaned(t) =>
        DoGcKeepsInv(s, true);
        DoGcConserves(s, true);
        ForcedGc(t)
  }

  /** Forced collection can go through: a line is free, or there is nothing to collect, or the best
      victim's valid pages fit into what is free. */
  ghost predicate CanCollect(s: Ssd)
    requires Inv(s)
  {
    s.freeCnt >= 1 || |s.q.d| == 1 || s.q.pri[s.q.d[1]] < FreePages(s)
  }

  /** A pass that starts without a free line ends with one. */
  lemma PassFreesALine(s: Ssd)
    requires Inv(s) && s.freeCnt == 0 && s.DoGc(true).Cleaned?
    ensures s.DoGc(true).ssd.freeCnt >= 1
  {
    hide Inv, Ssd.Shape, Ssd.DoGc;
    SameLengths(s);
    DoGcOutcome(s, true);
    DoGcMid(s);
    DoGcKeepsInv(s, true);
    DoGcConserves(s, true);
    RoomIsFreePages(s);
    FreeLinesExactly(s.DoGc(true).ssd, 1);
  }

  /** The first pass of forced collection decides whether it goes through. */
  lemma FirstPassDecides(s: Ssd)
    requires Inv(s)
    ensures s.DoGc(true).Stopped? <==> |s.q.d| > 1 && s.q.pri[s.q.d[1]] >= FreePages(s)
    ensures s.DoGc(true).Stopped? ==> s.freeCnt == 0
    ensures s.freeCnt >= 0 && |s.q.d| >= 1
  {
    hide Ssd.DoGc, Inverse, LineOk, BlockCounted;
    SameLengths(s);
    DoGcOutcome(s, true);
    RoomIsFreePages(s);
    var rest := LineBalance(s);
    if s.freeCnt >= 1 {
      OneFreeLineSuffices(s, true);
    }
  }

  /** Forced collection keeps the host's view and loses no free line; it goes through exactly when
      CanCollect says so; it stops with enough free lines or without a victim, and frees no line more
      than it has to. */
  lemma {:induction false} ForcedGcOutcome(s: Ssd)
    requires Inv(s)
    ensures s.freeCnt >= 1 ==> ForcedGc(s).Some?
    ensures ForcedGc(s).Some? <==> CanCollect(s)
    ensures ForcedGc(s).Some? ==>
              var t := ForcedGc(s).value;
              && Inv(t) && t.g == s.g
              && t.View() == s.View() && Mapped(t) == Mapped(s)
              && t.freeCnt >= s.freeCnt && InvalidPages(t) <= InvalidPages(s)
              && (t.freeCnt > s.g.gcThresLinesHigh || |t.q.d| == 1)
              && (if s.freeCnt <= s.g.gcThresLinesHigh then t.freeCnt <= s.g.gcThresLinesHigh + 1 else t == s)
    decreases InvalidPages(s)
  {
    hide Inv, Ssd.Shape, Ssd.DoGc, Passed, FreePages;
    SameLengths(s);
    FirstPassDecides(s);
    if s.ShouldGcHigh() {
      DoGcOutcome(s, true);
      VictimOrNot(s);
      if s.DoGc(true).Cleaned? {
        DoGcKeepsInv(s, true);
        DoGcConserves(s, true);
        PassKeepsView(s, s.DoGc(true).ssd, s.VictimLine(true).value);
        if s.freeCnt == 0 {
          PassFreesALine(s);
        }
        ForcedGcOutcome(s.DoGc(true).ssd);
      }
    } else {
      var rest := LineBalance(s);
    }
  }

  lemma VictimOrNot(s: Ssd)
    requires s.Shape()
    ensures s.VictimLine(true).None? <==> |s.q.d| == 1
  {
  }

  lemma PassKeepsView(s: Ssd, t: Ssd, v: nat)
    requires s.Shape() && t.Shape() && Passed(s, t, v)
    ensures t.View() == s.View() && t.g == s.g
  {
    hide Ssd.Shape;
  }

  /** With one free line a pass never runs out: the victim has fewer valid pages than a line. */
  lemma OneFreeLineSuffices(s: Ssd, force: bool)
    requires Inv(s) && s.freeCnt >= 1
    ensures !s.DoGc(force).Stopped?
  {
    DoGcOutcome(s, force);
    if s.VictimLine(force).Some? {
      DoGcMid(s);
      RoomIsFreePages(s);
      FreePagesAreLines(s);
      MulMonotone(1, |s.free|, s.g.pgsPerLine);
    }
  }

  /** Without a victim line, every line that is neither free nor current is fully valid. */
  lemma OthersFullyValid(s: Ssd, a: Ppa)
    requires Inv(s) && |s.q.d| == 1 && s.g.Has(a) && a.blk !in s.free && a.blk != s.wp.curline
    ensures s.status[a] == PgValid
  {
    assert LineOk(s, a.blk, false);
  }

  // ---------- commands ----------

  function StartLpn(g: Geometry, slba: U64): (lpn: nat)
    requires g.Positive()
  {
    slba / g.secsPerPg
  }

  /** The sector sum wraps at 64 bits. */
  function EndLpn(g: Geometry, slba: U64, length: U16): (lpn: nat)
    requires g.Positive()
  {
    (slba + length) % 0x1_0000_0000_0000_0000 / g.secsPerPg
  }

  // ---------- sectors ----------

  /** The last sector of a command. */
  function LastSector(slba: U64, length: U16): (n: nat) {
    if slba + length < 0x1_0000_0000_0000_0000 then slba + length else slba + length - 0x1_0000_0000_0000_0000
  }

  /** The last sector exists. */
  predicate InRange(g: Geometry, slba: U64, length: U16) {
    LastSector(slba, length) < g.ttPgs * g.secsPerPg
  }

  /** Page i, which holds sectors i * secs_per_pg up to (i + 1) * secs_per_pg, has a sector of the command. */
  predicate Covers(g: Geometry, slba: U64, length: U16, i: nat) {
    slba < (i + 1) * g.secsPerPg && i * g.secsPerPg <= LastSector(slba, length)
  }

  /** The command is a write that changes page i. */
  predicate Reaches(g: Geometry, cmd: Cmd, i: nat) {
    cmd.Write? && InRange(g, cmd.slba, cmd.length) && Covers(g, cmd.slba, cmd.length, i)
  }

  lemma CoveredExists(g: Geometry, slba: U64, length: U16, i: nat)
    requires g.Positive() && InRange(g, slba, length) && Covers(g, slba, length, i)
    ensures i < g.ttPgs
  {
    MulCancels(i, g.ttPgs, g.secsPerPg);
  }

  lemma QuotientBelow(n: nat, base: nat, i: nat)
    requires base >= 1
    ensures n / base < i <==> n < i * base
  {
    var q, r := n / base, n % base;
    assert n == q * base + r;
    if q < i {
      DigitBound(q, r, base, i);
    } else {
      MulMonotone(i, q, base);
    }
  }

  /** ssd_write and ssd_read go through exactly the pages that have a sector of the command. */
  lemma PagesOfSectors(g: Geometry, slba: U64, length: U16, i: nat)
    requires g.Positive()
    ensures StartLpn(g, slba) <= i <= EndLpn(g, slba, length) <==> Covers(g, slba, length, i)
  {
    WrapsOnce(slba, length);
    QuotientBelow(slba, g.secsPerPg, i + 1);
    QuotientBelow(LastSector(slba, length), g.secsPerPg, i);
  }

  /** They turn a command away exactly when its last sector does not exist. */
  lemma RangeOfSectors(g: Geometry, slba: U64, length: U16)
    requires g.Positive()
    ensures EndLpn(g, slba, length) < g.ttPgs <==> InRange(g, slba, length)
  {
    WrapsOnce(slba, length);
    QuotientBelow(LastSector(slba, length), g.secsPerPg, g.ttPgs);
  }

  lemma WrapsOnce(slba: U64, length: U16)
    ensures (slba + length) % 0x1_0000_0000_0000_0000 == LastSector(slba, length)
  {
  }

  ghost function SsdWrite(s: Ssd, slba: U64, length: U16, content: nat): (r: Option<Ssd>)
    requires Inv(s)
  {
    var end := EndLpn(s.g, slba, length);
    if end >= s.g.ttPgs then Some(s)
    else
      ForcedGcOutcome(s);
      match ForcedGc(s)
      case None => None
      case Some(t) => t.WritePages(StartLpn(s.g, slba), end, content)
  }

  /** __check_gc_and_run. */
  ghost function BackgroundGc(s: Ssd): (r: Option<Ssd>)
    requires Inv(s)
  {
    if !s.ShouldGc() then Some(s)
    else
      match s.DoGc(false)
      case NoVictim => Some(s)
      case Stopped => None
      case Cleaned(t) => Some(t)
  }

  /** The switch of __nvmev_proc_io: only a write changes anything. */
  ghost function Executed(s: Ssd, cmd: Cmd): (r: Option<Ssd>)
    requires Inv(s)
  {
    match cmd
    case Write(slba, length, content) => SsdWrite(s, slba, length, content)
    case Read(_, _) => Some(s)
    case Other => Some(s)
  }

  ghost function Step(s: Ssd, cmd: Cmd): (r: Option<Ssd>)
    requires Inv(s)
  {
    match Executed(s, cmd)
    case None => None
    case Some(t) =>
      if cmd.Write? then
        SsdWriteOutcome(s, cmd.slba, cmd.length, cmd.content);
        BackgroundGc(t)
      else Some(t)
  }

  // ---------- the host's picture ----------

  /** The pages a write covers; none when it is out of range. */
  ghost function Touched(g: Geometry, cmd: Cmd): (w: set<nat>)
    requires g.Positive()
    ensures forall i: nat :: i in w <==> Reaches(g, cmd, i)
  {
    assert forall i: nat :: Reaches(g, cmd, i) ==> i < g.ttPgs by {
      forall i: nat | Reaches(g, cmd, i)
        ensures i < g.ttPgs
      {
        CoveredExists(g, cmd.slba, cmd.length, i);
      }
    }
    set i: nat | i < g.ttPgs && Reaches(g, cmd, i)
  }

  /** A plain array of pages: a write changes each page that has a sector of it. */
  function HostStep(g: Geometry, v: seq<Option<nat>>, cmd: Cmd): (r: seq<Option<nat>>)
    requires g.Positive() && |v| == g.ttPgs
    ensures |r| == |v|
  {
    seq(|v|, i requires 0 <= i < |v| => if Reaches(g, cmd, i) then Some(cmd.content) else v[i])
  }

  /** The pages written are those the host means. */
  lemma SamePages(g: Geometry, v: seq<Option<nat>>, cmd: Cmd)
    requires g.Positive() && |v| == g.ttPgs && cmd.Write?
    ensures EndLpn(g, cmd.slba, cmd.length) < g.ttPgs <==> InRange(g, cmd.slba, cmd.length)
    ensures EndLpn(g, cmd.slba, cmd.length) < g.ttPgs ==>
              var lpn, end := StartLpn(g, cmd.slba), EndLpn(g, cmd.slba, cmd.length);
              Touched(g, cmd) == Interval(lpn, end) && HostStep(g, v, cmd) == Overwrite(v, lpn, end, cmd.content)
    ensures EndLpn(g, cmd.slba, cmd.length) >= g.ttPgs ==> Touched(g, cmd) == {} && HostStep(g, v, cmd) == v
  {
    hide StartLpn, EndLpn, Covers, InRange;
    RangeOfSectors(g, cmd.slba, cmd.length);
    forall i: nat
      ensures StartLpn(g, cmd.slba) <= i <= EndLpn(g, cmd.slba, cmd.length)
         <==> Covers(g, cmd.slba, cmd.length, i)
    {
      PagesOfSectors(g, cmd.slba, cmd.length, i);
    }
    if EndLpn(g, cmd.slba, cmd.length) < g.ttPgs {
      var lpn, end := StartLpn(g, cmd.slba), EndLpn(g, cmd.slba, cmd.length);
      assert HostStep(g, v, cmd) == Overwrite(v, lpn, end, cmd.content);
      assert Touched(g, cmd) == Interval(lpn, end);
    }
  }

  // ---------- one command ----------

  ghost function PageCount(lpn: nat, end: nat): (n: nat) { if lpn > end then 0 else end + 1 - lpn }

  ghost function Interval(lpn: nat, end: nat): (w: set<nat>)
    ensures forall i: nat :: i in w <==> lpn <= i <= end
  {
    Below(end + 1) - Below(lpn)
  }

  lemma IntervalSize(lpn: nat, end: nat)
    ensures |Interval(lpn, end)| == PageCount(lpn, end)
  {
    if lpn <= end + 1 {
      assert Below(end + 1) == Below(lpn) + Interval(lpn, end);
      DisjointSizes(Below(lpn), Interval(lpn, end));
    } else {
      assert Interval(lpn, end) == {};
    }
  }

  /** The number of pages a write in range changes. */
  lemma TouchedSize(g: Geometry, slba: U64, length: U16, content: nat)
    requires g.Positive() && EndLpn(g, slba, length) < g.ttPgs
    ensures |Touched(g, Write(slba, length, content))| == PageCount(StartLpn(g, slba), EndLpn(g, slba, length))
  {
    hide EndLpn, StartLpn, Touched, HostStep;
    IntervalSize(StartLpn(g, slba), EndLpn(g, slba, length));
    SamePages(g, seq(g.ttPgs, i => None), Write(slba, length, content));
  }

  lemma WritePagesOutcome(s: Ssd, lpn: nat, end: nat, content: nat)
    requires Inv(s) && s.Shape() && end < |s.maptbl|
    ensures var r := s.WritePages(lpn, end, content);
            && (r.Some? <==> PageCount(lpn, end) < FreePages(s))
            && (r.Some? ==>
                  && Inv(r.value) && r.value.g == s.g
                  && r.value.View() == Overwrite(s.View(), lpn, end, content)
                  && Mapped(r.value) == Mapped(s) + Interval(lpn, end)
                  && FreePages(r.value) == FreePages(s) - PageCount(lpn, end))
  {
    hide SpaceInv, Inverse, Ssd.Shape;
    WritePagesKeepInv(s, lpn, end, content);
    RoomIsFreePages(s);
    if s.WritePages(lpn, end, content).Some? {
      var t := s.WritePages(lpn, end, content).value;
      RoomIsFreePages(t);
      assert Mapped(t) == Mapped(s) + Interval(lpn, end);
    }
  }

  lemma SameLengths(s: Ssd)
    requires Inv(s)
    ensures s.Shape() && s.q.Sound() && s.g.Positive() && |s.maptbl| == s.g.ttPgs
  {
  }

  /** ssd_write: the view changes as the host expects, and the write runs out of lines exactly when
      it has at least as many pages as are free once forced collection is over. */
  lemma SsdWriteOutcome(s: Ssd, slba: U64, length: U16, content: nat)
    requires Inv(s)
    ensures var r := SsdWrite(s, slba, length, content); var cmd := Write(slba, length, content);
            var lpn := StartLpn(s.g, slba); var end := EndLpn(s.g, slba, length);
            && (end < s.g.ttPgs ==>
                  (r.Some? <==> ForcedGc(s).Some? && PageCount(lpn, end) < FreePages(ForcedGc(s).value)))
            && (r.Some? ==>
                  && Inv(r.value) && r.value.g == s.g
                  && r.value.View() == HostStep(s.g, s.View(), cmd)
                  && Mapped(r.value) == Mapped(s) + Touched(s.g, cmd)
                  && (end < s.g.ttPgs ==> FreePages(r.value) == FreePages(ForcedGc(s).value) - PageCount(lpn, end)))
  {
    hide Inv, EndLpn, StartLpn, Ssd.Shape, Ssd.WritePages, Covers, InRange, Touched, HostStep;
    SameLengths(s);
    SamePages(s.g, s.View(), Write(slba, length, content));
    var lpn, end := StartLpn(s.g, slba), EndLpn(s.g, slba, length);
    if end < s.g.ttPgs {
      ForcedGcOutcome(s);
      if ForcedGc(s).Some? {
        var t := ForcedGc(s).value;
        SameLengths(t);
        WritePagesOutcome(t, lpn, end, content);
      }
    }
  }

  /** ssd_write in sectors, for a sum that does not wrap: it never does anything exactly when the last
      sector does not exist, and otherwise changes exactly the pages that have a sector of the command. */
  lemma SsdWriteCovers(s: Ssd, slba: U64, length: U16, content: nat)
    requires Inv(s) && slba + length < 0x1_0000_0000_0000_0000
    ensures (forall c: nat :: SsdWrite(s, slba, length, c) == Some(s)) <==> slba + length >= s.g.ttPgs * s.g.secsPerPg
    ensures SsdWrite(s, slba, length, content).Some? && slba + length < s.g.ttPgs * s.g.secsPerPg ==>
              var v, w := s.View(), SsdWrite(s, slba, length, content).value.View();
              && |v| == |w| == s.g.ttPgs
              && forall i: nat :: i < s.g.ttPgs ==>
                   w[i] == if slba < (i + 1) * s.g.secsPerPg && i * s.g.secsPerPg <= slba + length then Some(content)
                           else v[i]
  {
    hide Inv, Ssd.Shape, SsdWrite, StartLpn, EndLpn, Ssd.View;
    SameLengths(s);
    SsdWriteOutcome(s, slba, length, content);
    RangeOfSectors(s.g, slba, length);
    if slba + length >= s.g.ttPgs * s.g.secsPerPg {
      forall c: nat
        ensures SsdWrite(s, slba, length, c) == Some(s)
      {
        OutOfRange(s, slba, length, c);
      }
    } else {
      WriteShows(s, slba, length);
    }
  }

  /** A write in range shows: some content changes its first page. */
  lemma WriteShows(s: Ssd, slba: U64, length: U16)
    requires Inv(s) && slba + length < 0x1_0000_0000_0000_0000
    requires slba + length < s.g.ttPgs * s.g.secsPerPg
    ensures exists c: nat :: SsdWrite(s, slba, length, c) != Some(s)
  {
    hide Inv, Ssd.Shape, SsdWrite, StartLpn, EndLpn, Ssd.View;
    SameLengths(s);
    var i := slba / s.g.secsPerPg;
    QuotientBelow(slba, s.g.secsPerPg, i + 1);
    QuotientBelow(slba, s.g.secsPerPg, i);
    CoveredExists(s.g, slba, length, i);
    var c := if s.View()[i] == Some(0) then 1 else 0;
    SsdWriteOutcome(s, slba, length, c);
    assert Reaches(s.g, Write(slba, length, c), i);
    assert SsdWrite(s, slba, length, c) != Some(s);
  }

  lemma BackgroundGcOutcome(s: Ssd)
    requires Inv(s)
    ensures s.freeCnt >= 1 ==> BackgroundGc(s).Some?
    ensures BackgroundGc(s).Some? ==>
              var t := BackgroundGc(s).value;
              Inv(t) && t.g == s.g && t.View() == s.View() && Mapped(t) == Mapped(s) && t.freeCnt >= s.freeCnt
  {
    hide SpaceInv, Inverse, Ssd.Shape, Rehomed, Ssd.View, Ssd.DoGc;
    SameLengths(s);
    if s.freeCnt >= 1 {
      OneFreeLineSuffices(s, false);
    }
    if s.DoGc(false).Cleaned? {
      DoGcKeepsInv(s, false);
      DoGcConserves(s, false);
    }
  }

  /** A command that completes keeps the invariant, and the device's view stays what a plain array
      of pages would hold, whatever garbage collection did meanwhile. */
  lemma StepRefines(s: Ssd, cmd: Cmd)
    requires Inv(s)
    ensures Step(s, cmd).Some? ==>
              var t := Step(s, cmd).value;
              && Inv(t) && t.g == s.g
              && t.View() == HostStep(s.g, s.View(), cmd)
              && Mapped(t) == Mapped(s) + Touched(s.g, cmd)
              && (!cmd.Write? ==> t == s)
  {
    hide SpaceInv, Inverse, Ssd.Shape, EndLpn, StartLpn;
    SameLengths(s);
    match cmd
    case Write(slba, length, content) =>
      SsdWriteOutcome(s, slba, length, content);
      if SsdWrite(s, slba, length, content).Some? {
        BackgroundGcOutcome(SsdWrite(s, slba, length, content).value);
      }
    case Read(_, _) =>
      assert Touched(s.g, cmd) == {};
    case Other =>
      assert Touched(s.g, cmd) == {};
  }

  // ---------- runs ----------

  ghost function Run(s: Ssd, cmds: seq<Cmd>): (r: Option<Ssd>)
    requires Inv(s)
    decreases |cmds|
  {
    hide Inv, Step;
    if cmds == [] then Some(s)
    else
      match Step(s, cmds[0])
      case None => None
      case Some(t) =>
        StepRefines(s, cmds[0]);
        Run(t, cmds[1..])
  }

  function HostRun(g: Geometry, v: seq<Option<nat>>, cmds: seq<Cmd>): (r: seq<Option<nat>>)
    requires g.Positive() && |v| == g.ttPgs
    ensures |r| == |v|
    decreases |cmds|
  {
    if cmds == [] then v else HostRun(g, HostStep(g, v, cmds[0]), cmds[1..])
  }

  ghost function TouchedBy(g: Geometry, cmds: seq<Cmd>): (w: set<nat>)
    requires g.Positive()
    decreases |cmds|
  {
    if cmds == [] then {} else Touched(g, cmds[0]) + TouchedBy(g, cmds[1..])
  }

  /** The main refinement: every run of commands that does not stop leaves the device with the
      contents a plain page array would have, and maps exactly the pages written. */
  lemma {:induction false} RunRefinesPageStore(s: Ssd, cmds: seq<Cmd>)
    requires Inv(s)
    ensures Run(s, cmds).Some? ==>
              var t := Run(s, cmds).value;
              && Inv(t) && t.g == s.g
              && t.View() == HostRun(s.g, s.View(), cmds)
              && Mapped(t) == Mapped(s) + TouchedBy(s.g, cmds)
    decreases |cmds|
  {
    hide SpaceInv, Inverse, Ssd.Shape, Step, Touched;
    SameLengths(s);
    if cmds == [] {
      assert Mapped(s) == Mapped(s) + TouchedBy(s.g, cmds);
    } else if Step(s, cmds[0]).Some? {
      StepRefines(s, cmds[0]);
      RunRefinesPageStore(Step(s, cmds[0]).value, cmds[1..]);
    }
  }

  lemma {:induction false} HostRunLast(g: Geometry, v: seq<Option<nat>>, cmds: seq<Cmd>, i: nat, k: int)
    requires g.Positive() && i < |v| == g.ttPgs && -1 <= k < |cmds| && (k >= 0 ==> Reaches(g, cmds[k], i))
    requires forall j :: k < j < |cmds| ==> !Reaches(g, cmds[j], i)
    ensures HostRun(g, v, cmds)[i] == if k < 0 then v[i] else Some(cmds[k].content)
    decreases |cmds|
  {
    hide Reaches;
    if cmds != [] {
      var rest := cmds[1..];
      assert forall j :: 0 <= j < |rest| ==> rest[j] == cmds[j + 1];
      HostRunLast(g, HostStep(g, v, cmds[0]), rest, i, if k <= 0 then -1 else k - 1);
    }
  }

  /** After every run a page holds the content of the last write that changes it, and is as it was
      when there is none (k = -1). */
  lemma LastWriteWins(s: Ssd, cmds: seq<Cmd>, i: nat, k: int)
    requires Inv(s) && Run(s, cmds).Some? && i < s.g.ttPgs
    requires -1 <= k < |cmds| && (k >= 0 ==> Reaches(s.g, cmds[k], i))
    requires forall j :: k < j < |cmds| ==> !Reaches(s.g, cmds[j], i)
    ensures var t := Run(s, cmds).value;
            && Inv(t) && |t.View()| == |s.View()| == s.g.ttPgs
            && t.View()[i] == if k < 0 then s.View()[i] else Some(cmds[k].content)
  {
    hide Inv, Ssd.Shape, Reaches, HostRun;
    SameLengths(s);
    RunRefinesPageStore(s, cmds);
    HostRunLast(s.g, s.View(), cmds, i, k);
  }

  // ---------- space safety ----------

  lemma InvParts(s: Ssd)
    requires Inv(s)
    ensures s.Shape() && Sized(s.g) && MapInv(s, {}) && SpaceInv(s, -1, false)
    ensures s.freeCnt == |s.free| && s.g.pgsPerLine >= 1
  {
  }

  /** Every page is in a free line, in the unwritten rest of the current line, mapped, or invalid. */
  lemma LineBalance(s: Ssd) returns (rest: nat)
    requires Inv(s)
    ensures 1 <= rest <= s.g.pgsPerLine && s.freeCnt >= 0
    ensures FreePages(s) == s.freeCnt * s.g.pgsPerLine + rest
    ensures FreePages(s) + |Mapped(s)| + InvalidPages(s) == s.g.ttLines * s.g.pgsPerLine == s.g.ttPgs
    ensures rest == Count(s.status, LinePages(s.g, s.wp.curline), PgFree)
  {
    hide Inv, SpaceInv, Inverse, Ssd.Shape, Sized;
    InvParts(s);
    MappedAreValid(s);
    PagesAddUp(s);
    FreePagesAreLines(s);
    rest := Count(s.status, LinePages(s.g, s.wp.curline), PgFree);
  }

  /** Free pages and free lines: `lines` lines are free exactly when more pages than theirs are. */
  lemma FreeLinesExactly(s: Ssd, lines: nat)
    requires Inv(s)
    ensures s.freeCnt >= lines <==> FreePages(s) > lines * s.g.pgsPerLine
  {
    hide Inv;
    var rest := LineBalance(s);
    if s.freeCnt >= lines {
      MulMonotone(lines, s.freeCnt, s.g.pgsPerLine);
    } else {
      OneMore(s.freeCnt, s.g.pgsPerLine);
      MulMonotone(s.freeCnt + 1, lines, s.g.pgsPerLine);
    }
  }

  /** Without a victim line, invalid pages sit in the current line, so the free lines can be
      counted from the mapped pages. */
  lemma InvalidOnlyInCurrent(s: Ssd)
    requires Inv(s) && |s.q.d| == 1
    ensures InvalidPages(s) + Count(s.status, LinePages(s.g, s.wp.curline), PgFree) <= s.g.pgsPerLine
  {
    var cur := LinePages(s.g, s.wp.curline);
    forall a | a in Those(s.status, Pages(s.g), PgInvalid)
      ensures a in Those(s.status, cur, PgInvalid)
    {
      assert LineOk(s, a.blk, false);
      if a.blk != s.wp.curline && a.blk !in s.free {
        OthersFullyValid(s, a);
      }
    }
    assert Those(s.status, Pages(s.g), PgInvalid) <= Those(s.status, cur, PgInvalid);
    SubsetSize(Those(s.status, Pages(s.g), PgInvalid), Those(s.status, cur, PgInvalid));
    CountTotal(s.status, cur);
    assert LineOk(s, s.wp.curline, false);
  }

  lemma FreeLinesWithoutVictims(s: Ssd, lines: nat)
    requires Inv(s) && |s.q.d| == 1 && |Mapped(s)| < (s.g.ttLines - lines) * s.g.pgsPerLine
    ensures s.freeCnt >= lines
  {
    hide Inv;
    InvalidOnlyInCurrent(s);
    var rest := LineBalance(s);
    LinesLeft(s.g.ttLines, s.freeCnt, lines, s.g.pgsPerLine, |Mapped(s)|);
  }

  lemma LinesLeft(lines: nat, free: nat, want: nat, ppl: nat, mapped: nat)
    requires ppl >= 1 && mapped < (lines - want) * ppl
    requires lines * ppl <= free * ppl + ppl + mapped
    ensures free >= want
  {
    assert (lines - want) * ppl == lines * ppl - want * ppl;
    OneMore(free, ppl);
    MulCancels(want, free + 1, ppl);
  }

  /** In every state the free lines bound what is mapped. */
  lemma MappedBound(s: Ssd)
    requires Inv(s)
    ensures 0 <= s.freeCnt && |Mapped(s)| < (s.g.ttLines - s.freeCnt) * s.g.pgsPerLine
  {
    hide Inv;
    var rest := LineBalance(s);
    assert (s.g.ttLines - s.freeCnt) * s.g.pgsPerLine == s.g.ttLines * s.g.pgsPerLine - s.freeCnt * s.g.pgsPerLine;
  }

  lemma MappedBoundAtLeast(s: Ssd, k: nat)
    requires Inv(s) && s.freeCnt >= k
    ensures |Mapped(s)| < (s.g.ttLines - k) * s.g.pgsPerLine
  {
    hide Inv;
    MappedBound(s);
    MulMonotone(s.g.ttLines - s.freeCnt, s.g.ttLines - k, s.g.pgsPerLine);
  }

  /** Forced collection leaves k free lines exactly when the mapped pages fit into fewer than
      tt_lines - k lines, for every k up to one more than the high threshold: where the invalid pages
      lie does not matter. */
  lemma ForcedGcExactly(s: Ssd, k: nat)
    requires Inv(s) && k <= s.g.gcThresLinesHigh + 1
    ensures ForcedGc(s).Some? <==> CanCollect(s)
    ensures ForcedGc(s).Some? ==>
              (ForcedGc(s).value.freeCnt >= k <==> |Mapped(s)| < (s.g.ttLines - k) * s.g.pgsPerLine)
  {
    hide Inv, Ssd.Shape, ForcedGc, CanCollect;
    ForcedGcOutcome(s);
    if ForcedGc(s).Some? {
      var t := ForcedGc(s).value;
      if t.freeCnt >= k {
        MappedBoundAtLeast(t, k);
      } else if |Mapped(t)| < (t.g.ttLines - k) * t.g.pgsPerLine {
        FreeLinesWithoutVictims(t, k);
      }
    }
  }

  /** c is at most the high threshold, and the pages in use leave c + 1 lines over and a page more. */
  ghost predicate Provisioned(g: Geometry, c: nat, w: set<nat>) {
    c <= g.gcThresLinesHigh && |w| < (g.ttLines - 1 - c) * g.pgsPerLine
  }

  ghost predicate Modest(g: Geometry, c: nat, w: set<nat>, cmd: Cmd)
    requires g.Positive()
  {
    && Touched(g, cmd) <= w
    && (cmd.Write? ==>
          PageCount(StartLpn(g, cmd.slba), EndLpn(g, cmd.slba, cmd.length)) <= c * g.pgsPerLine)
  }

  lemma GcLeavesEnough(s: Ssd, c: nat, w: set<nat>)
    requires Inv(s) && s.freeCnt >= 1 && Provisioned(s.g, c, w) && Mapped(s) <= w
    ensures ForcedGc(s).Some? && Inv(ForcedGc(s).value) && ForcedGc(s).value.freeCnt >= c + 1
  {
    hide Inv, Ssd.Shape, ForcedGc;
    ForcedGcOutcome(s);
    SubsetSize(Mapped(s), w);
    assert s.g.ttLines - 1 - c == s.g.ttLines - (c + 1);
    ForcedGcExactly(s, c + 1);
  }

  /** n pages taken off leave a free line exactly when n and a line's worth of pages were free. */
  lemma LineLeftAfter(s: Ssd, t: Ssd, n: nat)
    requires Inv(s) && Inv(t) && t.g == s.g && FreePages(t) == FreePages(s) - n
    ensures t.freeCnt >= 1 <==> FreePages(s) > n + s.g.pgsPerLine
  {
    FreeLinesExactly(t, 1);
  }

  /** A write that starts with c + 1 free lines and fills at most c of them leaves one. */
  lemma WriteLeavesALine(s: Ssd, slba: U64, length: U16, content: nat, c: nat, w: set<nat>)
    requires Inv(s) && s.freeCnt >= 1
    requires Provisioned(s.g, c, w) && Mapped(s) <= w && Modest(s.g, c, w, Write(slba, length, content))
    ensures SsdWrite(s, slba, length, content).Some?
    ensures SsdWrite(s, slba, length, content).value.freeCnt >= 1
  {
    hide Inv, Ssd.Shape, ForcedGc, Provisioned, EndLpn, StartLpn, SsdWrite, Touched, FreePages;
    SameLengths(s);
    SsdWriteOutcome(s, slba, length, content);
    if EndLpn(s.g, slba, length) < s.g.ttPgs {
      GcLeavesEnough(s, c, w);
      ForcedGcOutcome(s);
      var t := ForcedGc(s).value;
      var n := PageCount(StartLpn(s.g, slba), EndLpn(s.g, slba, length));
      FreeLinesExactly(t, c + 1);
      OneMore(c, s.g.pgsPerLine);
      LineLeftAfter(t, SsdWrite(s, slba, length, content).value, n);
    } else {
      assert SsdWrite(s, slba, length, content) == Some(s) by { OutOfRange(s, slba, length, content); }
    }
  }

  lemma OutOfRange(s: Ssd, slba: U64, length: U16, content: nat)
    requires Inv(s) && EndLpn(s.g, slba, length) >= s.g.ttPgs
    ensures SsdWrite(s, slba, length, content) == Some(s)
  {
    hide Inv;
  }

  /** One command from a state with a free line to a state with a free line. */
  lemma StepIsSafe(s: Ssd, cmd: Cmd, c: nat, w: set<nat>)
    requires Inv(s) && s.freeCnt >= 1
    requires Provisioned(s.g, c, w) && Mapped(s) <= w && Modest(s.g, c, w, cmd)
    ensures Step(s, cmd).Some?
    ensures Step(s, cmd).value.freeCnt >= 1 && Mapped(Step(s, cmd).value) <= w
  {
    hide Inv, Ssd.Shape, Provisioned, SsdWrite, BackgroundGc;
    SameLengths(s);
    StepRefines(s, cmd);
    match cmd
    case Write(slba, length, content) =>
      WriteLeavesALine(s, slba, length, content, c, w);
      SsdWriteOutcome(s, slba, length, content);
      BackgroundGcOutcome(SsdWrite(s, slba, length, content).value);
    case Read(_, _) =>
    case Other =>
  }

  /** Space safety over whole runs: the write pointer always finds a free line, in user writes, in
      forced and in background collection, and every state between commands has a free line. */
  lemma {:induction false} RunIsSafe(s: Ssd, cmds: seq<Cmd>, c: nat, w: set<nat>)
    requires Inv(s) && s.freeCnt >= 1
    requires Provisioned(s.g, c, w) && Mapped(s) <= w
    requires forall i :: 0 <= i < |cmds| ==> Modest(s.g, c, w, cmds[i])
    ensures Run(s, cmds).Some? && Run(s, cmds).value.freeCnt >= 1
    decreases |cmds|
  {
    hide Inv, Provisioned, Modest, Step, Ssd.Shape;
    if cmds != [] {
      StepIsSafe(s, cmds[0], c, w);
      StepRefines(s, cmds[0]);
      RunIsSafe(Step(s, cmds[0]).value, cmds[1..], c, w);
    }
  }

  // ---------- and why it needs a condition ----------

  /** The current line always has an unwritten page, so not every logical page can be mapped. */
  lemma NotEverythingMapped(s: Ssd)
    requires Inv(s)
    ensures |Mapped(s)| < s.g.ttPgs
  {
    hide Inv;
    var rest := LineBalance(s);
  }

  /** A run that writes every page of the flash stops. */
  lemma FillingTheDeviceStops(s: Ssd, cmds: seq<Cmd>)
    requires Inv(s)
    requires Below(s.g.ttPgs) <= TouchedBy(s.g, cmds)
    ensures Run(s, cmds).None?
  {
    RunRefinesPageStore(s, cmds);
    if Run(s, cmds).Some? {
      var t := Run(s, cmds).value;
      NotEverythingMapped(t);
      SubsetSize(Below(s.g.ttPgs), Mapped(t));
    }
  }

  /** With all but one line's worth of logical pages mapped there is no free line. */
  lemma CrowdedHasNoFreeLine(s: Ssd)
    requires Inv(s)
    requires |Mapped(s)| >= (s.g.ttLines - 1) * s.g.pgsPerLine
    ensures s.freeCnt == 0
  {
    hide Inv;
    MappedBound(s);
    if s.freeCnt >= 1 {
      MappedBoundAtLeast(s, 1);
    }
  }
}
