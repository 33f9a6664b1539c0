/** How much a write needs: exact conditions, told from the state before the call. */
module Capacity {
  import opened Common
  import opened Arith
  import opened Geometries
  import opened Ssds
  import opened Space
  import opened Mapping
  import opened Gc
  import opened GcPass
  import opened Totals
  import opened Wear
  import opened Runs
  import opened Start

  // ---------- what the lines hold ----------

  ghost function Rest(s: Ssd): (n: nat) {
    Count(s.status, LinePages(s.g, s.wp.curline), PgFree)
  }

  lemma CurrentLine(s: Ssd)
    requires Inv(s)
    ensures s.wp.curline < |s.ipc| == |s.q.pri| == |s.q.pos| && s.q.pos[s.wp.curline] == 0
    ensures 0 <= s.ipc[s.wp.curline] && 0 <= s.q.pri[s.wp.curline] && 1 <= Rest(s)
    ensures s.ipc[s.wp.curline] + s.q.pri[s.wp.curline] + Rest(s) == s.g.pgsPerLine
    ensures s.fullCnt == |s.full| && s.wp.curline !in s.free && s.wp.curline !in s.full
  {
    assert LineOk(s, s.wp.curline, false);
    LineTotal(s, s.wp.curline);
    FreePagesAreLines(s);
  }

  ghost function ValidOf(s: Ssd, b: nat): (x: set<Ppa>) {
    Those(s.status, LinePages(s.g, b), PgValid)
  }

  lemma FullPage(s: Ssd, a: Ppa)
    requires Inv(s) && s.g.Has(a) && a.blk in s.full
    ensures a in s.status && s.status[a] == PgValid
  {
    assert LineOk(s, a.blk, false);
  }

  lemma FullList(s: Ssd)
    requires Inv(s)
    ensures Distinct(s.full) && s.fullCnt == |s.full| && forall i :: 0 <= i < |s.full| ==> s.full[i] < s.g.blksPerPl
  {
    assert forall i :: 0 <= i < |s.full| ==> s.full[i] in s.full;
  }

  lemma FullLines(s: Ssd)
    requires Inv(s)
    ensures |PagesOf(s.g, s.full)| == s.fullCnt * s.g.pgsPerLine
    ensures PagesOf(s.g, s.full) <= Those(s.status, Pages(s.g), PgValid)
  {
    hide Inv, SpaceInv, Inverse, Ssd.Shape, Sized;
    InvParts(s);
    FullList(s);
    PagesOfSize(s.g, s.full);
    forall a | a in PagesOf(s.g, s.full)
      ensures a in Those(s.status, Pages(s.g), PgValid)
    {
      FullPage(s, a);
    }
  }

  lemma LineValid(s: Ssd, b: nat)
    requires Inv(s) && b < s.g.blksPerPl
    ensures b < |s.q.pri| && |ValidOf(s, b)| == s.q.pri[b] && ValidOf(s, b) <= Those(s.status, Pages(s.g), PgValid)
  {
    assert LineOk(s, b, false);
  }

  /** The full lines, the valid pages of the current line and those of a victim are all mapped. */
  lemma MappedAtLeast(s: Ssd, v: nat)
    requires Inv(s) && v < |s.q.pos| && s.q.pos[v] != 0
    ensures s.wp.curline < |s.q.pri| == |s.q.pos|
    ensures |Mapped(s)| >= s.fullCnt * s.g.pgsPerLine + s.q.pri[s.wp.curline] + s.q.pri[v]
  {
    hide Inv, SpaceInv, Inverse, Ssd.Shape;
    InvParts(s);
    CurrentLine(s);
    VictimIsElsewhere(s, v);
    var f, c, x := PagesOf(s.g, s.full), ValidOf(s, s.wp.curline), ValidOf(s, v);
    FullLines(s);
    LineValid(s, s.wp.curline);
    LineValid(s, v);
    DisjointSizes(f, c);
    DisjointSizes(f + c, x);
    SubsetSize(f + c + x, Those(s.status, Pages(s.g), PgValid));
    MappedAreValid(s);
  }

  lemma VictimIsElsewhere(s: Ssd, v: nat)
    requires Inv(s) && v < |s.q.pos| && s.q.pos[v] != 0
    ensures v < s.g.blksPerPl && s.wp.curline < s.g.blksPerPl && v != s.wp.curline && v !in s.full
  {
    assert LineOk(s, v, false);
  }

  lemma MappedAtLeastFull(s: Ssd)
    requires Inv(s)
    ensures |Mapped(s)| >= s.fullCnt * s.g.pgsPerLine
  {
    hide Inv, SpaceInv, Inverse, Ssd.Shape;
    InvParts(s);
    FullLines(s);
    SubsetSize(PagesOf(s.g, s.full), Those(s.status, Pages(s.g), PgValid));
    MappedAreValid(s);
  }

  /** Without a victim line the mapped pages are those of the full lines and the current one, and the
      invalid pages those of the current one. */
  lemma WithoutVictims(s: Ssd)
    requires Inv(s) && |s.q.d| == 1
    ensures s.wp.curline < |s.q.pri| && s.wp.curline < |s.ipc|
    ensures |Mapped(s)| == s.fullCnt * s.g.pgsPerLine + s.q.pri[s.wp.curline]
    ensures InvalidPages(s) == s.ipc[s.wp.curline]
  {
    hide Inv, SpaceInv, Inverse, Ssd.Shape;
    InvParts(s);
    CurrentLine(s);
    CurrentInRange(s);
    var f, c := PagesOf(s.g, s.full), ValidOf(s, s.wp.curline);
    FullLines(s);
    LineValid(s, s.wp.curline);
    OnlyTwoPlaces(s);
    DisjointSizes(f, c);
    MappedAreValid(s);
  }

  lemma CurrentInRange(s: Ssd)
    requires Inv(s)
    ensures s.wp.curline < s.g.blksPerPl
  {
  }

  /** Without a victim line a page that is not in a full line is valid or invalid only in the current
      one. */
  lemma WherePage(s: Ssd, a: Ppa)
    requires Inv(s) && |s.q.d| == 1 && s.g.Has(a)
    ensures a in s.status
    ensures a.blk in s.full ==> s.status[a] == PgValid && a.blk != s.wp.curline
    ensures a.blk !in s.full && a.blk != s.wp.curline ==> s.status[a] == PgFree
  {
    assert LineOk(s, a.blk, false);
  }

  lemma OnlyTwoPlaces(s: Ssd)
    requires Inv(s) && |s.q.d| == 1
    ensures Those(s.status, Pages(s.g), PgValid) == PagesOf(s.g, s.full) + ValidOf(s, s.wp.curline)
    ensures s.wp.curline < |s.ipc| && InvalidPages(s) == s.ipc[s.wp.curline]
  {
    hide Inv;
    var cur := LinePages(s.g, s.wp.curline);
    forall a
      ensures a in Those(s.status, Pages(s.g), PgValid) <==> a in PagesOf(s.g, s.full) + ValidOf(s, s.wp.curline)
      ensures a in Those(s.status, Pages(s.g), PgInvalid) <==> a in Those(s.status, cur, PgInvalid)
    {
      if s.g.Has(a) {
        WherePage(s, a);
      }
    }
    assert Those(s.status, Pages(s.g), PgInvalid) == Those(s.status, cur, PgInvalid);
    CurrentCounted(s);
  }

  lemma CurrentCounted(s: Ssd)
    requires Inv(s)
    ensures s.wp.curline < |s.ipc|
    ensures s.ipc[s.wp.curline] == Count(s.status, LinePages(s.g, s.wp.curline), PgInvalid)
  {
    assert LineOk(s, s.wp.curline, false);
  }

  // ---------- invalid pages that forced collection cannot reach ----------

  /** The invalid pages of the current line, when everything mapped fits into the full lines and this
      one: then copying never fills the line, and they stay where they are. */
  ghost function Stranded(s: Ssd): (n: nat)
    requires Inv(s)
  {
    CurrentLine(s);
    if |Mapped(s)| + s.ipc[s.wp.curline] < (s.fullCnt + 1) * s.g.pgsPerLine then s.ipc[s.wp.curline] else 0
  }

  /** Stranded pages never fill a line up: they do not change which multiple of a line is reached. */
  lemma StrandedFits(s: Ssd, k: int)
    requires Inv(s)
    ensures |Mapped(s)| + Stranded(s) < k * s.g.pgsPerLine <==> |Mapped(s)| < k * s.g.pgsPerLine
  {
    hide Inv;
    CurrentLine(s);
    MappedAtLeastFull(s);
    if Stranded(s) != 0 && |Mapped(s)| < k * s.g.pgsPerLine {
      MulCancels(s.fullCnt, k, s.g.pgsPerLine);
      MulMonotone(s.fullCnt + 1, k, s.g.pgsPerLine);
    }
  }

  /** A pass that uses up the current line copies at least the pages that were left in it. */
  lemma CrossingCopies(s: Ssd, force: bool)
    requires Inv(s) && s.DoGc(force).Cleaned? && s.DoGc(force).ssd.wp.curline != s.wp.curline
    ensures var v := s.VictimLine(force).value; v < |s.q.pri| && s.q.pri[v] >= Rest(s)
  {
    hide Inv, Ssd.Shape, Ssd.DoGc, Ssd.VictimLine, FreePages, Rest, SpaceInv, Inverse;
    SameLengths(s);
    InvParts(s);
    VictimFacts(s, force);
    var v, t := s.VictimLine(force).value, s.DoGc(force).ssd;
    DoGcKeepsInv(s, force);
    DoGcConserves(s, force);
    DoGcWears(s, force);
    CurrentLine(s);
    LineUsedUp(s, t, v);
    FreePagesLost(s, t, v);
  }

  lemma VictimFacts(s: Ssd, force: bool)
    requires Inv(s) && s.DoGc(force).Cleaned?
    ensures s.VictimLine(force).Some?
    ensures var v := s.VictimLine(force).value;
            && v < s.g.blksPerPl == |s.q.pri| == |s.q.pos| == |s.ipc| && s.q.pos[v] != 0 && v != s.wp.curline
            && s.ipc[v] + s.q.pri[v] == s.g.pgsPerLine && NoFreePage(s, v) && s.Shape() && s.DoGc(force).ssd.Shape()
  {
    hide Inv, Inverse, BlockCounted, SpaceInv, Ssd.CleanLine;
    SameLengths(s);
    var v := s.q.d[1];
    DoGcMid(s);
    RootIsQueued(s);
  }

  lemma RootIsQueued(s: Ssd)
    requires Inv(s) && |s.q.d| > 1
    ensures var v := s.q.d[1];
            && v < s.g.blksPerPl == |s.q.pri| == |s.q.pos| == |s.ipc| && s.q.pos[v] != 0 && v != s.wp.curline
  {
    assert s.q.pos[s.q.d[1]] == 1;
    assert LineOk(s, s.q.d[1], false);
  }

  /** The line left behind is full or a victim: it has no free page. */
  lemma LineUsedUp(s: Ssd, t: Ssd, v: nat)
    requires Inv(t) && t.g == s.g && t.wp.curline != s.wp.curline && s.wp.curline < t.g.blksPerPl
    requires v != s.wp.curline && s.wp.curline !in s.free
    requires t.free == s.free + [v] || (s.free != [] && t.free == s.free[1..] + [v])
    ensures t.Shape()
    ensures forall a: Ppa :: t.g.Has(a) && a.blk == s.wp.curline ==> t.status[a] != PgFree
  {
    assert forall b :: b in t.free ==> b in s.free || b == v;
    assert LineOk(t, s.wp.curline, false);
  }

  /** Free pages outside the victim were free before and are not in the line used up. */
  lemma FreeBefore(s: Ssd, t: Ssd, v: nat, a: Ppa)
    requires s.Shape() && t.Shape() && Passed(s, t, v) && s.g.Has(a)
    ensures a in s.status && a in t.status
    ensures a.blk == v ==> t.status[a] == PgFree
    ensures a.blk != v && t.status[a] == PgFree ==> s.status[a] == PgFree
  {
    hide Rehomed, Ssd.View;
  }

  lemma FreePagesLost(s: Ssd, t: Ssd, v: nat)
    requires s.Shape() && t.Shape() && Passed(s, t, v) && v < s.g.blksPerPl && v != s.wp.curline && Sized(s.g)
    requires t.g == s.g
    requires forall a: Ppa :: t.g.Has(a) && a.blk == s.wp.curline ==> t.status[a] != PgFree
    ensures FreePages(t) + Rest(s) <= FreePages(s) + s.g.pgsPerLine
  {
    hide Ssd.Shape, Passed, Sized;
    var was, now := Those(s.status, Pages(s.g), PgFree), Those(t.status, Pages(t.g), PgFree);
    var line, cur := LinePages(s.g, v), Those(s.status, LinePages(s.g, s.wp.curline), PgFree);
    forall a
      ensures a in line ==> a in now
      ensures a in now - line ==> a in was && a !in cur
      ensures a in cur ==> a in was
    {
      if s.g.Has(a) {
        FreeBefore(s, t, v, a);
      }
    }
    SetsLost(was, now, line, cur);
    SizedLine(s.g, v);
  }

  lemma SetsLost(was: set<Ppa>, now: set<Ppa>, line: set<Ppa>, cur: set<Ppa>)
    requires line <= now && cur <= was && now - line <= was && (now - line) !! cur
    ensures |now| + |cur| <= |was| + |line|
  {
    DisjointSizes(now - line, cur);
    SubsetSize((now - line) + cur, was);
    assert now == (now - line) + line;
    DisjointSizes(now - line, line);
  }

  lemma FreeLineIsClean(s: Ssd, b: nat)
    requires Inv(s) && b in s.free
    ensures b < |s.ipc| && s.ipc[b] == 0 && s.q.pos[b] == 0
  {
    assert LineOk(s, b, false);
    CountNone(s.status, LinePages(s.g, b), PgInvalid);
  }

  /** A pass leaves the stranded pages as they are. */
  lemma StrandedStays(s: Ssd, force: bool)
    requires Inv(s) && s.DoGc(force).Cleaned? && Inv(s.DoGc(force).ssd)
    ensures Stranded(s.DoGc(force).ssd) == Stranded(s)
  {
    hide Inv, Ssd.Shape, Ssd.DoGc, Ssd.VictimLine, Rest;
    SameLengths(s);
    VictimFacts(s, force);
    var v, t := s.VictimLine(force).value, s.DoGc(force).ssd;
    DoGcConserves(s, force);
    DoGcLines(s, force);
    DoGcKeepsInv(s, force);
    CurrentLine(s);
    CurrentLine(t);
    if t.wp.curline != s.wp.curline {
      FreeLineIsClean(s, t.wp.curline);
      CrossingCopies(s, force);
      MappedAtLeast(s, v);
      OneMore(s.fullCnt, s.g.pgsPerLine);
    }
  }

  lemma {:induction false} ForcedStrandedStays(s: Ssd)
    requires Inv(s)
    ensures ForcedGc(s).Some? ==> Inv(ForcedGc(s).value) && Stranded(ForcedGc(s).value) == Stranded(s)
    decreases InvalidPages(s)
  {
    hide Inv, Ssd.Shape, Ssd.DoGc, Stranded, Passed;
    SameLengths(s);
    if s.ShouldGcHigh() && s.DoGc(true).Cleaned? {
      DoGcKeepsInv(s, true);
      DoGcConserves(s, true);
      StrandedStays(s, true);
      ForcedStrandedStays(s.DoGc(true).ssd);
    }
  }

  /** What forced collection leaves free: more than its threshold asks for when the mapped pages allow
      it, and otherwise every page that is neither mapped nor stranded. */
  lemma ForcedFreePages(s: Ssd)
    requires Inv(s) && ForcedGc(s).Some?
    ensures var m, p, free := |Mapped(s)|, s.g.pgsPerLine, FreePages(ForcedGc(s).value);
            if m < (s.g.ttLines - 1 - s.g.gcThresLinesHigh) * p then free > (s.g.gcThresLinesHigh + 1) * p
            else free + m + Stranded(s) == s.g.ttLines * p
  {
    hide Inv, Ssd.Shape, ForcedGc, FreePages, Rest, CanCollect;
    ForcedGcOutcome(s);
    ForcedStrandedStays(s);
    var t, h := ForcedGc(s).value, s.g.gcThresLinesHigh;
    assert s.g.ttLines - 1 - h == s.g.ttLines - (h + 1);
    ForcedGcExactly(s, h + 1);
    if t.freeCnt >= h + 1 {
      FreeLinesExactly(t, h + 1);
    } else {
      WithoutVictims(t);
      CurrentLine(t);
      OneMore(t.fullCnt, t.g.pgsPerLine);
      var rest := LineBalance(t);
    }
  }

  // ---------- the next write ----------

  ghost function Length(g: Geometry, slba: U64, length: U16): (n: nat)
    requires g.Positive()
  {
    PageCount(StartLpn(g, slba), EndLpn(g, slba, length))
  }

  /** The write in terms of what forced collection leaves free. */
  lemma WriteAfterForced(s: Ssd, slba: U64, length: U16, content: nat)
    requires Inv(s) && s.g.Positive() && EndLpn(s.g, slba, length) < s.g.ttPgs
    ensures ForcedGc(s).Some? <==> CanCollect(s)
    ensures var r, n := SsdWrite(s, slba, length, content), Length(s.g, slba, length);
            if ForcedGc(s).None? then r.None?
            else
              var t := ForcedGc(s).value;
              && Inv(t) && t.g == s.g && (r.Some? <==> n < FreePages(t))
              && (r.Some? ==> Inv(r.value) && r.value.g == s.g && FreePages(r.value) == FreePages(t) - n)
              && (r.Some? ==> (r.value.freeCnt >= 1 <==> FreePages(t) > n + s.g.pgsPerLine))
  {
    hide Inv, Ssd.Shape, ForcedGc, EndLpn, StartLpn, SsdWrite, Touched, FreePages, CanCollect;
    SsdWriteOutcome(s, slba, length, content);
    ForcedGcOutcome(s);
    if SsdWrite(s, slba, length, content).Some? {
      LineLeftAfter(ForcedGc(s).value, SsdWrite(s, slba, length, content).value, Length(s.g, slba, length));
    }
  }

  /** An in-range write of n pages. Up to one line more than the high threshold it succeeds exactly when
      collection goes through and the pages written, mapped and stranded leave one page of the flash
      over. Up to the high threshold it leaves a free line exactly when they leave a line and a page
      over. */
  lemma WriteExactly(s: Ssd, slba: U64, length: U16, content: nat)
    requires Inv(s) && s.g.Positive() && EndLpn(s.g, slba, length) < s.g.ttPgs
    ensures var r, n, used := SsdWrite(s, slba, length, content), Length(s.g, slba, length), |Mapped(s)| + Stranded(s);
            var p, h := s.g.pgsPerLine, s.g.gcThresLinesHigh;
            && (n <= (h + 1) * p ==> (r.Some? <==> CanCollect(s) && n + used < s.g.ttLines * p))
            && (n <= h * p ==>
                  (r.Some? && r.value.freeCnt >= 1 <==> CanCollect(s) && n + used < (s.g.ttLines - 1) * p))
  {
    hide Inv, Ssd.Shape, ForcedGc, EndLpn, StartLpn, SsdWrite, FreePages, CanCollect, Stranded, Length;
    WriteAfterForced(s, slba, length, content);
    if ForcedGc(s).Some? {
      ForcedFreePages(s);
      StrandedFits(s, s.g.ttLines - 1 - s.g.gcThresLinesHigh);
      LinesAdd(s.g.ttLines, s.g.gcThresLinesHigh, s.g.pgsPerLine);
    }
  }

  lemma LinesAdd(t: nat, h: nat, p: nat)
    ensures (t - 1 - h) * p + h * p == (t - 1) * p && (t - 1 - h) * p + (h + 1) * p == t * p
    ensures (t - 1) * p + p == t * p && (h + 1) * p == h * p + p
  {
  }

  /** Writes of any length. Where nothing has to be collected, or too much is mapped for collection to
      reach its threshold, the condition is exact for all of them; elsewhere it is exact but for
      lengths strictly between h + 1 and h + 2 lines, where it depends on how far the passes get. */
  lemma LongWriteExactly(s: Ssd, slba: U64, length: U16, content: nat)
    requires Inv(s) && s.g.Positive() && EndLpn(s.g, slba, length) < s.g.ttPgs
    ensures var r, n, used := SsdWrite(s, slba, length, content), Length(s.g, slba, length), |Mapped(s)| + Stranded(s);
            var p, h := s.g.pgsPerLine, s.g.gcThresLinesHigh;
            if s.freeCnt > s.g.gcThresLinesHigh then
              && (r.Some? <==> n < FreePages(s))
              && (r.Some? && r.value.freeCnt >= 1 <==> n + p < FreePages(s))
            else if |Mapped(s)| >= (s.g.ttLines - 1 - h) * p then
              && (r.Some? <==> CanCollect(s) && n + used < s.g.ttLines * p)
              && (r.Some? && r.value.freeCnt >= 1 <==> CanCollect(s) && n + used < (s.g.ttLines - 1) * p)
            else
              && (n <= (h + 1) * p ==> (r.Some? <==> CanCollect(s)))
              && (n >= (h + 2) * p ==> r.None?)
              && (n >= (h + 1) * p ==> r.Some? ==> r.value.freeCnt == 0)
  {
    hide Inv, Ssd.Shape, ForcedGc, EndLpn, StartLpn, SsdWrite, FreePages, CanCollect, Stranded, Length;
    WriteAfterForced(s, slba, length, content);
    ForcedGcOutcome(s);
    var r, h := SsdWrite(s, slba, length, content), s.g.gcThresLinesHigh;
    if ForcedGc(s).Some? {
      ForcedFreePages(s);
      LinesAdd(s.g.ttLines, h, s.g.pgsPerLine);
      OneMore(h + 1, s.g.pgsPerLine);
      FreeLinesExactly(ForcedGc(s).value, h + 2);
      if r.Some? {
        var rest := LineBalance(r.value);
      }
    }
  }

  /** For a write of exactly c lines stranded pages do not matter. */
  lemma WriteOfLinesExactly(s: Ssd, slba: U64, length: U16, content: nat, c: nat)
    requires Inv(s) && s.g.Positive() && c <= s.g.gcThresLinesHigh
    requires EndLpn(s.g, slba, length) < s.g.ttPgs && Length(s.g, slba, length) == c * s.g.pgsPerLine
    ensures var r := SsdWrite(s, slba, length, content);
            && (r.Some? <==> CanCollect(s) && |Mapped(s)| < (s.g.ttLines - c) * s.g.pgsPerLine)
            && (r.Some? && r.value.freeCnt >= 1 <==>
                  CanCollect(s) && |Mapped(s)| < (s.g.ttLines - 1 - c) * s.g.pgsPerLine)
  {
    hide Inv, EndLpn, StartLpn, SsdWrite, CanCollect, Stranded, Length;
    WriteExactly(s, slba, length, content);
    MulMonotone(c, s.g.gcThresLinesHigh, s.g.pgsPerLine);
    OneMore(s.g.gcThresLinesHigh, s.g.pgsPerLine);
    StrandedFits(s, s.g.ttLines - c);
    StrandedFits(s, s.g.ttLines - 1 - c);
    LessLines(s.g.ttLines, c, s.g.pgsPerLine);
  }

  lemma LessLines(t: nat, c: nat, p: nat)
    ensures (t - c) * p == t * p - c * p && (t - 1 - c) * p == (t - 1) * p - c * p
  {
  }

  // ---------- every command the shipped geometry can see ----------

  lemma QuotientGap(x: nat, y: nat, k: nat, m: nat)
    requires m >= 1 && y <= x + k
    ensures y / m <= x / m + k / m + 1
  {
    var q, p := x / m, k / m;
    TwoQuotients(q, p, m);
    OneMore(q + p, m);
    OneMore(q + p + 1, m);
    QuotientBound(y, m, q + p + 2);
  }

  lemma LengthBound(g: Geometry, slba: U64, length: U16)
    requires g.Positive()
    ensures Length(g, slba, length) <= length / g.secsPerPg + 2
  {
    QuotientGap(slba, (slba + length) % 0x1_0000_0000_0000_0000, length, g.secsPerPg);
  }

  /** With ssd_init's geometry every command is short enough for WriteExactly. */
  lemma EveryCommandIsShort(bytes: nat, rd: nat, wr: nat, er: nat, low: nat, high: nat, slba: U64, length: U16)
    requires bytes >= 2 * GIB && high >= 5
    ensures var g := DefaultParams(bytes, rd, wr, er, low, high);
            g.Positive() && Length(g, slba, length) <= high * g.pgsPerLine
  {
    hide Length;
    var g := DefaultParams(bytes, rd, wr, er, low, high);
    assert g.nchs >= 1 && g.pgsPerLine == g.nchs * 2048;
    LengthBound(g, slba, length);
    MulMonotone(5, high, g.pgsPerLine);
  }

  // ---------- after a run ----------

  /** After any run from ssd_init that completes: what the next write does, from the pages the host has
      written so far and the few that are stranded. */
  lemma NextWriteExactly(g: Geometry, cmds: seq<Cmd>, slba: U64, length: U16, content: nat)
    requires g.Ok() && g.Calculated() && EndLpn(g, slba, length) < g.ttPgs
    requires Inv(Init(g)) ==> Run(Init(g), cmds).Some?
    ensures Inv(Init(g)) && Inv(Run(Init(g), cmds).value)
    ensures var t := Run(Init(g), cmds).value; var used := |TouchedBy(g, cmds)| + Stranded(t);
            var r, n := SsdWrite(t, slba, length, content), Length(g, slba, length);
            var p, h := g.pgsPerLine, g.gcThresLinesHigh;
            && Stranded(t) < p
            && (n <= (h + 1) * p ==> (r.Some? <==> CanCollect(t) && n + used < g.ttLines * p))
            && (n <= h * p ==> (r.Some? && r.value.freeCnt >= 1 <==> CanCollect(t) && n + used < (g.ttLines - 1) * p))
  {
    hide Inv, Init, Ssd.Shape, TouchedBy, Run, SsdWrite, EndLpn, StartLpn, Geometry.Calculated, CanCollect, Stranded;
    InitInv(g);
    RunRefinesPageStore(Init(g), cmds);
    assert {} + TouchedBy(g, cmds) == TouchedBy(g, cmds);
    var t := Run(Init(g), cmds).value;
    WriteExactly(t, slba, length, content);
    StrandedIsLess(t);
  }

  lemma StrandedIsLess(s: Ssd)
    requires Inv(s)
    ensures Stranded(s) < s.g.pgsPerLine
  {
    hide Inv, Rest;
    CurrentLine(s);
  }

  // ---------- whole runs with a line's worth of pages in hand ----------

  /** A line's worth of free pages is enough for every pass. */
  lemma RoomyCollects(s: Ssd, force: bool)
    requires Inv(s) && FreePages(s) >= s.g.pgsPerLine
    ensures CanCollect(s) && !s.DoGc(force).Stopped?
  {
    hide Inv, Ssd.DoGc, FreePages, SpaceInv;
    SameLengths(s);
    DoGcOutcome(s, force);
    RoomIsFreePages(s);
    if |s.q.d| > 1 {
      DoGcMid(s);
    }
    AtLeastSlotZero(s);
  }

  lemma AtLeastSlotZero(s: Ssd)
    requires s.Shape()
    ensures |s.q.d| >= 1
    ensures forall force :: s.VictimLine(force).Some? ==> |s.q.d| > 1 && s.VictimLine(force).value == s.q.d[1]
  {
  }

  /** The command covers no more than c lines and a page, all of them in w. */
  ghost predicate Slight(g: Geometry, c: nat, w: set<nat>, cmd: Cmd)
    requires g.Positive()
  {
    Touched(g, cmd) <= w && |Touched(g, cmd)| <= c * g.pgsPerLine + 1
  }

  lemma RoomLeft(t: nat, h: nat, c: nat, p: nat, used: nat, free: nat, n: nat)
    requires c <= h && n <= c * p + 1 && used < (t - 1 - c) * p
    requires free > (h + 1) * p || free + used == t * p
    ensures free >= n + p
  {
    LinesAdd(t, c, p);
    MulMonotone(c, h, p);
    OneMore(h, p);
  }

  lemma WriteLeavesRoom(s: Ssd, slba: U64, length: U16, content: nat, c: nat, w: set<nat>)
    requires Inv(s) && s.g.Positive() && FreePages(s) >= s.g.pgsPerLine && Provisioned(s.g, c, w) && Mapped(s) <= w
    requires Slight(s.g, c, w, Write(slba, length, content))
    ensures SsdWrite(s, slba, length, content).Some?
    ensures Inv(SsdWrite(s, slba, length, content).value)
    ensures FreePages(SsdWrite(s, slba, length, content).value) >= s.g.pgsPerLine
  {
    hide Inv, Ssd.Shape, ForcedGc, EndLpn, StartLpn, SsdWrite, Touched, FreePages, CanCollect, Stranded;
    if EndLpn(s.g, slba, length) < s.g.ttPgs {
      WriteAfterForced(s, slba, length, content);
      TouchedSize(s.g, slba, length, content);
      RoomyCollects(s, true);
      ForcedFreePages(s);
      SubsetSize(Mapped(s), w);
      StrandedFits(s, s.g.ttLines - 1 - c);
      RoomLeft(s.g.ttLines, s.g.gcThresLinesHigh, c, s.g.pgsPerLine, |Mapped(s)| + Stranded(s),
               FreePages(ForcedGc(s).value), Length(s.g, slba, length));
    } else {
      OutOfRange(s, slba, length, content);
    }
  }

  lemma BackgroundKeepsRoom(s: Ssd)
    requires Inv(s) && FreePages(s) >= s.g.pgsPerLine
    ensures BackgroundGc(s).Some? && FreePages(BackgroundGc(s).value) >= s.g.pgsPerLine
  {
    hide Inv, Ssd.Shape, Ssd.DoGc, FreePages, CanCollect;
    SameLengths(s);
    RoomyCollects(s, false);
    if s.DoGc(false).Cleaned? {
      DoGcKeepsInv(s, false);
      DoGcConserves(s, false);
    }
  }

  lemma StepKeepsRoom(s: Ssd, cmd: Cmd, c: nat, w: set<nat>)
    requires Inv(s) && s.g.Positive() && FreePages(s) >= s.g.pgsPerLine
    requires Provisioned(s.g, c, w) && Mapped(s) <= w && Slight(s.g, c, w, cmd)
    ensures Step(s, cmd).Some? && Inv(Step(s, cmd).value) && Step(s, cmd).value.g == s.g
    ensures FreePages(Step(s, cmd).value) >= s.g.pgsPerLine && Mapped(Step(s, cmd).value) <= w
  {
    hide Inv, Ssd.Shape, SsdWrite, BackgroundGc, FreePages, Provisioned;
    StepRefines(s, cmd);
    if cmd.Write? {
      WriteLeavesRoom(s, cmd.slba, cmd.length, cmd.content, c, w);
      SsdWriteOutcome(s, cmd.slba, cmd.length, cmd.content);
      BackgroundKeepsRoom(SsdWrite(s, cmd.slba, cmd.length, cmd.content).value);
    }
  }

  /** Runs of writes of at most c lines and a page never stop while what they write fits into fewer than
      tt_lines - 1 - c lines: between commands a line's worth of pages is free. With c = 0 these are
      one-page writes to all but a line of the flash. */
  lemma {:induction false} RunKeepsRoom(s: Ssd, cmds: seq<Cmd>, c: nat, w: set<nat>)
    requires Inv(s) && s.g.Positive() && FreePages(s) >= s.g.pgsPerLine && Provisioned(s.g, c, w) && Mapped(s) <= w
    requires forall i :: 0 <= i < |cmds| ==> Slight(s.g, c, w, cmds[i])
    ensures Run(s, cmds).Some?
    ensures FreePages(Run(s, cmds).value) >= s.g.pgsPerLine
    decreases |cmds|
  {
    hide Inv, Provisioned, Slight, Step, Ssd.Shape, FreePages;
    if cmds != [] {
      StepKeepsRoom(s, cmds[0], c, w);
      RunKeepsRoom(Step(s, cmds[0]).value, cmds[1..], c, w);
    }
  }

  lemma EveryTouched(g: Geometry, cmds: seq<Cmd>, c: nat)
    requires g.Positive()
    requires forall i :: 0 <= i < |cmds| ==> |Touched(g, cmds[i])| <= c * g.pgsPerLine + 1
    ensures forall i :: 0 <= i < |cmds| ==> Slight(g, c, TouchedBy(g, cmds), cmds[i])
  {
    hide Touched;
    forall i | 0 <= i < |cmds|
      ensures Slight(g, c, TouchedBy(g, cmds), cmds[i])
    {
      EachIsTouched(g, cmds, i);
    }
  }

  lemma FreshHasRoom(g: Geometry)
    requires g.Ok() && g.Calculated()
    ensures Inv(Init(g)) && FreePages(Init(g)) >= g.pgsPerLine && Mapped(Init(g)) == {}
  {
    InitInv(g);
    hide Inv, FreePages, Init, Geometry.Calculated;
    CountEvery(Init(g).status, Pages(g), PgFree);
    AllPagesFree(g);
    InvParts(Init(g));
    AllLinesSize(g);
    MulMonotone(1, g.ttLines, g.pgsPerLine);
  }

  lemma AllPagesFree(g: Geometry)
    requires g.Ok()
    ensures Init(g).status.Keys == Pages(g) && forall a :: a in Pages(g) ==> Init(g).status[a] == PgFree
  {
  }

  /** From ssd_init on. */
  lemma DeviceKeepsRoom(g: Geometry, cmds: seq<Cmd>, c: nat)
    requires g.Ok() && g.Calculated() && Provisioned(g, c, TouchedBy(g, cmds))
    requires forall i :: 0 <= i < |cmds| ==> |Touched(g, cmds[i])| <= c * g.pgsPerLine + 1
    ensures Inv(Init(g)) && Run(Init(g), cmds).Some?
    ensures var t := Run(Init(g), cmds).value;
            FreePages(t) >= g.pgsPerLine && Inv(t) && t.View() == HostRun(g, BlankView(g), cmds)
  {
    hide Inv, Init, Ssd.Shape, TouchedBy, Touched, Provisioned, Slight, Run, FreePages, Geometry.Calculated;
    InitInv(g);
    FreshHasRoom(g);
    EveryTouched(g, cmds, c);
    RunKeepsRoom(Init(g), cmds, c, TouchedBy(g, cmds));
    RunRefinesPageStore(Init(g), cmds);
  }
}
