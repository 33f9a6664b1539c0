/** What a garbage collection pass, and the loop of forced passes, achieve. */
module GcPass {
  import opened Common
  import opened PriorityHeap
  import opened Geometries
  import opened Ssds
  import opened Space
  import opened Mapping
  import opened Gc
  import opened Totals

  // ---------- the end of a pass ----------

  lemma InverseWhenErased(
    pages: set<Ppa>, maptbl: seq<Option<Ppa>>, rmap: map<Ppa, Option<nat>>, status: map<Ppa, PageStatus>, x: set<Ppa>)
    requires Inverse(pages, maptbl, rmap, status, x)
    requires forall a :: a in x && a in pages ==> status[a] == PgFree
    ensures Inverse(pages, maptbl, rmap, status, {})
  {
  }

  lemma ViewWhenMoved(s0: Ssd, t: Ssd, v: nat)
    requires s0.Shape() && t.Shape() && Moved(s0, t, v, LinePages(s0.g, v))
    ensures t.View() == s0.View()
  {
    forall lpn: nat | lpn < |s0.maptbl|
      ensures t.View()[lpn] == s0.View()[lpn]
    {
      assert MovedPage(s0, t, v, LinePages(s0.g, v), lpn);
    }
  }

  lemma PassEndsInv(s0: Ssd, s1: Ssd, v: nat)
    requires s0.Shape() && s1.Shape() && v < s1.g.blksPerPl && s1.g == s0.g
    requires SpaceInv(s1, v, false) && MapInv(s1, LinePages(s0.g, v))
    requires forall a: Ppa :: s0.g.Has(a) && a.blk == v ==> s1.status[a] == PgFree
    ensures Inv(s1.MarkLineFree(v))
  {
    hide SpaceInv, Inverse, Ssd.Shape;
    MarkLineFreeKeepsSpace(s1, v);
    InverseWhenErased(Pages(s1.g), s1.maptbl, s1.rmap, s1.status, LinePages(s0.g, v));
  }

  /** From the middle-of-pass invariant at the end of the loops to the effect of the pass. */
  lemma PassEnds(s: Ssd, s0: Ssd, s1: Ssd, v: nat)
    requires s.Shape() && s0.Shape() && s1.Shape() && v < s.g.blksPerPl && MapInv(s, {})
    requires s0 == s.(q := s0.q, victimCnt := s0.victimCnt) && s1.g == s.g
    requires MidGc(s0, s1, v, s.g.nchs, 0, 0)
    ensures Inv(s1.MarkLineFree(v)) && Passed(s, s1.MarkLineFree(v), v)
  {
    hide SpaceInv, Moved, VictimPages, Inverse, Ssd.Shape, Inv, Passed, MidGc;
    MidGcParts(s0, s1, v, s.g.nchs, 0, 0);
    assert Visited(s0.g, v, s.g.nchs, 0, 0) == LinePages(s0.g, v);
    LineErased(s0, s1, v);
    PassEndsInv(s0, s1, v);
    ViewWhenMoved(s0, s1, v);
    PassEffect(s, s0, s1, v);
  }

  lemma LineErased(s0: Ssd, s1: Ssd, v: nat)
    requires s0.Shape() && s1.Shape() && s1.g == s0.g && VictimPages(s0, s1, v, s0.g.nchs, 0)
    ensures forall a: Ppa :: s0.g.Has(a) && a.blk == v ==> s1.status[a] == PgFree
  {
  }

  lemma PassEffect(s: Ssd, s0: Ssd, s1: Ssd, v: nat)
    requires s.Shape() && s0.Shape() && s1.Shape() && v < s.g.blksPerPl
    requires s0 == s.(q := s0.q, victimCnt := s0.victimCnt)
    requires Moved(s0, s1, v, LinePages(s0.g, v)) && s1.View() == s0.View() && MapInv(s, {})
    requires forall a: Ppa :: s0.g.Has(a) && a.blk == v ==> s1.status[a] == PgFree
    ensures Passed(s, s1.MarkLineFree(v), v)
  {
    hide Ssd.Shape;
    var t := s1.MarkLineFree(v);
    forall lpn: nat | lpn < |s.maptbl|
      ensures Rehomed(s, t, v, lpn)
    {
      assert MovedPage(s0, s1, v, LinePages(s0.g, v), lpn);
    }
    assert t.View() == s1.View() && s0.View() == s.View();
  }

  /** A successful do_gc: the invariant and the host's view survive, pages of the victim move, the
      victim ends wholly free. */
  lemma DoGcKeepsInv(s: Ssd, force: bool)
    requires Inv(s) && s.DoGc(force).Cleaned?
    ensures var v := s.VictimLine(force).value; var t := s.DoGc(force).ssd;
            Inv(t) && Passed(s, t, v)
  {
    var v := s.q.d[1];
    DoGcMid(s);
    PassEnds(s, s.Detach(), s.Detach().CleanLine(0, 0, v).value, v);
  }

  // ---------- conservation ----------

  lemma MappedWhenPassed(s: Ssd, t: Ssd, v: nat)
    requires s.Shape() && t.Shape() && Passed(s, t, v)
    ensures Mapped(t) == Mapped(s)
  {
    forall lpn: nat
      ensures lpn in Mapped(t) <==> lpn in Mapped(s)
    {
      if lpn < |s.maptbl| {
        assert Rehomed(s, t, v, lpn);
      }
    }
  }

  lemma InvalidWhenPassed(s: Ssd, t: Ssd, v: nat)
    requires s.Shape() && t.Shape() && Passed(s, t, v) && v < s.g.blksPerPl && LineCounted(s, v)
    ensures InvalidPages(t) == InvalidPages(s) - s.ipc[v]
  {
    hide Ssd.View, Rehomed, Ssd.Shape;
    StatusCovers(s);
    StatusCovers(t);
    var was, now := Those(s.status, Pages(s.g), PgInvalid), Those(t.status, Pages(t.g), PgInvalid);
    var gone := Those(s.status, LinePages(s.g, v), PgInvalid);
    assert was == now + gone;
    DisjointSizes(now, gone);
  }

  lemma StatusCovers(s: Ssd)
    requires s.Shape()
    ensures s.status.Keys == Pages(s.g)
  {
  }

  /** A successful pass turns the victim's invalid pages into free ones, keeps the valid ones, and
      frees no line or one line on balance. */
  lemma DoGcConserves(s: Ssd, force: bool)
    requires Inv(s) && s.DoGc(force).Cleaned?
    ensures var v := s.VictimLine(force).value; var t := s.DoGc(force).ssd;
            && s.ipc[v] >= 1
            && FreePages(t) == FreePages(s) + s.ipc[v]
            && InvalidPages(t) == InvalidPages(s) - s.ipc[v]
            && ValidPages(t) == ValidPages(s)
            && Mapped(t) == Mapped(s)
            && s.freeCnt <= t.freeCnt <= s.freeCnt + 1
  {
    var v := s.VictimLine(force).value;
    var t := s.DoGc(force).ssd;
    DoGcKeepsInv(s, force);
    DoGcMid(s);
    assert LineOk(s, v, false);
    ConservedWhenPassed(s, t, v);
  }

  lemma ConservedWhenPassed(s: Ssd, t: Ssd, v: nat)
    requires Inv(s) && Inv(t) && Passed(s, t, v) && v < s.g.blksPerPl && LineCounted(s, v)
    requires 0 <= s.ipc[v] <= s.g.pgsPerLine
    ensures FreePages(t) == FreePages(s) + s.ipc[v]
    ensures InvalidPages(t) == InvalidPages(s) - s.ipc[v]
    ensures ValidPages(t) == ValidPages(s)
    ensures Mapped(t) == Mapped(s)
    ensures s.freeCnt <= t.freeCnt <= s.freeCnt + 1
  {
    MappedWhenPassed(s, t, v);
    InvalidWhenPassed(s, t, v);
    MappedAreValid(s);
    MappedAreValid(t);
    PagesAddUp(s);
    PagesAddUp(t);
    FreePagesAreLines(s);
    FreePagesAreLines(t);
    LinesFromPages(s.g.pgsPerLine, |s.free|, Count(s.status, LinePages(s.g, s.wp.curline), PgFree),
                   |t.free|, Count(t.status, LinePages(t.g, t.wp.curline), PgFree), s.ipc[v]);
  }

  /** No two logical pages share a flash page, before or after. */
  lemma HomesDistinct(s: Ssd, i: nat, j: nat)
    requires Inv(s) && i < j < |s.maptbl| && s.maptbl[i].Some? && s.maptbl[j].Some?
    ensures s.maptbl[i] != s.maptbl[j]
  {
  }

  // ---------- greedy selection ----------

  /** The root has the fewest valid pages of all victim lines, and the most invalid ones. */
  lemma RootIsBestVictim(s: Ssd, b: nat)
    requires Inv(s) && |s.q.d| > 1 && b < s.g.blksPerPl && s.q.pos[b] != 0
    ensures s.q.pri[s.q.d[1]] <= s.q.pri[b] && s.ipc[s.q.d[1]] >= s.ipc[b]
  {
    var r := s.q.d[1];
    RootIsLeast(s.q, s.q.pos[b]);
    assert LineOk(s, b, false) && LineOk(s, r, false);
    LineTotal(s, b);
    LineTotal(s, r);
    CountNone(s.status, LinePages(s.g, b), PgFree);
    CountNone(s.status, LinePages(s.g, r), PgFree);
  }

  /** do_gc selects nothing exactly when no victim line qualifies: unforced, when none has at least
      an eighth of its pages invalid; forced, when there is no victim line. */
  lemma NoVictimExactly(s: Ssd, force: bool)
    requires Inv(s)
    ensures s.DoGc(force).NoVictim? <==>
              forall b: nat :: b < s.g.blksPerPl && s.q.pos[b] != 0 ==> !force && s.ipc[b] < s.g.pgsPerLine / 8
    ensures s.VictimLine(force).Some? ==>
              var v := s.VictimLine(force).value;
              && s.q.pos[v] != 0
              && forall b: nat :: b < s.g.blksPerPl && s.q.pos[b] != 0 ==> s.q.pri[v] <= s.q.pri[b]
  {
    hide Sized, LineOk, BlockCounted, Inverse, Ssd.DoGc;
    DoGcOutcome(s, force);
    forall b: nat | b < s.g.blksPerPl && s.q.pos[b] != 0
      ensures |s.q.d| > 1 && s.q.pri[s.q.d[1]] <= s.q.pri[b] && s.ipc[s.q.d[1]] >= s.ipc[b]
    {
      RootIsBestVictim(s, b);
    }
    if |s.q.d| > 1 {
      assert s.q.pos[s.q.d[1]] == 1;
    }
  }
}
