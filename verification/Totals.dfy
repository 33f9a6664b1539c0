/** Conservation: page totals, free lines, and mapped logical pages. */
module Totals {
  import opened Common
  import opened Arith
  import opened Geometries
  import opened Ssds
  import opened Space
  import opened Mapping

  ghost function FreePages(s: Ssd): (n: nat) { Count(s.status, Pages(s.g), PgFree) }

  ghost function ValidPages(s: Ssd): (n: nat) { Count(s.status, Pages(s.g), PgValid) }

  ghost function InvalidPages(s: Ssd): (n: nat) { Count(s.status, Pages(s.g), PgInvalid) }

  lemma RoomIsFreePages(s: Ssd)
    ensures Room(s, -1) == FreePages(s)
  {
    assert RoomPages(s, -1) == Pages(s.g);
  }

  // ---------- mapped logical pages are as many as valid flash pages ----------

  ghost function Mapped(s: Ssd): (m: set<nat>)
    ensures forall lpn: nat :: lpn in m <==> lpn < |s.maptbl| && s.maptbl[lpn].Some?
  {
    set lpn: nat | lpn < |s.maptbl| && s.maptbl[lpn].Some?
  }

  lemma {:induction false} MatchedSize(
    m: set<nat>, v: set<Ppa>, home: seq<Option<Ppa>>, owner: map<Ppa, Option<nat>>)
    requires forall lpn :: lpn in m ==> lpn < |home| && home[lpn].Some? && home[lpn].value in v
    requires forall a :: a in v ==> a in owner && owner[a].Some?
    requires forall a :: a in v ==> owner[a].value in m && home[owner[a].value] == Some(a)
    requires forall lpn :: lpn in m ==> owner[home[lpn].value] == Some(lpn)
    ensures |m| == |v|
    decreases m
  {
    if m == {} {
      assert v == {};
    } else {
      var lpn :| lpn in m;
      var a := home[lpn].value;
      forall i | i in m - {lpn}
        ensures home[i].value in v - {a}
      {
        assert owner[home[i].value] == Some(i);
      }
      MatchedSize(m - {lpn}, v - {a}, home, owner);
      assert |m| == |m - {lpn}| + 1 && |v| == |v - {a}| + 1;
    }
  }

  lemma MappedAreValid(s: Ssd)
    requires s.Shape() && MapInv(s, {})
    ensures |Mapped(s)| == ValidPages(s)
  {
    var v := Those(s.status, Pages(s.g), PgValid);
    MatchedSize(Mapped(s), v, s.maptbl, s.rmap);
  }

  // ---------- free lines ----------

  ghost function PagesOf(g: Geometry, lines: seq<nat>): (x: set<Ppa>)
    ensures forall a: Ppa :: a in x <==> g.Has(a) && a.blk in lines
  {
    if lines == [] then {} else LinePages(g, lines[0]) + PagesOf(g, lines[1..])
  }

  lemma {:induction false} PagesOfSize(g: Geometry, lines: seq<nat>)
    requires Sized(g) && Distinct(lines) && forall i :: 0 <= i < |lines| ==> lines[i] < g.blksPerPl
    ensures |PagesOf(g, lines)| == |lines| * g.pgsPerLine
  {
    hide Sized;
    if lines != [] {
      var x, y := LinePages(g, lines[0]), PagesOf(g, lines[1..]);
      assert lines[0] !in lines[1..];
      PagesOfSize(g, lines[1..]);
      SizedLine(g, lines[0]);
      DisjointSizes(x, y);
      OneMore(|lines| - 1, g.pgsPerLine);
    }
  }

  lemma SizedLine(g: Geometry, b: nat)
    requires Sized(g) && b < g.blksPerPl
    ensures |LinePages(g, b)| == g.pgsPerLine
  {
  }

  lemma AllLinesSize(g: Geometry)
    requires Sized(g) && g.Ok()
    ensures g.ttPgs == g.ttLines * g.pgsPerLine
  {
    hide Sized, LinePages;
    var lines := seq(g.ttLines, i requires 0 <= i => i);
    PagesOfSize(g, lines);
    forall a
      ensures a in Pages(g) <==> a in PagesOf(g, lines)
    {
      if g.Has(a) {
        assert lines[a.blk] == a.blk;
      }
    }
    assert PagesOf(g, lines) == Pages(g);
    SizedPages(g);
  }

  lemma SizedPages(g: Geometry)
    requires Sized(g)
    ensures |Pages(g)| == g.ttPgs
  {
  }

  /** FREE + VALID + INVALID = tt_pgs. */
  lemma PagesAddUp(s: Ssd)
    requires s.Shape() && Sized(s.g)
    ensures FreePages(s) + ValidPages(s) + InvalidPages(s) == s.g.ttPgs == s.g.ttLines * s.g.pgsPerLine
  {
    hide Sized;
    CountTotal(s.status, Pages(s.g));
    SizedPages(s.g);
    AllLinesSize(s.g);
  }

  lemma FreeLinesSize(s: Ssd)
    requires s.Shape() && Sized(s.g) && Distinct(s.free)
    ensures |PagesOf(s.g, s.free)| == |s.free| * s.g.pgsPerLine
  {
    assert forall i :: 0 <= i < |s.free| ==> s.free[i] in s.free;
    PagesOfSize(s.g, s.free);
  }

  lemma FreePagesSplit(s: Ssd)
    requires SpaceInv(s, -1, false)
    ensures Those(s.status, Pages(s.g), PgFree)
         == PagesOf(s.g, s.free) + Those(s.status, LinePages(s.g, s.wp.curline), PgFree)
    ensures PagesOf(s.g, s.free) !! Those(s.status, LinePages(s.g, s.wp.curline), PgFree)
  {
    forall a
      ensures a in Those(s.status, Pages(s.g), PgFree)
         <==> a in PagesOf(s.g, s.free) + Those(s.status, LinePages(s.g, s.wp.curline), PgFree)
    {
      if s.g.Has(a) {
        assert LineOk(s, a.blk, false);
        if a.blk in s.full { CountEvery(s.status, LinePages(s.g, a.blk), PgValid); }
      }
    }
    assert LineOk(s, s.wp.curline, false);
  }

  /** Free pages are the free lines and the unwritten rest of the current line. */
  lemma FreePagesAreLines(s: Ssd)
    requires SpaceInv(s, -1, false)
    ensures FreePages(s) == |s.free| * s.g.pgsPerLine + Count(s.status, LinePages(s.g, s.wp.curline), PgFree)
    ensures 1 <= Count(s.status, LinePages(s.g, s.wp.curline), PgFree) <= s.g.pgsPerLine
  {
    var cur := LinePages(s.g, s.wp.curline);
    FreePagesSplit(s);
    DisjointSizes(PagesOf(s.g, s.free), Those(s.status, cur, PgFree));
    FreeLinesSize(s);
    NewPageIsFree(s, -1);
    CountNone(s.status, cur, PgFree);
    assert s.NewPage() in cur;
    CountEvery(s.status, cur, PgFree);
  }

  /** Gaining at most one line's worth of pages frees no line or one line. */
  lemma LinesFromPages(ppl: nat, f: nat, rest: nat, f': nat, rest': nat, gain: nat)
    requires ppl >= 1 && 1 <= rest <= ppl && 1 <= rest' <= ppl && gain <= ppl
    requires f' * ppl + rest' == f * ppl + rest + gain
    ensures f <= f' <= f + 1
  {
    if f' > f + 1 {
      MulMonotone(f + 2, f', ppl);
    }
    if f' < f {
      MulMonotone(f' + 1, f, ppl);
    }
  }
}
