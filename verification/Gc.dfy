/** One garbage collection pass (do_gc): what holds in the middle of it, and what it achieves. */
module Gc {
  import opened Common
  import opened Geometries
  import opened Ssds
  import opened Space
  import opened Mapping

  /** The pages of line b visited when the pass stands at channel ch, LUN lun, page pg. */
  ghost function Visited(g: Geometry, b: nat, ch: nat, lun: nat, pg: nat): (x: set<Ppa>)
    ensures forall a: Ppa :: a in x <==>
      g.Has(a) && a.blk == b && (a.ch < ch || (a.ch == ch && (a.lun < lun || (a.lun == lun && a.pg < pg))))
  {
    set a | a in LinePages(g, b) && (a.ch < ch || (a.ch == ch && (a.lun < lun || (a.lun == lun && a.pg < pg))))
  }

  /** What the pass has changed so far: s0 is the state right after the victim v was detached and x
      the set of visited pages. The host's view is the same; an unvisited page keeps its owner; an
      owner of a visited page now lives on a page of another line that was free. */
  ghost predicate Moved(s0: Ssd, s: Ssd, v: nat, x: set<Ppa>)
    requires s0.Shape() && s.Shape()
  {
    && s.g == s0.g
    && (forall lpn: nat :: lpn < |s0.maptbl| ==> MovedPage(s0, s, v, x, lpn))
    && (forall a: Ppa :: s0.g.Has(a) && a.blk != v ==>
          s.status[a] == s0.status[a] || (s0.status[a] == PgFree && s.status[a] == PgValid))
  }

  ghost predicate MovedPage(s0: Ssd, s: Ssd, v: nat, x: set<Ppa>, lpn: nat)
    requires s0.Shape() && s.Shape() && s.g == s0.g && lpn < |s0.maptbl|
  {
    match s0.maptbl[lpn]
    case None => s.maptbl[lpn].None?
    case Some(a) =>
      if a in x then
        && s.maptbl[lpn].Some?
        && s.maptbl[lpn].value.blk != v
        && s0.status[s.maptbl[lpn].value] == PgFree
        && s.data[s.maptbl[lpn].value] == s0.data[a]
      else s.maptbl[lpn] == Some(a) && s.data[a] == s0.data[a]
  }

  /** Victim pages: erased in finished blocks, untouched elsewhere. */
  ghost predicate VictimPages(s0: Ssd, s: Ssd, v: nat, ch: nat, lun: nat)
    requires s0.Shape() && s.Shape() && s.g == s0.g
  {
    forall a: Ppa :: s0.g.Has(a) && a.blk == v ==>
      s.status[a] == if a.ch < ch || (a.ch == ch && a.lun < lun) then PgFree else s0.status[a]
  }

  /** The invariant in the middle of a pass. */
  ghost predicate MidGc(s0: Ssd, s: Ssd, v: nat, ch: nat, lun: nat, pg: nat)
    requires s0.Shape()
  {
    var x := Visited(s0.g, v, ch, lun, pg);
    && s.Shape() && s.g == s0.g
    && SpaceInv(s, v, false)
    && MapInv(s, x)
    && Moved(s0, s, v, x)
    && VictimPages(s0, s, v, ch, lun)
    && Room(s, v) + Count(s0.status, x, PgValid) == Room(s0, v)
  }

  // ---------- gc_write_page ----------

  lemma InverseAfterMove(
    pages: set<Ppa>, maptbl: seq<Option<Ppa>>, rmap: map<Ppa, Option<nat>>, status: map<Ppa, PageStatus>,
    x: set<Ppa>, a: Ppa, lpn: nat, now: Ppa)
    requires Inverse(pages, maptbl, rmap, status, x)
    requires a in pages && a !in x && status[a] == PgValid && rmap[a] == Some(lpn) && lpn < |maptbl|
    requires now in pages && now !in x && status[now] == PgFree
    ensures Inverse(pages, maptbl[lpn := Some(now)], rmap[now := Some(lpn)], status[now := PgValid], x + {a})
  {
  }

  /** The reverse table names the owner of an unvisited valid page: the assertion of gc_write_page. */
  lemma OwnerKnown(s: Ssd, x: set<Ppa>, a: Ppa)
    requires s.Shape() && MapInv(s, x) && s.g.Has(a) && a !in x && s.status[a] == PgValid
    ensures s.rmap[a].Some? && s.rmap[a].value < |s.maptbl| && s.maptbl[s.rmap[a].value] == Some(a)
  {
  }

  /** t is s after the copy of visited page a, owned by lpn, to page now. */
  ghost predicate Copied(s: Ssd, t: Ssd, v: nat, x: set<Ppa>, a: Ppa, lpn: nat, now: Ppa)
    requires s.Shape() && t.Shape()
  {
    && MapInv(s, x)
    && s.g.Has(a) && a.blk == v && a !in x && s.status[a] == PgValid && s.rmap[a] == Some(lpn)
    && s.g.Has(now) && now.blk != v && s.status[now] == PgFree
    && lpn < |s.maptbl| && s.maptbl[lpn] == Some(a)
    && t.g == s.g && t.maptbl == s.maptbl[lpn := Some(now)]
    && t.data == s.data[now := s.data[a]] && t.status == s.status[now := PgValid]
  }

  lemma MovedPageAfterCopy(s0: Ssd, s: Ssd, t: Ssd, v: nat, x: set<Ppa>, a: Ppa, lpn: nat, now: Ppa, i: nat)
    requires s0.Shape() && s.Shape() && t.Shape() && s.g == s0.g && i < |s0.maptbl| == |s.maptbl|
    requires MovedPage(s0, s, v, x, i) && Copied(s, t, v, x, a, lpn, now)
    requires s0.status[now] == PgFree
    ensures MovedPage(s0, t, v, x + {a}, i)
  {
    hide Inverse, Ssd.Shape;
    match s0.maptbl[i]
    case None =>
      assert i != lpn;
    case Some(a0) =>
      if i != lpn {
        HomeIsOther(s, x, i, lpn, a, now);
      }
  }

  lemma HomeIsOther(s: Ssd, x: set<Ppa>, i: nat, lpn: nat, a: Ppa, now: Ppa)
    requires s.Shape() && MapInv(s, x) && i < |s.maptbl| && s.maptbl[i].Some? && i != lpn
    requires s.g.Has(a) && s.rmap[a] == Some(lpn) && s.g.Has(now) && s.status[now] == PgFree
    ensures s.maptbl[i].value != now && s.maptbl[i].value != a
  {
  }

  lemma MovedAfterCopy(s0: Ssd, s: Ssd, t: Ssd, v: nat, x: set<Ppa>, a: Ppa, lpn: nat, now: Ppa)
    requires s0.Shape() && s.Shape() && t.Shape() && Moved(s0, s, v, x)
    requires Copied(s, t, v, x, a, lpn, now)
    ensures Moved(s0, t, v, x + {a})
  {
    hide Ssd.Shape, Copied;
    assert s.g == s0.g && |s.maptbl| == |s0.maptbl| && t.g == s0.g
           && s0.status[now] == PgFree && t.status == s.status[now := PgValid]
           && s0.g.Has(now) && now.blk != v by { CopiedFacts(s0, s, t, v, x, a, lpn, now); }
    forall i: nat | i < |s0.maptbl|
      ensures MovedPage(s0, t, v, x + {a}, i)
    {
      assert MovedPage(s0, s, v, x, i);
      MovedPageAfterCopy(s0, s, t, v, x, a, lpn, now, i);
    }
  }

  lemma CopiedFacts(s0: Ssd, s: Ssd, t: Ssd, v: nat, x: set<Ppa>, a: Ppa, lpn: nat, now: Ppa)
    requires s0.Shape() && s.Shape() && t.Shape() && Moved(s0, s, v, x)
    requires Copied(s, t, v, x, a, lpn, now)
    ensures |s.maptbl| == |s0.maptbl|
    ensures s0.g.Has(now) && now in s0.status && now in s.status && now.blk != v
    ensures t.g == s0.g && s0.status[now] == PgFree && t.status == s.status[now := PgValid]
  {
  }

  // ---------- one step of clean_one_block ----------

  lemma VisitedNext(s0: Ssd, v: nat, ch: nat, lun: nat, pg: nat)
    requires s0.Shape() && v < s0.g.blksPerPl && ch < s0.g.nchs && lun < s0.g.lunsPerCh && pg < s0.g.pgsPerBlk
    ensures var a := Ppa(ch, lun, 0, v, pg);
            && a !in Visited(s0.g, v, ch, lun, pg)
            && Visited(s0.g, v, ch, lun, pg + 1) == Visited(s0.g, v, ch, lun, pg) + {a}
            && Count(s0.status, Visited(s0.g, v, ch, lun, pg + 1), PgValid)
               == Count(s0.status, Visited(s0.g, v, ch, lun, pg), PgValid) + Bit(s0.status[a] == PgValid)
  {
    var a := Ppa(ch, lun, 0, v, pg);
    var x, y := Visited(s0.g, v, ch, lun, pg), Visited(s0.g, v, ch, lun, pg + 1);
    assert y == x + {a};
    var p, q := Those(s0.status, x, PgValid), Those(s0.status, y, PgValid);
    assert q == if s0.status[a] == PgValid then p + {a} else p;
    assert a !in p;
  }

  lemma SkipStep(s0: Ssd, s: Ssd, v: nat, ch: nat, lun: nat, pg: nat)
    requires s0.Shape() && s.Shape() && MidGc(s0, s, v, ch, lun, pg)
    requires v < s0.g.blksPerPl && ch < s0.g.nchs && lun < s0.g.lunsPerCh && pg < s0.g.pgsPerBlk
    requires Ppa(ch, lun, 0, v, pg) in s.status && s.status[Ppa(ch, lun, 0, v, pg)] == PgInvalid
    ensures MidGc(s0, s, v, ch, lun, pg + 1)
  {
    hide MidGc, Moved, SpaceInv, Ssd.Shape, VictimPages, Inverse;
    var a := Ppa(ch, lun, 0, v, pg);
    var x := Visited(s0.g, v, ch, lun, pg);
    MidGcParts(s0, s, v, ch, lun, pg);
    MidGcStatus(s0, s, v, ch, lun, pg);
    VisitedNext(s0, v, ch, lun, pg);
    InverseWithout(Pages(s.g), s.maptbl, s.rmap, s.status, x, a);
    MovedWithoutCopy(s0, s, v, x, a);
    MidGcWhole(s0, s, v, ch, lun, pg + 1);
  }

  lemma InverseWithout(
    pages: set<Ppa>, maptbl: seq<Option<Ppa>>, rmap: map<Ppa, Option<nat>>, status: map<Ppa, PageStatus>,
    x: set<Ppa>, a: Ppa)
    requires Inverse(pages, maptbl, rmap, status, x) && a in pages && status[a] == PgInvalid
    ensures Inverse(pages, maptbl, rmap, status, x + {a})
  {
  }

  lemma MovedWithoutCopy(s0: Ssd, s: Ssd, v: nat, x: set<Ppa>, a: Ppa)
    requires s0.Shape() && s.Shape() && Moved(s0, s, v, x) && MapInv(s, x)
    requires s.g.Has(a) && s.status[a] == PgInvalid
    ensures Moved(s0, s, v, x + {a})
  {
    forall i: nat | i < |s0.maptbl|
      ensures MovedPage(s0, s, v, x + {a}, i)
    {
      assert MovedPage(s0, s, v, x, i);
    }
  }

  lemma CopyStepMaps(s: Ssd, v: nat, x: set<Ppa>, a: Ppa)
    requires s.Shape() && MapInv(s, x) && s.g.Has(a) && a.blk == v && a !in x && s.status[a] == PgValid
    requires s.status[s.NewPage()] == PgFree && s.NewPage().blk != v && s.NewPage() !in x
    requires s.GcWritePage(a).Some?
    ensures var t := s.GcWritePage(a).value;
            && Copied(s, t, v, x, a, s.rmap[a].value, s.NewPage())
            && MapInv(t, x + {a})
  {
    OwnerKnown(s, x, a);
    InverseAfterMove(Pages(s.g), s.maptbl, s.rmap, s.status, x, a, s.rmap[a].value, s.NewPage());
  }

  lemma VictimPagesAfterCopy(s0: Ssd, s: Ssd, t: Ssd, v: nat, ch: nat, lun: nat, now: Ppa)
    requires s0.Shape() && s.Shape() && t.Shape() && s.g == s0.g == t.g && VictimPages(s0, s, v, ch, lun)
    requires now in s.status && now.blk != v && t.status == s.status[now := PgValid]
    ensures VictimPages(s0, t, v, ch, lun)
  {
  }

  lemma CopyStepRoom(s: Ssd, v: nat, x: set<Ppa>, a: Ppa)
    requires s.Shape() && SpaceInv(s, v, false) && MapInv(s, x) && s.g.Has(a) && a !in x && s.status[a] == PgValid
    ensures var r := s.GcWritePage(a);
            && (r.Some? <==> Room(s, v) >= 2)
            && (r.Some? ==> SpaceInv(r.value, v, false) && Room(r.value, v) == Room(s, v) - 1)
  {
    hide SpaceInv;
    OwnerKnown(s, x, a);
    AppendKeepsSpace(s, v, s.rmap[a].value, s.data[a]);
  }

  /** Copying one valid page out of the victim: possible exactly while two free pages are left. */
  lemma CopyStep(s0: Ssd, s: Ssd, v: nat, ch: nat, lun: nat, pg: nat)
    requires s0.Shape() && s.Shape() && MidGc(s0, s, v, ch, lun, pg)
    requires v < s0.g.blksPerPl && ch < s0.g.nchs && lun < s0.g.lunsPerCh && pg < s0.g.pgsPerBlk
    requires s.status[Ppa(ch, lun, 0, v, pg)] == PgValid
    ensures var r := s.GcWritePage(Ppa(ch, lun, 0, v, pg));
            && (r.Some? <==> Room(s, v) >= 2)
            && (r.Some? ==> MidGc(s0, r.value, v, ch, lun, pg + 1))
  {
    hide Sized, LineOk, BlockCounted, Lists, Dangling, Count;
    var a := Ppa(ch, lun, 0, v, pg);
    var x := Visited(s0.g, v, ch, lun, pg);
    assert OnFlash(s, a) by { hide SpaceInv, Moved, VictimPages, Inverse; }
    hide MidGc, Moved, SpaceInv, Ssd.Shape, VictimPages, Inverse;
    MidGcParts(s0, s, v, ch, lun, pg);
    VisitedNext(s0, v, ch, lun, pg);
    NewPageIsFree(s, v);
    CopyStepRoom(s, v, x, a);
    if s.GcWritePage(a).Some? {
      var t := s.GcWritePage(a).value;
      CopyStepMaps(s, v, x, a);
      MovedAfterCopy(s0, s, t, v, x, a, s.rmap[a].value, s.NewPage());
      VictimPagesAfterCopy(s0, s, t, v, ch, lun, s.NewPage());
      MidGcWhole(s0, t, v, ch, lun, pg + 1);
    }
  }

  ghost predicate OnFlash(s: Ssd, a: Ppa) {
    s.g.Has(a) && a in s.status
  }

  lemma MidGcParts(s0: Ssd, s: Ssd, v: nat, ch: nat, lun: nat, pg: nat)
    requires s0.Shape() && MidGc(s0, s, v, ch, lun, pg)
    ensures s.Shape() && s.g == s0.g && SpaceInv(s, v, false)
    ensures var x := Visited(s0.g, v, ch, lun, pg);
            && MapInv(s, x) && Moved(s0, s, v, x) && VictimPages(s0, s, v, ch, lun)
            && Room(s, v) + Count(s0.status, x, PgValid) == Room(s0, v)
  {
    hide SpaceInv, Inverse, Moved, VictimPages, Ssd.Shape;
  }

  lemma MidGcWhole(s0: Ssd, s: Ssd, v: nat, ch: nat, lun: nat, pg: nat)
    requires s0.Shape() && s.Shape() && s.g == s0.g && SpaceInv(s, v, false)
    requires MapInv(s, Visited(s0.g, v, ch, lun, pg)) && Moved(s0, s, v, Visited(s0.g, v, ch, lun, pg))
    requires VictimPages(s0, s, v, ch, lun)
    requires Room(s, v) + Count(s0.status, Visited(s0.g, v, ch, lun, pg), PgValid) == Room(s0, v)
    ensures MidGc(s0, s, v, ch, lun, pg)
  {
    hide SpaceInv, Inverse, Moved, VictimPages, Ssd.Shape;
  }

  // ---------- clean_one_block and the erase that follows it ----------

  lemma CountMonotone(status: map<Ppa, PageStatus>, x: set<Ppa>, y: set<Ppa>, st: PageStatus)
    requires x <= y
    ensures Count(status, x, st) <= Count(status, y, st)
  {
    SubsetSize(Those(status, x, st), Those(status, y, st));
  }

  /** Pages copied once the pass stands at (ch, lun, pg). */
  ghost function Copies(s0: Ssd, v: nat, ch: nat, lun: nat, pg: nat): (n: nat) {
    Count(s0.status, Visited(s0.g, v, ch, lun, pg), PgValid)
  }

  ghost predicate NoFreePage(s0: Ssd, v: nat)
    requires s0.Shape()
  {
    forall a: Ppa :: s0.g.Has(a) && a.blk == v ==> s0.status[a] != PgFree
  }

  lemma MidGcRoom(s0: Ssd, s: Ssd, v: nat, ch: nat, lun: nat, pg: nat)
    requires s0.Shape() && MidGc(s0, s, v, ch, lun, pg)
    ensures s.Shape() && s.g == s0.g
    ensures Room(s, v) >= 1 && Room(s, v) + Copies(s0, v, ch, lun, pg) == Room(s0, v)
  {
    hide MapInv, Moved, VictimPages;
    MidLineRoom(s, v);
  }

  /** There is no free page in a victim block, and none has been erased before its turn. */
  lemma MidGcStatus(s0: Ssd, s: Ssd, v: nat, ch: nat, lun: nat, pg: nat)
    requires s0.Shape() && MidGc(s0, s, v, ch, lun, pg)
    requires v < s0.g.blksPerPl && ch < s0.g.nchs && lun < s0.g.lunsPerCh && pg < s0.g.pgsPerBlk
    ensures var a := Ppa(ch, lun, 0, v, pg);
            a in s.status && a in s0.status && s.status[a] == s0.status[a] && s.g.Has(a) && a in Pages(s.g)
  {
    hide MapInv, Moved, SpaceInv;
    var a := Ppa(ch, lun, 0, v, pg);
    assert s0.g.Has(a) && a in Pages(s0.g);
  }

  lemma {:induction false} CleanBlockKeeps(s0: Ssd, s: Ssd, v: nat, ch: nat, lun: nat, pg: nat)
    requires s0.Shape() && NoFreePage(s0, v) && s.Shape() && s.g == s0.g && MidGc(s0, s, v, ch, lun, pg)
    requires v < s0.g.blksPerPl && ch < s0.g.nchs && lun < s0.g.lunsPerCh && pg <= s0.g.pgsPerBlk
    ensures var r := s.CleanBlock(BlockId(ch, lun, v), pg);
            && (r.Some? <==> Room(s0, v) > Copies(s0, v, ch, lun, s0.g.pgsPerBlk))
            && (r.Some? ==> MidGc(s0, r.value, v, ch, lun, s0.g.pgsPerBlk))
    decreases s0.g.pgsPerBlk - pg
  {
    hide MidGc, Ssd.GcWritePage, Ssd.Shape;
    MidGcRoom(s0, s, v, ch, lun, pg);
    if pg < s0.g.pgsPerBlk {
      var a := Ppa(ch, lun, 0, v, pg);
      MidGcStatus(s0, s, v, ch, lun, pg);
      VisitedNext(s0, v, ch, lun, pg);
      if s.status[a] == PgValid {
        CopyStep(s0, s, v, ch, lun, pg);
        if s.GcWritePage(a).Some? {
          CleanBlockKeeps(s0, s.GcWritePage(a).value, v, ch, lun, pg + 1);
        } else {
          var x, y := Visited(s0.g, v, ch, lun, pg + 1), Visited(s0.g, v, ch, lun, s0.g.pgsPerBlk);
          CountMonotone(s0.status, x, y, PgValid);
        }
      } else {
        SkipStep(s0, s, v, ch, lun, pg);
        CleanBlockKeeps(s0, s, v, ch, lun, pg + 1);
      }
    }
  }

  lemma EraseStep(s0: Ssd, s: Ssd, v: nat, ch: nat, lun: nat)
    requires s0.Shape() && s.Shape() && s.g == s0.g && MidGc(s0, s, v, ch, lun, s0.g.pgsPerBlk)
    requires v < s0.g.blksPerPl && ch < s0.g.nchs && lun < s0.g.lunsPerCh
    ensures MidGc(s0, s.MarkBlockFree(BlockId(ch, lun, v)), v, ch, lun + 1, 0)
  {
    hide MidGc, Moved, SpaceInv, VictimPages, Inverse, Ssd.Shape, Ssd.MarkBlockFree;
    var k := BlockId(ch, lun, v);
    var x := Visited(s0.g, v, ch, lun, s0.g.pgsPerBlk);
    MidGcParts(s0, s, v, ch, lun, s0.g.pgsPerBlk);
    var t := s.MarkBlockFree(k);
    assert Visited(s0.g, v, ch, lun + 1, 0) == x;
    assert BlockPages(s.g, k) <= x;
    MarkBlockFreeKeepsSpace(s, k);
    EraseKeepsMaps(s0, s, v, x, k);
    EraseVictimPages(s0, s, v, ch, lun);
    MidGcWhole(s0, t, v, ch, lun + 1, 0);
  }

  lemma EraseKeepsMaps(s0: Ssd, s: Ssd, v: nat, x: set<Ppa>, k: BlockId)
    requires s0.Shape() && s.Shape() && MapInv(s, x) && Moved(s0, s, v, x)
    requires s.g.HasBlock(k) && k.blk == v && BlockPages(s.g, k) <= x
    ensures MapInv(s.MarkBlockFree(k), x) && Moved(s0, s.MarkBlockFree(k), v, x)
  {
    var t := s.MarkBlockFree(k);
    forall i: nat | i < |s0.maptbl|
      ensures MovedPage(s0, t, v, x, i)
    {
      assert MovedPage(s0, s, v, x, i);
    }
  }

  lemma EraseVictimPages(s0: Ssd, s: Ssd, v: nat, ch: nat, lun: nat)
    requires s0.Shape() && s.Shape() && s.g == s0.g && VictimPages(s0, s, v, ch, lun)
    requires s.g.HasBlock(BlockId(ch, lun, v))
    ensures VictimPages(s0, s.MarkBlockFree(BlockId(ch, lun, v)), v, ch, lun + 1)
  {
  }

  lemma NextChannel(s0: Ssd, s: Ssd, v: nat, ch: nat)
    requires s0.Shape() && s.Shape() && MidGc(s0, s, v, ch, s0.g.lunsPerCh, 0)
    ensures MidGc(s0, s, v, ch + 1, 0, 0)
  {
    hide Moved, SpaceInv, Inverse, Ssd.Shape;
    assert Visited(s0.g, v, ch + 1, 0, 0) == Visited(s0.g, v, ch, s0.g.lunsPerCh, 0);
    assert VictimPages(s0, s, v, ch + 1, 0);
  }

  // ---------- the whole line ----------

  lemma {:induction false} CleanLineKeeps(s0: Ssd, s: Ssd, v: nat, ch: nat, lun: nat)
    requires s0.Shape() && NoFreePage(s0, v) && s.Shape() && s.g == s0.g && MidGc(s0, s, v, ch, lun, 0)
    requires v < s0.g.blksPerPl && ch <= s0.g.nchs && lun <= s0.g.lunsPerCh && (ch == s0.g.nchs ==> lun == 0)
    ensures var r := s.CleanLine(ch, lun, v);
            && (r.Some? <==> Room(s0, v) > Count(s0.status, LinePages(s0.g, v), PgValid))
            && (r.Some? ==> MidGc(s0, r.value, v, s0.g.nchs, 0, 0))
    decreases s0.g.nchs - ch, s0.g.lunsPerCh - lun
  {
    hide MidGc, Ssd.CleanBlock, Ssd.MarkBlockFree, Ssd.Shape;
    if ch == s0.g.nchs {
      MidGcRoom(s0, s, v, ch, lun, 0);
      assert Visited(s0.g, v, ch, 0, 0) == LinePages(s0.g, v);
    } else if lun == s0.g.lunsPerCh {
      NextChannel(s0, s, v, ch);
      CleanLineKeeps(s0, s, v, ch + 1, 0);
    } else {
      var k := BlockId(ch, lun, v);
      CleanBlockKeeps(s0, s, v, ch, lun, 0);
      if s.CleanBlock(k, 0).Some? {
        var t := s.CleanBlock(k, 0).value;
        EraseStep(s0, t, v, ch, lun);
        CleanLineKeeps(s0, t.MarkBlockFree(k), v, ch, lun + 1);
      } else {
        CountMonotone(s0.status, Visited(s0.g, v, ch, lun, s0.g.pgsPerBlk), LinePages(s0.g, v), PgValid);
      }
    }
  }

  // ---------- do_gc ----------

  /** The effect of one successful pass over line v. */
  ghost predicate Passed(s: Ssd, t: Ssd, v: nat)
    requires s.Shape() && t.Shape()
  {
    && t.g == s.g
    && t.View() == s.View()
    && (forall lpn: nat :: lpn < |s.maptbl| ==> Rehomed(s, t, v, lpn))
    && (forall a: Ppa :: s.g.Has(a) && a.blk == v ==> t.status[a] == PgFree)
    && (forall a: Ppa :: s.g.Has(a) && a.blk != v ==>
          t.status[a] == s.status[a] || (s.status[a] == PgFree && t.status[a] == PgValid))
  }

  /** A page outside the victim keeps its place; a page of the victim moves to another line. */
  ghost predicate Rehomed(s: Ssd, t: Ssd, v: nat, lpn: nat)
    requires s.Shape() && t.Shape() && t.g == s.g && lpn < |s.maptbl|
  {
    match s.maptbl[lpn]
    case None => t.maptbl[lpn].None?
    case Some(a) =>
      if a.blk == v then
        t.maptbl[lpn].Some? && t.maptbl[lpn].value.blk != v && s.status[t.maptbl[lpn].value] == PgFree
      else t.maptbl[lpn] == Some(a)
  }

  lemma MidGcStart(s: Ssd, s0: Ssd, v: nat)
    requires s.Shape() && s0.Shape() && SpaceInv(s0, v, false) && MapInv(s, {}) && v < s.g.blksPerPl
    requires s0 == s.(q := s0.q, victimCnt := s0.victimCnt)
    ensures MidGc(s0, s0, v, 0, 0, 0)
  {
    assert Visited(s0.g, v, 0, 0, 0) == {};
    assert Moved(s0, s0, v, {});
  }

  /** do_gc(force) selects the root, and only if it is worth it; the copy needs fewer pages than
      are free. */
  lemma DoGcOutcome(s: Ssd, force: bool)
    requires Inv(s)
    ensures var r := s.DoGc(force);
            && (r.NoVictim? <==> s.VictimLine(force).None?)
            && (r.Stopped? <==> s.VictimLine(force).Some? && Room(s, -1) <= s.q.pri[s.VictimLine(force).value])
  {
    if s.VictimLine(force).Some? {
      var v := s.q.d[1];
      DoGcMid(s);
    }
  }

  /** From detaching the root to the end of the copy loops. */
  lemma DoGcMid(s: Ssd)
    requires Inv(s) && |s.q.d| > 1
    ensures var v := s.q.d[1]; var s0 := s.Detach(); var r := s0.CleanLine(0, 0, v);
            && v < s.g.blksPerPl && s0.Shape()
            && NoFreePage(s0, v)
            && s.ipc[v] > 0 && s.ipc[v] + s.q.pri[v] == s.g.pgsPerLine
            && (r.Some? <==> Room(s, -1) > s.q.pri[v])
            && (r.Some? ==> MidGc(s0, r.value, v, s.g.nchs, 0, 0))
            && Room(s0, v) == Room(s, -1)
  {
    var v, s0 := s.q.d[1], s.Detach();
    DetachKeepsSpace(s);
    MidGcStart(s, s0, v);
    RoomWithoutVictim(s, s0, v);
    CleanLineKeeps(s0, s0, v, 0, 0);
    assert LineOk(s, v, false);
  }

  lemma RoomWithoutVictim(s: Ssd, s0: Ssd, v: nat)
    requires s.Shape() && s0.g == s.g && s0.status == s.status
    requires forall a: Ppa :: s.g.Has(a) && a.blk == v ==> s.status[a] != PgFree
    ensures Room(s0, v) == Room(s, -1)
  {
    assert Those(s.status, RoomPages(s, -1), PgFree) == Those(s0.status, RoomPages(s0, v), PgFree);
  }

  lemma VisitedBlock(s0: Ssd, v: nat, ch: nat, lun: nat)
    requires s0.Shape() && v < s0.g.blksPerPl && ch < s0.g.nchs && lun < s0.g.lunsPerCh
    ensures Count(s0.status, BlockPages(s0.g, BlockId(ch, lun, v)), PgValid)
         == Copies(s0, v, ch, lun, s0.g.pgsPerBlk) - Copies(s0, v, ch, lun, 0)
  {
    var x, y := Visited(s0.g, v, ch, lun, 0), Visited(s0.g, v, ch, lun, s0.g.pgsPerBlk);
    var z := BlockPages(s0.g, BlockId(ch, lun, v));
    hide Ssd.Shape;
    assert Those(s0.status, y, PgValid) == Those(s0.status, x, PgValid) + Those(s0.status, z, PgValid);
    DisjointSizes(Those(s0.status, x, PgValid), Those(s0.status, z, PgValid));
  }

  lemma BlockUntouched(s0: Ssd, s: Ssd, k: BlockId)
    requires s0.Shape() && s.Shape() && s.g == s0.g && s.g.HasBlock(k) && VictimPages(s0, s, k.blk, k.ch, k.lun)
    ensures Count(s.status, BlockPages(s.g, k), PgValid) == Count(s0.status, BlockPages(s.g, k), PgValid)
  {
    CountSame(s.status, s0.status, BlockPages(s0.g, k), PgValid);
  }

  /** The pages copied out of one block are its valid pages: the assertion of clean_one_block. */
  lemma BlockCopies(s0: Ssd, s: Ssd, v: nat, ch: nat, lun: nat)
    requires s0.Shape() && s.Shape() && s.g == s0.g && MidGc(s0, s, v, ch, lun, s0.g.pgsPerBlk)
    requires v < s0.g.blksPerPl && ch < s0.g.nchs && lun < s0.g.lunsPerCh
    ensures BlockId(ch, lun, v) in s.blocks
    ensures s.blocks[BlockId(ch, lun, v)].vpc
         == Copies(s0, v, ch, lun, s0.g.pgsPerBlk) - Copies(s0, v, ch, lun, 0)
  {
    hide Moved, Inverse, VictimPages, Copies, Count;
    assert BlockCounted(s, BlockId(ch, lun, v));
    VisitedBlock(s0, v, ch, lun);
    BlockUntouched(s0, s, BlockId(ch, lun, v));
  }
}
