/** Wear: which blocks a garbage collection pass erases, and in which order lines are reused. */
module Wear {
  import opened Geometries
  import opened Ssds
  import opened Space
  import opened Mapping
  import opened Gc
  import opened GcPass

  /** Lines have only been taken from the front of the free list. */
  ghost predicate TakenFromFront(before: seq<nat>, after: seq<nat>) {
    |after| <= |before| && after == before[|before| - |after|..]
  }

  /** No page has been invalidated, and the current line and the full list are the same, or the current
      line is one that was free. */
  ghost predicate Onward(s: Ssd, t: Ssd) {
    && t.ipc == s.ipc
    && ((t.wp.curline == s.wp.curline && t.fullCnt == s.fullCnt) || t.wp.curline in s.free)
  }

  /** `worn` lists the blocks erased on the way from s to t. */
  ghost predicate Worn(s: Ssd, t: Ssd, worn: set<BlockId>)
    requires s.Shape() && t.Shape()
  {
    && t.g == s.g
    && TakenFromFront(s.free, t.free)
    && Onward(s, t)
    && forall k: BlockId :: s.g.HasBlock(k) ==> t.blocks[k].eraseCnt == s.blocks[k].eraseCnt + Bit(k in worn)
  }

  lemma WornTwice(s: Ssd, t: Ssd, u: Ssd, x: set<BlockId>, y: set<BlockId>)
    requires s.Shape() && t.Shape() && u.Shape() && Worn(s, t, x) && Worn(t, u, y) && x !! y
    ensures Worn(s, u, x + y)
  {
    hide Ssd.Shape;
    assert s.free[|s.free| - |t.free|..][|t.free| - |u.free|..] == s.free[|s.free| - |u.free|..];
    assert forall b :: b in t.free ==> b in s.free;
  }

  lemma AppendWears(s: Ssd, lpn: nat, content: nat)
    requires s.Shape() && lpn < |s.maptbl| && s.Append(lpn, content).Some?
    ensures Worn(s, s.Append(lpn, content).value, {})
  {
    var s1 := s.Bind(lpn, s.NewPage(), content).MarkPageValid(s.NewPage());
    assert s1.free == s.free && Worn(s, s1, {});
  }

  lemma {:induction false} CleanBlockWears(s: Ssd, k: BlockId, pg: nat)
    requires s.Shape() && s.g.HasBlock(k) && pg <= s.g.pgsPerBlk && s.CleanBlock(k, pg).Some?
    ensures Worn(s, s.CleanBlock(k, pg).value, {})
    decreases s.g.pgsPerBlk - pg
  {
    hide Ssd.Shape, Ssd.Append;
    if pg == s.g.pgsPerBlk {
      NotWorn(s);
    } else {
      var a := Ppa(k.ch, k.lun, 0, k.blk, pg);
      PageOfBlock(s, k, pg);
      if s.status[a] != PgValid {
        CleanBlockWears(s, k, pg + 1);
      } else {
        var t := s.GcWritePage(a).value;
        AppendWears(s, s.rmap[a].value, s.data[a]);
        CleanBlockWears(t, k, pg + 1);
        WornTwice(s, t, t.CleanBlock(k, pg + 1).value, {}, {});
      }
    }
  }

  lemma NotWorn(s: Ssd)
    requires s.Shape()
    ensures Worn(s, s, {})
  {
  }

  lemma PageOfBlock(s: Ssd, k: BlockId, pg: nat)
    requires s.Shape() && s.g.HasBlock(k) && pg < s.g.pgsPerBlk
    ensures var a := Ppa(k.ch, k.lun, 0, k.blk, pg);
            s.g.Has(a) && a in s.status && a in s.rmap && a in s.data
  {
  }

  /** The blocks of line b from channel ch, LUN lun on. */
  ghost function BlocksFrom(g: Geometry, ch: nat, lun: nat, b: nat): (x: set<BlockId>)
    ensures forall k: BlockId :: k in x <==>
              g.HasBlock(k) && k.blk == b && (k.ch > ch || (k.ch == ch && k.lun >= lun))
  {
    set c, l | 0 <= c < g.nchs && 0 <= l < g.lunsPerCh && b < g.blksPerPl && (c > ch || (c == ch && l >= lun))
      :: BlockId(c, l, b)
  }

  lemma EraseWears(s: Ssd, k: BlockId)
    requires s.Shape() && s.g.HasBlock(k)
    ensures Worn(s, s.MarkBlockFree(k), {k})
  {
  }

  lemma {:induction false} CleanLineWears(s: Ssd, ch: nat, lun: nat, b: nat)
    requires s.Shape() && b < s.g.blksPerPl && ch <= s.g.nchs && lun <= s.g.lunsPerCh
    requires s.CleanLine(ch, lun, b).Some?
    ensures Worn(s, s.CleanLine(ch, lun, b).value, BlocksFrom(s.g, ch, lun, b))
    decreases s.g.nchs - ch, s.g.lunsPerCh - lun
  {
    hide Ssd.Shape, Ssd.CleanBlock, Ssd.MarkBlockFree;
    if ch == s.g.nchs {
      NotWorn(s);
      assert BlocksFrom(s.g, ch, lun, b) == {};
    } else if lun == s.g.lunsPerCh {
      CleanLineWears(s, ch + 1, 0, b);
      assert BlocksFrom(s.g, ch, lun, b) == BlocksFrom(s.g, ch + 1, 0, b);
    } else {
      var k, rest := BlockId(ch, lun, b), BlocksFrom(s.g, ch, lun + 1, b);
      var t := s.CleanBlock(k, 0).value;
      var u := t.MarkBlockFree(k);
      CleanBlockWears(s, k, 0);
      EraseWears(t, k);
      CleanLineWears(u, ch, lun + 1, b);
      WornTwice(s, t, u, {}, {k});
      WornTwice(s, u, u.CleanLine(ch, lun + 1, b).value, {} + {k}, rest);
      assert BlocksFrom(s.g, ch, lun, b) == {} + {k} + rest;
    }
  }

  /** What a successful pass does to the lines: only the victim's invalid count changes, and either the
      current line and the full list stay or the current line is one that was free. */
  lemma DoGcLines(s: Ssd, force: bool)
    requires Inv(s) && s.DoGc(force).Cleaned?
    ensures var v := s.VictimLine(force).value; var t := s.DoGc(force).ssd;
            && v < |s.ipc| && t.ipc == s.ipc[v := 0]
            && ((t.wp.curline == s.wp.curline && t.fullCnt == s.fullCnt) || t.wp.curline in s.free)
  {
    hide Inv, Ssd.Shape, Ssd.CleanLine;
    Ready(s);
    var v := s.VictimLine(force).value;
    DoGcFree(s, force);
    CleanLineWears(s.Detach(), 0, 0, v);
    DetachLines(s);
  }

  lemma DetachLines(s: Ssd)
    requires s.Shape() && s.q.Sound() && |s.q.d| > 1
    ensures s.q.d[1] < |s.ipc|
    ensures s.Detach().ipc == s.ipc && s.Detach().wp == s.wp && s.Detach().fullCnt == s.fullCnt
  {
  }

  /** A successful pass erases every block of the victim once and no other block; the victim joins
      the free list at the end, and at most one line was taken from its front. */
  lemma DoGcWears(s: Ssd, force: bool)
    requires Inv(s) && s.DoGc(force).Cleaned?
    ensures var v := s.VictimLine(force).value; var t := s.DoGc(force).ssd;
            && (forall k: BlockId :: s.g.HasBlock(k) ==>
                  k in s.blocks && k in t.blocks && t.blocks[k].eraseCnt == s.blocks[k].eraseCnt + Bit(k.blk == v))
            && (t.free == s.free + [v] || (s.free != [] && t.free == s.free[1..] + [v]))
  {
    hide Inv, Ssd.Shape, Ssd.CleanLine, Ssd.Detach, Ssd.MarkLineFree, Worn, Passed, TakenFromFront;
    Ready(s);
    var v, t := s.VictimLine(force).value, s.DoGc(force).ssd;
    DoGcFree(s, force);
    CleanLineWears(s.Detach(), 0, 0, v);
    WornLine(s.Detach(), s.Detach().CleanLine(0, 0, v).value, v);
    DoGcConserves(s, force);
    DoGcKeepsInv(s, force);
    FreeCounted(s);
    FreeCounted(t);
    AtMostOneTaken(s.free, s.Detach().CleanLine(0, 0, v).value.free);
  }

  lemma Ready(s: Ssd)
    requires Inv(s)
    ensures s.Shape() && s.q.Sound()
  {
  }

  lemma FreeCounted(s: Ssd)
    requires Inv(s)
    ensures s.freeCnt == |s.free|
  {
  }

  lemma WornLine(s: Ssd, t: Ssd, v: nat)
    requires s.Shape() && t.Shape() && Worn(s, t, BlocksFrom(s.g, 0, 0, v))
    ensures TakenFromFront(s.free, t.free)
    ensures forall k: BlockId :: s.g.HasBlock(k) ==>
              k in s.blocks && k in t.blocks && t.blocks[k].eraseCnt == s.blocks[k].eraseCnt + Bit(k.blk == v)
  {
  }

  lemma AtMostOneTaken(before: seq<nat>, after: seq<nat>)
    requires TakenFromFront(before, after) && |after| + 1 >= |before|
    ensures after == before || (before != [] && after == before[1..])
  {
  }

  lemma DoGcFree(s: Ssd, force: bool)
    requires s.Shape() && s.q.Sound() && s.DoGc(force).Cleaned?
    ensures var v := s.VictimLine(force).value; var t := s.DoGc(force).ssd; var r := s.Detach().CleanLine(0, 0, v);
            r.Some? && t.free == r.value.free + [v] && t.blocks == r.value.blocks
            && s.Detach().free == s.free && s.Detach().blocks == s.blocks && s.Detach().g == s.g
            && v < |r.value.ipc| && t.ipc == r.value.ipc[v := 0] && t.wp == r.value.wp && t.fullCnt == r.value.fullCnt
  {
    hide Ssd.CleanLine;
  }
}
