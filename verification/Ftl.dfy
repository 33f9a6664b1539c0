/** ftl.c in place. Every method is proved against the value-level operation of the same name in
    Ssds; the source's NVMEV_ASSERTs on the counters, states and addresses modelled here are assertions
    of the methods, so none of them can fail. */
module Ftls {
  import opened Common
  import opened Arith
  import opened PriorityHeap
  import opened PQueues
  import opened Geometries
  import opened Ssds
  import opened Space
  import opened Mapping
  import opened Gc
  import opened GcPass
  import opened Totals
  import opened Runs
  import opened Start
  import opened Timing
  import opened GcTiming

  /** The flat reverse table seen by page address. */
  ghost function ByAddress(g: Geometry, r: seq<Option<nat>>): (m: map<Ppa, Option<nat>>)
    requires g.Positive() && g.Calculated() && |r| == g.ttPgs
    ensures m.Keys == Pages(g)
  {
    map a | a in Pages(g) :: (PgIdxRoundTrip(g, a); r[g.PgIdx(a)])
  }

  lemma ByAddressUpdate(g: Geometry, r: seq<Option<nat>>, a: Ppa, x: Option<nat>)
    requires g.Positive() && g.Calculated() && |r| == g.ttPgs && g.Has(a)
    ensures g.PgIdx(a) < |r|
    ensures ByAddress(g, r[g.PgIdx(a) := x]) == ByAddress(g, r)[a := x]
  {
    hide Geometry.Calculated, Geometry.PgIdx;
    PgIdxRoundTrip(g, a);
    var r' := r[g.PgIdx(a) := x];
    forall b | b in Pages(g)
      ensures ByAddress(g, r')[b] == ByAddress(g, r)[a := x][b]
    {
      PgIdxRoundTrip(g, b);
      if b != a {
        PgIdxInjective(g, a, b);
      }
    }
  }

  // ---------- the assertions of ftl.c, at the level of values ----------

  /** mark_page_invalid; a line that leaves the full list finds a slot in the victim heap. */
  lemma InvalidAsserts(s: Ssd, v: int, a: Ppa)
    requires SpaceInv(s, v, false) && s.g.Has(a) && a.blk != v && s.status[a] == PgValid
    ensures var k := BlockId(a.ch, a.lun, a.blk); var b := a.blk;
            && 0 <= s.blocks[k].ipc < s.g.pgsPerBlk && 0 < s.blocks[k].vpc <= s.g.pgsPerBlk
            && 0 <= s.ipc[b] < s.g.pgsPerLine && 0 < s.q.pri[b] <= s.g.pgsPerLine
            && (s.q.pri[b] == s.g.pgsPerLine ==> s.ipc[b] == 0 && s.q.pos[b] == 0 && |s.q.d| <= s.g.blksPerPl)
  {
    var k := BlockId(a.ch, a.lun, a.blk);
    assert LineOk(s, a.blk, false) && BlockCounted(s, k);
    LineTotal(s, a.blk);
    BlockTotal(s, k);
    CountNone(s.status, LinePages(s.g, a.blk), PgValid);
    CountNone(s.status, BlockPages(s.g, k), PgValid);
    FullIffAllValid(s, v, a.blk);
    if s.q.pos[a.blk] == 0 {
      HeapFits(s.q, a.blk);
    }
  }

  /** mark_page_valid. */
  lemma ValidAsserts(s: Ssd, v: int)
    requires SpaceInv(s, v, false)
    ensures var a := s.NewPage(); var k := BlockId(a.ch, a.lun, a.blk);
            && s.status[a] == PgFree
            && 0 <= s.blocks[k].vpc < s.g.pgsPerBlk
            && 0 <= s.q.pri[a.blk] < s.g.pgsPerLine
  {
    var a := s.NewPage();
    var k := BlockId(a.ch, a.lun, a.blk);
    NewPageIsFree(s, v);
    assert LineOk(s, a.blk, false) && BlockCounted(s, k);
    LineTotal(s, a.blk);
    BlockTotal(s, k);
    CountNone(s.status, LinePages(s.g, a.blk), PgFree);
    CountNone(s.status, BlockPages(s.g, k), PgFree);
  }

  /** ssd_advance_write_pointer at the end of a line. */
  lemma CloseAsserts(s: Ssd, v: int)
    requires SpaceInv(s, v, true) && s.AtLineEnd()
    ensures var b := s.wp.curline;
            && |s.q.d| <= s.g.blksPerPl
            && if s.q.pri[b] == s.g.pgsPerLine then s.ipc[b] == 0
               else 0 <= s.q.pri[b] < s.g.pgsPerLine && s.ipc[b] > 0
  {
    LineEndIsWritten(s, v);
    assert LineOk(s, s.wp.curline, true);
    HeapFits(s.q, s.wp.curline);
  }

  lemma BlankTables(
    g: Geometry, m: seq<Option<Ppa>>, r: seq<Option<nat>>, i: seq<int>, vpc: seq<int>, pos: seq<nat>, f: seq<nat>)
    requires g.Ok() && g.Calculated() && |m| == |r| == g.ttPgs && |i| == |vpc| == |pos| == g.blksPerPl
    requires |f| == g.ttLines - 1 && forall k :: 0 <= k < |f| ==> f[k] == k + 1
    requires forall k :: 0 <= k < |m| ==> m[k] == None && r[k] == None
    requires forall k :: 0 <= k < |i| ==> i[k] == 0 && vpc[k] == 0 && pos[k] == 0
    ensures var s := Init(g);
            s == Ssd(g, m, ByAddress(g, r), s.status, s.blocks, i, Heap([0], vpc, pos), f, [],
                     g.ttLines - 1, 0, 0, WritePointer(0, 0, 0, 0, 0, 0), s.data)
  {
    forall a | a in Pages(g)
      ensures ByAddress(g, r)[a] == None
    {
      PgIdxRoundTrip(g, a);
    }
  }

  /** The empty victim heap over n lines, each with a valid count and a position of zero. */
  method NoVictims(n: nat) returns (q: PQueue)
    ensures fresh(q) && fresh(q.d) && fresh(q.pri) && fresh(q.pos)
    ensures q.Wf() && q.pri.Length == n && q.d.Length == n + 1 && q.Value().d == [0]
    ensures forall i :: 0 <= i < n ==> q.pri[i] == 0 && q.pos[i] == 0
  {
    var vpc := new int[n](i => 0);
    var pos := new nat[n](i => 0);
    q := new PQueue(n, vpc, pos);
  }

  class Ftl {
    const g: Geometry
    const maptbl: array<Option<Ppa>>
    const rmap: array<Option<nat>>
    var status: map<Ppa, PageStatus>
    var blocks: map<BlockId, Block>
    const ipc: array<int>
    const victims: PQueue
    var free: seq<nat>
    var full: seq<nat>
    var freeCnt: int
    var victimCnt: int
    var fullCnt: int
    var wp: WritePointer
    ghost var data: map<Ppa, nat>
    const avail: array<nat>       // next_lun_avail_time by LUN number
    const clock: nat -> nat       // the k-th reading of the dispatcher's clock
    var ticks: nat

    ghost predicate Wf()
      reads this, victims
    {
      && g.Ok() && g.Calculated()
      && maptbl.Length == rmap.Length == g.ttPgs
      && ipc.Length == g.blksPerPl && avail.Length == g.ttLuns
      && victims.Wf()
      && victims.pri.Length == g.blksPerPl && victims.d.Length == g.blksPerPl + 1
      && ipc != victims.pri && avail != victims.d && avail != victims.pos
    }

    ghost function State(): (s: Ssd)
      requires Wf()
      reads this, maptbl, rmap, ipc, victims, victims.d, victims.pri, victims.pos
    {
      Ssd(g, maptbl[..], ByAddress(g, rmap[..]), status, blocks, ipc[..], victims.Value(),
          free, full, freeCnt, victimCnt, fullCnt, wp, data)
    }

    /** ssd_init. */
    constructor (g: Geometry, clock: nat -> nat)
      requires g.Ok() && g.Calculated()
      ensures Wf() && this.g == g && this.clock == clock && fresh(victims) && fresh(avail)
      ensures State() == Init(g)
      ensures forall l :: 0 <= l < avail.Length ==> avail[l] == 0
    {
      hide Init, Geometry.Calculated, ByAddress;
      this.g := g;
      this.clock := clock;
      ticks := 0;
      maptbl := new Option<Ppa>[g.ttPgs](i => None);
      rmap := new Option<nat>[g.ttPgs](i => None);
      ipc := new int[g.blksPerPl](i => 0);
      avail := new nat[g.ttLuns](i => 0);
      var heap := NoVictims(g.blksPerPl);
      victims := heap;
      status, blocks, data := Init(g).status, Init(g).blocks, Init(g).data;
      free, full := [], [];
      freeCnt, victimCnt, fullCnt := 0, 0, 0;
      wp := WritePointer(0, 0, 0, 0, 0, 0);
      new;
      BlankTables(g, maptbl[..], rmap[..], ipc[..], victims.pri[..], victims.pos[..], Waiting(g));
      assert State() == Init(g).(free := [], freeCnt := 0);
      InitLists();
      assert State() == Init(g);
    }

    /** The lines that wait behind the current one. */
    static function Waiting(g: Geometry): (lines: seq<nat>)
      requires g.ttLines >= 1
      ensures |lines| == g.ttLines - 1 && forall i :: 0 <= i < |lines| ==> lines[i] == i + 1
    {
      seq(g.ttLines - 1, i requires 0 <= i => i + 1)
    }

    method InitLists()
      requires Wf() && free == [] && freeCnt == 0
      modifies `free, `freeCnt, `wp
      ensures Wf() && State() == old(State()).(free := Waiting(g), freeCnt := g.ttLines - 1,
                                               wp := WritePointer(0, 0, 0, 0, 0, 0))
    {
      hide Geometry.Calculated, ByAddress;
      InitLines();
      InitWritePointer();
      assert free == Waiting(g);
    }

    /** The free list of ssd_init_lines: every line, in order. */
    method InitLines()
      requires Wf() && free == [] && freeCnt == 0
      modifies `free, `freeCnt
      ensures Wf() && freeCnt == |free| == g.ttLines
      ensures forall i :: 0 <= i < |free| ==> free[i] == i
    {
      hide Geometry.Calculated;
      assert g.ttLines == g.blksPerPl;
      for i := 0 to g.ttLines
        invariant Wf() && freeCnt == |free| == i
        invariant forall j :: 0 <= j < |free| ==> free[j] == j
      {
        free := free + [i];
        freeCnt := freeCnt + 1;
      }
      assert freeCnt == g.ttLines;
    }

    /** ssd_init_write_pointer: the first free line becomes the current one. */
    method InitWritePointer()
      requires Wf() && free != []
      modifies `free, `freeCnt, `wp
      ensures Wf() && free == old(free)[1..] && freeCnt == old(freeCnt) - 1
      ensures wp == WritePointer(old(free)[0], 0, 0, 0, 0, 0)
    {
      var curline := free[0];
      free := free[1..];
      freeCnt := freeCnt - 1;
      wp := WritePointer(curline, 0, 0, 0, 0, 0);
    }

    // ---------- small accessors ----------

    method Ppa2PgIdx(a: Ppa) returns (k: nat)
      requires Wf() && g.Has(a)
      ensures k == g.PgIdx(a) && k < g.ttPgs && g.AtPgIdx(k) == a
    {
      PgIdxRoundTrip(g, a);
      k := a.ch * g.pgsPerCh + a.lun * g.pgsPerLun + a.pl * g.pgsPerPl + a.blk * g.pgsPerBlk + a.pg;
    }

    method GetRmapEnt(a: Ppa) returns (lpn: Option<nat>)
      requires Wf() && g.Has(a)
      ensures lpn == State().rmap[a]
    {
      var k := Ppa2PgIdx(a);
      lpn := rmap[k];
    }

    method SetRmapEnt(lpn: Option<nat>, a: Ppa)
      requires Wf() && g.Has(a)
      modifies rmap
      ensures State() == old(State()).(rmap := old(State()).rmap[a := lpn])
    {
      var k := Ppa2PgIdx(a);
      ByAddressUpdate(g, rmap[..], a, lpn);
      ghost var was := rmap[..];
      rmap[k] := lpn;
      assert rmap[..] == was[k := lpn];
    }

    method SetMaptblEnt(lpn: nat, a: Ppa)
      requires Wf() && lpn < g.ttPgs
      modifies maptbl
      ensures State() == old(State()).(maptbl := old(State()).maptbl[lpn := Some(a)])
    {
      maptbl[lpn] := Some(a);
    }

    method GetNewPage() returns (a: Ppa)
      requires Wf() && State().Shape()
      ensures a == State().NewPage() && a.pl == 0
    {
      a := Ppa(wp.ch, wp.lun, wp.pl, wp.blk, wp.pg);
      assert a.pl == 0;
    }

    // ---------- page status ----------

    method MarkPageInvalid(a: Ppa, ghost v: int)
      requires Wf() && SpaceInv(State(), v, false) && g.Has(a) && a.blk != v && State().status[a] == PgValid
      modifies `status, `blocks, `full, `fullCnt, `victimCnt
      modifies ipc, victims`size, victims.d, victims.pri, victims.pos
      ensures Wf() && State() == old(State()).MarkPageInvalid(a)
    {
      hide SpaceInv, Geometry.Calculated, ByAddress, Ssd.InvalidCounted, Ssd.FullToVictim;
      InvalidAsserts(State(), v, a);
      InvalidFacts(State(), v, a);
      var b := a.blk;
      var wasFullLine := victims.pri[b] == g.pgsPerLine;
      CountInvalid(a);
      if wasFullLine {
        FullToVictim(b);
      }
    }

    /** The counters of mark_page_invalid: page, block, line. */
    method CountInvalid(a: Ppa)
      requires Wf() && State().Shape() && g.Has(a) && State().status[a] == PgValid
      requires var k := BlockId(a.ch, a.lun, a.blk); var b := a.blk; var s := State();
               && 0 <= s.blocks[k].ipc < g.pgsPerBlk && 0 < s.blocks[k].vpc <= g.pgsPerBlk
               && 0 <= s.ipc[b] < g.pgsPerLine && 0 < s.q.pri[b] <= g.pgsPerLine
               && (s.q.pri[b] == g.pgsPerLine ==> s.ipc[b] == 0)
               && (s.q.pos[b] != 0 ==> s.q.d[s.q.pos[b]] == b)
               && k in s.blocks && a in s.status && s.q.Bounded()
      modifies `status, `blocks, ipc, victims.d, victims.pri, victims.pos
      ensures Wf() && State() == old(State()).InvalidCounted(a)
    {
      hide Geometry.Calculated, ByAddress, Ssd.Shape, Lowered;
      // the page,
      assert status[a] == PgValid;
      status := status[a := PgInvalid];
      // its block,
      var k := BlockId(a.ch, a.lun, a.blk);
      var blk := blocks[k];
      assert blk.ipc >= 0 && blk.ipc < g.pgsPerBlk;
      assert blk.vpc > 0 && blk.vpc <= g.pgsPerBlk;
      blocks := blocks[k := blk.(ipc := blk.ipc + 1, vpc := blk.vpc - 1)];
      // and its line
      var b := a.blk;
      assert ipc[b] >= 0 && ipc[b] < g.pgsPerLine;
      assert victims.pri[b] == g.pgsPerLine ==> ipc[b] == 0;
      ipc[b] := ipc[b] + 1;
      assert victims.pri[b] > 0 && victims.pri[b] <= g.pgsPerLine;
      LowerVpc(b);
    }

    /** Move line b from the full list to the victim heap. */
    method FullToVictim(b: nat)
      requires Wf() && State().Shape() && State().q.InRange() && b < g.blksPerPl && |State().q.d| <= g.blksPerPl
      modifies `full, `fullCnt, `victimCnt, victims`size, victims.d, victims.pos
      ensures Wf() && State() == old(State()).FullToVictim(b)
    {
      hide Geometry.Calculated, ByAddress, Ssd.Shape, Heap.Insert, Without;
      full := Without(full, b);
      fullCnt := fullCnt - 1;
      victims.Insert(b);
      victimCnt := victimCnt + 1;
    }

    static lemma InvalidFacts(s: Ssd, v: int, a: Ppa)
      requires SpaceInv(s, v, false) && s.g.Has(a)
      ensures s.Shape() && s.q.Bounded() && BlockId(a.ch, a.lun, a.blk) in s.blocks && a in s.status
      ensures a.blk < |s.ipc| == |s.q.pos| && s.q.pos[a.blk] < |s.q.d|
      ensures s.q.pos[a.blk] != 0 ==> s.q.d[s.q.pos[a.blk]] == a.blk
    {
    }

    /** line->vpc goes down by one, through the heap if the line is queued. */
    method LowerVpc(b: nat)
      requires Wf() && victims.Value().Bounded() && b < g.blksPerPl
      requires victims.pos[b] != 0 ==> victims.d[victims.pos[b]] == b
      modifies victims.d, victims.pri, victims.pos
      ensures Wf() && victims.Value() == Lowered(old(victims.Value()), b)
    {
      if victims.pos[b] != 0 {
        victims.ChangePriority(b, victims.pri[b] - 1);
      } else {
        victims.pri[b] := victims.pri[b] - 1;
      }
    }

    method MarkPageValid(a: Ppa, ghost v: int)
      requires Wf() && SpaceInv(State(), v, false) && a == State().NewPage()
      modifies `status, `blocks, victims.pri
      ensures Wf() && State() == old(State()).MarkPageValid(a)
    {
      hide SpaceInv, Geometry.Calculated, ByAddress, Ssd.Shape;
      ValidAsserts(State(), v);
      PageFacts(State(), a, v);
      assert status[a] == PgFree;
      status := status[a := PgValid];
      var k := BlockId(a.ch, a.lun, a.blk);
      assert blocks[k].vpc >= 0 && blocks[k].vpc < g.pgsPerBlk;
      blocks := blocks[k := blocks[k].(vpc := blocks[k].vpc + 1)];
      assert victims.pri[a.blk] >= 0 && victims.pri[a.blk] < g.pgsPerLine;
      victims.pri[a.blk] := victims.pri[a.blk] + 1;
    }

    static lemma PageFacts(s: Ssd, a: Ppa, v: int)
      requires SpaceInv(s, v, false) && a == s.NewPage()
      ensures s.Shape() && s.g.Has(a) && a in s.status && BlockId(a.ch, a.lun, a.blk) in s.blocks
      ensures a.blk < |s.q.pri|
    {
    }

    method MarkBlockFree(k: BlockId)
      requires Wf() && State().Shape() && g.HasBlock(k)
      modifies `status, `blocks
      ensures Wf() && State() == old(State()).MarkBlockFree(k)
    {
      hide Geometry.Calculated, ByAddress, Ssd.Shape;
      ghost var s := State();
      EraseFacts(s, k);
      // every page of the block
      for i := 0 to g.pgsPerBlk
        invariant Wf() && blocks == s.blocks && status.Keys == s.status.Keys
        invariant forall a :: a in s.status ==>
                    status[a] == if InBlock(a, k) && a.pg < i then PgFree else s.status[a]
      {
        status := status[Ppa(k.ch, k.lun, 0, k.blk, i) := PgFree];
      }
      blocks := blocks[k := Block(0, 0, blocks[k].eraseCnt + 1)];
      Erased(s, k, status);
    }

    static predicate InBlock(a: Ppa, k: BlockId) {
      a.ch == k.ch && a.lun == k.lun && a.blk == k.blk
    }

    static lemma EraseFacts(s: Ssd, k: BlockId)
      requires s.Shape() && s.g.HasBlock(k)
      ensures k in s.blocks
      ensures forall i :: 0 <= i < s.g.pgsPerBlk ==> Ppa(k.ch, k.lun, 0, k.blk, i) in s.status
      ensures forall a :: a in s.status ==> a.pl == 0 && a.pg < s.g.pgsPerBlk
    {
    }

    static lemma Erased(s: Ssd, k: BlockId, st: map<Ppa, PageStatus>)
      requires s.Shape() && s.g.HasBlock(k) && st.Keys == s.status.Keys
      requires forall a :: a in s.status ==>
                 st[a] == if InBlock(a, k) && a.pg < s.g.pgsPerBlk then PgFree else s.status[a]
      ensures s.MarkBlockFree(k) == s.(status := st, blocks := s.blocks[k := Block(0, 0, s.blocks[k].eraseCnt + 1)])
    {
    }

    method MarkLineFree(b: nat)
      requires Wf() && State().Shape() && b < g.blksPerPl
      modifies `free, `freeCnt, ipc, victims.pri
      ensures Wf() && State() == old(State()).MarkLineFree(b)
    {
      hide Geometry.Calculated, ByAddress, Ssd.Shape;
      ipc[b] := 0;
      victims.pri[b] := 0;
      free := free + [b];
      freeCnt := freeCnt + 1;
    }

    // ---------- the write pointer ----------

    /** None when no line is free. */
    method GetNextFreeLine() returns (line: Option<nat>)
      requires Wf()
      modifies `free, `freeCnt
      ensures line.None? <==> old(free) == []
      ensures State() == if line.None? then old(State())
                         else old(State()).(free := old(free)[1..], freeCnt := old(freeCnt) - 1)
      ensures line.Some? ==> line.value == old(free)[0]
    {
      if free == [] {
        return None;
      }
      line := Some(free[0]);
      free := free[1..];
      freeCnt := freeCnt - 1;
    }

    method CloseLine(ghost v: int)
      requires Wf() && SpaceInv(State(), v, true) && State().AtLineEnd()
      modifies `full, `fullCnt, `victimCnt, victims`size, victims.d, victims.pos
      ensures Wf() && State() == old(State()).CloseLine()
    {
      hide SpaceInv, Geometry.Calculated, ByAddress, Heap.Insert;
      CloseAsserts(State(), v);
      CloseFacts(State(), v);
      if victims.pri[wp.curline] == g.pgsPerLine {
        assert ipc[wp.curline] == 0;
        full := full + [wp.curline];
        fullCnt := fullCnt + 1;
      } else {
        assert victims.pri[wp.curline] >= 0 && victims.pri[wp.curline] < g.pgsPerLine;
        assert ipc[wp.curline] > 0;
        victims.Insert(wp.curline);
        victimCnt := victimCnt + 1;
      }
    }

    static lemma CloseFacts(s: Ssd, v: int)
      requires SpaceInv(s, v, true)
      ensures s.Shape() && s.q.InRange() && s.wp.curline < s.g.blksPerPl == |s.q.pos| == |s.ipc|
      ensures s.wp.ch < s.g.nchs && s.wp.lun < s.g.lunsPerCh && s.wp.pg < s.g.pgsPerBlk && s.wp.blk < s.g.blksPerPl
      ensures s.wp.pl == 0 && forall b :: b in s.free ==> b < s.g.blksPerPl
    {
    }

    /** ssd_advance_write_pointer; false means there was no line to go on with. */
    method AdvanceWritePointer(ghost v: int) returns (ok: bool)
      requires Wf() && SpaceInv(State(), v, true)
      modifies `wp, `free, `freeCnt, `full, `fullCnt, `victimCnt, victims`size, victims.d, victims.pos
      ensures ok <==> old(State()).AdvanceWritePointer().Some?
      ensures ok ==> Wf() && State() == old(State()).AdvanceWritePointer().value
    {
      hide SpaceInv, Geometry.Calculated, ByAddress, Ssd.CloseLine;
      CloseFacts(State(), v);
      assert wp.ch < g.nchs;
      if wp.ch + 1 != g.nchs {
        wp := wp.(ch := wp.ch + 1);
        return true;
      }
      assert wp.lun < g.lunsPerCh;
      if wp.lun + 1 != g.lunsPerCh {
        wp := wp.(ch := 0, lun := wp.lun + 1);
        return true;
      }
      assert wp.pg < g.pgsPerBlk;
      if wp.pg + 1 != g.pgsPerBlk {
        wp := wp.(ch := 0, lun := 0, pg := wp.pg + 1);
        return true;
      }
      CloseLine(v);
      assert wp.blk < g.blksPerPl;
      var next := GetNextFreeLine();
      if next.None? {
        return false;
      }
      assert next.value in old(free);
      wp := WritePointer(next.value, 0, 0, wp.pl, next.value, 0);
      assert wp.blk < g.blksPerPl && wp.pl == 0;
      return true;
    }

    // ---------- NAND timing ----------

    /** The part of the state that timing looks at. */
    ghost function Times(): (l: Luns)
      reads this, avail
    {
      Luns(avail[..], ticks)
    }

    /** ssd_advance_status. A start time of zero means now. */
    method AdvanceStatus(a: Ppa, cmd: NandCmd, stime: nat) returns (lat: nat)
      requires Wf() && g.Has(a)
      modifies avail, `ticks
      ensures LunNo(g, a) < avail.Length
      ensures var t := if stime == 0 then clock(old(ticks)) else stime;
              && avail[..] == old(avail[..])[LunNo(g, a) := Finish(old(avail[..])[LunNo(g, a)], t, Latency(g, cmd))]
              && lat == Finish(old(avail[..])[LunNo(g, a)], t, Latency(g, cmd)) - t
      ensures ticks == old(ticks) + if stime == 0 then 1 else 0
      ensures stime == 0 ==> Times() == Charge(g, old(Times()), Op(LunNo(g, a), cmd), clock)
      ensures Wf() && State() == old(State())
    {
      LunNoInRange(g, a);
      var cmdStime := stime;
      if stime == 0 {
        cmdStime := clock(ticks);
        ticks := ticks + 1;
      }
      var l := a.lun * g.nchs + a.ch;
      var nandStime := if avail[l] < cmdStime then cmdStime else avail[l];
      avail[l] := nandStime + Latency(g, cmd);
      lat := avail[l] - cmdStime;
    }

    // ---------- writing one page ----------

    /** Bind lpn to the page under the write pointer: the steps gc_write_page and the loop of
        ssd_write share. */
    method Append(lpn: nat, ghost content: nat, ghost v: int) returns (a: Ppa, ok: bool)
      requires Wf() && SpaceInv(State(), v, false) && lpn < g.ttPgs
      modifies maptbl, rmap, `data, `status, `blocks, `wp, `free, `freeCnt, `full, `fullCnt, `victimCnt
      modifies victims`size, victims.d, victims.pri, victims.pos
      ensures a == old(State()).NewPage() && g.Has(a)
      ensures ok <==> old(State()).Append(lpn, content).Some?
      ensures ok ==> Wf() && State() == old(State()).Append(lpn, content).value
    {
      hide SpaceInv, Geometry.Calculated, ByAddress, Ssd.MarkPageValid, Ssd.AdvanceWritePointer;
      ghost var s := State();
      AppendFacts(s, v);
      a := GetNewPage();
      SetMaptblEnt(lpn, a);
      SetRmapEnt(Some(lpn), a);
      data := data[a := content];
      assert State() == s.Bind(lpn, a, content);
      SpaceIgnoresMaps(s, State(), v);
      MarkPageValidKeepsSpace(State(), v);
      MarkPageValid(a, v);
      ok := AdvanceWritePointer(v);
    }

    static lemma AppendFacts(s: Ssd, v: int)
      requires SpaceInv(s, v, false)
      ensures s.Shape() && s.g.Has(s.NewPage()) && |s.maptbl| == s.g.ttPgs
    {
    }

    /** The first half of a user page write: the page that held lpn loses it. */
    method Supersede(lpn: nat)
      requires Wf() && State().Shape() && Inv(State()) && lpn < |State().maptbl|
      modifies rmap, `status, `blocks, `full, `fullCnt, `victimCnt
      modifies ipc, victims`size, victims.d, victims.pri, victims.pos
      ensures Wf() && State() == old(State()).Supersede(lpn)
    {
      hide SpaceInv, Inverse, Geometry.Calculated, ByAddress, Ssd.MarkPageInvalid, Ssd.Shape;
      var ppa := maptbl[lpn];
      if ppa.Some? {
        MappedFacts(State(), lpn);
        MarkPageInvalid(ppa.value, -1);
        SetRmapEnt(None, ppa.value);
      }
    }

    /** One page of ssd_write. */
    method WriteUserPage(lpn: nat, ghost content: nat) returns (a: Ppa, ok: bool)
      requires Wf() && State().Shape() && Inv(State()) && lpn < |State().maptbl|
      modifies maptbl, rmap, `data, `status, `blocks, `wp, `free, `freeCnt, `full, `fullCnt, `victimCnt
      modifies ipc, victims`size, victims.d, victims.pri, victims.pos
      ensures a == old(State()).NewPage() && g.Has(a)
      ensures ok <==> old(State()).WritePage(lpn, content).Some?
      ensures ok ==> Wf() && State() == old(State()).WritePage(lpn, content).value
    {
      hide Inv, SpaceInv, Geometry.Calculated, ByAddress, Ssd.Supersede, Ssd.Append, Ssd.Shape;
      SupersedeKeepsSpace(State(), lpn);
      Supersede(lpn);
      AppendFacts(State(), -1);
      a, ok := Append(lpn, content, -1);
    }

    static lemma MappedFacts(s: Ssd, lpn: nat)
      requires Inv(s) && lpn < |s.maptbl| && s.maptbl[lpn].Some?
      ensures s.Shape() && s.g.Has(s.maptbl[lpn].value) && s.maptbl[lpn].value in s.status
      ensures s.status[s.maptbl[lpn].value] == PgValid
    {
    }

    /** One turn of the write loop of ssd_write. */
    method WriteTimedPage(lpn: nat, stime: nat, ghost content: nat) returns (ok: bool, curlat: nat)
      requires Wf() && State().Shape() && Inv(State()) && lpn < |State().maptbl|
      modifies maptbl, rmap, `data, `status, `blocks, `wp, `free, `freeCnt, `full, `fullCnt, `victimCnt
      modifies ipc, victims`size, victims.d, victims.pri, victims.pos, avail, `ticks
      ensures ok <==> old(State()).WritePage(lpn, content).Some?
      ensures ok ==> Wf() && State() == old(State()).WritePage(lpn, content).value
      ensures ok ==> State().Shape() && Inv(State()) && |State().maptbl| == |old(State()).maptbl|
      ensures stime != 0 ==> ticks == old(ticks)
      ensures ok ==>
                var l := LunNo(g, old(State()).NewPage());
                && l < avail.Length
                && (stime != 0 ==>
                      && avail[..] == old(avail[..])[l := Finish(old(avail[..])[l], stime, g.pgWrLat)]
                      && curlat == Finish(old(avail[..])[l], stime, g.pgWrLat) - stime)
    {
      hide Inv, Geometry.Calculated, ByAddress, Ssd.WritePage, Ssd.Shape;
      ghost var s := State();
      WritePageKeepsInv(s, lpn, content);
      var ppa;
      ppa, ok := WriteUserPage(lpn, content);
      curlat := 0;
      if ok {
        SameSpace(s, State());
        curlat := AdvanceStatus(ppa, NandWrite, stime);
      }
    }

    /** The write loop of ssd_write, with its latency. */
    method WriteUserPages(start: nat, end: nat, stime: nat, ghost content: nat) returns (ok: bool, maxlat: nat)
      requires Wf() && State().Shape() && Inv(State()) && end < |State().maptbl|
      modifies maptbl, rmap, `data, `status, `blocks, `wp, `free, `freeCnt, `full, `fullCnt, `victimCnt
      modifies ipc, victims`size, victims.d, victims.pri, victims.pos, avail, `ticks
      ensures ok <==> old(State()).WritePages(start, end, content).Some?
      ensures ok ==> Wf() && State() == old(State()).WritePages(start, end, content).value
      ensures stime != 0 ==> ticks == old(ticks)
      ensures ok && stime != 0 ==>
                Timed(old(avail[..]), LunsWritten(old(State()), start, end, content),
                      stime, g.pgWrLat, avail[..], maxlat)
    {
      hide Inv, Wf, Geometry.Calculated, ByAddress, Ssd.WritePage, Ssd.Shape, Timed;
      ghost var s0, avail0 := State(), avail[..];
      ghost var done: seq<nat> := [];
      var lpn := start;
      maxlat := 0;
      TimedNone(avail0, stime, g.pgWrLat);
      while lpn <= end
        invariant Wf() && State().Shape() && Inv(State()) && end < |State().maptbl|
        invariant s0.WritePages(start, end, content) == State().WritePages(lpn, end, content)
        invariant State().WritePages(lpn, end, content).Some? ==>
                    LunsWritten(s0, start, end, content) == done + LunsWritten(State(), lpn, end, content)
        invariant stime != 0 ==> Timed(avail0, done, stime, g.pgWrLat, avail[..], maxlat) && ticks == old(ticks)
        decreases end + 1 - lpn
      {
        ghost var l, busy, m := LunNo(g, State().NewPage()), avail[..], maxlat;
        var more, curlat := WriteTimedPage(lpn, stime, content);
        if !more {
          return false, 0;
        }
        maxlat := Max(curlat, maxlat);
        if stime != 0 {
          TimedOneMore(avail0, done, l, stime, g.pgWrLat, busy, m);
        }
        done := done + [l];
        lpn := lpn + 1;
      }
      ok := true;
      assert done + [] == done;
    }

    static lemma SameSpace(s: Ssd, t: Ssd)
      requires s.Shape() && Inv(t) && t.g == s.g
      ensures t.Shape() && |t.maptbl| == |s.maptbl|
    {
    }

    /** ssd_read; out of range or unmapped pages cost nothing. */
    method SsdRead(slba: U64, length: U16, stime: nat) returns (maxlat: nat)
      requires Wf() && State().Shape() && g.Positive() && |State().maptbl| == g.ttPgs
      modifies avail, `ticks
      ensures Wf() && State() == old(State())
      ensures EndLpn(g, slba, length) >= g.ttPgs ==> maxlat == 0 && Times() == old(Times())
      ensures stime != 0 ==> ticks == old(ticks)
      ensures EndLpn(g, slba, length) < g.ttPgs && stime != 0 ==>
                Timed(old(avail[..]), LunsRead(old(State()), StartLpn(g, slba), EndLpn(g, slba, length)),
                      stime, g.pgRdLat, avail[..], maxlat)
      ensures slba + length < 0x1_0000_0000_0000_0000 && slba + length >= g.ttPgs * g.secsPerPg ==>
                maxlat == 0 && Times() == old(Times())
      ensures InRange(g, slba, length) && stime != 0 ==>
                ReadTook(old(State()), slba, length, old(avail[..]), stime, avail[..], maxlat)
      ensures InRange(g, slba, length) && stime != 0 && AllFree(old(avail[..]), stime) ==>
                && (forall l: nat :: |ReadOn(old(State()), slba, length, l)| * g.pgRdLat <= maxlat)
                && (maxlat == 0 || exists l: nat :: maxlat == |ReadOn(old(State()), slba, length, l)| * g.pgRdLat)
    {
      hide Wf, Geometry.Calculated, ByAddress, Ssd.Shape, Timed, StartLpn, EndLpn, ReadTook, ReadOn, Covers;
      ghost var s, avail0 := State(), avail[..];
      RangeOfSectors(g, slba, length);
      var startLpn := StartLpn(g, slba);
      var endLpn := EndLpn(g, slba, length);
      if endLpn >= g.ttPgs {
        return 0;
      }
      maxlat := ReadPages(startLpn, endLpn, stime);
      if stime != 0 {
        ReadServes(s, slba, length, avail0, stime, avail[..], maxlat);
        if AllFree(avail0, stime) {
          FittedLuns();
          IdleRead(s, slba, length, avail0, stime, avail[..], maxlat);
        }
      }
    }

    lemma FittedLuns()
      requires Wf()
      ensures avail.Length == g.lunsPerCh * g.nchs
    {
    }

    method ReadPages(start: nat, end: nat, stime: nat) returns (maxlat: nat)
      requires Wf() && State().Shape() && end < |State().maptbl|
      modifies avail, `ticks
      ensures Wf() && State() == old(State())
      ensures stime != 0 ==> ticks == old(ticks)
      ensures stime != 0 ==>
                Timed(old(avail[..]), LunsRead(old(State()), start, end), stime, g.pgRdLat, avail[..], maxlat)
    {
      hide Wf, Ftl.State, Geometry.Calculated, ByAddress, Ssd.Shape, Timed;
      ghost var s0, avail0 := State(), avail[..];
      ghost var done: seq<nat> := [];
      var lpn := start;
      maxlat := 0;
      TimedNone(avail0, stime, g.pgRdLat);
      while lpn <= end
        invariant Wf() && State() == s0 && s0.Shape() && end < |s0.maptbl|
        invariant LunsRead(s0, start, end) == done + LunsRead(s0, lpn, end)
        invariant stime != 0 ==> Timed(avail0, done, stime, g.pgRdLat, avail[..], maxlat) && ticks == old(ticks)
        decreases end + 1 - lpn
      {
        ghost var more;
        maxlat, more := ReadTimedPage(lpn, stime, maxlat, avail0, done);
        LunsReadNext(s0, done, more, lpn, end);
        done := done + more;
        lpn := lpn + 1;
      }
      assert done + [] == done;
    }

    static lemma LunsReadNext(s: Ssd, done: seq<nat>, more: seq<nat>, lpn: nat, end: nat)
      requires s.Shape() && lpn <= end < |s.maptbl|
      requires more == match s.maptbl[lpn] case None => [] case Some(a) => [LunNo(s.g, a)]
      ensures done + LunsRead(s, lpn, end) == (done + more) + LunsRead(s, lpn + 1, end)
    {
      assert (done + more) + LunsRead(s, lpn + 1, end) == done + (more + LunsRead(s, lpn + 1, end));
    }

    /** One turn of the loop of ssd_read. */
    method ReadTimedPage(lpn: nat, stime: nat, m: nat, ghost avail0: seq<nat>, ghost done: seq<nat>)
      returns (maxlat: nat, ghost more: seq<nat>)
      requires Wf() && State().Shape() && lpn < |State().maptbl|
      requires stime != 0 ==> Timed(avail0, done, stime, g.pgRdLat, avail[..], m)
      modifies avail, `ticks
      ensures Wf() && State() == old(State())
      ensures more == match old(State()).maptbl[lpn] case None => [] case Some(a) => [LunNo(old(State()).g, a)]
      ensures stime != 0 ==> Timed(avail0, done + more, stime, g.pgRdLat, avail[..], maxlat) && ticks == old(ticks)
    {
      hide Geometry.Calculated, ByAddress, Ssd.Shape, Timed;
      var ppa := maptbl[lpn];
      if ppa.None? {
        assert done + [] == done;
        return m, [];
      }
      HomeInRange(State(), lpn);
      ghost var l, busy := LunNo(g, ppa.value), avail[..];
      var sublat := AdvanceStatus(ppa.value, NandRead, stime);
      if stime != 0 {
        TimedOneMore(avail0, done, l, stime, g.pgRdLat, busy, m);
      }
      return Max(sublat, m), [l];
    }

    /** A mapped address is valid: the second test of ssd_read never skips a page. */
    static lemma HomeInRange(s: Ssd, lpn: nat)
      requires s.Shape() && lpn < |s.maptbl| && s.maptbl[lpn].Some?
      ensures s.g.Has(s.maptbl[lpn].value)
    {
    }

    // ---------- garbage collection ----------

    method GcReadPage(a: Ppa)
      requires Wf() && g.Has(a)
      modifies avail, `ticks
      ensures Wf() && State() == old(State())
      ensures Times() == GcTime(g, old(Times()), [Op(LunNo(g, a), NandRead)], clock)
    {
      hide Geometry.Calculated, ByAddress;
      GcTimeOne(g, Times(), Op(LunNo(g, a), NandRead), clock);
      if g.enableGcDelay {
        var _ := AdvanceStatus(a, NandRead, 0);
      }
    }

    method GcWritePage(a: Ppa, ghost v: int, ghost x: set<Ppa>) returns (ok: bool)
      requires Wf() && State().Shape() && SpaceInv(State(), v, false) && MapInv(State(), x)
      requires g.Has(a) && a !in x && a in State().status && State().status[a] == PgValid
      modifies maptbl, rmap, `data, `status, `blocks, `wp, `free, `freeCnt, `full, `fullCnt, `victimCnt
      modifies victims`size, victims.d, victims.pri, victims.pos, avail, `ticks
      ensures ok <==> old(State()).GcWritePage(a).Some?
      ensures ok ==> Wf() && State() == old(State()).GcWritePage(a).value
      ensures ok ==> Times() == GcTime(g, old(Times()), [Op(LunNo(g, old(State()).NewPage()), NandWrite)], clock)
    {
      hide SpaceInv, Inverse, Geometry.Calculated, ByAddress, Ssd.Append, Ssd.Shape;
      AppendFacts(State(), v);
      OwnerKnown(State(), x, a);
      var lpn := GetRmapEnt(a);
      assert lpn.Some? && lpn.value < g.ttPgs;
      var newPpa;
      GcTimeOne(g, Times(), Op(LunNo(g, State().NewPage()), NandWrite), clock);
      newPpa, ok := Append(lpn.value, data[a], v);
      if ok && g.enableGcDelay {
        var _ := AdvanceStatus(newPpa, NandWrite, 0);
      }
    }

    /** None when there is no line, or none worth the effort. */
    method SelectVictimLine(force: bool) returns (victim: Option<nat>)
      requires Wf() && State().Shape() && State().q.Sound()
      modifies `victimCnt, victims`size, victims.d, victims.pos
      ensures Wf() && victim == old(State()).VictimLine(force) && Times() == old(Times())
      ensures State() == if victim.None? then old(State()) else old(State()).Detach()
    {
      hide Geometry.Calculated, ByAddress, Heap.Pop;
      victim := victims.Peek();
      if victim.None? {
        return;
      }
      if !force && ipc[victim.value] < g.pgsPerLine / 8 {
        return None;
      }
      var _ := victims.Pop();
      victims.pos[victim.value] := 0;
      victimCnt := victimCnt - 1;
    }

    method CleanOneBlock(k: BlockId, ghost s0: Ssd) returns (ok: bool)
      requires Wf() && State().Shape() && g.HasBlock(k) && s0.Shape() && s0.g == g && NoFreePage(s0, k.blk)
      requires State().g == g && g.Ok() && MidGc(s0, State(), k.blk, k.ch, k.lun, 0)
      modifies maptbl, rmap, `data, `status, `blocks, `wp, `free, `freeCnt, `full, `fullCnt, `victimCnt
      modifies victims`size, victims.d, victims.pri, victims.pos, avail, `ticks
      ensures ok <==> old(State()).CleanBlock(k, 0).Some?
      ensures ok ==> Wf() && State() == old(State()).CleanBlock(k, 0).value
      ensures ok ==> Times() == GcTime(g, old(Times()), BlockOps(old(State()), k, 0), clock)
    {
      hide MidGc, Wf, Ftl.State, Ssd.Shape, Ssd.GcWritePage, NoFreePage, GcTime, CopyOps;
      ghost var start, times, v := State(), Times(), k.blk;
      var cnt := 0;
      var pg := 0;
      while pg < g.pgsPerBlk
        invariant Wf() && State().Shape() && State().g == g && pg <= g.pgsPerBlk
        invariant MidGc(s0, State(), v, k.ch, k.lun, pg)
        invariant start.CleanBlock(k, 0) == State().CleanBlock(k, pg)
        invariant cnt == Copies(s0, v, k.ch, k.lun, pg) - Copies(s0, v, k.ch, k.lun, 0)
        invariant GcTime(g, times, BlockOps(start, k, 0), clock) == GcTime(g, Times(), BlockOps(State(), k, pg), clock)
      {
        ghost var s, l := State(), Times();
        var ppa := Ppa(k.ch, k.lun, 0, k.blk, pg);
        var more, copied := CleanOnePage(ppa, s0);
        if !more {
          return false;
        }
        if copied {
          cnt := cnt + 1;
          GcTimeAppend(g, l, CopyOps(s, ppa), BlockOps(State(), k, pg + 1), clock);
        }
        pg := pg + 1;
      }
      GcTimeNone(g, Times(), clock);
      BlockCopies(s0, State(), v, k.ch, k.lun);
      assert State().blocks[k].vpc == cnt;
      ok := true;
    }

    /** One turn of the loop of clean_one_block: a valid page is read and written elsewhere. */
    method CleanOnePage(a: Ppa, ghost s0: Ssd) returns (ok: bool, copied: bool)
      requires Wf() && State().Shape() && g.Has(a) && s0.Shape() && s0.g == g && NoFreePage(s0, a.blk)
      requires a.pl == 0 && MidGc(s0, State(), a.blk, a.ch, a.lun, a.pg)
      modifies maptbl, rmap, `data, `status, `blocks, `wp, `free, `freeCnt, `full, `fullCnt, `victimCnt
      modifies victims`size, victims.d, victims.pri, victims.pos, avail, `ticks
      ensures a in old(State()).status
      ensures copied <==> old(State()).status[a] == PgValid
      ensures ok <==> !copied || old(State()).GcWritePage(a).Some?
      ensures ok ==>
                && Wf() && State().Shape() && State().g == g
                && State() == (if copied then old(State()).GcWritePage(a).value else old(State()))
                && Times() == (if copied then GcTime(g, old(Times()), CopyOps(old(State()), a), clock)
                               else old(Times()))
                && MidGc(s0, State(), a.blk, a.ch, a.lun, a.pg + 1)
                && Copies(s0, a.blk, a.ch, a.lun, a.pg + 1) == Copies(s0, a.blk, a.ch, a.lun, a.pg) + Bit(copied)
    {
      hide MidGc, Ssd.Shape, Ssd.GcWritePage, SpaceInv, Inverse, Geometry.Calculated, ByAddress;
      ghost var s, v := State(), a.blk;
      MidGcStatus(s0, s, v, a.ch, a.lun, a.pg);
      VisitedNext(s0, v, a.ch, a.lun, a.pg);
      assert status[a] != PgFree;
      copied := status[a] == PgValid;
      ok := true;
      if copied {
        MidGcParts(s0, s, v, a.ch, a.lun, a.pg);
        CopyStep(s0, s, v, a.ch, a.lun, a.pg);
        GcTimeAppend(g, Times(), [CopyOps(s, a)[0]], [CopyOps(s, a)[1]], clock);
        assert [CopyOps(s, a)[0]] + [CopyOps(s, a)[1]] == CopyOps(s, a);
        GcReadPage(a);
        ok := GcWritePage(a, v, Visited(s0.g, v, a.ch, a.lun, a.pg));
      } else {
        SkipStep(s0, s, v, a.ch, a.lun, a.pg);
      }
    }

    /** The body of do_gc's loops: clean, erase, and account for the erase time. */
    method ReclaimBlock(k: BlockId, ghost s0: Ssd) returns (ok: bool)
      requires Wf() && State().Shape() && g.HasBlock(k) && s0.Shape() && s0.g == g && NoFreePage(s0, k.blk)
      requires State().g == g && g.Ok() && MidGc(s0, State(), k.blk, k.ch, k.lun, 0)
      modifies maptbl, rmap, `data, `status, `blocks, `wp, `free, `freeCnt, `full, `fullCnt, `victimCnt
      modifies victims`size, victims.d, victims.pri, victims.pos, avail, `ticks
      ensures ok <==> old(State()).CleanBlock(k, 0).Some?
      ensures ok ==>
                && Wf() && State().Shape() && State().g == g
                && State() == old(State()).CleanBlock(k, 0).value.MarkBlockFree(k)
                && Times() == GcTime(g, old(Times()), BlockOps(old(State()), k, 0) + [EraseOp(g, k)], clock)
                && MidGc(s0, State(), k.blk, k.ch, k.lun + 1, 0)
    {
      hide MidGc, Wf, Ftl.State, Ssd.Shape, NoFreePage, Ssd.CleanBlock, Ssd.MarkBlockFree;
      ghost var s, times := State(), Times();
      CleanBlockKeeps(s0, s, k.blk, k.ch, k.lun, 0);
      ok := CleanOneBlock(k, s0);
      if ok {
        EraseStep(s0, State(), k.blk, k.ch, k.lun);
        GcTimeAppend(g, times, BlockOps(s, k, 0), [EraseOp(g, k)], clock);
        GcTimeOne(g, Times(), EraseOp(g, k), clock);
        MarkBlockFree(k);
        if g.enableGcDelay {
          var _ := AdvanceStatus(Ppa(k.ch, k.lun, 0, k.blk, 0), NandErase, 0);
        }
      }
    }

    static lemma DetachStarts(s: Ssd)
      requires Inv(s) && s.Shape() && s.q.Sound() && |s.q.d| > 1
      ensures var v := s.q.d[1]; var s0 := s.Detach();
              v < s.g.blksPerPl && s0.Shape() && s0.g == s.g && NoFreePage(s0, v) && MidGc(s0, s0, v, 0, 0, 0)
    {
      DetachKeepsSpace(s);
      MidGcStart(s, s.Detach(), s.q.d[1]);
    }

    /** do_gc: -1 when nothing was worth cleaning, else 0; not ok when no line was left to copy to. */
    method DoGc(force: bool) returns (r: int, ok: bool)
      requires Wf() && State().Shape() && State().q.Sound() && Inv(State()) && State().g == g && g.Ok()
      modifies maptbl, rmap, `data, `status, `blocks, `wp, `free, `freeCnt, `full, `fullCnt, `victimCnt
      modifies ipc, victims`size, victims.d, victims.pri, victims.pos, avail, `ticks
      ensures ok <==> !old(State()).DoGc(force).Stopped?
      ensures ok ==> Wf() && (r == -1 || r == 0)
      ensures ok ==> (r == -1 <==> old(State()).DoGc(force).NoVictim?)
      ensures ok ==> State() == if r == -1 then old(State()) else old(State()).DoGc(force).ssd
      ensures ok ==> Times() == GcTime(g, old(Times()), PassOps(old(State()), force), clock)
      ensures ok && r == -1 ==> Times() == old(Times())
    {
      hide MidGc, Wf, Ftl.State, Inv, Ssd.Shape, NoFreePage, Ssd.MarkBlockFree, Ssd.MarkLineFree, Ssd.Detach;
      ghost var s := State();
      GcTimeNone(g, Times(), clock);
      var victim := SelectVictimLine(force);
      if victim.None? {
        return -1, true;
      }
      var v := victim.value;
      VictimIsRoot(s, force);
      DetachStarts(s);
      ok := CleanLine(v, State());
      if !ok {
        return 0, false;
      }
      MarkLineFree(v);
      r := 0;
    }

    static lemma VictimIsRoot(s: Ssd, force: bool)
      requires s.Shape() && s.VictimLine(force).Some?
      ensures |s.q.d| > 1 && s.VictimLine(force).value == s.q.d[1]
    {
    }

    /** The double loop of do_gc over the victim's blocks. */
    method CleanLine(v: nat, ghost s0: Ssd) returns (ok: bool)
      requires Wf() && s0.Shape() && s0 == State() && s0.g == g && g.Ok() && v < g.blksPerPl
      requires NoFreePage(s0, v) && MidGc(s0, s0, v, 0, 0, 0)
      modifies maptbl, rmap, `data, `status, `blocks, `wp, `free, `freeCnt, `full, `fullCnt, `victimCnt
      modifies victims`size, victims.d, victims.pri, victims.pos, avail, `ticks
      ensures ok <==> s0.CleanLine(0, 0, v).Some?
      ensures ok ==> Wf() && State().Shape() && State() == s0.CleanLine(0, 0, v).value
      ensures ok ==> Times() == GcTime(g, old(Times()), LineOps(s0, 0, 0, v), clock)
    {
      hide MidGc, Wf, Ftl.State, Ssd.Shape, NoFreePage, Ssd.CleanBlock, Ssd.MarkBlockFree, GcTime, BlockOps, EraseOp;
      ghost var times := Times();
      var ch := 0;
      while ch < g.nchs
        invariant Wf() && State().Shape() && State().g == g && ch <= g.nchs
        invariant MidGc(s0, State(), v, ch, 0, 0)
        invariant GcTime(g, times, LineOps(s0, 0, 0, v), clock) == GcTime(g, Times(), LineOps(State(), ch, 0, v), clock)
        invariant s0.CleanLine(0, 0, v) == State().CleanLine(ch, 0, v)
      {
        var lun := 0;
        while lun < g.lunsPerCh
          invariant Wf() && State().Shape() && State().g == g && lun <= g.lunsPerCh
          invariant MidGc(s0, State(), v, ch, lun, 0)
          invariant GcTime(g, times, LineOps(s0, 0, 0, v), clock)
                 == GcTime(g, Times(), LineOps(State(), ch, lun, v), clock)
          invariant s0.CleanLine(0, 0, v) == State().CleanLine(ch, lun, v)
        {
          ghost var s, l, k := State(), Times(), BlockId(ch, lun, v);
          var more := ReclaimBlock(BlockId(ch, lun, v), s0);
          if !more {
            return false;
          }
          GcTimeAppend(g, l, BlockOps(s, k, 0) + [EraseOp(g, k)], LineOps(State(), ch, lun + 1, v), clock);
          lun := lun + 1;
        }
        NextChannel(s0, State(), v, ch);
        ch := ch + 1;
      }
      GcTimeNone(g, Times(), clock);
      ok := true;
    }

    // ---------- commands ----------

    /** The loop at the head of ssd_write: collect until enough lines are free or nothing is left to
        collect. */
    method CollectForWrite() returns (ok: bool)
      requires Wf() && State().Shape() && State().q.Sound() && Inv(State()) && State().g == g && g.Ok()
      modifies maptbl, rmap, `data, `status, `blocks, `wp, `free, `freeCnt, `full, `fullCnt, `victimCnt
      modifies ipc, victims`size, victims.d, victims.pri, victims.pos, avail, `ticks
      ensures ok <==> ForcedGc(old(State())).Some?
      ensures ok ==> Wf() && State() == ForcedGc(old(State())).value
      ensures ok ==> Times() == GcTime(g, old(Times()), ForcedOps(old(State())), clock)
    {
      hide Wf, Ftl.State, Inv, Ssd.Shape, Ssd.DoGc, Geometry.Calculated, Passed, GcTime, PassOps;
      ghost var s0, times := State(), Times();
      var collecting := HighTest();
      while collecting
        invariant Wf() && State().Shape() && State().q.Sound() && Inv(State()) && State().g == g
        invariant ForcedGc(s0) == ForcedGc(State())
        invariant GcTime(g, times, ForcedOps(s0), clock) == GcTime(g, Times(), ForcedOps(State()), clock)
        invariant !collecting ==> ForcedOps(State()) == []
        invariant collecting ==> State().ShouldGcHigh()
        invariant !collecting ==> ForcedGc(State()) == Some(State())
        decreases collecting, InvalidPages(State())
      {
        ghost var s, l := State(), Times();
        DoGcOutcome(s, true);
        var r, going := DoGc(true);
        if !going {
          return false;
        }
        if r == -1 {
          collecting := false;
        } else {
          DoGcKeepsInv(s, true);
          DoGcConserves(s, true);
          SameLengths(State());
          collecting := HighTest();
          GcTimeAppend(g, l, PassOps(s, true), ForcedOps(State()), clock);
        }
      }
      GcTimeNone(g, Times(), clock);
      ok := true;
    }

    method HighTest() returns (b: bool)
      requires Wf()
      ensures b == State().ShouldGcHigh()
    {
      b := freeCnt <= g.gcThresLinesHigh;
    }

    /** ssd_write. Out of range it does nothing; otherwise it collects, then writes. */
    method SsdWrite(slba: U64, length: U16, stime: nat, ghost content: nat) returns (maxlat: nat, ok: bool)
      requires Wf() && State().Shape() && State().q.Sound() && Inv(State()) && State().g == g && g.Ok()
      requires |State().maptbl| == g.ttPgs
      modifies maptbl, rmap, `data, `status, `blocks, `wp, `free, `freeCnt, `full, `fullCnt, `victimCnt
      modifies ipc, victims`size, victims.d, victims.pri, victims.pos, avail, `ticks
      ensures ok <==> Runs.SsdWrite(old(State()), slba, length, content).Some?
      ensures ok ==> Wf() && State() == Runs.SsdWrite(old(State()), slba, length, content).value
      ensures ok && EndLpn(g, slba, length) >= g.ttPgs ==> maxlat == 0 && Times() == old(Times())
      ensures ok && EndLpn(g, slba, length) < g.ttPgs && stime != 0 ==>
                WriteTimed(old(State()), StartLpn(g, slba), EndLpn(g, slba, length), content,
                           GcTime(g, old(Times()), ForcedOps(old(State())), clock), stime, Times(), maxlat)
      ensures g.ttLuns >= 1
      ensures ok && stime != 0 && AllFree(old(avail[..]), stime) ==>
                (old(State()).freeCnt > g.gcThresLinesHigh || !g.enableGcDelay) ==>
                InRange(g, slba, length) ==>
                  maxlat == CeilDiv(|Touched(g, Write(slba, length, content))|, g.ttLuns) * g.pgWrLat
    {
      hide Wf, Ftl.State, Inv, Ssd.Shape, ForcedGc, ForcedOps, GcTime, Geometry.Calculated, StartLpn, EndLpn, Timed;
      hide WriteTimed, CeilDiv, Touched, InRange;
      ghost var s, times := State(), Times();
      SomeLuns();
      RangeOfSectors(g, slba, length);
      var startLpn := StartLpn(g, slba);
      var endLpn := EndLpn(g, slba, length);
      if endLpn >= g.ttPgs {
        return 0, true;
      }
      ForcedGcOutcome(State());
      ok := CollectForWrite();
      if !ok {
        return 0, false;
      }
      SameLengths(State());
      ok, maxlat := WriteUserPages(startLpn, endLpn, stime, content);
      if ok && stime != 0 {
        ghost var busy := GcTime(g, times, ForcedOps(s), clock);
        IsWriteTimed(s, startLpn, endLpn, content, busy, stime, Times(), maxlat);
        if (s.freeCnt > g.gcThresLinesHigh || !g.enableGcDelay) && AllFree(times.avail, stime) {
          NoCollection(s, times, clock);
          TouchedSize(g, slba, length, content);
          IdleLatency(s, startLpn, endLpn, content, busy, stime, Times(), maxlat, g.ttLuns);
        }
      }
    }

    /** Every LUN is free at time t. */
    static ghost predicate AllFree(avail: seq<nat>, t: nat) {
      forall l :: 0 <= l < |avail| ==> avail[l] <= t
    }

    lemma SomeLuns()
      requires Wf()
      ensures g.ttLuns >= 1 && g.ttLuns == g.lunsPerCh * g.nchs == avail.Length
    {
      PositiveProduct(g.lunsPerCh, g.nchs);
    }

    static lemma IsWriteTimed(
      s: Ssd, lpn: nat, end: nat, content: nat, busy: Luns, t: nat, after: Luns, m: nat)
      requires Inv(s) && ForcedGc(s).Some? && ForcedGc(s).value.Shape() && end < |ForcedGc(s).value.maptbl|
      requires ForcedGc(s).value.WritePages(lpn, end, content).Some? && after.ticks == busy.ticks
      requires Timed(busy.avail, LunsWritten(ForcedGc(s).value, lpn, end, content), t, s.g.pgWrLat, after.avail, m)
      ensures WriteTimed(s, lpn, end, content, busy, t, after, m)
    {
    }

    /** The switch of __nvmev_proc_io. */
    method Execute(cmd: Cmd, stime: nat) returns (lat: nat, ok: bool)
      requires Wf() && State().Shape() && State().q.Sound() && Inv(State()) && State().g == g && g.Ok()
      requires |State().maptbl| == g.ttPgs
      modifies maptbl, rmap, `data, `status, `blocks, `wp, `free, `freeCnt, `full, `fullCnt, `victimCnt
      modifies ipc, victims`size, victims.d, victims.pri, victims.pos, avail, `ticks
      ensures ok <==> Executed(old(State()), cmd).Some?
      ensures ok ==> Wf() && State() == Executed(old(State()), cmd).value
      ensures ok && stime != 0 ==> Quoted(old(State()), cmd, stime, old(Times()), Times(), lat, clock)
    {
      hide Wf, Ftl.State, Inv, Ssd.Shape, Runs.SsdWrite, Geometry.Calculated, Timed, WriteTimed, GcTime, ForcedOps,
           StartLpn, EndLpn;
      lat, ok := 0, true;
      match cmd
      case Write(slba, length, content) =>
        SsdWriteOutcome(State(), slba, length, content);
        lat, ok := SsdWrite(slba, length, stime, content);
      case Read(slba, length) =>
        lat := SsdRead(slba, length, stime);
      case Other =>
    }

    /** __check_gc_and_run for a write command. */
    method CheckGcAndRun() returns (ok: bool)
      requires Wf() && State().Shape() && State().q.Sound() && Inv(State()) && State().g == g && g.Ok()
      modifies maptbl, rmap, `data, `status, `blocks, `wp, `free, `freeCnt, `full, `fullCnt, `victimCnt
      modifies ipc, victims`size, victims.d, victims.pri, victims.pos, avail, `ticks
      ensures ok <==> BackgroundGc(old(State())).Some?
      ensures ok ==> Wf() && State() == BackgroundGc(old(State())).value
      ensures ok ==> Times() == GcTime(g, old(Times()), BackgroundOps(old(State())), clock)
      ensures ok && old(State()).freeCnt <= g.gcThresLines && (exists b: nat :: WorthIt(old(State()), b)) ==>
                && |old(State()).q.d| > 1 && old(State()).q.d[1] < |old(State()).ipc|
                && FreePages(State()) == FreePages(old(State())) + old(State()).ipc[old(State()).q.d[1]]
      ensures ok && !(old(State()).freeCnt <= g.gcThresLines && exists b: nat :: WorthIt(old(State()), b)) ==>
                State() == old(State()) && Times() == old(Times())
    {
      hide Wf, Inv, Ssd.Shape, Ssd.DoGc, PassOps, WorthIt, FreePages;
      BackgroundExactly(State());
      GcTimeNone(g, Times(), clock);
      ok := true;
      if freeCnt <= g.gcThresLines {
        var _, going := DoGc(false);
        ok := going;
      }
    }

    /** The opcode test in front of it: the command was `cmd`, in state s0. */
    method CheckGcAfter(cmd: Cmd, ghost s0: Ssd) returns (ok: bool)
      requires Wf() && g.Ok() && Inv(s0) && s0.g == g && Executed(s0, cmd) == Some(State())
      modifies maptbl, rmap, `data, `status, `blocks, `wp, `free, `freeCnt, `full, `fullCnt, `victimCnt
      modifies ipc, victims`size, victims.d, victims.pri, victims.pos, avail, `ticks
      ensures ok <==> Step(s0, cmd).Some?
      ensures ok ==> Wf() && State() == Step(s0, cmd).value && Inv(State()) && State().g == g
      ensures Inv(Executed(s0, cmd).value)
      ensures ok ==>
                Times() == if cmd.Write? then GcTime(g, old(Times()), BackgroundOps(Executed(s0, cmd).value), clock)
                           else old(Times())
    {
      hide Wf, Ftl.State, Inv, Ssd.Shape, BackgroundGc, BackgroundOps, WorthIt, FreePages, GcTime, Runs.SsdWrite;
      StepKeepsInv(s0, cmd);
      ok := true;
      if cmd.Write? {
        SsdWriteOutcome(s0, cmd.slba, cmd.length, cmd.content);
        SameLengths(State());
        ok := CheckGcAndRun();
      }
    }

    static lemma StepKeepsInv(s: Ssd, cmd: Cmd)
      requires Inv(s)
      ensures if Executed(s, cmd).Some? then Inv(Executed(s, cmd).value) else Step(s, cmd).None?
      ensures Step(s, cmd).Some? ==> Inv(Step(s, cmd).value) && Step(s, cmd).value.g == s.g
    {
      hide Inv;
      StepRefines(s, cmd);
      if cmd.Write? {
        SsdWriteOutcome(s, cmd.slba, cmd.length, cmd.content);
      }
    }
  }
}
