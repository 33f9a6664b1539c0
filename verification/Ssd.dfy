/** The state of the flash translation layer (struct ssd) as a value, and what each function of
    ftl.c does to it. `None` as a result means the machine stopped: the write pointer needed a
    line and none was free, or garbage collection met a page that belongs to no logical page. */
module Ssds {
  import opened Common
  import opened PriorityHeap
  import opened Geometries

  datatype PageStatus = PgFree | PgInvalid | PgValid

  datatype Block = Block(vpc: int, ipc: int, eraseCnt: int)

  datatype WritePointer = WritePointer(curline: nat, ch: nat, lun: nat, pl: nat, blk: nat, pg: nat)

  /** Nothing selected, a line cleaned, or the machine stopped. */
  datatype GcResult = NoVictim | Cleaned(ssd: Ssd) | Stopped

  datatype Ssd = Ssd(
    g: Geometry,
    maptbl: seq<Option<Ppa>>,         // UNMAPPED_PPA is None
    rmap: map<Ppa, Option<nat>>,      // INVALID_LPN is None
    status: map<Ppa, PageStatus>,
    blocks: map<BlockId, Block>,
    ipc: seq<int>,                    // line->ipc
    q: Heap,                          // victim lines; q.pri is line->vpc and q.pos is line->pos
    free: seq<nat>, full: seq<nat>,
    freeCnt: int, victimCnt: int, fullCnt: int,
    wp: WritePointer,
    data: map<Ppa, nat>)              // history: what a flash page would hold
  {
    function Ppl(): (n: nat) { g.pgsPerLine }

    /** Every table covers its index range and every address in a table is in range. */
    ghost predicate Shape() {
      && g.Ok()
      && |maptbl| == g.ttPgs
      && (forall lpn :: 0 <= lpn < |maptbl| && maptbl[lpn].Some? ==> g.Has(maptbl[lpn].value))
      && status.Keys == Pages(g)
      && rmap.Keys == Pages(g)
      && data.Keys == Pages(g)
      && (forall k: BlockId :: k in blocks <==> g.HasBlock(k))
      && |ipc| == g.blksPerPl == |q.pos|
      && q.Bounded()
      && g.Has(NewPage())
      && wp.curline < g.blksPerPl
      && (forall b :: b in free ==> b < g.blksPerPl)
      && (forall b :: b in full ==> b < g.blksPerPl)
    }

    /** get_new_page: the page under the write pointer. */
    function NewPage(): (a: Ppa) {
      Ppa(wp.ch, wp.lun, wp.pl, wp.blk, wp.pg)
    }

    // ---------- page status changes ----------

    function FullToVictim(b: nat): (s: Ssd)
      requires Shape() && b < g.blksPerPl
      ensures s.Shape() && s.g == g && s.maptbl == maptbl && s.rmap == rmap && s.data == data && s.wp == wp
    {
      this.(full := Without(full, b), fullCnt := fullCnt - 1, q := q.Insert(b), victimCnt := victimCnt + 1)
    }

    function MarkPageInvalid(a: Ppa): (s: Ssd)
      requires Shape() && g.Has(a)
      ensures s.Shape() && s.g == g && s.maptbl == maptbl && s.rmap == rmap && s.data == data && s.wp == wp
      ensures s.status == status[a := PgInvalid]
    {
      var s := InvalidCounted(a);
      if q.pri[a.blk] == Ppl() then s.FullToVictim(a.blk) else s
    }

    /** mark_page_invalid up to the move between lists. */
    function InvalidCounted(a: Ppa): (s: Ssd)
      requires Shape() && g.Has(a)
      ensures s.Shape() && s.g == g && s.maptbl == maptbl && s.rmap == rmap && s.data == data && s.wp == wp
    {
      var k := BlockId(a.ch, a.lun, a.blk);
      this.(status := status[a := PgInvalid],
            blocks := blocks[k := blocks[k].(ipc := blocks[k].ipc + 1, vpc := blocks[k].vpc - 1)],
            ipc := ipc[a.blk := ipc[a.blk] + 1],
            q := Lowered(q, a.blk))
    }

    function MarkPageValid(a: Ppa): (s: Ssd)
      requires Shape() && g.Has(a)
      ensures s.Shape() && s.g == g && s.maptbl == maptbl && s.rmap == rmap && s.data == data && s.wp == wp
    {
      var k := BlockId(a.ch, a.lun, a.blk);
      this.(status := status[a := PgValid],
            blocks := blocks[k := blocks[k].(vpc := blocks[k].vpc + 1)],
            q := Heap(q.d, q.pri[a.blk := q.pri[a.blk] + 1], q.pos))
    }

    /** mark_block_free: the reverse table keeps its stale entries. */
    function MarkBlockFree(k: BlockId): (s: Ssd)
      requires Shape() && g.HasBlock(k)
      ensures s.Shape() && s.g == g && s.maptbl == maptbl && s.rmap == rmap && s.data == data && s.wp == wp
    {
      this.(status := map a | a in status :: if a in BlockPages(g, k) then PgFree else status[a],
            blocks := blocks[k := Block(0, 0, blocks[k].eraseCnt + 1)])
    }

    function MarkLineFree(b: nat): (s: Ssd)
      requires Shape() && b < g.blksPerPl
      ensures s.Shape() && s.g == g
    {
      this.(ipc := ipc[b := 0], q := Heap(q.d, q.pri[b := 0], q.pos), free := free + [b], freeCnt := freeCnt + 1)
    }

    // ---------- the write pointer ----------

    /** The current line is used up: it goes to the full list or to the victim heap. */
    function CloseLine(): (s: Ssd)
      requires Shape()
      ensures s.Shape() && s.g == g && s.SamePages(this)
    {
      if q.pri[wp.curline] == Ppl() then
        this.(full := full + [wp.curline], fullCnt := fullCnt + 1)
      else
        this.(q := q.Insert(wp.curline), victimCnt := victimCnt + 1)
    }

    /** get_next_free_line and the reset of the write pointer. */
    function OpenLine(): (s: Option<Ssd>)
      requires Shape()
      ensures s.Some? ==> s.value.Shape() && s.value.g == g
      ensures s.Some? ==> s.value.SamePages(this)
      ensures s.None? <==> free == []
    {
      if free == [] then None
      else
        assert forall b :: b in free[1..] ==> b in free;
        assert free[0] in free;
        Some(this.(free := free[1..], freeCnt := freeCnt - 1,
                      wp := WritePointer(free[0], 0, 0, wp.pl, free[0], 0)))
    }

    /** The tables indexed by pages are those of s. */
    predicate SamePages(s: Ssd) {
      maptbl == s.maptbl && rmap == s.rmap && status == s.status && blocks == s.blocks && data == s.data
    }

    predicate AtLineEnd() {
      wp.ch + 1 == g.nchs && wp.lun + 1 == g.lunsPerCh && wp.pg + 1 == g.pgsPerBlk
    }

    function AdvanceWritePointer(): (s: Option<Ssd>)
      requires Shape()
      ensures s.Some? ==> s.value.Shape() && s.value.g == g
      ensures s.Some? ==> s.value.SamePages(this)
      ensures s.None? <==> AtLineEnd() && free == []
    {
      if wp.ch + 1 != g.nchs then Some(this.(wp := wp.(ch := wp.ch + 1)))
      else if wp.lun + 1 != g.lunsPerCh then Some(this.(wp := wp.(ch := 0, lun := wp.lun + 1)))
      else if wp.pg + 1 != g.pgsPerBlk then Some(this.(wp := wp.(ch := 0, lun := 0, pg := wp.pg + 1)))
      else CloseLine().OpenLine()
    }

    // ---------- writing one page ----------

    /** set_maptbl_ent, set_rmap_ent, and the page program itself. */
    function Bind(lpn: nat, a: Ppa, content: nat): (s: Ssd)
      requires Shape() && lpn < |maptbl| && g.Has(a)
      ensures s.Shape() && s.g == g
    {
      this.(maptbl := maptbl[lpn := Some(a)], rmap := rmap[a := Some(lpn)], data := data[a := content])
    }

    /** Bind the page under the write pointer, mark it valid and move on. */
    function Append(lpn: nat, content: nat): (s: Option<Ssd>)
      requires Shape() && lpn < |maptbl|
      ensures s.Some? ==> s.value.Shape() && s.value.g == g
      ensures s.Some? ==> s.value.SamePages(Bind(lpn, NewPage(), content).MarkPageValid(NewPage()))
    {
      Bind(lpn, NewPage(), content).MarkPageValid(NewPage()).AdvanceWritePointer()
    }

    /** The first half of a user overwrite. */
    function Supersede(lpn: nat): (s: Ssd)
      requires Shape() && lpn < |maptbl|
      ensures s.Shape() && s.g == g && s.maptbl == maptbl && s.data == data && s.wp == wp
      ensures s.rmap == match maptbl[lpn] case None => rmap case Some(a) => rmap[a := None]
      ensures s.status == match maptbl[lpn] case None => status case Some(a) => status[a := PgInvalid]
    {
      if maptbl[lpn].None? then this
      else
        var a := maptbl[lpn].value;
        var s := MarkPageInvalid(a);
        s.(rmap := s.rmap[a := None])
    }

    function WritePage(lpn: nat, content: nat): (s: Option<Ssd>)
      requires Shape() && lpn < |maptbl|
      ensures s.Some? ==> s.value.Shape() && s.value.g == g
    {
      Supersede(lpn).Append(lpn, content)
    }

    function WritePages(lpn: nat, end: nat, content: nat): (s: Option<Ssd>)
      requires Shape() && end < |maptbl|
      ensures s.Some? ==> s.value.Shape() && s.value.g == g
      decreases end + 1 - lpn
    {
      if lpn > end then Some(this)
      else
        match WritePage(lpn, content)
        case None => None
        case Some(s) => s.WritePages(lpn + 1, end, content)
    }

    // ---------- garbage collection ----------

    /** A copy to a valid page's new home; rmap tells whose page it is. */
    function GcWritePage(a: Ppa): (s: Option<Ssd>)
      requires Shape() && g.Has(a)
      ensures s.Some? ==> s.value.Shape() && s.value.g == g
    {
      match rmap[a]
      case None => None
      case Some(lpn) => if lpn < |maptbl| then Append(lpn, data[a]) else None
    }

    /** clean_one_block from page pg on. */
    function CleanBlock(k: BlockId, pg: nat): (s: Option<Ssd>)
      requires Shape() && g.HasBlock(k) && pg <= g.pgsPerBlk
      ensures s.Some? ==> s.value.Shape() && s.value.g == g
      decreases g.pgsPerBlk - pg
    {
      if pg == g.pgsPerBlk then Some(this)
      else
        var a := Ppa(k.ch, k.lun, 0, k.blk, pg);
        if status[a] != PgValid then CleanBlock(k, pg + 1)
        else
          match GcWritePage(a)
          case None => None
          case Some(s) => s.CleanBlock(k, pg + 1)
    }

    /** The double loop of do_gc from channel ch, LUN lun on. */
    function CleanLine(ch: nat, lun: nat, b: nat): (s: Option<Ssd>)
      requires Shape() && b < g.blksPerPl && ch <= g.nchs && lun <= g.lunsPerCh
      ensures s.Some? ==> s.value.Shape() && s.value.g == g
      decreases g.nchs - ch, g.lunsPerCh - lun
    {
      if ch == g.nchs then Some(this)
      else if lun == g.lunsPerCh then CleanLine(ch + 1, 0, b)
      else
        var k := BlockId(ch, lun, b);
        match CleanBlock(k, 0)
        case None => None
        case Some(s) => s.MarkBlockFree(k).CleanLine(ch, lun + 1, b)
    }

    /** select_victim_line looks at the root only. */
    function VictimLine(force: bool): (v: Option<nat>)
      requires Shape()
      ensures v.Some? ==> v.value < g.blksPerPl && |q.d| > 1 && v.value == q.d[1]
    {
      match q.Peek()
      case None => None
      case Some(b) => if !force && ipc[b] < Ppl() / 8 then None else Some(b)
    }

    /** Take the root off the heap: from here to MarkLineFree it is in no list. */
    function Detach(): (s: Ssd)
      requires Shape() && q.Sound() && |q.d| > 1
      ensures s.Shape() && s.g == g
    {
      SoundPop(q);
      this.(q := q.Pop().Cleared(q.d[1]), victimCnt := victimCnt - 1)
    }

    function DoGc(force: bool): (r: GcResult)
      requires Shape() && q.Sound()
      ensures r.Cleaned? ==> r.ssd.Shape() && r.ssd.g == g
    {
      match VictimLine(force)
      case None => NoVictim
      case Some(v) =>
        match Detach().CleanLine(0, 0, v)
        case None => Stopped
        case Some(s) => Cleaned(s.MarkLineFree(v))
    }

    predicate ShouldGc() { freeCnt <= g.gcThresLines }

    predicate ShouldGcHigh() { freeCnt <= g.gcThresLinesHigh }

    // ---------- the logical view ----------

    /** What a host reading logical page lpn would get. */
    function ReadBack(lpn: nat): (r: Option<nat>)
      requires Shape() && lpn < |maptbl|
    {
      match maptbl[lpn]
      case None => None
      case Some(a) => Some(data[a])
    }

    /** The device as the host sees it: a plain array of pages. */
    function View(): (v: seq<Option<nat>>)
      requires Shape()
      ensures |v| == |maptbl|
      ensures forall lpn: nat :: lpn < |v| ==> v[lpn] == ReadBack(lpn)
    {
      seq(|maptbl|, lpn requires 0 <= lpn < |maptbl| => ReadBack(lpn))
    }
  }

  /** line->vpc goes down by one: a queued line may only change it through the heap. */
  function Lowered(q: Heap, b: nat): (h: Heap)
    requires q.Bounded() && b < |q.pos|
    ensures h.Bounded() && |h.pos| == |q.pos|
  {
    if q.pos[b] != 0 then q.ChangePriority(b, q.pri[b] - 1)
    else Heap(q.d, q.pri[b := q.pri[b] - 1], q.pos)
  }

  /** QTAILQ_REMOVE. */
  function Without(s: seq<nat>, x: nat): (r: seq<nat>)
    ensures forall y :: y in r <==> y in s && y != x
  {
    if s == [] then []
    else if s[0] == x then Without(s[1..], x)
    else [s[0]] + Without(s[1..], x)
  }
}
