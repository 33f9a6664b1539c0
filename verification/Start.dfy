/** ssd_init, and the whole-run theorems from the initial state. */
module Start {
  import opened Common
  import opened PriorityHeap
  import opened Geometries
  import opened Ssds
  import opened Space
  import opened Mapping
  import opened Totals
  import opened Runs

  /** The calculated values of ssd_init_params for given dimensions. */
  function InitParams(
    secsPerPg: nat, pgsPerBlk: nat, blksPerPl: nat, lunsPerCh: nat, nchs: nat,
    rd: nat, wr: nat, er: nat, low: nat, high: nat, delay: bool): (g: Geometry)
    ensures g.Calculated()
    ensures g.secsPerPg == secsPerPg && g.pgsPerBlk == pgsPerBlk && g.blksPerPl == blksPerPl && g.plsPerLun == 1
    ensures g.lunsPerCh == lunsPerCh && g.nchs == nchs
    ensures g.pgRdLat == rd && g.pgWrLat == wr && g.blkErLat == er
    ensures g.gcThresLines == low && g.gcThresLinesHigh == high && g.enableGcDelay == delay
    ensures secsPerPg >= 1 && pgsPerBlk >= 1 && blksPerPl >= 1 && lunsPerCh >= 1 && nchs >= 1 ==> g.Ok()
  {
    var pl := pgsPerBlk * blksPerPl;
    Geometry(secsPerPg, pgsPerBlk, blksPerPl, 1, lunsPerCh, nchs, rd, wr, er,
             pl, pl * 1, pl * 1 * lunsPerCh, pl * 1 * lunsPerCh * nchs,
             lunsPerCh * nchs, lunsPerCh * nchs * pgsPerBlk, blksPerPl, low, high, delay)
  }

  const GIB: nat := 0x4000_0000

  /** The geometry ssd_init chooses for that many bytes of memory: a channel for every two GiB. */
  function DefaultParams(bytes: nat, rd: nat, wr: nat, er: nat, low: nat, high: nat): (g: Geometry)
    ensures g.pgRdLat == rd && g.pgWrLat == wr && g.blkErLat == er
    ensures g.gcThresLines == low && g.gcThresLinesHigh == high && g.enableGcDelay
  {
    InitParams(8, 256, 256, 8, bytes / GIB / 2, rd, wr, er, low, high, true)
  }

  function FlashBytes(g: Geometry): (n: nat) { g.ttPgs * (g.secsPerPg * 512) }

  /** What ssd_init returns, with pba_pcent at 100 and the product in 64 bits. */
  function LogicalSpace(bytes: nat): (n: nat) { bytes * 100 % 0x1_0000_0000_0000_0000 / 100 }

  /** What the module then reports, in whole memory pages. */
  function ReportedSpace(bytes: nat): (n: nat) { LogicalSpace(bytes) - LogicalSpace(bytes) % 4096 }

  /** All of the flash is reported as logical space, and less than another channel on top: every flash
      page is one the host may write, and up to two GiB that it may address do not exist. */
  lemma ReportedSpaceCoversFlash(bytes: nat, rd: nat, wr: nat, er: nat, low: nat, high: nat)
    requires bytes * 100 < 0x1_0000_0000_0000_0000
    ensures var g := DefaultParams(bytes, rd, wr, er, low, high);
            && (bytes >= 2 * GIB ==> g.Ok())
            && LogicalSpace(bytes) == bytes
            && FlashBytes(g) <= ReportedSpace(bytes) < FlashBytes(g) + 2 * GIB
            && (FlashBytes(g) == LogicalSpace(bytes) <==> bytes % (2 * GIB) == 0)
  {
    var g := DefaultParams(bytes, rd, wr, er, low, high);
    assert FlashBytes(g) == g.nchs * (2 * GIB);
    assert g.nchs == bytes / (2 * GIB);
  }

  /** The state after ssd_init_lines and ssd_init_write_pointer: line 0 is current, the others wait
      in the free list in order. */
  function Init(g: Geometry): (s: Ssd)
    requires g.Ok()
  {
    Ssd(g,
        seq(g.ttPgs, i => None),
        map a | a in Pages(g) :: None,
        map a | a in Pages(g) :: PgFree,
        map ch, lun, blk | 0 <= ch < g.nchs && 0 <= lun < g.lunsPerCh && 0 <= blk < g.blksPerPl
            :: BlockId(ch, lun, blk) := Block(0, 0, 0),
        seq(g.blksPerPl, i => 0),
        Heap([0], seq(g.blksPerPl, i => 0), seq(g.blksPerPl, i => 0)),
        seq(g.ttLines - 1, i requires 0 <= i => i + 1), [],
        g.ttLines - 1, 0, 0,
        WritePointer(0, 0, 0, 0, 0, 0),
        map a | a in Pages(g) :: 0)
  }

  /** A device nothing has been written to. */
  function BlankView(g: Geometry): (v: seq<Option<nat>>)
    ensures |v| == g.ttPgs && forall i :: 0 <= i < |v| ==> v[i] == None
  {
    seq(g.ttPgs, i => None)
  }

  lemma PositiveProduct(a: nat, b: nat)
    requires a >= 1 && b >= 1
    ensures a * b >= 1
  {
  }

  lemma SizedFromParams(g: Geometry)
    requires g.Ok() && g.Calculated()
    ensures Sized(g)
  {
    TotalSize(g);
    PositiveProduct(g.lunsPerCh, g.nchs);
    PositiveProduct(g.ttLuns, g.pgsPerBlk);
    forall b: nat | b < g.blksPerPl
      ensures |LinePages(g, b)| == g.pgsPerLine
    {
      LineSize(g, b);
    }
    forall k: BlockId | g.HasBlock(k)
      ensures |BlockPages(g, k)| == g.pgsPerBlk
    {
      BlockSize(g, k);
    }
  }

  lemma InitShape(g: Geometry)
    requires g.Ok()
    ensures Init(g).Shape() && Init(g).q.Sound()
  {
  }

  lemma InitLine(g: Geometry, b: nat)
    requires g.Ok() && b < g.blksPerPl && Init(g).Shape()
    ensures LineOk(Init(g), b, false)
  {
    var s := Init(g);
    CountNone(s.status, LinePages(g, b), PgValid);
    CountNone(s.status, LinePages(g, b), PgInvalid);
    if b > 0 {
      assert s.free[b - 1] == b;
    }
  }

  lemma InitBlock(g: Geometry, k: BlockId)
    requires g.Ok() && g.HasBlock(k) && Init(g).Shape()
    ensures BlockCounted(Init(g), k)
  {
    var s := Init(g);
    CountNone(s.status, BlockPages(g, k), PgValid);
    CountNone(s.status, BlockPages(g, k), PgInvalid);
  }

  lemma InitInv(g: Geometry)
    requires g.Ok() && g.Calculated()
    ensures Inv(Init(g)) && Init(g).g == g
    ensures Init(g).freeCnt == g.ttLines - 1 && Mapped(Init(g)) == {}
    ensures Init(g).View() == BlankView(g)
  {
    var s := Init(g);
    InitShape(g);
    SizedFromParams(g);
    forall b: nat | b < g.blksPerPl
      ensures LineOk(s, b, false)
    {
      InitLine(g, b);
    }
    forall k: BlockId | g.HasBlock(k)
      ensures BlockCounted(s, k)
    {
      InitBlock(g, k);
    }
  }

  lemma {:induction false} EachIsTouched(g: Geometry, cmds: seq<Cmd>, i: nat)
    requires g.Positive() && i < |cmds|
    ensures Touched(g, cmds[i]) <= TouchedBy(g, cmds)
    decreases |cmds|
  {
    hide Touched;
    if i > 0 {
      EachIsTouched(g, cmds[1..], i - 1);
    }
  }

  ghost predicate ShortWrites(g: Geometry, cmds: seq<Cmd>, c: nat)
    requires g.Positive()
  {
    forall i :: 0 <= i < |cmds| && cmds[i].Write? ==>
      PageCount(StartLpn(g, cmds[i].slba), EndLpn(g, cmds[i].slba, cmds[i].length)) <= c * g.pgsPerLine
  }

  lemma AllModest(g: Geometry, cmds: seq<Cmd>, c: nat)
    requires g.Positive() && ShortWrites(g, cmds, c)
    ensures forall i :: 0 <= i < |cmds| ==> Modest(g, c, TouchedBy(g, cmds), cmds[i])
  {
    hide Touched, StartLpn, EndLpn;
    forall i | 0 <= i < |cmds|
      ensures Modest(g, c, TouchedBy(g, cmds), cmds[i])
    {
      EachIsTouched(g, cmds, i);
    }
  }

  lemma FreshIsSafePageStore(s: Ssd, cmds: seq<Cmd>, c: nat)
    requires Inv(s) && s.freeCnt >= 1 && Mapped(s) == {}
    requires Provisioned(s.g, c, TouchedBy(s.g, cmds)) && ShortWrites(s.g, cmds, c)
    ensures Run(s, cmds).Some?
    ensures var t := Run(s, cmds).value;
            && Inv(t) && t.freeCnt >= 1
            && t.View() == HostRun(s.g, s.View(), cmds)
            && Mapped(t) == TouchedBy(s.g, cmds)
  {
    hide Inv, Ssd.Shape, Touched, Provisioned, ShortWrites, Modest;
    SameLengths(s);
    AllModest(s.g, cmds, c);
    RunIsSafe(s, cmds, c, TouchedBy(s.g, cmds));
    RunRefinesPageStore(s, cmds);
    assert {} + TouchedBy(s.g, cmds) == TouchedBy(s.g, cmds);
  }

  /** From ssd_init on: when no write is longer than c lines, c is at most the high threshold, and
      the pages written leave c + 2 lines over, no run ever lacks a free line, every state between
      commands has one, and the device holds what a plain array of pages would. */
  lemma DeviceIsSafePageStore(g: Geometry, cmds: seq<Cmd>, c: nat)
    requires g.Ok() && g.Calculated()
    requires Provisioned(g, c, TouchedBy(g, cmds)) && ShortWrites(g, cmds, c)
    ensures Inv(Init(g)) && Run(Init(g), cmds).Some?
    ensures var t := Run(Init(g), cmds).value;
            && Inv(t) && t.freeCnt >= 1
            && t.View() == HostRun(g, BlankView(g), cmds)
            && Mapped(t) == TouchedBy(g, cmds)
  {
    hide Inv, Init, Ssd.Shape, TouchedBy, Provisioned, ShortWrites, Run, Geometry.Calculated;
    InitInv(g);
    AtLeastTwoLines(g, c, TouchedBy(g, cmds));
    FreshIsSafePageStore(Init(g), cmds, c);
  }

  /** After any completed run from ssd_init on a page shows the content of the last write that changes
      it, and nothing when there is none (k = -1). */
  lemma DeviceShowsLastWrite(g: Geometry, cmds: seq<Cmd>, i: nat, k: int)
    requires g.Ok() && g.Calculated() && i < g.ttPgs
    requires -1 <= k < |cmds| && (k >= 0 ==> Reaches(g, cmds[k], i))
    requires forall j :: k < j < |cmds| ==> !Reaches(g, cmds[j], i)
    ensures Inv(Init(g))
    ensures Run(Init(g), cmds).Some? ==>
              var t := Run(Init(g), cmds).value;
              && Inv(t) && i < |t.View()|
              && t.View()[i] == if k < 0 then None else Some(cmds[k].content)
  {
    hide Inv, Init, Ssd.Shape, Run, Reaches, Geometry.Calculated;
    InitInv(g);
    if Run(Init(g), cmds).Some? {
      LastWriteWins(Init(g), cmds, i, k);
    }
  }

  lemma AtLeastTwoLines(g: Geometry, c: nat, w: set<nat>)
    requires Provisioned(g, c, w)
    ensures g.ttLines >= 2
  {
  }

  /** The commands up to any point of a run form a run of their own, so the theorem speaks of every
      state in between. */
  lemma {:induction false} RunPrefix(s: Ssd, cmds: seq<Cmd>, more: seq<Cmd>)
    requires Inv(s)
    ensures Run(s, cmds + more).Some? ==>
              && Run(s, cmds).Some? && Inv(Run(s, cmds).value) && Run(s, cmds).value.g == s.g
              && Run(Run(s, cmds).value, more) == Run(s, cmds + more)
    decreases |cmds|
  {
    hide Inv, Step;
    if cmds == [] {
      assert cmds + more == more;
    } else {
      assert (cmds + more)[1..] == cmds[1..] + more;
      StepRefines(s, cmds[0]);
      if Step(s, cmds[0]).Some? {
        RunPrefix(Step(s, cmds[0]).value, cmds[1..], more);
      }
    }
  }
}
