/** The geometry of the emulated flash (struct ssdparams) and its page addresses (struct ppa). */
module Geometries {
  import opened Common
  import opened Arith

  datatype Ppa = Ppa(ch: nat, lun: nat, pl: nat, blk: nat, pg: nat)

  datatype BlockId = BlockId(ch: nat, lun: nat, blk: nat)

  datatype Geometry = Geometry(
    secsPerPg: nat, pgsPerBlk: nat, blksPerPl: nat, plsPerLun: nat, lunsPerCh: nat, nchs: nat,
    pgRdLat: nat, pgWrLat: nat, blkErLat: nat,
    pgsPerPl: nat, pgsPerLun: nat, pgsPerCh: nat, ttPgs: nat,
    ttLuns: nat, pgsPerLine: nat, ttLines: nat,
    gcThresLines: nat, gcThresLinesHigh: nat, enableGcDelay: bool)
  {
    /** Every dimension is at least one. */
    predicate Positive() {
      secsPerPg >= 1 && pgsPerBlk >= 1 && blksPerPl >= 1 && plsPerLun >= 1 && lunsPerCh >= 1 && nchs >= 1
    }

    /** What the translation layer assumes on top: one plane per LUN, so that a line has one
        block on each LUN and a block number is a line number. */
    predicate Ok() {
      Positive() && plsPerLun == 1 && ttLines == blksPerPl
    }

    /** The calculated values are those of ssd_init_params. */
    predicate Calculated() {
      && pgsPerPl == pgsPerBlk * blksPerPl
      && pgsPerLun == pgsPerPl * plsPerLun
      && pgsPerCh == pgsPerLun * lunsPerCh
      && ttPgs == pgsPerCh * nchs
      && ttLuns == lunsPerCh * nchs
      && pgsPerLine == ttLuns * pgsPerBlk
    }

    predicate Has(a: Ppa) {
      a.ch < nchs && a.lun < lunsPerCh && a.pl < plsPerLun && a.blk < blksPerPl && a.pg < pgsPerBlk
    }

    predicate HasBlock(k: BlockId) {
      k.ch < nchs && k.lun < lunsPerCh && k.blk < blksPerPl
    }

    /** ppa2pgidx. */
    function PgIdx(a: Ppa): (k: nat) {
      a.ch * pgsPerCh + a.lun * pgsPerLun + a.pl * pgsPerPl + a.blk * pgsPerBlk + a.pg
    }

    /** The address with page index k. */
    function AtPgIdx(k: nat): (a: Ppa)
      requires Positive()
    {
      QuotientSign(k, pgsPerBlk);
      var blkNo: nat := k / pgsPerBlk;
      QuotientSign(blkNo, blksPerPl);
      var plNo: nat := blkNo / blksPerPl;
      QuotientSign(plNo, plsPerLun);
      var lunNo: nat := plNo / plsPerLun;
      QuotientSign(lunNo, lunsPerCh);
      Ppa(lunNo / lunsPerCh, lunNo % lunsPerCh, plNo % plsPerLun, blkNo % blksPerPl, k % pgsPerBlk)
    }
  }

  // ---------- ppa2pgidx is a bijection ----------

  // The index in nested form, one digit per level: LUN, plane, block and page counted over the device.

  function LunIndex(g: Geometry, a: Ppa): (n: nat) { a.ch * g.lunsPerCh + a.lun }

  function PlaneIndex(g: Geometry, a: Ppa): (n: nat) { LunIndex(g, a) * g.plsPerLun + a.pl }

  function BlockIndex(g: Geometry, a: Ppa): (n: nat) { PlaneIndex(g, a) * g.blksPerPl + a.blk }

  function Nested(g: Geometry, a: Ppa): (n: nat) { BlockIndex(g, a) * g.pgsPerBlk + a.pg }

  function LunsIn(g: Geometry): (n: nat) { g.nchs * g.lunsPerCh }

  function PlanesIn(g: Geometry): (n: nat) { LunsIn(g) * g.plsPerLun }

  function BlocksIn(g: Geometry): (n: nat) { PlanesIn(g) * g.blksPerPl }

  function PagesIn(g: Geometry): (n: nat) { BlocksIn(g) * g.pgsPerBlk }

  lemma Regroup(hi: nat, lo: nat, m: nat, size: nat)
    ensures (hi * m + lo) * size == hi * (size * m) + lo * size
  {
    assert (hi * m) * size == hi * (size * m);
  }

  lemma PgIdxIsNested(g: Geometry, a: Ppa)
    requires g.Calculated()
    ensures g.PgIdx(a) == Nested(g, a)
  {
    Regroup(PlaneIndex(g, a), a.blk, g.blksPerPl, g.pgsPerBlk);
    Regroup(LunIndex(g, a), a.pl, g.plsPerLun, g.pgsPerPl);
    Regroup(a.ch, a.lun, g.lunsPerCh, g.pgsPerLun);
  }

  lemma TtPgsIsNested(g: Geometry)
    requires g.Calculated()
    ensures g.ttPgs == PagesIn(g)
  {
    PgIdxIsNested(g, Ppa(g.nchs, 0, 0, 0, 0));
  }

  lemma LunDigits(g: Geometry, a: Ppa)
    requires g.Has(a)
    ensures LunIndex(g, a) < LunsIn(g)
    ensures LunIndex(g, a) / g.lunsPerCh == a.ch && LunIndex(g, a) % g.lunsPerCh == a.lun
  {
    DigitBound(a.ch, a.lun, g.lunsPerCh, g.nchs);
    DigitSplits(a.ch, a.lun, g.lunsPerCh);
  }

  lemma PlaneDigits(g: Geometry, a: Ppa)
    requires g.Has(a)
    ensures PlaneIndex(g, a) < PlanesIn(g)
    ensures PlaneIndex(g, a) / g.plsPerLun == LunIndex(g, a) && PlaneIndex(g, a) % g.plsPerLun == a.pl
  {
    hide LunIndex, LunsIn;
    LunDigits(g, a);
    DigitBound(LunIndex(g, a), a.pl, g.plsPerLun, LunsIn(g));
    DigitSplits(LunIndex(g, a), a.pl, g.plsPerLun);
  }

  lemma BlockDigits(g: Geometry, a: Ppa)
    requires g.Has(a)
    ensures BlockIndex(g, a) < BlocksIn(g)
    ensures BlockIndex(g, a) / g.blksPerPl == PlaneIndex(g, a) && BlockIndex(g, a) % g.blksPerPl == a.blk
  {
    hide PlaneIndex, PlanesIn;
    PlaneDigits(g, a);
    DigitBound(PlaneIndex(g, a), a.blk, g.blksPerPl, PlanesIn(g));
    DigitSplits(PlaneIndex(g, a), a.blk, g.blksPerPl);
  }

  lemma PageDigits(g: Geometry, a: Ppa)
    requires g.Has(a)
    ensures Nested(g, a) < PagesIn(g)
    ensures Nested(g, a) / g.pgsPerBlk == BlockIndex(g, a) && Nested(g, a) % g.pgsPerBlk == a.pg
  {
    hide BlockIndex, BlocksIn;
    BlockDigits(g, a);
    DigitBound(BlockIndex(g, a), a.pg, g.pgsPerBlk, BlocksIn(g));
    DigitSplits(BlockIndex(g, a), a.pg, g.pgsPerBlk);
  }

  lemma NestedRoundTrip(g: Geometry, a: Ppa)
    requires g.Positive() && g.Has(a)
    ensures Nested(g, a) < PagesIn(g)
    ensures g.AtPgIdx(Nested(g, a)) == a
  {
    hide Nested, PagesIn, BlockIndex, BlocksIn, PlaneIndex, PlanesIn, LunIndex, LunsIn;
    PageDigits(g, a);
    BlockDigits(g, a);
    PlaneDigits(g, a);
    LunDigits(g, a);
  }

  /** In-range addresses map into [0, tt_pgs) and back. */
  lemma PgIdxRoundTrip(g: Geometry, a: Ppa)
    requires g.Positive() && g.Calculated() && g.Has(a)
    ensures g.PgIdx(a) < g.ttPgs
    ensures g.AtPgIdx(g.PgIdx(a)) == a
  {
    PgIdxIsNested(g, a);
    TtPgsIsNested(g);
    NestedRoundTrip(g, a);
  }

  /** A number is its quotient and its remainder put together again. */
  lemma Digits(n: nat, base: nat, top: nat)
    requires base >= 1 && n < top * base
    ensures n / base < top && n % base < base && n / base * base + n % base == n
  {
    QuotientBound(n, base, top);
  }

  lemma AtNestedRoundTrip(g: Geometry, k: nat)
    requires g.Positive() && k < PagesIn(g)
    ensures g.Has(g.AtPgIdx(k)) && Nested(g, g.AtPgIdx(k)) == k
  {
    Digits(k, g.pgsPerBlk, BlocksIn(g));
    BlockOfIndex(g, g.AtPgIdx(k), k / g.pgsPerBlk);
  }

  lemma BlockOfIndex(g: Geometry, a: Ppa, n: nat)
    requires g.Positive() && n < BlocksIn(g)
    requires a.blk == n % g.blksPerPl && a.pl == n / g.blksPerPl % g.plsPerLun
    requires a.lun == n / g.blksPerPl / g.plsPerLun % g.lunsPerCh && a.ch == n / g.blksPerPl / g.plsPerLun / g.lunsPerCh
    ensures BlockIndex(g, a) == n && a.blk < g.blksPerPl && a.pl < g.plsPerLun && a.lun < g.lunsPerCh && a.ch < g.nchs
  {
    Digits(n, g.blksPerPl, PlanesIn(g));
    PlaneOfIndex(g, a, n / g.blksPerPl);
  }

  lemma PlaneOfIndex(g: Geometry, a: Ppa, n: nat)
    requires g.Positive() && n < PlanesIn(g)
    requires a.pl == n % g.plsPerLun
    requires a.lun == n / g.plsPerLun % g.lunsPerCh && a.ch == n / g.plsPerLun / g.lunsPerCh
    ensures PlaneIndex(g, a) == n && a.pl < g.plsPerLun && a.lun < g.lunsPerCh && a.ch < g.nchs
  {
    Digits(n, g.plsPerLun, LunsIn(g));
    Digits(n / g.plsPerLun, g.lunsPerCh, g.nchs);
  }

  /** Every index in [0, tt_pgs) is the index of an in-range address. */
  lemma AtPgIdxRoundTrip(g: Geometry, k: nat)
    requires g.Positive() && g.Calculated() && k < g.ttPgs
    ensures g.Has(g.AtPgIdx(k)) && g.PgIdx(g.AtPgIdx(k)) == k
  {
    TtPgsIsNested(g);
    AtNestedRoundTrip(g, k);
    PgIdxIsNested(g, g.AtPgIdx(k));
  }

  lemma PgIdxInjective(g: Geometry, a: Ppa, b: Ppa)
    requires g.Positive() && g.Calculated() && g.Has(a) && g.Has(b) && a != b
    ensures g.PgIdx(a) != g.PgIdx(b)
  {
    PgIdxRoundTrip(g, a);
    PgIdxRoundTrip(g, b);
  }

  /** The index counts pages by channel, then LUN, plane, block and page. */
  lemma PgIdxOrdered(g: Geometry, a: Ppa, b: Ppa)
    requires g.Positive() && g.Calculated() && g.Has(a) && g.Has(b)
    requires a.ch <= b.ch && (a.ch == b.ch ==> a.lun <= b.lun)
    requires a.ch == b.ch && a.lun == b.lun ==> a.pl <= b.pl && (a.pl == b.pl ==> a.blk <= b.blk)
    requires a.ch == b.ch && a.lun == b.lun && a.pl == b.pl && a.blk == b.blk ==> a.pg < b.pg
    ensures g.PgIdx(a) < g.PgIdx(b)
  {
    PgIdxIsNested(g, a);
    PgIdxIsNested(g, b);
    DigitsOrdered(a.ch, a.lun, b.ch, b.lun, g.lunsPerCh);
    DigitsOrdered(LunIndex(g, a), a.pl, LunIndex(g, b), b.pl, g.plsPerLun);
    DigitsOrdered(PlaneIndex(g, a), a.blk, PlaneIndex(g, b), b.blk, g.blksPerPl);
    DigitsOrdered(BlockIndex(g, a), a.pg, BlockIndex(g, b), b.pg, g.pgsPerBlk);
  }

  /** Two-digit numbers compare by the first digit, then by the second. */
  lemma DigitsOrdered(hi: nat, lo: nat, hi': nat, lo': nat, base: nat)
    requires lo < base && lo' < base
    ensures hi < hi' ==> hi * base + lo < hi' * base + lo'
    ensures hi == hi' ==> (lo < lo' <==> hi * base + lo < hi' * base + lo')
    ensures hi == hi' && lo == lo' ==> hi * base + lo == hi' * base + lo'
  {
    if hi < hi' {
      DigitBound(hi, lo, base, hi');
    }
  }

  // ---------- Sets of pages ----------

  function Pages(g: Geometry): (s: set<Ppa>)
    ensures forall a: Ppa :: a in s <==> g.Has(a)
  {
    set ch, lun, pl, blk, pg |
      && 0 <= ch < g.nchs && 0 <= lun < g.lunsPerCh && 0 <= pl < g.plsPerLun
      && 0 <= blk < g.blksPerPl && 0 <= pg < g.pgsPerBlk :: Ppa(ch, lun, pl, blk, pg)
  }

  /** A line is the same block number on every LUN. */
  function LinePages(g: Geometry, b: int): (s: set<Ppa>)
    ensures forall a: Ppa :: a in s <==> g.Has(a) && a.blk == b
  {
    set a | a in Pages(g) && a.blk == b
  }

  function BlockPages(g: Geometry, k: BlockId): (s: set<Ppa>)
    ensures forall a: Ppa :: a in s <==> g.Has(a) && a.ch == k.ch && a.lun == k.lun && a.blk == k.blk
  {
    set a | a in Pages(g) && a.ch == k.ch && a.lun == k.lun && a.blk == k.blk
  }

  // ---------- The order in which the write pointer visits a line ----------

  /** The k-th page written in line b: channels first, then LUNs, then pages. */
  function AtOffset(g: Geometry, b: nat, k: nat): (a: Ppa)
    requires g.Positive()
  {
    QuotientSign(k, g.nchs);
    var row: nat := k / g.nchs;
    QuotientSign(row, g.lunsPerCh);
    Ppa(k % g.nchs, row % g.lunsPerCh, 0, b, row / g.lunsPerCh)
  }

  function Offset(g: Geometry, a: Ppa): (k: nat) {
    (a.pg * g.lunsPerCh + a.lun) * g.nchs + a.ch
  }

  lemma PgsPerLineIsNested(g: Geometry)
    requires g.Calculated()
    ensures g.pgsPerLine == g.pgsPerBlk * g.lunsPerCh * g.nchs
  {
    var p, u, c := g.pgsPerBlk, g.lunsPerCh, g.nchs;
    assert (u * c) * p == p * (u * c);
    assert p * (u * c) == p * u * c;
  }

  lemma OffsetRoundTrip(g: Geometry, a: Ppa)
    requires g.Ok() && g.Calculated() && g.Has(a)
    ensures Offset(g, a) < g.pgsPerLine
    ensures AtOffset(g, a.blk, Offset(g, a)) == a
  {
    PgsPerLineIsNested(g);
    DigitBound(a.pg, a.lun, g.lunsPerCh, g.pgsPerBlk);
    DigitBound(a.pg * g.lunsPerCh + a.lun, a.ch, g.nchs, g.pgsPerBlk * g.lunsPerCh);
    DigitSplits(a.pg * g.lunsPerCh + a.lun, a.ch, g.nchs);
    DigitSplits(a.pg, a.lun, g.lunsPerCh);
  }

  lemma AtOffsetRoundTrip(g: Geometry, b: nat, k: nat)
    requires g.Ok() && g.Calculated() && b < g.blksPerPl && k < g.pgsPerLine
    ensures g.Has(AtOffset(g, b, k)) && Offset(g, AtOffset(g, b, k)) == k
  {
    PgsPerLineIsNested(g);
    QuotientBound(k, g.nchs, g.pgsPerBlk * g.lunsPerCh);
    QuotientBound(k / g.nchs, g.lunsPerCh, g.pgsPerBlk);
    var a := AtOffset(g, b, k);
    assert a.pg * g.lunsPerCh + a.lun == k / g.nchs;
  }

  lemma LineSize(g: Geometry, b: nat)
    requires g.Ok() && g.Calculated() && b < g.blksPerPl
    ensures |LinePages(g, b)| == g.pgsPerLine
  {
    var order := seq(g.pgsPerLine, k requires 0 <= k => AtOffset(g, b, k));
    forall i, j | 0 <= i < j < |order|
      ensures order[i] != order[j]
    {
      AtOffsetRoundTrip(g, b, i);
      AtOffsetRoundTrip(g, b, j);
    }
    forall a
      ensures a in LinePages(g, b) <==> a in order
    {
      if g.Has(a) && a.blk == b {
        OffsetRoundTrip(g, a);
        assert order[Offset(g, a)] == a;
      }
      if a in order {
        var k :| 0 <= k < |order| && order[k] == a;
        AtOffsetRoundTrip(g, b, k);
      }
    }
    DistinctCount(order, LinePages(g, b));
  }

  lemma BlockSize(g: Geometry, k: BlockId)
    requires g.Ok() && g.HasBlock(k)
    ensures |BlockPages(g, k)| == g.pgsPerBlk
  {
    var order := seq(g.pgsPerBlk, p requires 0 <= p => Ppa(k.ch, k.lun, 0, k.blk, p));
    forall a
      ensures a in BlockPages(g, k) <==> a in order
    {
      if a in BlockPages(g, k) {
        assert order[a.pg] == a;
      }
    }
    DistinctCount(order, BlockPages(g, k));
  }

  lemma TotalSize(g: Geometry)
    requires g.Ok() && g.Calculated()
    ensures |Pages(g)| == g.ttPgs
  {
    var order := seq(g.ttPgs, k requires 0 <= k => g.AtPgIdx(k));
    forall i, j | 0 <= i < j < |order|
      ensures order[i] != order[j]
    {
      AtPgIdxRoundTrip(g, i);
      AtPgIdxRoundTrip(g, j);
    }
    forall a
      ensures a in Pages(g) <==> a in order
    {
      if g.Has(a) {
        PgIdxRoundTrip(g, a);
        assert order[g.PgIdx(a)] == a;
      }
      if a in order {
        var k :| 0 <= k < |order| && order[k] == a;
        AtPgIdxRoundTrip(g, k);
      }
    }
    DistinctCount(order, Pages(g));
  }
}
