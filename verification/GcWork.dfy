/** How much work a collection pass puts on each LUN, and how long that keeps the LUN busy. */
module GcWork {
  import opened Common
  import opened Arith
  import opened RoundRobins
  import opened Geometries
  import opened Ssds
  import opened Space
  import opened Mapping
  import opened Gc
  import opened Timing
  import opened GcTiming

  // ---------- operations of one kind ----------

  /** The LUNs of the operations of one kind, in order. */
  function KindLuns(ops: seq<Op>, cmd: NandCmd): (luns: seq<nat>)
    decreases |ops|
  {
    if ops == [] then []
    else (if ops[0].cmd == cmd then [ops[0].lun] else []) + KindLuns(ops[1..], cmd)
  }

  lemma {:induction false} KindLunsAppend(a: seq<Op>, b: seq<Op>, cmd: NandCmd)
    ensures KindLuns(a + b, cmd) == KindLuns(a, cmd) + KindLuns(b, cmd)
    decreases |a|
  {
    if a == [] {
      assert a + b == b;
    } else {
      assert (a + b)[1..] == a[1..] + b;
      KindLunsAppend(a[1..], b, cmd);
      var x, y, z := if a[0].cmd == cmd then [a[0].lun] else [], KindLuns(a[1..], cmd), KindLuns(b, cmd);
      assert KindLuns(a + b, cmd) == x + (y + z) && x + (y + z) == (x + y) + z;
    }
  }

  lemma {:induction false} LoadAppend(a: seq<nat>, b: seq<nat>, x: nat)
    ensures Load(a + b, x) == Load(a, x) + Load(b, x)
    decreases |b|
  {
    if b == [] {
      assert a + b == a;
    } else {
      assert (a + b)[..|a + b| - 1] == a + b[..|b| - 1];
      LoadAppend(a, b[..|b| - 1], x);
    }
  }

  function Same(x: nat, n: nat): (s: seq<nat>)
    ensures |s| == n && forall i :: 0 <= i < n ==> s[i] == x
  {
    seq(n, i => x)
  }

  lemma {:induction false} SameLoad(x: nat, n: nat, y: nat)
    ensures Load(Same(x, n), y) == if x == y then n else 0
  {
    if n > 0 {
      assert Same(x, n)[..n - 1] == Same(x, n - 1);
      SameLoad(x, n - 1, y);
    }
  }

  // ---------- the programs of a pass ----------

  lemma OneKind(op: Op, cmd: NandCmd)
    ensures KindLuns([op], cmd) == if op.cmd == cmd then [op.lun] else []
  {
    assert [op][1..] == [] && KindLuns([], cmd) == [];
  }

  lemma PairKinds(x: nat, y: nat)
    ensures var ops := [Op(x, NandRead), Op(y, NandWrite)];
            KindLuns(ops, NandRead) == [x] && KindLuns(ops, NandWrite) == [y] && KindLuns(ops, NandErase) == []
  {
    var r, w := Op(x, NandRead), Op(y, NandWrite);
    assert [r] + [w] == [r, w];
    forall cmd
      ensures KindLuns([r, w], cmd) == KindLuns([r], cmd) + KindLuns([w], cmd)
    {
      KindLunsAppend([r], [w], cmd);
    }
    forall op, cmd
      ensures KindLuns([op], cmd) == if op.cmd == cmd then [op.lun] else []
    {
      OneKind(op, cmd);
    }
  }

  /** After a copy the write pointer stands on the next LUN. */
  lemma CopyMovesOn(s: Ssd, a: Ppa, luns: nat)
    requires s.Shape() && s.g.Has(a) && luns >= 1 && luns == s.g.lunsPerCh * s.g.nchs && s.GcWritePage(a).Some?
    ensures LunNo(s.g, s.GcWritePage(a).value.NewPage()) == (LunNo(s.g, s.NewPage()) + 1) % luns
    ensures LunNo(s.g, s.NewPage()) < luns
  {
    hide Ssd.AdvanceWritePointer, Ssd.MarkPageValid, LunNo;
    var lpn, content := s.rmap[a].value, s.data[a];
    BindStays(s, lpn, content);
    NextLun(s.Bind(lpn, s.NewPage(), content).MarkPageValid(s.NewPage()), luns);
    PageInRange(s);
    LunNoInRange(s.g, s.NewPage());
  }

  lemma BindStays(s: Ssd, lpn: nat, content: nat)
    requires s.Shape() && lpn < |s.maptbl|
    ensures var t := s.Bind(lpn, s.NewPage(), content);
            t.wp == s.wp && t.g == s.g && t.MarkPageValid(s.NewPage()).wp == s.wp
  {
  }

  /** clean_one_block from page pg on, standing in the middle of a pass: one read on the block's LUN
      per valid page, and as many programs, round robin from the write pointer. */
  ghost predicate BlockWork(s: Ssd, t: Ssd, k: BlockId, ops: seq<Op>, n: nat, luns: nat)
    requires luns >= 1
  {
    && KindLuns(ops, NandRead) == Same(k.lun * s.g.nchs + k.ch, n)
    && KindLuns(ops, NandErase) == []
    && KindLuns(ops, NandWrite) == RoundRobin(LunNo(s.g, s.NewPage()), n, luns)
    && LunNo(s.g, s.NewPage()) < luns
    && LunNo(s.g, t.NewPage()) == (LunNo(s.g, s.NewPage()) + n) % luns
  }

  lemma WorkNone(s: Ssd, k: BlockId, luns: nat)
    requires s.Shape() && luns >= 1 && luns == s.g.lunsPerCh * s.g.nchs
    ensures BlockWork(s, s, k, [], 0, luns)
  {
    PageInRange(s);
    LunNoInRange(s.g, s.NewPage());
    SmallMod(LunNo(s.g, s.NewPage()), luns);
  }

  lemma WorkMore(s: Ssd, t: Ssd, u: Ssd, k: BlockId, a: Ppa, ops: seq<Op>, n: nat, luns: nat)
    requires s.Shape() && s.g.Has(a) && luns >= 1 && luns == s.g.lunsPerCh * s.g.nchs
    requires a.ch == k.ch && a.lun == k.lun && s.GcWritePage(a) == Some(t) && t.g == s.g
    requires BlockWork(t, u, k, ops, n, luns)
    ensures BlockWork(s, u, k, CopyOps(s, a) + ops, n + 1, luns)
  {
    hide Ssd.Shape, Ssd.GcWritePage, RoundRobin, Same;
    CopyMovesOn(s, a, luns);
    var x, start := LunNo(s.g, a), LunNo(s.g, s.NewPage());
    hide LunNo;
    PairKinds(x, start);
    KindLunsAppend(CopyOps(s, a), ops, NandRead);
    KindLunsAppend(CopyOps(s, a), ops, NandWrite);
    KindLunsAppend(CopyOps(s, a), ops, NandErase);
    SameCons(x, n);
    ConsRoundRobin(start, n, luns);
    StartShift(start, n, luns);
  }

  lemma SameCons(x: nat, n: nat)
    ensures [x] + Same(x, n) == Same(x, n + 1) && Same(x, 1) == [x]
  {
  }

  /** What the theorem says of a block from page pg on. */
  ghost predicate Worked(s0: Ssd, s: Ssd, k: BlockId, pg: nat, luns: nat)
    requires s0.Shape() && s.Shape() && s.g == s0.g && s.g.HasBlock(k) && pg <= s.g.pgsPerBlk && luns >= 1
  {
    var done, end := Copies(s0, k.blk, k.ch, k.lun, pg), Copies(s0, k.blk, k.ch, k.lun, s.g.pgsPerBlk);
    && s.CleanBlock(k, pg).Some? && done <= end
    && BlockWork(s, s.CleanBlock(k, pg).value, k, BlockOps(s, k, pg), end - done, luns)
  }

  lemma WorkedCopy(s0: Ssd, s: Ssd, t: Ssd, k: BlockId, pg: nat, luns: nat)
    requires s0.Shape() && s.Shape() && t.Shape() && s.g == s0.g == t.g && s.g.HasBlock(k) && pg < s.g.pgsPerBlk
    requires luns >= 1 && luns == s.g.lunsPerCh * s.g.nchs
    requires var a := Ppa(k.ch, k.lun, 0, k.blk, pg);
             && s.g.Has(a) && a in s.status && s.status[a] == PgValid && s.GcWritePage(a) == Some(t)
    requires Copies(s0, k.blk, k.ch, k.lun, pg + 1) == Copies(s0, k.blk, k.ch, k.lun, pg) + 1
    requires Worked(s0, t, k, pg + 1, luns)
    ensures Worked(s0, s, k, pg, luns)
  {
    hide Ssd.GcWritePage, Ssd.Shape, BlockWork, CopyOps, LunNo, Copies;
    var n := Copies(s0, k.blk, k.ch, k.lun, s.g.pgsPerBlk) - Copies(s0, k.blk, k.ch, k.lun, pg + 1);
    WorkMore(s, t, t.CleanBlock(k, pg + 1).value, k, Ppa(k.ch, k.lun, 0, k.blk, pg), BlockOps(t, k, pg + 1), n, luns);
  }

  lemma WorkedSkip(s0: Ssd, s: Ssd, k: BlockId, pg: nat, luns: nat)
    requires s0.Shape() && s.Shape() && s.g == s0.g && s.g.HasBlock(k) && pg < s.g.pgsPerBlk && luns >= 1
    requires Ppa(k.ch, k.lun, 0, k.blk, pg) in s.status && s.status[Ppa(k.ch, k.lun, 0, k.blk, pg)] != PgValid
    requires Copies(s0, k.blk, k.ch, k.lun, pg + 1) == Copies(s0, k.blk, k.ch, k.lun, pg)
    requires Worked(s0, s, k, pg + 1, luns)
    ensures Worked(s0, s, k, pg, luns)
  {
    hide Ssd.Shape, BlockWork, Copies;
  }

  lemma WorkedEnd(s0: Ssd, s: Ssd, k: BlockId, luns: nat)
    requires s0.Shape() && s.Shape() && s.g == s0.g && s.g.HasBlock(k)
    requires luns >= 1 && luns == s.g.lunsPerCh * s.g.nchs
    ensures Worked(s0, s, k, s.g.pgsPerBlk, luns)
  {
    hide Ssd.Shape, BlockWork, Copies;
    WorkNone(s, k, luns);
  }

  lemma {:induction false} BlockOpsWork(s0: Ssd, s: Ssd, v: nat, ch: nat, lun: nat, pg: nat, luns: nat)
    requires s0.Shape() && NoFreePage(s0, v) && s.Shape() && s.g == s0.g && MidGc(s0, s, v, ch, lun, pg)
    requires v < s0.g.blksPerPl && ch < s0.g.nchs && lun < s0.g.lunsPerCh && pg <= s0.g.pgsPerBlk
    requires luns >= 1 && luns == s0.g.lunsPerCh * s0.g.nchs
    requires s.CleanBlock(BlockId(ch, lun, v), pg).Some?
    ensures Worked(s0, s, BlockId(ch, lun, v), pg, luns)
    decreases s0.g.pgsPerBlk - pg
  {
    hide MidGc, Ssd.GcWritePage, Ssd.Shape, Worked;
    var k := BlockId(ch, lun, v);
    if pg == s0.g.pgsPerBlk {
      WorkedEnd(s0, s, k, luns);
    } else {
      var a := Ppa(ch, lun, 0, v, pg);
      MidGcStatus(s0, s, v, ch, lun, pg);
      VisitedNext(s0, v, ch, lun, pg);
      if s.status[a] == PgValid {
        CopyStep(s0, s, v, ch, lun, pg);
        BlockOpsWork(s0, s.GcWritePage(a).value, v, ch, lun, pg + 1, luns);
        WorkedCopy(s0, s, s.GcWritePage(a).value, k, pg, luns);
      } else {
        SkipStep(s0, s, v, ch, lun, pg);
        BlockOpsWork(s0, s, v, ch, lun, pg + 1, luns);
        WorkedSkip(s0, s, k, pg, luns);
      }
    }
  }

  // ---------- the whole line ----------

  /** Valid pages of line v on the LUN (c, u). */
  ghost function ValidOn(s: Ssd, v: nat, c: nat, u: nat): (n: nat) {
    Count(s.status, BlockPages(s.g, BlockId(c, u, v)), PgValid)
  }

  ghost function ValidIn(s: Ssd, v: nat): (n: nat) {
    Count(s.status, LinePages(s.g, v), PgValid)
  }

  /** LUN (c, u) is still to come when the double loop stands at (ch, lun). */
  predicate Ahead(ch: nat, lun: nat, c: nat, u: nat) {
    c > ch || (c == ch && u >= lun)
  }

  /** From (ch, lun) on, LUN (c, u) reads its valid pages and is erased once. */
  ghost predicate LunWork(s0: Ssd, v: nat, ch: nat, lun: nat, ops: seq<Op>, c: nat, u: nat) {
    var x := u * s0.g.nchs + c;
    && Load(KindLuns(ops, NandRead), x) == (if Ahead(ch, lun, c, u) then ValidOn(s0, v, c, u) else 0)
    && Load(KindLuns(ops, NandErase), x) == (if Ahead(ch, lun, c, u) then 1 else 0)
  }

  ghost predicate LineWork(s0: Ssd, s: Ssd, v: nat, ch: nat, lun: nat, ops: seq<Op>, luns: nat)
    requires luns >= 1
  {
    && Copies(s0, v, ch, lun, 0) <= ValidIn(s0, v)
    && KindLuns(ops, NandWrite) == RoundRobin(LunNo(s.g, s.NewPage()), ValidIn(s0, v) - Copies(s0, v, ch, lun, 0), luns)
    && forall c: nat, u: nat :: c < s0.g.nchs && u < s0.g.lunsPerCh ==> LunWork(s0, v, ch, lun, ops, c, u)
  }

  lemma RoundRobinAppend(start: nat, n: nat, k: nat, m: nat)
    requires start < m
    ensures RoundRobin(start, n, m) + RoundRobin((start + n) % m, k, m) == RoundRobin(start, n + k, m)
  {
    var x, y, b := RoundRobin(start, n, m), RoundRobin((start + n) % m, k, m), RoundRobin(start, n + k, m);
    hide RoundRobin;
    forall i: nat | i < k
      ensures y[i] == b[n + i]
    {
      ShiftBy(start + n, i, m);
      assert start + n + i == start + (n + i);
    }
    assert forall i :: 0 <= i < n ==> x[i] == b[i];
    assert b[..n] == x && b[n..] == y;
    assert b == b[..n] + b[n..];
  }

  lemma ShiftIs(x: nat, k: nat, m: nat, q: nat, r: nat, p: nat, t: nat)
    requires x == q * m + r && r + k == p * m + t && t < m
    ensures (x + k) % m == t
  {
    TwoQuotients(q, p, m);
    assert x + k == (q + p) * m + t;
    DigitSplits(q + p, t, m);
  }

  lemma ShiftBy(x: nat, k: nat, m: nat)
    requires m >= 1
    ensures (x % m + k) % m == (x + k) % m
  {
    ShiftIs(x, k, m, x / m, x % m, (x % m + k) / m, (x % m + k) % m);
  }

  lemma SameLun(c: nat, u: nat, ch: nat, lun: nat, nchs: nat)
    requires c < nchs && ch < nchs
    ensures u * nchs + c == lun * nchs + ch <==> u == lun && c == ch
  {
    DigitSplits(u, c, nchs);
    DigitSplits(lun, ch, nchs);
  }

  /** One block's operations and its erase in front of the rest of the line's. */
  lemma LunWorkMore(
    s0: Ssd, s: Ssd, t: Ssd, v: nat, ch: nat, lun: nat, block: seq<Op>, rest: seq<Op>,
    n: nat, luns: nat, c: nat, u: nat)
    requires luns >= 1 && s.g == s0.g && ch < s0.g.nchs && c < s0.g.nchs
    requires BlockWork(s, t, BlockId(ch, lun, v), block, n, luns) && n == ValidOn(s0, v, ch, lun)
    requires LunWork(s0, v, ch, lun + 1, rest, c, u)
    ensures LunWork(s0, v, ch, lun, block + [EraseOp(s0.g, BlockId(ch, lun, v))] + rest, c, u)
  {
    hide ValidOn, BlockWork, Load, KindLuns;
    var x, y := lun * s0.g.nchs + ch, u * s0.g.nchs + c;
    BlockKinds(s, t, BlockId(ch, lun, v), block, n, luns);
    JoinLoads(block, EraseOp(s0.g, BlockId(ch, lun, v)), rest, x, n, y);
    SameLun(c, u, ch, lun, s0.g.nchs);
  }

  /** n reads on LUN x and its erase, as LUN y sees them. */
  lemma JoinLoads(block: seq<Op>, e: Op, rest: seq<Op>, x: nat, n: nat, y: nat)
    requires KindLuns(block, NandRead) == Same(x, n) && KindLuns(block, NandErase) == [] && e == Op(x, NandErase)
    ensures var ops := block + [e] + rest;
            && Load(KindLuns(ops, NandRead), y) == (if x == y then n else 0) + Load(KindLuns(rest, NandRead), y)
            && Load(KindLuns(ops, NandErase), y) == (if x == y then 1 else 0) + Load(KindLuns(rest, NandErase), y)
  {
    hide Load, KindLuns, Same;
    LineKinds(block, e, rest, NandRead);
    LineKinds(block, e, rest, NandErase);
    LoadAppend(Same(x, n), KindLuns(rest, NandRead), y);
    LoadAppend(Same(x, 1), KindLuns(rest, NandErase), y);
    SameLoad(x, n, y);
    SameLoad(x, 1, y);
    SameCons(x, 0);
    assert [] + KindLuns(rest, NandRead) == KindLuns(rest, NandRead);
    assert [] + ([x] + KindLuns(rest, NandErase)) == Same(x, 1) + KindLuns(rest, NandErase);
  }

  lemma BlockKinds(s: Ssd, t: Ssd, k: BlockId, ops: seq<Op>, n: nat, luns: nat)
    requires luns >= 1 && BlockWork(s, t, k, ops, n, luns)
    ensures KindLuns(ops, NandRead) == Same(k.lun * s.g.nchs + k.ch, n) && KindLuns(ops, NandErase) == []
  {
  }

  lemma LineKinds(block: seq<Op>, e: Op, rest: seq<Op>, cmd: NandCmd)
    ensures KindLuns(block + [e] + rest, cmd)
         == KindLuns(block, cmd) + ((if e.cmd == cmd then [e.lun] else []) + KindLuns(rest, cmd))
  {
    KindLunsAppend(block + [e], rest, cmd);
    KindLunsAppend(block, [e], cmd);
    OneKind(e, cmd);
  }

  lemma LineWorkMore(
    s0: Ssd, s: Ssd, t: Ssd, v: nat, ch: nat, lun: nat, block: seq<Op>, rest: seq<Op>, n: nat, luns: nat)
    requires luns >= 1 && s.g == s0.g && t.g == s0.g && ch < s0.g.nchs
    requires BlockWork(s, t, BlockId(ch, lun, v), block, n, luns) && n == ValidOn(s0, v, ch, lun)
    requires Copies(s0, v, ch, lun + 1, 0) == Copies(s0, v, ch, lun, 0) + n
    requires LineWork(s0, t, v, ch, lun + 1, rest, luns)
    ensures LineWork(s0, s, v, ch, lun, block + [EraseOp(s0.g, BlockId(ch, lun, v))] + rest, luns)
  {
    hide LunWork, ValidOn, ValidIn, Copies;
    var e := EraseOp(s0.g, BlockId(ch, lun, v));
    LineKinds(block, e, rest, NandWrite);
    var m := ValidIn(s0, v) - Copies(s0, v, ch, lun + 1, 0);
    RoundRobinAppend(LunNo(s.g, s.NewPage()), n, m, luns);
    forall c: nat, u: nat | c < s0.g.nchs && u < s0.g.lunsPerCh
      ensures LunWork(s0, v, ch, lun, block + [e] + rest, c, u)
    {
      LunWorkMore(s0, s, t, v, ch, lun, block, rest, n, luns, c, u);
    }
  }

  /** Passing on to the next channel, and the end of the loop. */
  lemma LineWorkMoves(s0: Ssd, s: Ssd, v: nat, ch: nat, ops: seq<Op>, luns: nat)
    requires s0.Shape() && luns >= 1 && LineWork(s0, s, v, ch + 1, 0, ops, luns)
    ensures LineWork(s0, s, v, ch, s0.g.lunsPerCh, ops, luns)
  {
    hide Ssd.Shape, ValidOn, ValidIn;
    assert Visited(s0.g, v, ch + 1, 0, 0) == Visited(s0.g, v, ch, s0.g.lunsPerCh, 0);
    forall c: nat, u: nat | c < s0.g.nchs && u < s0.g.lunsPerCh
      ensures LunWork(s0, v, ch, s0.g.lunsPerCh, ops, c, u)
    {
      assert LunWork(s0, v, ch + 1, 0, ops, c, u);
      assert Ahead(ch + 1, 0, c, u) == Ahead(ch, s0.g.lunsPerCh, c, u);
    }
  }

  lemma LineWorkNone(s0: Ssd, s: Ssd, v: nat, luns: nat)
    requires s0.Shape() && s.g == s0.g && luns >= 1
    ensures LineWork(s0, s, v, s0.g.nchs, 0, [], luns)
  {
    hide Ssd.Shape, ValidOn;
    assert Visited(s0.g, v, s0.g.nchs, 0, 0) == LinePages(s0.g, v);
  }

  lemma BlockValid(s0: Ssd, v: nat, ch: nat, lun: nat)
    requires s0.Shape() && v < s0.g.blksPerPl && ch < s0.g.nchs && lun < s0.g.lunsPerCh
    ensures ValidOn(s0, v, ch, lun) == Copies(s0, v, ch, lun, s0.g.pgsPerBlk) - Copies(s0, v, ch, lun, 0)
    ensures Copies(s0, v, ch, lun + 1, 0) == Copies(s0, v, ch, lun, s0.g.pgsPerBlk)
  {
    hide Ssd.Shape;
    VisitedBlock(s0, v, ch, lun);
    WholeBlock(s0, v, ch, lun);
  }

  lemma WholeBlock(s0: Ssd, v: nat, ch: nat, lun: nat)
    requires s0.Shape()
    ensures Visited(s0.g, v, ch, lun + 1, 0) == Visited(s0.g, v, ch, lun, s0.g.pgsPerBlk)
  {
    hide Ssd.Shape;
  }

  lemma {:induction false} LineOpsWork(s0: Ssd, s: Ssd, v: nat, ch: nat, lun: nat, luns: nat)
    requires s0.Shape() && NoFreePage(s0, v) && s.Shape() && s.g == s0.g && MidGc(s0, s, v, ch, lun, 0)
    requires v < s0.g.blksPerPl && ch <= s0.g.nchs && lun <= s0.g.lunsPerCh && (ch == s0.g.nchs ==> lun == 0)
    requires luns >= 1 && luns == s0.g.lunsPerCh * s0.g.nchs && s.CleanLine(ch, lun, v).Some?
    ensures LineWork(s0, s, v, ch, lun, LineOps(s, ch, lun, v), luns)
    decreases s0.g.nchs - ch, s0.g.lunsPerCh - lun
  {
    hide MidGc, Ssd.CleanBlock, Ssd.MarkBlockFree, Ssd.Shape, LineWork, BlockOps, BlockWork, EraseOp;
    if ch == s0.g.nchs {
      LineWorkNone(s0, s, v, luns);
    } else if lun == s0.g.lunsPerCh {
      NextChannel(s0, s, v, ch);
      LineOpsWork(s0, s, v, ch + 1, 0, luns);
      LineWorkMoves(s0, s, v, ch, LineOps(s, ch + 1, 0, v), luns);
    } else {
      var k := BlockId(ch, lun, v);
      var t := s.CleanBlock(k, 0).value;
      CleanBlockKeeps(s0, s, v, ch, lun, 0);
      BlockOpsWork(s0, s, v, ch, lun, 0, luns);
      EraseStep(s0, t, v, ch, lun);
      BlockValid(s0, v, ch, lun);
      LineOpsWork(s0, t.MarkBlockFree(k), v, ch, lun + 1, luns);
      LineWorkStays(s0, t, v, k, LineOps(t.MarkBlockFree(k), ch, lun + 1, v), luns);
      LineWorkMore(s0, s, t, v, ch, lun, BlockOps(s, k, 0), LineOps(t.MarkBlockFree(k), ch, lun + 1, v),
                   ValidOn(s0, v, ch, lun), luns);
    }
  }

  /** Erasing does not move the write pointer. */
  lemma LineWorkStays(s0: Ssd, t: Ssd, v: nat, k: BlockId, ops: seq<Op>, luns: nat)
    requires t.Shape() && t.g.HasBlock(k) && luns >= 1
    requires LineWork(s0, t.MarkBlockFree(k), v, k.ch, k.lun + 1, ops, luns)
    ensures LineWork(s0, t, v, k.ch, k.lun + 1, ops, luns)
  {
    hide Ssd.Shape, LunWork;
  }

  // ---------- a pass ----------

  lemma SamePagesCount(s: Ssd, s0: Ssd, v: nat, c: nat, u: nat)
    requires SpaceInv(s, -1, false) && s0.status == s.status && s0.g == s.g
    requires c < s.g.nchs && u < s.g.lunsPerCh && v < s.g.blksPerPl
    ensures BlockId(c, u, v) in s.blocks && ValidOn(s0, v, c, u) == s.blocks[BlockId(c, u, v)].vpc
  {
    assert BlockCounted(s, BlockId(c, u, v));
  }

  lemma DetachOnly(s: Ssd)
    requires s.Shape() && s.q.Sound() && |s.q.d| > 1
    ensures var s0 := s.Detach();
            s0.status == s.status && s0.g == s.g && s0.NewPage() == s.NewPage() && s0.blocks == s.blocks
            && s0 == s.(q := s0.q, victimCnt := s0.victimCnt)
  {
  }

  /** What the pass does on LUN (c, u), by the block counters before it. */
  ghost predicate PassLunWork(s: Ssd, v: nat, ops: seq<Op>, c: nat, u: nat) {
    var x, k := u * s.g.nchs + c, BlockId(c, u, v);
    && k in s.blocks
    && Load(KindLuns(ops, NandRead), x) == s.blocks[k].vpc
    && Load(KindLuns(ops, NandErase), x) == 1
  }

  lemma LunOfPass(s: Ssd, s0: Ssd, v: nat, ops: seq<Op>, c: nat, u: nat)
    requires SpaceInv(s, -1, false) && s0.status == s.status && s0.g == s.g
    requires c < s.g.nchs && u < s.g.lunsPerCh && v < s.g.blksPerPl
    requires LunWork(s0, v, 0, 0, ops, c, u)
    ensures PassLunWork(s, v, ops, c, u)
  {
    hide SpaceInv, ValidOn;
    SamePagesCount(s, s0, v, c, u);
  }

  lemma VictimCounted(s: Ssd, s0: Ssd, v: nat)
    requires Inv(s) && s0.status == s.status && s0.g == s.g && v < s.g.blksPerPl
    ensures v < |s.q.pri| && s.q.pri[v] == ValidIn(s0, v) && Copies(s0, v, 0, 0, 0) == 0
  {
    assert LineOk(s, v, false);
    assert Visited(s0.g, v, 0, 0, 0) == {};
  }

  lemma PassLineWork(s: Ssd, luns: nat)
    requires Inv(s) && s.Shape() && s.q.Sound() && |s.q.d| > 1 && s.Detach().CleanLine(0, 0, s.q.d[1]).Some?
    requires luns >= 1 && luns == s.g.lunsPerCh * s.g.nchs
    ensures s.q.d[1] < s.g.blksPerPl && s.Detach().Shape()
    ensures LineWork(s.Detach(), s.Detach(), s.q.d[1], 0, 0, LineOps(s.Detach(), 0, 0, s.q.d[1]), luns)
  {
    hide LineWork, LineOps, Ssd.CleanLine, Inv, MidGc, Ssd.Shape;
    var v, s0 := s.q.d[1], s.Detach();
    PassStarts(s);
    LineOpsWork(s0, s0, v, 0, 0, luns);
  }

  lemma PassStarts(s: Ssd)
    requires Inv(s) && s.Shape() && s.q.Sound() && |s.q.d| > 1
    ensures var v, s0 := s.q.d[1], s.Detach();
            v < s.g.blksPerPl && s0.Shape() && s0.g == s.g && NoFreePage(s0, v) && MidGc(s0, s0, v, 0, 0, 0)
            && SpaceInv(s, -1, false)
  {
    hide Ssd.CleanLine, MidGc;
    DetachOnly(s);
    DetachKeepsSpace(s);
    MidGcStart(s, s.Detach(), s.q.d[1]);
  }

  lemma PassIsLine(s: Ssd, force: bool)
    requires s.Shape() && s.q.Sound() && s.DoGc(force).Cleaned?
    ensures |s.q.d| > 1 && s.VictimLine(force) == Some(s.q.d[1])
    ensures PassOps(s, force) == LineOps(s.Detach(), 0, 0, s.q.d[1])
    ensures s.Detach().CleanLine(0, 0, s.q.d[1]).Some?
  {
    hide Ssd.CleanLine, LineOps;
  }

  /** A successful pass over v programs the victim's valid pages round robin from the write pointer,
      reads on every LUN the valid pages it has there, and erases every LUN's block once. */
  ghost predicate PassDoes(s: Ssd, v: nat, ops: seq<Op>, luns: nat) {
    && luns >= 1 && v < |s.q.pri| && s.q.pri[v] >= 0
    && KindLuns(ops, NandWrite) == RoundRobin(LunNo(s.g, s.NewPage()), s.q.pri[v], luns)
    && forall c: nat, u: nat :: c < s.g.nchs && u < s.g.lunsPerCh ==> PassLunWork(s, v, ops, c, u)
  }

  lemma PassWork(s: Ssd, force: bool, luns: nat)
    requires Inv(s) && s.Shape() && s.q.Sound() && s.DoGc(force).Cleaned?
    requires luns >= 1 && luns == s.g.lunsPerCh * s.g.nchs
    ensures s.VictimLine(force).Some? && PassDoes(s, s.VictimLine(force).value, PassOps(s, force), luns)
  {
    hide LunWork, LineOps, PassOps, PassLunWork, Inv, Ssd.CleanLine, Ssd.Shape, Ssd.Detach, Ssd.DoGc, Ssd.VictimLine;
    PassIsLine(s, force);
    var v, s0, ops := s.q.d[1], s.Detach(), PassOps(s, force);
    DetachOnly(s);
    PassLineWork(s, luns);
    PassStarts(s);
    VictimCounted(s, s0, v);
    hide SpaceInv;
    forall c: nat, u: nat | c < s.g.nchs && u < s.g.lunsPerCh
      ensures PassLunWork(s, v, ops, c, u)
    {
      assert LunWork(s0, v, 0, 0, ops, c, u);
      LunOfPass(s, s0, v, ops, c, u);
    }
  }

  // ---------- busy time ----------

  /** The time the operations take on LUN x. */
  function Work(g: Geometry, ops: seq<Op>, x: nat): (w: nat)
    decreases |ops|
  {
    if ops == [] then 0
    else (if ops[0].lun == x then Latency(g, ops[0].cmd) else 0) + Work(g, ops[1..], x)
  }

  lemma LoadOfFirst(ops: seq<Op>, cmd: NandCmd, x: nat)
    requires ops != []
    ensures Load(KindLuns(ops, cmd), x)
         == Load(KindLuns(ops[1..], cmd), x) + if ops[0].cmd == cmd && ops[0].lun == x then 1 else 0
  {
    hide Load;
    LoadOfCons(ops[0].lun, KindLuns(ops[1..], cmd), x);
    assert [] + KindLuns(ops[1..], cmd) == KindLuns(ops[1..], cmd);
  }

  /** The work of a LUN is what its reads, programs and erases take. */
  lemma {:induction false} WorkByKind(g: Geometry, ops: seq<Op>, x: nat)
    ensures Work(g, ops, x) == Load(KindLuns(ops, NandRead), x) * g.pgRdLat
                             + Load(KindLuns(ops, NandWrite), x) * g.pgWrLat
                             + Load(KindLuns(ops, NandErase), x) * g.blkErLat
    decreases |ops|
  {
    if ops == [] {
      assert KindLuns(ops, NandRead) == KindLuns(ops, NandWrite) == KindLuns(ops, NandErase) == [];
    } else {
      hide Load, KindLuns;
      var rest := ops[1..];
      WorkByKind(g, rest, x);
      LoadOfFirst(ops, NandRead, x);
      LoadOfFirst(ops, NandWrite, x);
      LoadOfFirst(ops, NandErase, x);
      OneMore(Load(KindLuns(rest, NandRead), x), g.pgRdLat);
      OneMore(Load(KindLuns(rest, NandWrite), x), g.pgWrLat);
      OneMore(Load(KindLuns(rest, NandErase), x), g.blkErLat);
    }
  }

  ghost predicate Fits(ops: seq<Op>, n: nat) {
    forall i :: 0 <= i < |ops| ==> ops[i].lun < n
  }

  ghost predicate Forward(clock: nat -> nat) {
    forall i: nat, j: nat :: i <= j ==> clock(i) <= clock(j)
  }

  /** Operations issued at a clock that does not run back keep a LUN busy for its work, and no longer
      than its work after the later of its free time and the last reading taken for them. */
  lemma {:induction false} ChargeBounds(g: Geometry, l: Luns, ops: seq<Op>, clock: nat -> nat, x: nat)
    requires Fits(ops, |l.avail|) && Forward(clock) && x < |l.avail|
    ensures var r := ChargeAll(g, l, ops, clock);
            && r.ticks == l.ticks + |ops|
            && (ops == [] ==> r == l)
            && l.avail[x] + Work(g, ops, x) <= r.avail[x]
            && (ops != [] ==> r.avail[x] <= Max(l.avail[x], clock(r.ticks - 1)) + Work(g, ops, x))
    decreases |ops|
  {
    if ops != [] {
      var m := Charge(g, l, ops[0], clock);
      ChargeBounds(g, m, ops[1..], clock, x);
      assert clock(l.ticks) <= clock(l.ticks + |ops| - 1);
    }
  }

  lemma {:induction false} BlockOpsFit(s: Ssd, k: BlockId, pg: nat, luns: nat)
    requires s.Shape() && s.g.HasBlock(k) && pg <= s.g.pgsPerBlk && luns == s.g.lunsPerCh * s.g.nchs
    ensures Fits(BlockOps(s, k, pg), luns)
    decreases s.g.pgsPerBlk - pg
  {
    hide Ssd.Shape, Ssd.GcWritePage, LunNo;
    if pg < s.g.pgsPerBlk {
      var a := Ppa(k.ch, k.lun, 0, k.blk, pg);
      BlockPage(s, k, pg);
      if s.status[a] != PgValid {
        BlockOpsFit(s, k, pg + 1, luns);
      } else if s.GcWritePage(a).Some? {
        BlockOpsFit(s.GcWritePage(a).value, k, pg + 1, luns);
        PageInRange(s);
        LunNoInRange(s.g, a);
        LunNoInRange(s.g, s.NewPage());
      }
    }
  }

  lemma BlockPage(s: Ssd, k: BlockId, pg: nat)
    requires s.Shape() && s.g.HasBlock(k) && pg < s.g.pgsPerBlk
    ensures s.g.Has(Ppa(k.ch, k.lun, 0, k.blk, pg)) && Ppa(k.ch, k.lun, 0, k.blk, pg) in s.status
    ensures s.g.pgsPerBlk >= 1
  {
  }

  lemma {:induction false} LineOpsFit(s: Ssd, ch: nat, lun: nat, b: nat, luns: nat)
    requires s.Shape() && b < s.g.blksPerPl && ch <= s.g.nchs && lun <= s.g.lunsPerCh
    requires luns == s.g.lunsPerCh * s.g.nchs
    ensures Fits(LineOps(s, ch, lun, b), luns)
    decreases s.g.nchs - ch, s.g.lunsPerCh - lun
  {
    hide Ssd.Shape, Ssd.CleanBlock, Ssd.MarkBlockFree, BlockOps, LunNo;
    if ch == s.g.nchs {
    } else if lun == s.g.lunsPerCh {
      LineOpsFit(s, ch + 1, 0, b, luns);
    } else {
      var k := BlockId(ch, lun, b);
      if s.CleanBlock(k, 0).Some? {
        BlockOpsFit(s, k, 0, luns);
        LineOpsFit(s.CleanBlock(k, 0).value.MarkBlockFree(k), ch, lun + 1, b, luns);
        FirstPage(s, k);
        LunNoInRange(s.g, Ppa(ch, lun, 0, b, 0));
      }
    }
  }

  lemma FirstPage(s: Ssd, k: BlockId)
    requires s.Shape() && s.g.HasBlock(k)
    ensures s.g.Has(Ppa(k.ch, k.lun, 0, k.blk, 0))
  {
  }

  lemma PassOpsFit(s: Ssd, force: bool, luns: nat)
    requires s.Shape() && s.q.Sound() && luns == s.g.lunsPerCh * s.g.nchs
    ensures Fits(PassOps(s, force), luns)
  {
    hide LineOps;
    if s.VictimLine(force).Some? {
      LineOpsFit(s.Detach(), 0, 0, s.VictimLine(force).value, luns);
    }
  }

  /** What a pass over v costs LUN (c, u): a read for each of its valid pages, its round-robin share of
      the programs, and an erase. */
  ghost function PassLunTime(s: Ssd, v: nat, c: nat, u: nat, luns: nat): (w: int)
    requires luns >= 1 && v < |s.q.pri| && s.q.pri[v] >= 0 && BlockId(c, u, v) in s.blocks
  {
    s.blocks[BlockId(c, u, v)].vpc * s.g.pgRdLat
    + Load(RoundRobin(LunNo(s.g, s.NewPage()), s.q.pri[v], luns), u * s.g.nchs + c) * s.g.pgWrLat
    + s.g.blkErLat
  }

  ghost predicate BusyFor(l: Luns, r: Luns, x: nat, w: int, clock: nat -> nat) {
    && x < |l.avail| == |r.avail| && l.ticks < r.ticks
    && l.avail[x] + w <= r.avail[x] <= Max(l.avail[x], clock(r.ticks - 1)) + w
  }

  /** LUN (c, u) after the operations of a pass over v. */
  ghost predicate PassKeepsBusy(
    s: Ssd, v: nat, ops: seq<Op>, l: Luns, clock: nat -> nat, c: nat, u: nat, luns: nat)
  {
    && PassDoes(s, v, ops, luns) && BlockId(c, u, v) in s.blocks
    && BusyFor(l, GcTime(s.g, l, ops, clock), u * s.g.nchs + c, PassLunTime(s, v, c, u, luns), clock)
  }

  lemma SomethingDone(ops: seq<Op>, x: nat)
    requires Load(KindLuns(ops, NandErase), x) == 1
    ensures ops != []
  {
  }

  lemma BusyWhenDone(s: Ssd, v: nat, ops: seq<Op>, l: Luns, clock: nat -> nat, c: nat, u: nat, luns: nat)
    requires PassDoes(s, v, ops, luns) && Fits(ops, luns) && Forward(clock) && s.g.enableGcDelay
    requires luns == s.g.lunsPerCh * s.g.nchs == |l.avail| && c < s.g.nchs && u < s.g.lunsPerCh
    ensures PassKeepsBusy(s, v, ops, l, clock, c, u, luns)
  {
    hide RoundRobin, Load, KindLuns;
    var x := u * s.g.nchs + c;
    assert PassLunWork(s, v, ops, c, u);
    SomethingDone(ops, x);
    DigitBound(u, c, s.g.nchs, s.g.lunsPerCh);
    ChargeBounds(s.g, l, ops, clock, x);
    WorkByKind(s.g, ops, x);
  }

  /** With GC delays a successful pass keeps each LUN busy for its part of the pass, from its free time
      on at the earliest, and from the pass's last clock reading on at the latest. */
  lemma PassBusy(s: Ssd, force: bool, l: Luns, clock: nat -> nat, c: nat, u: nat, luns: nat)
    requires Inv(s) && s.Shape() && s.q.Sound() && s.DoGc(force).Cleaned? && s.g.enableGcDelay
    requires luns >= 1 && luns == s.g.lunsPerCh * s.g.nchs == |l.avail| && Forward(clock)
    requires c < s.g.nchs && u < s.g.lunsPerCh
    ensures s.VictimLine(force).Some?
    ensures PassKeepsBusy(s, s.VictimLine(force).value, PassOps(s, force), l, clock, c, u, luns)
  {
    hide PassOps, Inv, Ssd.Shape, Ssd.DoGc, Ssd.VictimLine, PassDoes, PassKeepsBusy;
    PassWork(s, force, luns);
    PassOpsFit(s, force, luns);
    BusyWhenDone(s, s.VictimLine(force).value, PassOps(s, force), l, clock, c, u, luns);
  }
}
