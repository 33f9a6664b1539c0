/** Space accounting of the flash translation layer: page counts, the role of every line, the
    victim heap and the write pointer. Nothing here looks at the mapping tables. */
module Space {
  import opened Common
  import opened PriorityHeap
  import opened Geometries
  import opened Ssds

  // ---------- Counting pages ----------

  ghost function Those(status: map<Ppa, PageStatus>, s: set<Ppa>, st: PageStatus): (x: set<Ppa>) {
    set a | a in s && a in status && status[a] == st
  }

  ghost function Count(status: map<Ppa, PageStatus>, s: set<Ppa>, st: PageStatus): (n: nat) {
    |Those(status, s, st)|
  }

  function Bit(b: bool): (n: nat) { if b then 1 else 0 }

  lemma CountUpdate(status: map<Ppa, PageStatus>, s: set<Ppa>, a: Ppa, now: PageStatus, st: PageStatus)
    requires a in status
    ensures Count(status[a := now], s, st)
         == Count(status, s, st) + Bit(a in s && now == st) - Bit(a in s && status[a] == st)
  {
    var x, y := Those(status, s, st), Those(status[a := now], s, st);
    assert y - {a} == x - {a};
    assert a in x <==> a in s && status[a] == st;
    assert a in y <==> a in s && now == st;
    if a in x { assert |x| == |x - {a}| + 1; } else { assert x - {a} == x; }
    if a in y { assert |y| == |y - {a}| + 1; } else { assert y - {a} == y; }
  }

  lemma CountSame(before: map<Ppa, PageStatus>, after: map<Ppa, PageStatus>, s: set<Ppa>, st: PageStatus)
    requires forall a :: a in s ==> a in before && a in after && before[a] == after[a]
    ensures Count(before, s, st) == Count(after, s, st)
  {
    assert Those(before, s, st) == Those(after, s, st);
  }

  lemma CountTotal(status: map<Ppa, PageStatus>, s: set<Ppa>)
    requires s <= status.Keys
    ensures Count(status, s, PgFree) + Count(status, s, PgInvalid) + Count(status, s, PgValid) == |s|
  {
    var f, i, v := Those(status, s, PgFree), Those(status, s, PgInvalid), Those(status, s, PgValid);
    assert s == (f + i) + v;
    assert f !! i && (f + i) !! v;
    assert |f + i| == |f| + |i|;
  }

  lemma CountNone(status: map<Ppa, PageStatus>, s: set<Ppa>, st: PageStatus)
    requires s <= status.Keys
    ensures Count(status, s, st) == 0 <==> forall a :: a in s ==> status[a] != st
  {
    var x := Those(status, s, st);
    if x == {} {
      forall a | a in s ensures status[a] != st { assert a !in x; }
    } else {
      var a :| a in x;
      assert |x| == |x - {a}| + 1;
    }
  }

  lemma CountEvery(status: map<Ppa, PageStatus>, s: set<Ppa>, st: PageStatus)
    requires s <= status.Keys
    ensures Count(status, s, st) <= |s|
    ensures Count(status, s, st) == |s| <==> forall a :: a in s ==> status[a] == st
  {
    SubsetSize(Those(status, s, st), s);
    if Those(status, s, st) == s {
      forall a | a in s ensures status[a] == st { assert a in Those(status, s, st); }
    }
    if forall a :: a in s ==> status[a] == st {
      assert Those(status, s, st) == s;
    }
  }

  // ---------- The invariant ----------

  /** Page a precedes the write pointer within a line. */
  ghost predicate Before(a: Ppa, w: WritePointer) {
    || a.pg < w.pg
    || (a.pg == w.pg && (a.lun < w.lun || (a.lun == w.lun && a.ch < w.ch)))
  }

  /** Between marking the page under the write pointer and advancing, `pending` holds. */
  ghost predicate Written(s: Ssd, a: Ppa, pending: bool) {
    Before(a, s.wp) || (pending && a == s.NewPage())
  }

  ghost predicate Sized(g: Geometry) {
    && g.pgsPerLine >= 1
    && |Pages(g)| == g.ttPgs
    && (forall b: nat :: b < g.blksPerPl ==> |LinePages(g, b)| == g.pgsPerLine)
    && (forall k: BlockId :: g.HasBlock(k) ==> |BlockPages(g, k)| == g.pgsPerBlk)
  }

  /** Exactly one of free, full, current, victim. */
  ghost predicate OneRole(s: Ssd, b: nat)
    requires s.Shape() && b < s.g.blksPerPl
  {
    && (b in s.free || b in s.full || b == s.wp.curline || s.q.pos[b] != 0)
    && (b in s.free ==> b !in s.full && b != s.wp.curline && s.q.pos[b] == 0)
    && (b in s.full ==> b != s.wp.curline && s.q.pos[b] == 0)
    && (b == s.wp.curline ==> s.q.pos[b] == 0)
  }

  /** What the role of line b says about its pages. */
  ghost predicate RolePages(s: Ssd, b: nat, pending: bool)
    requires s.Shape() && b < s.g.blksPerPl
  {
    && (s.q.pos[b] != 0 ==> s.ipc[b] > 0)
    && forall a: Ppa :: s.g.Has(a) && a.blk == b ==>
         && (b in s.free ==> s.status[a] == PgFree)
         && (b in s.full ==> s.status[a] == PgValid)
         && (b == s.wp.curline ==> (s.status[a] == PgFree <==> !Written(s, a, pending)))
         && (s.q.pos[b] != 0 ==> s.status[a] != PgFree)
  }

  ghost predicate LineCounted(s: Ssd, b: nat)
    requires s.Shape() && b < s.g.blksPerPl
  {
    && s.q.pri[b] == Count(s.status, LinePages(s.g, b), PgValid)
    && s.ipc[b] == Count(s.status, LinePages(s.g, b), PgInvalid)
  }

  ghost predicate LineOk(s: Ssd, b: nat, pending: bool)
    requires s.Shape() && b < s.g.blksPerPl
  {
    OneRole(s, b) && RolePages(s, b, pending) && LineCounted(s, b)
  }

  ghost predicate BlockCounted(s: Ssd, k: BlockId)
    requires s.Shape() && s.g.HasBlock(k)
  {
    && s.blocks[k].vpc == Count(s.status, BlockPages(s.g, k), PgValid)
    && s.blocks[k].ipc == Count(s.status, BlockPages(s.g, k), PgInvalid)
  }

  ghost predicate Lists(s: Ssd) {
    && Distinct(s.free) && Distinct(s.full)
    && s.freeCnt == |s.free| && s.fullCnt == |s.full| && s.victimCnt == |s.q.d| - 1
  }

  /** v is the line taken off the heap and not yet free again, or -1. */
  ghost predicate Dangling(s: Ssd, v: int)
    requires s.Shape()
  {
    && -1 <= v < s.g.blksPerPl
    && (v >= 0 ==> v !in s.free && v !in s.full && v != s.wp.curline && s.q.pos[v] == 0)
  }

  ghost predicate SpaceInv(s: Ssd, v: int, pending: bool) {
    && s.Shape() && Sized(s.g)
    && s.q.Sound()
    && Lists(s)
    && s.wp.blk == s.wp.curline
    && Dangling(s, v)
    && (forall b: nat :: b < s.g.blksPerPl && b != v ==> LineOk(s, b, pending))
    && (forall k: BlockId :: s.g.HasBlock(k) ==> BlockCounted(s, k))
  }

  // ---------- Facts about one state ----------

  lemma LineTotal(s: Ssd, b: nat)
    requires s.Shape() && Sized(s.g) && b < s.g.blksPerPl && LineCounted(s, b)
    ensures Count(s.status, LinePages(s.g, b), PgFree) + s.ipc[b] + s.q.pri[b] == s.g.pgsPerLine
    ensures 0 <= s.ipc[b] && 0 <= s.q.pri[b]
  {
    CountTotal(s.status, LinePages(s.g, b));
  }

  /** A line is fully valid exactly when it is in the full list. */
  lemma FullIffAllValid(s: Ssd, v: int, b: nat)
    requires SpaceInv(s, v, false) && b < s.g.blksPerPl && b != v
    ensures s.q.pri[b] == s.g.pgsPerLine <==> b in s.full
    ensures s.q.pri[b] == s.g.pgsPerLine ==> s.ipc[b] == 0
  {
    assert LineOk(s, b, false);
    LineTotal(s, b);
    CountEvery(s.status, LinePages(s.g, b), PgValid);
    if b == s.wp.curline {
      assert !Written(s, s.NewPage(), false);
      assert s.NewPage() in LinePages(s.g, b);
    }
    if b in s.free {
      CountEvery(s.status, LinePages(s.g, b), PgFree);
    }
  }

  lemma BlockTotal(s: Ssd, k: BlockId)
    requires s.Shape() && Sized(s.g) && s.g.HasBlock(k) && BlockCounted(s, k)
    ensures Count(s.status, BlockPages(s.g, k), PgFree) + s.blocks[k].ipc + s.blocks[k].vpc == s.g.pgsPerBlk
  {
    CountTotal(s.status, BlockPages(s.g, k));
  }

  // ---------- mark_page_invalid ----------

  lemma LoweredSound(q: Heap, b: nat)
    requires q.Sound() && b < |q.pos|
    ensures var h := Lowered(q, b);
            && h.Sound() && h.pri == q.pri[b := q.pri[b] - 1] && |h.d| == |q.d|
            && forall x :: 0 <= x < |h.pos| ==> (h.pos[x] != 0 <==> q.pos[x] != 0)
  {
    if q.pos[b] != 0 {
      SoundReprice(q, b, q.pri[b] - 1);
    } else {
      SoundUnqueued(q, b, q.pri[b] - 1);
    }
  }

  /** The victim heap after mark_page_invalid: line b has one valid page less, and is queued if it
      was full. */
  ghost predicate HeapAfter(before: Heap, after: Heap, b: nat, wasFull: bool)
    requires b < |before.pri|
  {
    && after.Sound()
    && |after.pos| == |before.pos|
    && after.pri == before.pri[b := before.pri[b] - 1]
    && |after.d| == |before.d| + Bit(wasFull)
    && forall x :: 0 <= x < |after.pos| && x < |before.pos| ==>
         (after.pos[x] != 0 <==> before.pos[x] != 0 || (wasFull && x == b))
  }

  lemma HeapAfterInvalid(s: Ssd, a: Ppa)
    requires s.Shape() && s.g.Has(a) && s.q.Sound()
    requires s.q.pri[a.blk] == s.g.pgsPerLine ==> s.q.pos[a.blk] == 0
    ensures HeapAfter(s.q, s.MarkPageInvalid(a).q, a.blk, s.q.pri[a.blk] == s.g.pgsPerLine)
  {
    hide Heap.Sound, Heap.Insert, Lowered;
    LoweredSound(s.q, a.blk);
    if s.q.pri[a.blk] == s.g.pgsPerLine {
      SoundInsert(Lowered(s.q, a.blk), a.blk);
    }
  }

  lemma BlocksAfterInvalid(s: Ssd, a: Ppa, k: BlockId)
    requires s.Shape() && s.g.Has(a) && s.status[a] == PgValid && s.g.HasBlock(k) && BlockCounted(s, k)
    ensures BlockCounted(s.MarkPageInvalid(a), k)
  {
    CountUpdate(s.status, BlockPages(s.g, k), a, PgInvalid, PgValid);
    CountUpdate(s.status, BlockPages(s.g, k), a, PgInvalid, PgInvalid);
  }

  lemma LineCountedAfterInvalid(s: Ssd, a: Ppa, b: nat)
    requires s.Shape() && s.g.Has(a) && s.status[a] == PgValid && b < s.g.blksPerPl && LineCounted(s, b)
    requires HeapAfter(s.q, s.MarkPageInvalid(a).q, a.blk, s.q.pri[a.blk] == s.g.pgsPerLine)
    ensures LineCounted(s.MarkPageInvalid(a), b)
  {
    CountUpdate(s.status, LinePages(s.g, b), a, PgInvalid, PgValid);
    CountUpdate(s.status, LinePages(s.g, b), a, PgInvalid, PgInvalid);
  }

  lemma LineAfterInvalid(s: Ssd, a: Ppa, b: nat)
    requires s.Shape() && s.g.Has(a) && s.status[a] == PgValid && b < s.g.blksPerPl && LineOk(s, b, false)
    requires HeapAfter(s.q, s.MarkPageInvalid(a).q, a.blk, s.q.pri[a.blk] == s.g.pgsPerLine)
    requires s.q.pri[a.blk] == s.g.pgsPerLine <==> a.blk in s.full
    ensures LineOk(s.MarkPageInvalid(a), b, false)
  {
    var t := s.MarkPageInvalid(a);
    LineCountedAfterInvalid(s, a, b);
    CountNone(s.status, LinePages(s.g, b), PgInvalid);
    assert t.full == if a.blk in s.full then Without(s.full, a.blk) else s.full;
    assert OneRole(t, b);
    assert RolePages(t, b, false);
  }

  lemma {:induction false} WithoutOne(s: seq<nat>, x: nat)
    requires Distinct(s)
    ensures Distinct(Without(s, x)) && |Without(s, x)| == |s| - Bit(x in s)
  {
    if s != [] {
      assert forall y :: y in s[1..] ==> y in s;
      assert s[0] !in s[1..];
      WithoutOne(s[1..], x);
    }
  }

  lemma ListsAfterInvalid(s: Ssd, v: int, a: Ppa)
    requires s.Shape() && s.g.Has(a) && Lists(s) && Dangling(s, v) && a.blk != v
    requires HeapAfter(s.q, s.MarkPageInvalid(a).q, a.blk, s.q.pri[a.blk] == s.g.pgsPerLine)
    requires s.q.pri[a.blk] == s.g.pgsPerLine ==> a.blk in s.full
    ensures var t := s.MarkPageInvalid(a); t.q.Sound() && Lists(t) && Dangling(t, v)
  {
    WithoutOne(s.full, a.blk);
  }

  lemma InvalidatedLine(s: Ssd, v: int, a: Ppa)
    requires SpaceInv(s, v, false) && s.g.Has(a) && a.blk != v
    ensures s.q.pri[a.blk] == s.g.pgsPerLine <==> a.blk in s.full
    ensures s.q.pri[a.blk] == s.g.pgsPerLine ==> s.q.pos[a.blk] == 0
  {
    FullIffAllValid(s, v, a.blk);
    assert LineOk(s, a.blk, false);
  }

  lemma MarkPageInvalidKeepsSpace(s: Ssd, v: int, a: Ppa)
    requires SpaceInv(s, v, false) && s.g.Has(a) && a.blk != v && s.status[a] == PgValid
    ensures SpaceInv(s.MarkPageInvalid(a), v, false)
  {
    hide HeapAfter, Sized, Ssd.MarkPageInvalid, LineOk, BlockCounted, Lists, Dangling, Heap.Sound, Ssd.Shape;
    var t := s.MarkPageInvalid(a);
    InvalidatedLine(s, v, a);
    HeapAfterInvalid(s, a);
    ListsAfterInvalid(s, v, a);
    forall b: nat | b < s.g.blksPerPl && b != v
      ensures LineOk(t, b, false)
    {
      assert LineOk(s, b, false);
      LineAfterInvalid(s, a, b);
    }
    forall k: BlockId | s.g.HasBlock(k)
      ensures BlockCounted(t, k)
    {
      assert BlockCounted(s, k);
      BlocksAfterInvalid(s, a, k);
    }
  }

  // ---------- mark_page_valid ----------

  /** The page under the write pointer is free: the assertion of mark_page_valid. */
  lemma NewPageIsFree(s: Ssd, v: int)
    requires SpaceInv(s, v, false)
    ensures s.status[s.NewPage()] == PgFree && s.NewPage().blk == s.wp.curline != v
  {
    assert LineOk(s, s.wp.curline, false);
    assert !Written(s, s.NewPage(), false);
  }

  lemma LineAfterValid(s: Ssd, b: nat)
    requires s.Shape() && b < s.g.blksPerPl && LineOk(s, b, false) && s.wp.blk == s.wp.curline
    requires s.status[s.NewPage()] == PgFree
    ensures LineOk(s.MarkPageValid(s.NewPage()), b, true)
  {
    var t := s.MarkPageValid(s.NewPage());
    CountUpdate(s.status, LinePages(s.g, b), s.NewPage(), PgValid, PgValid);
    CountUpdate(s.status, LinePages(s.g, b), s.NewPage(), PgValid, PgInvalid);
    assert LineCounted(t, b);
    assert OneRole(t, b);
    assert RolePages(t, b, true);
  }

  lemma BlocksAfterValid(s: Ssd, k: BlockId)
    requires s.Shape() && s.status[s.NewPage()] == PgFree && s.g.HasBlock(k) && BlockCounted(s, k)
    ensures BlockCounted(s.MarkPageValid(s.NewPage()), k)
  {
    CountUpdate(s.status, BlockPages(s.g, k), s.NewPage(), PgValid, PgValid);
    CountUpdate(s.status, BlockPages(s.g, k), s.NewPage(), PgValid, PgInvalid);
  }

  lemma ListsAfterValid(s: Ssd, v: int)
    requires s.Shape() && s.q.Sound() && Lists(s) && Dangling(s, v)
    requires s.wp.blk == s.wp.curline && s.q.pos[s.wp.curline] == 0
    ensures var t := s.MarkPageValid(s.NewPage()); t.q.Sound() && Lists(t) && Dangling(t, v)
  {
    SoundUnqueued(s.q, s.wp.curline, s.q.pri[s.wp.curline] + 1);
  }

  lemma MarkPageValidKeepsSpace(s: Ssd, v: int)
    requires SpaceInv(s, v, false)
    ensures SpaceInv(s.MarkPageValid(s.NewPage()), v, true)
  {
    var t := s.MarkPageValid(s.NewPage());
    NewPageIsFree(s, v);
    assert LineOk(s, s.wp.curline, false);
    ListsAfterValid(s, v);
    forall b: nat | b < s.g.blksPerPl && b != v
      ensures LineOk(t, b, true)
    {
      assert LineOk(s, b, false);
      LineAfterValid(s, b);
    }
    forall k: BlockId | s.g.HasBlock(k)
      ensures BlockCounted(t, k)
    {
      assert BlockCounted(s, k);
      BlocksAfterValid(s, k);
    }
  }

  // ---------- ssd_advance_write_pointer ----------

  lemma LineAfterStep(s: Ssd, b: nat)
    requires s.Shape() && b < s.g.blksPerPl && LineOk(s, b, true) && s.wp.blk == s.wp.curline
    requires !s.AtLineEnd()
    ensures LineOk(s.AdvanceWritePointer().value, b, false)
  {
    var t := s.AdvanceWritePointer().value;
    assert LineCounted(t, b);
    assert OneRole(t, b);
    if b == s.wp.curline {
      forall a: Ppa | s.g.Has(a) && a.blk == b
        ensures Written(t, a, false) <==> Written(s, a, true)
      {
      }
    }
    assert RolePages(t, b, false);
  }

  lemma StepKeepsSpace(s: Ssd, v: int)
    requires SpaceInv(s, v, true) && !s.AtLineEnd()
    ensures SpaceInv(s.AdvanceWritePointer().value, v, false)
  {
    var t := s.AdvanceWritePointer().value;
    forall b: nat | b < s.g.blksPerPl && b != v
      ensures LineOk(t, b, false)
    {
      assert LineOk(s, b, true);
      LineAfterStep(s, b);
    }
    forall k: BlockId | s.g.HasBlock(k)
      ensures BlockCounted(t, k)
    {
      assert BlockCounted(s, k);
    }
  }

  /** The last page of a line closes it with no free page left; a line that is not fully valid has
      an invalid page: the assertions of ssd_advance_write_pointer. */
  lemma LineEndIsWritten(s: Ssd, v: int)
    requires SpaceInv(s, v, true) && s.AtLineEnd()
    ensures var b := s.wp.curline;
            && (forall a: Ppa :: s.g.Has(a) && a.blk == b ==> s.status[a] != PgFree)
            && s.ipc[b] + s.q.pri[b] == s.g.pgsPerLine && 0 <= s.ipc[b] && 0 <= s.q.pri[b]
            && (s.q.pri[b] == s.g.pgsPerLine ==>
                  forall a: Ppa :: s.g.Has(a) && a.blk == b ==> s.status[a] == PgValid)
  {
    var b := s.wp.curline;
    assert LineOk(s, b, true);
    forall a: Ppa | s.g.Has(a) && a.blk == b
      ensures Written(s, a, true)
    {
    }
    LineTotal(s, b);
    CountNone(s.status, LinePages(s.g, b), PgFree);
    CountEvery(s.status, LinePages(s.g, b), PgValid);
  }

  lemma HeapAfterClose(s: Ssd, v: int)
    requires SpaceInv(s, v, true) && s.AtLineEnd()
    ensures var t := s.CloseLine(); var b := s.wp.curline;
            && t.q.Sound() && t.q.pri == s.q.pri && Lists(t)
            && (forall x :: 0 <= x < |t.q.pos| ==>
                  (t.q.pos[x] != 0 <==> s.q.pos[x] != 0 || (x == b && s.q.pri[b] != s.g.pgsPerLine)))
  {
    assert LineOk(s, s.wp.curline, true);
    if s.q.pri[s.wp.curline] != s.g.pgsPerLine {
      SoundInsert(s.q, s.wp.curline);
    }
  }

  /** What closing the current line and opening the first free one does to the line tables. */
  ghost predicate Crossed(s: Ssd, t: Ssd)
    requires s.Shape() && t.Shape()
  {
    var b := s.wp.curline;
    && s.free != [] && t.g == s.g
    && t.status == s.status && t.ipc == s.ipc && t.q.pri == s.q.pri
    && t.free == s.free[1..]
    && t.full == (if s.q.pri[b] == s.g.pgsPerLine then s.full + [b] else s.full)
    && t.wp == WritePointer(s.free[0], 0, 0, s.wp.pl, s.free[0], 0)
    && forall x :: 0 <= x < |t.q.pos| && x < |s.q.pos| ==>
         (t.q.pos[x] != 0 <==> s.q.pos[x] != 0 || (x == b && s.q.pri[b] != s.g.pgsPerLine))
  }

  lemma RoleAfterCross(s: Ssd, t: Ssd, b: nat)
    requires s.Shape() && t.Shape() && Crossed(s, t) && Distinct(s.free)
    requires b < s.g.blksPerPl && OneRole(s, b) && OneRole(s, s.free[0])
    ensures OneRole(t, b)
    ensures b in t.free <==> b in s.free && b != s.free[0]
  {
    assert forall x :: x in s.free[1..] <==> x in s.free && x != s.free[0];
  }

  lemma PagesAfterCross(s: Ssd, t: Ssd, b: nat)
    requires s.Shape() && t.Shape() && Crossed(s, t)
    requires b < s.g.blksPerPl && OneRole(s, b) && OneRole(t, b) && RolePages(s, b, true)
    requires b in t.free <==> b in s.free && b != s.free[0]
    requires s.free[0] in s.free && s.wp.curline != s.free[0]
    requires b == s.wp.curline ==>
               && (forall a: Ppa :: s.g.Has(a) && a.blk == b ==> s.status[a] != PgFree)
               && (s.q.pri[b] != s.g.pgsPerLine ==> s.ipc[b] > 0)
               && (s.q.pri[b] == s.g.pgsPerLine ==>
                     forall a: Ppa :: s.g.Has(a) && a.blk == b ==> s.status[a] == PgValid)
    ensures RolePages(t, b, false)
  {
  }

  lemma LineAfterCross(s: Ssd, v: int, b: nat)
    requires SpaceInv(s, v, true) && s.AtLineEnd() && s.free != [] && b < s.g.blksPerPl && b != v
    requires Crossed(s, s.AdvanceWritePointer().value)
    ensures LineOk(s.AdvanceWritePointer().value, b, false)
  {
    var t := s.AdvanceWritePointer().value;
    LineEndIsWritten(s, v);
    assert LineOk(s, b, true);
    assert LineOk(s, s.wp.curline, true);
    assert s.free[0] in s.free;
    assert LineOk(s, s.free[0], true);
    RoleAfterCross(s, t, b);
    PagesAfterCross(s, t, b);
    assert LineCounted(t, b);
  }

  lemma CrossIsCrossed(s: Ssd, v: int)
    requires SpaceInv(s, v, true) && s.AtLineEnd() && s.free != []
    ensures var t := s.AdvanceWritePointer().value;
            && Crossed(s, t) && t.blocks == s.blocks
            && t.q.Sound() && Lists(t) && Dangling(t, v) && t.wp.blk == t.wp.curline
  {
    hide Sized, BlockCounted, Count, RolePages;
    var t := s.AdvanceWritePointer().value;
    HeapAfterClose(s, v);
    assert LineOk(s, s.wp.curline, true);
    assert s.free[0] in s.free && (forall x :: x in s.free[1..] <==> x in s.free && x != s.free[0]);
    if s.q.pri[s.wp.curline] == s.g.pgsPerLine {
      assert Distinct(s.full + [s.wp.curline]);
    }
  }

  lemma CrossKeepsSpace(s: Ssd, v: int)
    requires SpaceInv(s, v, true) && s.AtLineEnd() && s.free != []
    ensures SpaceInv(s.AdvanceWritePointer().value, v, false)
  {
    var t := s.AdvanceWritePointer().value;
    CrossIsCrossed(s, v);
    forall b: nat | b < s.g.blksPerPl && b != v
      ensures LineOk(t, b, false)
    {
      LineAfterCross(s, v, b);
    }
    forall k: BlockId | s.g.HasBlock(k)
      ensures BlockCounted(t, k)
    {
      assert BlockCounted(s, k);
    }
  }

  // ---------- Room: the free pages outside the dangling line ----------

  ghost function RoomPages(s: Ssd, v: int): (x: set<Ppa>) {
    set a | a in Pages(s.g) && a.blk != v
  }

  /** Free pages outside line v. */
  ghost function Room(s: Ssd, v: int): (n: nat) {
    Count(s.status, RoomPages(s, v), PgFree)
  }

  /** A free line leaves a free page besides the current line. */
  lemma LineEndRoom(s: Ssd, v: int)
    requires SpaceInv(s, v, true) && s.AtLineEnd()
    ensures Room(s, v) == 0 <==> s.free == []
  {
    CountNone(s.status, RoomPages(s, v), PgFree);
    if s.free != [] {
      var b := s.free[0];
      assert b in s.free;
      assert LineOk(s, b, true);
      var a := Ppa(0, 0, 0, b, 0);
      assert s.g.Has(a) && a in RoomPages(s, v) && s.status[a] == PgFree;
    } else {
      LineEndIsWritten(s, v);
      forall a | a in RoomPages(s, v)
        ensures s.status[a] != PgFree
      {
        assert LineOk(s, a.blk, true);
        CountEvery(s.status, LinePages(s.g, a.blk), PgValid);
      }
    }
  }

  lemma MidLineRoom(s: Ssd, v: int)
    requires SpaceInv(s, v, false)
    ensures Room(s, v) >= 1
  {
    NewPageIsFree(s, v);
    CountNone(s.status, RoomPages(s, v), PgFree);
    assert s.NewPage() in RoomPages(s, v);
  }

  /** The write pointer can move on exactly while a free page is left. */
  lemma AdvanceKeepsSpace(s: Ssd, v: int)
    requires SpaceInv(s, v, true)
    ensures s.AdvanceWritePointer().Some? <==> Room(s, v) >= 1
    ensures s.AdvanceWritePointer().Some? ==> SpaceInv(s.AdvanceWritePointer().value, v, false)
  {
    if s.AtLineEnd() {
      LineEndRoom(s, v);
      if s.free != [] {
        CrossKeepsSpace(s, v);
      }
    } else {
      StepKeepsSpace(s, v);
      MidLineRoom(s.AdvanceWritePointer().value, v);
    }
  }

  lemma RoomAfterValid(s: Ssd, v: int)
    requires SpaceInv(s, v, false)
    ensures Room(s.MarkPageValid(s.NewPage()), v) == Room(s, v) - 1
  {
    NewPageIsFree(s, v);
    assert s.NewPage() in RoomPages(s, v);
    CountUpdate(s.status, RoomPages(s, v), s.NewPage(), PgValid, PgFree);
  }

  /** Programming the page under the write pointer and advancing: possible exactly while more than
      one free page is left, and it uses up exactly one. */
  lemma AppendKeepsSpace(s: Ssd, v: int, lpn: nat, content: nat)
    requires SpaceInv(s, v, false) && lpn < |s.maptbl|
    ensures s.Append(lpn, content).Some? <==> Room(s, v) >= 2
    ensures s.Append(lpn, content).Some? ==>
              && SpaceInv(s.Append(lpn, content).value, v, false)
              && Room(s.Append(lpn, content).value, v) == Room(s, v) - 1
  {
    var s1 := s.Bind(lpn, s.NewPage(), content);
    SpaceIgnoresMaps(s, s1, v);
    RoomAfterValid(s1, v);
    MarkPageValidKeepsSpace(s1, v);
    AdvanceKeepsSpace(s1.MarkPageValid(s1.NewPage()), v);
  }

  /** The space invariant does not look at the mapping tables. */
  lemma SpaceIgnoresMaps(s: Ssd, t: Ssd, v: int)
    requires SpaceInv(s, v, false) && t.Shape()
    requires t == s.(maptbl := t.maptbl, rmap := t.rmap, data := t.data)
    ensures SpaceInv(t, v, false)
    ensures Room(t, v) == Room(s, v)
  {
    forall b: nat | b < s.g.blksPerPl && b != v
      ensures LineOk(t, b, false)
    {
      assert LineOk(s, b, false);
      LineIgnoresMaps(s, t, b);
    }
    forall k: BlockId | s.g.HasBlock(k)
      ensures BlockCounted(t, k)
    {
      assert BlockCounted(s, k);
    }
  }

  lemma LineIgnoresMaps(s: Ssd, t: Ssd, b: nat)
    requires s.Shape() && t.Shape() && b < s.g.blksPerPl && LineOk(s, b, false)
    requires t == s.(maptbl := t.maptbl, rmap := t.rmap, data := t.data)
    ensures LineOk(t, b, false)
  {
    assert LineCounted(t, b) && OneRole(t, b) && RolePages(t, b, false);
  }

  // ---------- The victim line ----------

  lemma DetachKeepsSpace(s: Ssd)
    requires SpaceInv(s, -1, false) && |s.q.d| > 1
    ensures SpaceInv(s.Detach(), s.q.d[1], false)
    ensures var v := s.q.d[1];
            && s.ipc[v] > 0 && s.ipc[v] + s.q.pri[v] == s.g.pgsPerLine
            && (forall a: Ppa :: s.g.Has(a) && a.blk == v ==> s.status[a] != PgFree)
  {
    var t, v := s.Detach(), s.q.d[1];
    SoundPop(s.q);
    assert s.q.pos[v] == 1;
    assert LineOk(s, v, false);
    LineTotal(s, v);
    CountNone(s.status, LinePages(s.g, v), PgFree);
    forall b: nat | b < s.g.blksPerPl && b != v
      ensures LineOk(t, b, false)
    {
      assert LineOk(s, b, false);
      DetachLine(s, b);
    }
    forall k: BlockId | s.g.HasBlock(k)
      ensures BlockCounted(t, k)
    {
      assert BlockCounted(s, k);
    }
  }

  lemma DetachLine(s: Ssd, b: nat)
    requires s.Shape() && s.q.Sound() && |s.q.d| > 1 && b < s.g.blksPerPl && b != s.q.d[1] && LineOk(s, b, false)
    ensures LineOk(s.Detach(), b, false)
  {
    var t := s.Detach();
    SoundPop(s.q);
    assert LineCounted(t, b);
    assert OneRole(t, b) && RolePages(t, b, false);
  }

  lemma MarkBlockFreeKeepsSpace(s: Ssd, k: BlockId)
    requires SpaceInv(s, k.blk, false) && s.g.HasBlock(k)
    ensures SpaceInv(s.MarkBlockFree(k), k.blk, false)
    ensures Room(s.MarkBlockFree(k), k.blk) == Room(s, k.blk)
  {
    var t := s.MarkBlockFree(k);
    forall b: nat | b < s.g.blksPerPl && b != k.blk
      ensures LineOk(t, b, false)
    {
      assert LineOk(s, b, false);
      LineAfterErase(s, k, b);
    }
    forall m: BlockId | s.g.HasBlock(m)
      ensures BlockCounted(t, m)
    {
      assert BlockCounted(s, m);
      BlocksAfterErase(s, k, m);
    }
    CountSame(s.status, t.status, RoomPages(s, k.blk), PgFree);
  }

  lemma LineAfterErase(s: Ssd, k: BlockId, b: nat)
    requires s.Shape() && s.g.HasBlock(k) && b < s.g.blksPerPl && b != k.blk && LineOk(s, b, false)
    ensures LineOk(s.MarkBlockFree(k), b, false)
  {
    var t := s.MarkBlockFree(k);
    CountSame(s.status, t.status, LinePages(s.g, b), PgValid);
    CountSame(s.status, t.status, LinePages(s.g, b), PgInvalid);
    assert LineCounted(t, b);
    assert OneRole(t, b) && RolePages(t, b, false);
  }

  lemma BlocksAfterErase(s: Ssd, k: BlockId, m: BlockId)
    requires s.Shape() && s.g.HasBlock(k) && s.g.HasBlock(m) && BlockCounted(s, m)
    ensures BlockCounted(s.MarkBlockFree(k), m)
  {
    var t := s.MarkBlockFree(k);
    if m == k {
      CountNone(t.status, BlockPages(s.g, k), PgValid);
      CountNone(t.status, BlockPages(s.g, k), PgInvalid);
    } else {
      CountSame(s.status, t.status, BlockPages(s.g, m), PgValid);
      CountSame(s.status, t.status, BlockPages(s.g, m), PgInvalid);
    }
  }

  lemma MarkLineFreeKeepsSpace(s: Ssd, v: nat)
    requires SpaceInv(s, v, false)
    requires forall a: Ppa :: s.g.Has(a) && a.blk == v ==> s.status[a] == PgFree
    ensures SpaceInv(s.MarkLineFree(v), -1, false)
  {
    var t := s.MarkLineFree(v);
    SoundUnqueued(s.q, v, 0);
    CountNone(s.status, LinePages(s.g, v), PgValid);
    CountNone(s.status, LinePages(s.g, v), PgInvalid);
    forall b: nat | b < s.g.blksPerPl
      ensures LineOk(t, b, false)
    {
      if b != v {
        assert LineOk(s, b, false);
      }
      LineAfterFree(s, v, b);
    }
    forall k: BlockId | s.g.HasBlock(k)
      ensures BlockCounted(t, k)
    {
      assert BlockCounted(s, k);
    }
  }

  lemma LineAfterFree(s: Ssd, v: nat, b: nat)
    requires s.Shape() && v < s.g.blksPerPl && b < s.g.blksPerPl && Dangling(s, v)
    requires if b == v
             then (forall a: Ppa :: s.g.Has(a) && a.blk == v ==> s.status[a] == PgFree)
             else LineOk(s, b, false)
    ensures LineOk(s.MarkLineFree(v), b, false)
  {
    var t := s.MarkLineFree(v);
    if b == v {
      CountNone(s.status, LinePages(s.g, v), PgValid);
      CountNone(s.status, LinePages(s.g, v), PgInvalid);
    }
    assert LineCounted(t, b);
    assert OneRole(t, b) && RolePages(t, b, false);
  }
}
