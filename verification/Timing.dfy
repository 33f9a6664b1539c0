/** NAND timing: each LUN serves one operation at a time (ssd_advance_status), and a user command's
    latency is the largest of its pages' latencies. LUNs are numbered lun * nchs + ch. */
module Timing {
  import opened Common
  import opened Arith
  import opened RoundRobins
  import opened Geometries
  import opened Ssds

  datatype NandCmd = NandRead | NandWrite | NandErase

  function Latency(g: Geometry, cmd: NandCmd): (lat: nat) {
    match cmd
    case NandRead => g.pgRdLat
    case NandWrite => g.pgWrLat
    case NandErase => g.blkErLat
  }

  /** When an operation of `lat` issued at time t on a LUN free from `avail` on is over. */
  function Finish(avail: nat, t: nat, lat: nat): (over: nat) {
    (if avail < t then t else avail) + lat
  }

  /** One operation of `lat` on each LUN of the list, in order, all issued at time t. */
  function Serve(avail: seq<nat>, luns: seq<nat>, t: nat, lat: nat): (r: seq<nat>)
    requires forall k :: 0 <= k < |luns| ==> luns[k] < |avail|
    ensures |r| == |avail|
  {
    if luns == [] then avail
    else
      var last := |luns| - 1;
      var before := Serve(avail, luns[..last], t, lat);
      before[luns[last] := Finish(before[luns[last]], t, lat)]
  }

  /** The `maxlat` of the source's loops. */
  function MaxLatency(avail: seq<nat>, luns: seq<nat>, t: nat, lat: nat): (m: nat)
    requires forall k :: 0 <= k < |luns| ==> luns[k] < |avail|
  {
    if luns == [] then 0
    else
      var last := |luns| - 1;
      Max(MaxLatency(avail, luns[..last], t, lat), Serve(avail, luns, t, lat)[luns[last]] - t)
  }

  /** k operations on a LUN finish at max(avail, t) + k * lat. */
  lemma {:induction false} ServeClosedForm(avail: seq<nat>, luns: seq<nat>, t: nat, lat: nat, l: nat)
    requires forall k :: 0 <= k < |luns| ==> luns[k] < |avail|
    requires l < |avail|
    ensures Serve(avail, luns, t, lat)[l] ==
              if Load(luns, l) == 0 then avail[l] else Max(avail[l], t) + Load(luns, l) * lat
  {
    if luns != [] {
      var rest := luns[..|luns| - 1];
      ServeClosedForm(avail, rest, t, lat, l);
      OneMore(Load(rest, l), lat);
    }
  }

  /** The latency of a LUN that serves k > 0 of the pages. */
  function LunLatency(avail: seq<nat>, luns: seq<nat>, t: nat, lat: nat, l: nat): (m: nat)
    requires l < |avail|
  {
    Max(avail[l], t) + Load(luns, l) * lat - t
  }

  /** The command's latency is the maximum over the LUNs it touches. */
  lemma {:induction false} LatencyClosedForm(avail: seq<nat>, luns: seq<nat>, t: nat, lat: nat)
    requires forall k :: 0 <= k < |luns| ==> luns[k] < |avail|
    ensures IsMaximum(avail, luns, t, lat, MaxLatency(avail, luns, t, lat))
  {
    if luns != [] {
      hide IsMaximum;
      var last, rest := luns[|luns| - 1], luns[..|luns| - 1];
      assert luns == rest + [last];
      LatencyClosedForm(avail, rest, t, lat);
      ServeClosedForm(avail, luns, t, lat, last);
      LoadedIsListed(luns, last);
      OneMoreServed(avail, rest, last, t, lat, MaxLatency(avail, rest, t, lat));
    }
  }

  /** m is 0 for no page, else the largest latency of a LUN in the list. */
  ghost predicate IsMaximum(avail: seq<nat>, luns: seq<nat>, t: nat, lat: nat, m: nat)
    requires forall k :: 0 <= k < |luns| ==> luns[k] < |avail|
  {
    && (luns == [] ==> m == 0)
    && (forall l :: l in luns ==> LunLatency(avail, luns, t, lat, l) <= m)
    && (luns != [] ==> exists l :: l in luns && LunLatency(avail, luns, t, lat, l) == m)
  }

  lemma OneMoreServed(avail: seq<nat>, rest: seq<nat>, last: nat, t: nat, lat: nat, m0: nat)
    requires (forall k :: 0 <= k < |rest| ==> rest[k] < |avail|) && last < |avail|
    requires IsMaximum(avail, rest, t, lat, m0)
    ensures forall k :: 0 <= k < |rest + [last]| ==> (rest + [last])[k] < |avail|
    ensures IsMaximum(avail, rest + [last], t, lat, Max(m0, LunLatency(avail, rest + [last], t, lat, last)))
  {
    var luns := rest + [last];
    var m := Max(m0, LunLatency(avail, luns, t, lat, last));
    assert luns[..|luns| - 1] == rest;
    forall l | l in luns
      ensures LunLatency(avail, luns, t, lat, l) <= m
    {
      if l != last {
        assert l in rest && LunLatency(avail, rest, t, lat, l) <= m0;
      }
    }
    if m > LunLatency(avail, luns, t, lat, last) {
      OneMoreLoad(avail, rest, last, t, lat, m0);
      var l :| l in rest && LunLatency(avail, rest, t, lat, l) == m0;
      assert l in luns && l != last;
    } else {
      assert last in luns;
    }
  }

  /** Serving one more page never shortens a LUN's time. */
  lemma OneMoreLoad(avail: seq<nat>, rest: seq<nat>, last: nat, t: nat, lat: nat, m0: nat)
    requires last < |avail|
    ensures LunLatency(avail, rest, t, lat, last) <= LunLatency(avail, rest + [last], t, lat, last)
    ensures rest == [] ==> Load(rest, last) == 0
  {
    assert (rest + [last])[..|rest|] == rest;
    OneMore(Load(rest, last), lat);
  }

  /** After serving `luns` from `avail` the LUNs are busy until `busy` and the command took m. */
  ghost predicate Timed(avail: seq<nat>, luns: seq<nat>, t: nat, lat: nat, busy: seq<nat>, m: nat) {
    && (forall k :: 0 <= k < |luns| ==> luns[k] < |avail|)
    && busy == Serve(avail, luns, t, lat)
    && m == MaxLatency(avail, luns, t, lat)
  }

  lemma TimedNone(avail: seq<nat>, t: nat, lat: nat)
    ensures Timed(avail, [], t, lat, avail, 0)
  {
  }

  lemma TimedOneMore(avail: seq<nat>, luns: seq<nat>, l: nat, t: nat, lat: nat, busy: seq<nat>, m: nat)
    requires Timed(avail, luns, t, lat, busy, m) && l < |busy|
    ensures Timed(avail, luns + [l], t, lat,
                  busy[l := Finish(busy[l], t, lat)], Max(m, Finish(busy[l], t, lat) - t))
    ensures Timed(avail, luns + [l], t, lat,
                  busy[l := Finish(busy[l], t, lat)], Max(Finish(busy[l], t, lat) - t, m))
  {
    assert (luns + [l])[..|luns|] == luns;
  }

  // ---------- round robin writes ----------

  /** On an idle device a write of n pages takes ceil(n / tt_luns) program times. */
  lemma IdleWriteLatency(avail: seq<nat>, start: nat, n: nat, t: nat, lat: nat)
    requires start < |avail| && forall l :: 0 <= l < |avail| ==> avail[l] <= t
    ensures MaxLatency(avail, RoundRobin(start, n, |avail|), t, lat) == CeilDiv(n, |avail|) * lat
  {
    var s := RoundRobin(start, n, |avail|);
    LatencyClosedForm(avail, s, t, lat);
    if n > 0 {
      assert s[0] == start % |avail| == start by { SmallMod(start, |avail|); }
      RoundRobinLoad(start, n, |avail|, start);
      forall l | l in s
        ensures Load(s, l) <= CeilDiv(n, |avail|)
        ensures LunLatency(avail, s, t, lat, l) <= CeilDiv(n, |avail|) * lat
      {
        RoundRobinLoad(start, n, |avail|, l);
        MulMonotone(Load(s, l), CeilDiv(n, |avail|), lat);
      }
      assert start in s;
      assert LunLatency(avail, s, t, lat, start) == CeilDiv(n, |avail|) * lat;
    } else {
      SmallMod(0, |avail|);
    }
  }

  // ---------- which LUNs a command uses ----------

  function LunNo(g: Geometry, a: Ppa): (l: nat) { a.lun * g.nchs + a.ch }

  lemma LunNoInRange(g: Geometry, a: Ppa)
    requires g.Has(a)
    ensures LunNo(g, a) < g.lunsPerCh * g.nchs
  {
    DigitBound(a.lun, a.ch, g.nchs, g.lunsPerCh);
  }

  /** The LUN numbers of in-range addresses are exactly [0, tt_luns), one per (channel, LUN). */
  lemma LunNoInjective(g: Geometry, a: Ppa, b: Ppa)
    requires g.Has(a) && g.Has(b) && LunNo(g, a) == LunNo(g, b)
    ensures a.lun == b.lun && a.ch == b.ch
  {
    DigitSplits(a.lun, a.ch, g.nchs);
    DigitSplits(b.lun, b.ch, g.nchs);
  }

  /** The LUNs programmed by a successful write of pages lpn..end. */
  function LunsWritten(s: Ssd, lpn: nat, end: nat, content: nat): (r: seq<nat>)
    requires s.Shape() && end < |s.maptbl| && s.WritePages(lpn, end, content).Some?
    decreases end + 1 - lpn
  {
    if lpn > end then []
    else [LunNo(s.g, s.NewPage())] + LunsWritten(s.WritePage(lpn, content).value, lpn + 1, end, content)
  }

  lemma NextNo(ch: nat, lun: nat, nchs: nat, luns: nat)
    requires ch < nchs && lun < luns
    ensures (lun * nchs + ch + 1) % (luns * nchs) ==
              if ch + 1 < nchs then lun * nchs + (ch + 1)
              else if lun + 1 < luns then (lun + 1) * nchs + 0
              else 0
  {
    DigitBound(lun, ch, nchs, luns);
    var top := luns * nchs;
    OneMore(lun, nchs);
    if ch + 1 < nchs {
      DigitBound(lun, ch + 1, nchs, luns);
      SmallMod(lun * nchs + ch + 1, top);
    } else if lun + 1 < luns {
      DigitBound(lun + 1, 0, nchs, luns);
      SmallMod((lun + 1) * nchs, top);
    } else {
      SelfMod(top);
    }
  }

  /** The write pointer moves to the next LUN on every page, also across pages and lines. */
  lemma NextLun(s: Ssd, luns: nat)
    requires luns >= 1 && luns == s.g.lunsPerCh * s.g.nchs
    requires s.Shape() && s.AdvanceWritePointer().Some?
    ensures LunNo(s.g, s.AdvanceWritePointer().value.NewPage()) == (LunNo(s.g, s.NewPage()) + 1) % luns
  {
    NextNo(s.wp.ch, s.wp.lun, s.g.nchs, s.g.lunsPerCh);
  }

  /** The position after (pg, lun, ch), counted with ch fastest and pg slowest. */
  lemma NextPosition(pg: nat, lun: nat, ch: nat, pgs: nat, luns: nat, nchs: nat)
    requires pg < pgs && lun < luns && ch < nchs
    ensures var k := (pg * luns + lun) * nchs + ch;
            if ch + 1 < nchs then (pg * luns + lun) * nchs + (ch + 1) == k + 1 < pgs * luns * nchs
            else if lun + 1 < luns then (pg * luns + (lun + 1)) * nchs + 0 == k + 1 < pgs * luns * nchs
            else if pg + 1 < pgs then ((pg + 1) * luns + 0) * nchs + 0 == k + 1 < pgs * luns * nchs
            else k + 1 == pgs * luns * nchs
  {
    OneMore(pg, luns);
    OneMore(pg * luns + lun, nchs);
    DigitBound(pg, lun, luns, pgs);
    if ch + 1 < nchs {
      DigitBound(pg * luns + lun, ch + 1, nchs, pgs * luns);
    } else if lun + 1 < luns {
      DigitBound(pg, lun + 1, luns, pgs);
      DigitBound(pg * luns + (lun + 1), 0, nchs, pgs * luns);
    } else if pg + 1 < pgs {
      DigitBound(pg + 1, 0, luns, pgs);
      DigitBound((pg + 1) * luns, 0, nchs, pgs * luns);
    }
  }

  /** Within a line the write pointer goes through the pages by their offset, one at a time; from the
      last one it moves to the first page of the line at the head of the free list. */
  lemma NextOffset(s: Ssd)
    requires s.Shape() && s.g.Ok() && s.g.Calculated() && s.AdvanceWritePointer().Some?
    ensures var a, b := s.NewPage(), s.AdvanceWritePointer().value.NewPage();
            && s.g.Has(a) && s.g.Has(b)
            && if Offset(s.g, a) + 1 < s.g.pgsPerLine then Offset(s.g, b) == Offset(s.g, a) + 1 && b.blk == a.blk
               else Offset(s.g, b) == 0 && s.free != [] && b.blk == s.free[0]
  {
    hide Ssd.Shape, Geometry.Calculated, Offset;
    PageInRange(s);
    PageInRange(s.AdvanceWritePointer().value);
    PgsPerLineIsNested(s.g);
    StepsToOffset(s.g, s.NewPage(), s.AdvanceWritePointer().value.NewPage());
  }

  lemma StepsToOffset(g: Geometry, a: Ppa, b: Ppa)
    requires g.Positive() && g.Has(a) && g.pgsPerLine == g.pgsPerBlk * g.lunsPerCh * g.nchs
    requires b.ch == if a.ch + 1 < g.nchs then a.ch + 1 else 0
    requires b.lun == if a.ch + 1 < g.nchs then a.lun else if a.lun + 1 < g.lunsPerCh then a.lun + 1 else 0
    requires b.pg == if a.ch + 1 < g.nchs || a.lun + 1 < g.lunsPerCh then a.pg
                     else if a.pg + 1 < g.pgsPerBlk then a.pg + 1 else 0
    ensures Offset(g, a) + 1 < g.pgsPerLine ==> Offset(g, b) == Offset(g, a) + 1
    ensures Offset(g, a) + 1 < g.pgsPerLine <==>
              a.ch + 1 < g.nchs || a.lun + 1 < g.lunsPerCh || a.pg + 1 < g.pgsPerBlk
    ensures Offset(g, a) + 1 >= g.pgsPerLine ==> Offset(g, b) == 0
  {
    NextPosition(a.pg, a.lun, a.ch, g.pgsPerBlk, g.lunsPerCh, g.nchs);
  }

  lemma NextLunAfterWrite(s: Ssd, t: Ssd, lpn: nat, content: nat, luns: nat)
    requires luns >= 1 && luns == s.g.lunsPerCh * s.g.nchs
    requires s.Shape() && t.Shape() && lpn < |s.maptbl| && s.WritePage(lpn, content) == Some(t)
    ensures LunNo(s.g, t.NewPage()) == (LunNo(s.g, s.NewPage()) + 1) % luns
  {
    hide Ssd.Shape, Ssd.AdvanceWritePointer, Ssd.Supersede, Ssd.Bind, Ssd.MarkPageValid, LunNo;
    var s1 := s.Supersede(lpn);
    PageInRange(s1);
    PageInRange(s);
    var s2 := s1.Bind(lpn, s1.NewPage(), content);
    BindKeepsPointer(s1, lpn, content);
    NextLun(s2.MarkPageValid(s1.NewPage()), luns);
  }

  lemma BindKeepsPointer(s: Ssd, lpn: nat, content: nat)
    requires s.Shape() && lpn < |s.maptbl|
    ensures s.Bind(lpn, s.NewPage(), content).wp == s.wp && s.Bind(lpn, s.NewPage(), content).g == s.g
  {
  }

  /** User pages land on LUNs round robin, starting at the write pointer. */
  lemma {:induction false} WritesAreRoundRobin(s: Ssd, lpn: nat, end: nat, content: nat)
    requires s.Shape() && s.g.ttLuns == s.g.lunsPerCh * s.g.nchs && s.g.ttLuns >= 1
    requires end < |s.maptbl| && s.WritePages(lpn, end, content).Some?
    ensures LunsWritten(s, lpn, end, content)
         == RoundRobin(LunNo(s.g, s.NewPage()), if lpn > end then 0 else end + 1 - lpn, s.g.ttLuns)
    decreases end + 1 - lpn
  {
    hide Ssd.Shape, Ssd.WritePage, LunNo;
    PageInRange(s);
    LunNoInRange(s.g, s.NewPage());
    if lpn <= end {
      var t := s.WritePage(lpn, content).value;
      NextLunAfterWrite(s, t, lpn, content, s.g.ttLuns);
      PageInRange(t);
      WritesAreRoundRobin(t, lpn + 1, end, content);
      ConsRoundRobin(LunNo(s.g, s.NewPage()), end - lpn, s.g.ttLuns);
    }
  }

  lemma WrittenLunsFit(s: Ssd, lpn: nat, end: nat, content: nat)
    requires s.Shape() && s.g.ttLuns == s.g.lunsPerCh * s.g.nchs && s.g.ttLuns >= 1
    requires end < |s.maptbl| && s.WritePages(lpn, end, content).Some?
    ensures forall k :: 0 <= k < |LunsWritten(s, lpn, end, content)| ==>
              LunsWritten(s, lpn, end, content)[k] < s.g.ttLuns
  {
    hide Ssd.Shape, Ssd.WritePages, LunNo, LunsWritten;
    WritesAreRoundRobin(s, lpn, end, content);
  }

  lemma PageInRange(s: Ssd)
    requires s.Shape()
    ensures s.g.Has(s.NewPage()) && |s.maptbl| == s.g.ttPgs
  {
  }

  /** The LUNs read by a read of pages lpn..end: unmapped pages cost nothing. */
  function LunsRead(s: Ssd, lpn: nat, end: nat): (r: seq<nat>)
    requires s.Shape() && end < |s.maptbl|
    decreases end + 1 - lpn
  {
    if lpn > end then []
    else
      match s.maptbl[lpn]
      case None => LunsRead(s, lpn + 1, end)
      case Some(a) => [LunNo(s.g, a)] + LunsRead(s, lpn + 1, end)
  }

  /** The mapped pages of lpn..end that lie on LUN l. */
  ghost function MappedOn(s: Ssd, lpn: nat, end: nat, l: nat): (w: set<nat>)
    requires s.Shape() && end < |s.maptbl|
    ensures forall i: nat :: i in w <==> lpn <= i <= end && s.maptbl[i].Some? && LunNo(s.g, s.maptbl[i].value) == l
  {
    set i: nat | lpn <= i <= end && s.maptbl[i].Some? && LunNo(s.g, s.maptbl[i].value) == l
  }

  /** A read goes to a LUN once for each mapped page there. */
  lemma {:induction false} LunsReadLoad(s: Ssd, lpn: nat, end: nat, l: nat)
    requires s.Shape() && end < |s.maptbl|
    ensures Load(LunsRead(s, lpn, end), l) == |MappedOn(s, lpn, end, l)|
    decreases end + 1 - lpn
  {
    hide Ssd.Shape, LunNo, Load;
    if lpn > end {
      assert MappedOn(s, lpn, end, l) == {};
      LoadedIsListed([], l);
    } else {
      LunsReadLoad(s, lpn + 1, end, l);
      var rest := MappedOn(s, lpn + 1, end, l);
      if s.maptbl[lpn].Some? {
        LoadOfCons(LunNo(s.g, s.maptbl[lpn].value), LunsRead(s, lpn + 1, end), l);
      }
      if s.maptbl[lpn].Some? && LunNo(s.g, s.maptbl[lpn].value) == l {
        assert MappedOn(s, lpn, end, l) == rest + {lpn};
      } else {
        assert MappedOn(s, lpn, end, l) == rest;
      }
    }
  }

  /** A user write: every LUN serves n / tt_luns pages or one more, from the write pointer's LUN on,
      and on an idle device the whole write takes ceil(n / tt_luns) program times. */
  lemma UserWriteLatency(s: Ssd, lpn: nat, end: nat, content: nat, avail: seq<nat>, t: nat)
    requires s.Shape() && s.g.ttLuns == s.g.lunsPerCh * s.g.nchs && s.g.ttLuns >= 1 && |avail| == s.g.ttLuns
    requires end < |s.maptbl| && s.WritePages(lpn, end, content).Some?
    ensures var luns := LunsWritten(s, lpn, end, content); var n := if lpn > end then 0 else end + 1 - lpn;
            var start := LunNo(s.g, s.NewPage()); var lat := s.g.pgWrLat;
            && start < |avail|
            && (forall k :: 0 <= k < |luns| ==> luns[k] < |avail|)
            && (forall l :: 0 <= l < |avail| ==>
                  Load(luns, l) == n / |avail| + if Distance(start, l, |avail|) < n % |avail| then 1 else 0)
            && ((forall l :: 0 <= l < |avail| ==> avail[l] <= t) ==>
                  MaxLatency(avail, luns, t, lat) == CeilDiv(n, |avail|) * lat)
  {
    hide Ssd.Shape, Ssd.WritePage, Ssd.WritePages, LunNo, LunsWritten, Load, MaxLatency;
    PageInRange(s);
    LunNoInRange(s.g, s.NewPage());
    WritesAreRoundRobin(s, lpn, end, content);
    var n, start := if lpn > end then 0 else end + 1 - lpn, LunNo(s.g, s.NewPage());
    forall l | 0 <= l < |avail|
      ensures Load(RoundRobin(start, n, |avail|), l)
           == n / |avail| + if Distance(start, l, |avail|) < n % |avail| then 1 else 0
    {
      RoundRobinLoad(start, n, |avail|, l);
    }
    if forall l :: 0 <= l < |avail| ==> avail[l] <= t {
      IdleWriteLatency(avail, start, n, t, s.g.pgWrLat);
    }
  }
}
