/** The logical-to-physical table and the reverse table. */
module Mapping {
  import opened Common
  import opened Geometries
  import opened Ssds
  import opened Space

  /** maptbl on mapped pages and rmap on valid flash pages are inverse to each other, and an
      invalid page has no owner. Nothing is said about free pages, whose reverse entries an erase
      leaves stale, nor about pages in x: the victim pages garbage collection has already visited. */
  ghost predicate Inverse(
    pages: set<Ppa>, maptbl: seq<Option<Ppa>>, rmap: map<Ppa, Option<nat>>, status: map<Ppa, PageStatus>, x: set<Ppa>)
  {
    && status.Keys == rmap.Keys == pages
    && (forall lpn :: 0 <= lpn < |maptbl| && maptbl[lpn].Some? ==>
          && maptbl[lpn].value in pages && maptbl[lpn].value !in x
          && status[maptbl[lpn].value] == PgValid
          && rmap[maptbl[lpn].value] == Some(lpn))
    && (forall a :: a in pages && a !in x && status[a] == PgValid ==>
          rmap[a].Some? && rmap[a].value < |maptbl| && maptbl[rmap[a].value] == Some(a))
    && (forall a :: a in pages && a !in x && status[a] == PgInvalid ==> rmap[a].None?)
  }

  ghost predicate MapInv(s: Ssd, x: set<Ppa>)
    requires s.Shape()
  {
    Inverse(Pages(s.g), s.maptbl, s.rmap, s.status, x)
  }

  /** The invariant between commands. */
  ghost predicate Inv(s: Ssd) {
    SpaceInv(s, -1, false) && MapInv(s, {})
  }

  // ---------- one user page ----------

  lemma InverseAfterFirstWrite(
    pages: set<Ppa>, maptbl: seq<Option<Ppa>>, rmap: map<Ppa, Option<nat>>, status: map<Ppa, PageStatus>,
    lpn: nat, now: Ppa)
    requires Inverse(pages, maptbl, rmap, status, {}) && lpn < |maptbl| && maptbl[lpn].None?
    requires now in pages && status[now] == PgFree
    ensures Inverse(pages, maptbl[lpn := Some(now)], rmap[now := Some(lpn)], status[now := PgValid], {})
  {
  }

  lemma InverseAfterOverwrite(
    pages: set<Ppa>, maptbl: seq<Option<Ppa>>, rmap: map<Ppa, Option<nat>>, status: map<Ppa, PageStatus>,
    lpn: nat, old': Ppa, now: Ppa)
    requires Inverse(pages, maptbl, rmap, status, {}) && lpn < |maptbl| && maptbl[lpn] == Some(old')
    requires now in pages && status[now] == PgFree
    ensures Inverse(pages, maptbl[lpn := Some(now)], rmap[old' := None][now := Some(lpn)],
                    status[old' := PgInvalid][now := PgValid], {})
  {
  }

  lemma WritePageMaps(s: Ssd, lpn: nat, content: nat)
    requires s.Shape() && MapInv(s, {}) && lpn < |s.maptbl|
    requires s.status[s.NewPage()] == PgFree
    requires s.WritePage(lpn, content).Some?
    ensures MapInv(s.WritePage(lpn, content).value, {})
    ensures s.WritePage(lpn, content).value.maptbl == s.maptbl[lpn := Some(s.NewPage())]
    ensures s.WritePage(lpn, content).value.data == s.data[s.NewPage() := content]
  {
    if s.maptbl[lpn].Some? {
      InverseAfterOverwrite(Pages(s.g), s.maptbl, s.rmap, s.status, lpn, s.maptbl[lpn].value, s.NewPage());
    } else {
      InverseAfterFirstWrite(Pages(s.g), s.maptbl, s.rmap, s.status, lpn, s.NewPage());
    }
  }

  /** No other logical page sees the new flash page. */
  lemma ViewAfterBind(s: Ssd, t: Ssd, lpn: nat, content: nat)
    requires s.Shape() && t.Shape() && MapInv(s, {}) && lpn < |s.maptbl|
    requires s.status[s.NewPage()] == PgFree
    requires t.maptbl == s.maptbl[lpn := Some(s.NewPage())] && t.data == s.data[s.NewPage() := content]
    ensures t.View() == s.View()[lpn := Some(content)]
  {
    forall i: nat | i < |s.maptbl|
      ensures t.View()[i] == s.View()[lpn := Some(content)][i]
    {
      assert s.View()[i] == s.ReadBack(i) && t.View()[i] == t.ReadBack(i);
    }
  }

  /** A user page write: possible exactly while two free pages are left, it uses one of them, keeps
      the invariant, and changes the host's view in one place. */
  lemma WritePageKeepsInv(s: Ssd, lpn: nat, content: nat)
    requires Inv(s) && lpn < |s.maptbl|
    ensures s.WritePage(lpn, content).Some? <==> Room(s, -1) >= 2
    ensures s.WritePage(lpn, content).Some? ==>
              && Inv(s.WritePage(lpn, content).value)
              && Room(s.WritePage(lpn, content).value, -1) == Room(s, -1) - 1
              && s.WritePage(lpn, content).value.maptbl == s.maptbl[lpn := Some(s.NewPage())]
              && s.WritePage(lpn, content).value.View() == s.View()[lpn := Some(content)]
  {
    var s1 := s.Supersede(lpn);
    SupersedeKeepsSpace(s, lpn);
    AppendKeepsSpace(s1, -1, lpn, content);
    NewPageIsFree(s, -1);
    if s.WritePage(lpn, content).Some? {
      WritePageMaps(s, lpn, content);
      ViewAfterBind(s, s.WritePage(lpn, content).value, lpn, content);
    }
  }

  lemma SupersedeKeepsSpace(s: Ssd, lpn: nat)
    requires Inv(s) && lpn < |s.maptbl|
    ensures SpaceInv(s.Supersede(lpn), -1, false)
    ensures Room(s.Supersede(lpn), -1) == Room(s, -1)
  {
    hide Sized, LineOk, BlockCounted, Lists, Dangling;
    if s.maptbl[lpn].Some? {
      var a := s.maptbl[lpn].value;
      MarkPageInvalidKeepsSpace(s, -1, a);
      CountUpdate(s.status, RoomPages(s, -1), a, PgInvalid, PgFree);
      SpaceIgnoresMaps(s.MarkPageInvalid(a), s.Supersede(lpn), -1);
    }
  }

  // ---------- a run of user pages ----------

  /** The host's view after writing pages lpn..end. */
  function Overwrite(v: seq<Option<nat>>, lpn: nat, end: nat, content: nat): (r: seq<Option<nat>>)
    requires end < |v|
    ensures |r| == |v|
    ensures forall i: nat :: i < |v| ==> r[i] == if lpn <= i <= end then Some(content) else v[i]
  {
    seq(|v|, i requires 0 <= i < |v| => if lpn <= i <= end then Some(content) else v[i])
  }

  /** t is s after a successful write of pages lpn..end. */
  ghost predicate Wrote(s: Ssd, t: Ssd, lpn: nat, end: nat, content: nat)
    requires s.Shape() && end < |s.maptbl|
  {
    && t.Shape() && t.g == s.g
    && t.View() == Overwrite(s.View(), lpn, end, content)
    && forall i: nat :: i < |s.maptbl| ==> (t.maptbl[i].Some? <==> s.maptbl[i].Some? || lpn <= i <= end)
  }

  lemma WroteOne(s: Ssd, t: Ssd, lpn: nat, content: nat)
    requires s.Shape() && t.Shape() && t.g == s.g && lpn < |s.maptbl|
    requires t.maptbl == s.maptbl[lpn := Some(s.NewPage())] && t.View() == s.View()[lpn := Some(content)]
    ensures Wrote(s, t, lpn, lpn, content)
  {
    assert s.View()[lpn := Some(content)] == Overwrite(s.View(), lpn, lpn, content);
  }

  lemma WroteMore(s: Ssd, t: Ssd, u: Ssd, lpn: nat, end: nat, content: nat)
    requires s.Shape() && t.Shape() && lpn <= end < |s.maptbl|
    requires Wrote(s, t, lpn, lpn, content) && Wrote(t, u, lpn + 1, end, content)
    ensures Wrote(s, u, lpn, end, content)
  {
    assert Overwrite(Overwrite(s.View(), lpn, lpn, content), lpn + 1, end, content)
        == Overwrite(s.View(), lpn, end, content);
  }

  lemma WroteNone(s: Ssd, lpn: nat, end: nat, content: nat)
    requires s.Shape() && end < lpn && end < |s.maptbl|
    ensures Wrote(s, s, lpn, end, content)
  {
    assert Overwrite(s.View(), lpn, end, content) == s.View();
  }

  /** Writing pages lpn..end, without garbage collection in between, succeeds exactly when it needs
      fewer pages than are free. */
  lemma {:induction false} WritePagesKeepInv(s: Ssd, lpn: nat, end: nat, content: nat)
    requires Inv(s) && end < |s.maptbl|
    ensures var r := s.WritePages(lpn, end, content); var n := if lpn > end then 0 else end + 1 - lpn;
            && (r.Some? <==> n < Room(s, -1))
            && (r.Some? ==> r.value.Shape() && Inv(r.value) && Room(r.value, -1) == Room(s, -1) - n
                            && Wrote(s, r.value, lpn, end, content))
    decreases end + 1 - lpn
  {
    hide Ssd.Shape;
    if lpn > end {
      MidLineRoom(s, -1);
      WroteNone(s, lpn, end, content);
    } else {
      WritePageKeepsInv(s, lpn, content);
      if s.WritePage(lpn, content).Some? {
        var t := s.WritePage(lpn, content).value;
        WritePagesKeepInv(t, lpn + 1, end, content);
        WroteOne(s, t, lpn, content);
        if t.WritePages(lpn + 1, end, content).Some? {
          WroteMore(s, t, t.WritePages(lpn + 1, end, content).value, lpn, end, content);
        }
      }
    }
  }
}
