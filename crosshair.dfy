/**
 * crosshair.cpp's process state: the global vector g_windows, the control window, the
 * GDI+ token, the windows that exist, and the shutdown effects observed so far.
 *
 * g_windows is modelled as a vector's storage (`store`, from begin() over every slot it
 * has used) and its `size`: erasing position k moves the later elements down one slot
 * and leaves the old last slot's value in place, which is what an iterator that runs
 * past the new end() reads.
 */
module Crosshair {
  import opened Win32
  import Paint
  import Pixels

  /** Observable effects of destroying windows and shutting down, in order. */
  datatype Event = Destroyed(hwnd: Hwnd) | GdiplusShutdown(token: nat) | QuitPosted

  /** A value snapshot of the process state, used to specify the methods of `Process`. */
  datatype Globals = Globals(store: seq<Hwnd>, size: nat, live: set<Hwnd>, control: Hwnd, token: nat, events: seq<Event>)
  {
    predicate Valid() { size <= |store| }

    /** The elements of g_windows. */
    function Windows(): seq<Hwnd>
      requires Valid()
    {
      store[..size]
    }
  }

  /**
   * The invariant the program keeps: g_windows lists distinct live overlay windows,
   * the control window is not among them, and NULL is never a live window.
   */
  predicate Tidy(g: Globals)
  {
    && g.Valid()
    && NULL !in g.live
    && (forall i :: 0 <= i < g.size ==> g.store[i] in g.live && g.store[i] != g.control)
    && (forall i, j :: 0 <= i < j < g.size ==> g.store[i] != g.store[j])
  }

  /** std::find: the position of the first `h` in `s`, or |s| when `h` does not occur. */
  function Find(s: seq<Hwnd>, h: Hwnd): (k: nat)
    ensures k <= |s|
    ensures k < |s| <==> h in s
    ensures k < |s| ==> s[k] == h
    ensures forall j :: 0 <= j < k ==> s[j] != h
  {
    if s == [] then 0 else if s[0] == h then 0 else 1 + Find(s[1..], h)
  }

  /** `s` without its first occurrence of `h`; `s` itself when `h` does not occur. */
  function EraseFirst(s: seq<Hwnd>, h: Hwnd): (r: seq<Hwnd>)
    ensures |r| == if h in s then |s| - 1 else |s|
  {
    var k := Find(s, h);
    if k < |s| then s[..k] + s[k + 1..] else s
  }

  /** Erasing a handle that is not listed leaves the list unchanged. */
  lemma EraseFirstAbsent(s: seq<Hwnd>, h: Hwnd)
    requires h !in s
    ensures EraseFirst(s, h) == s
  {
  }

  /** Erasing removes exactly one occurrence of `h` when there is one, and nothing else. */
  lemma EraseFirstRemovesOne(s: seq<Hwnd>, h: Hwnd)
    ensures multiset(EraseFirst(s, h)) == multiset(s) - multiset{h}
    ensures |EraseFirst(s, h)| == if h in s then |s| - 1 else |s|
  {
    var k := Find(s, h);
    if k < |s| {
      var before, after := s[..k], s[k + 1..];
      assert s == before + [h] + after;
      assert multiset(s) == multiset(before) + multiset{h} + multiset(after);
      assert EraseFirst(s, h) == before + after && |before + after| == |s| - 1;
    } else {
      assert EraseFirst(s, h) == s && multiset(s)[h] == 0;
    }
  }

  /** The elements before the erased position keep their places; those after it move down by one, in order. */
  lemma EraseFirstKeepsOrder(s: seq<Hwnd>, h: Hwnd)
    ensures var k := Find(s, h);
            forall i :: 0 <= i < |EraseFirst(s, h)| ==> EraseFirst(s, h)[i] == s[if i < k then i else i + 1]
  {
  }

  /** When the elements are distinct, erasing `h` leaves exactly the others. */
  lemma EraseFirstDistinct(s: seq<Hwnd>, h: Hwnd)
    requires forall i, j :: 0 <= i < j < |s| ==> s[i] != s[j]
    ensures forall i, j :: 0 <= i < j < |EraseFirst(s, h)| ==> EraseFirst(s, h)[i] != EraseFirst(s, h)[j]
    ensures forall x :: x in EraseFirst(s, h) <==> x in s && x != h
  {
    EraseFirstKeepsOrder(s, h);
    var r := EraseFirst(s, h);
    var k := Find(s, h);
    if k < |s| {
      forall x | x in s && x != h ensures x in r {
        var i :| 0 <= i < |s| && s[i] == x;
        assert r[if i < k then i else i - 1] == x;
      }
      forall x | x in r ensures x in s && x != h {
        var i :| 0 <= i < |r| && r[i] == x;
        assert x == s[if i < k then i else i + 1];
      }
    }
  }

  /** vector::erase at position k: later elements move down a slot; the last used slot keeps its value. */
  function EraseAt(store: seq<Hwnd>, size: nat, k: nat): (r: seq<Hwnd>)
    requires k < size <= |store|
    ensures |r| == |store|
    ensures r[..size - 1] == store[..k] + store[k + 1..size]
    ensures r[size - 1..] == store[size - 1..]
  {
    store[..k] + store[k + 1..size] + store[size - 1..]
  }

  /** WndProc on WM_DESTROY: erase the first occurrence of the window from g_windows, if any. */
  function OnDestroy(g: Globals, h: Hwnd): (r: Globals)
    requires g.Valid()
    ensures r.Valid() && |r.store| == |g.store|
    ensures r.Windows() == EraseFirst(g.Windows(), h)
    ensures r.live == g.live && r.control == g.control && r.token == g.token && r.events == g.events
  {
    var w := g.Windows();
    var k := Find(w, h);
    if k < g.size then
      assert w[..k] == g.store[..k] && w[k + 1..] == g.store[k + 1..g.size];
      g.(store := EraseAt(g.store, g.size, k), size := g.size - 1)
    else g
  }

  /**
   * DestroyWindow: a window that exists is destroyed and receives WM_DESTROY, which the
   * control window's procedure answers with PostQuitMessage and an overlay window's
   * procedure with the erase from g_windows. A dead or NULL handle is refused and nothing happens.
   */
  function Destroy(g: Globals, h: Hwnd): (r: Globals)
    requires g.Valid()
    ensures r.Valid() && |r.store| == |g.store|
    ensures r.control == g.control && r.token == g.token
  {
    if h !in g.live then g
    else
      var gone := g.(live := g.live - {h}, events := g.events + [Destroyed(h)]);
      if h == g.control then gone.(events := gone.events + [QuitPosted]) else OnDestroy(gone, h)
  }

  /**
   * What DestroyWindow does: a dead or NULL handle changes nothing; a live one dies and is
   * logged; the control window's WM_DESTROY posts a quit, an overlay window's erases it from g_windows.
   */
  lemma DestroyEffect(g: Globals, h: Hwnd)
    requires g.Valid()
    ensures var r := Destroy(g, h);
            && (h !in g.live ==> r == g)
            && (h in g.live ==> r.live == g.live - {h})
            && (h in g.live ==> r.events == g.events + [Destroyed(h)] + (if h == g.control then [QuitPosted] else []))
            && (h in g.live ==> r.Windows() == if h == g.control then g.Windows() else EraseFirst(g.Windows(), h))
  {
  }

  /** Destroying any handle keeps the invariant. */
  lemma DestroyKeepsTidy(g: Globals, h: Hwnd)
    requires Tidy(g)
    ensures Tidy(Destroy(g, h))
  {
    if h in g.live && h != g.control {
      var gone := g.(live := g.live - {h}, events := g.events + [Destroyed(h)]);
      var r := OnDestroy(gone, h);
      assert Destroy(g, h) == r;
      assert r.live == g.live - {h} && r.control == g.control;
      EraseFirstDistinct(g.Windows(), h);
      forall i | 0 <= i < r.size ensures r.store[i] in r.live && r.store[i] != r.control {
        assert r.store[i] == r.Windows()[i];
        assert r.Windows()[i] in g.Windows();
      }
      forall i, j | 0 <= i < j < r.size ensures r.store[i] != r.store[j] {
        assert r.store[i] == r.Windows()[i] && r.store[j] == r.Windows()[j];
      }
    }
  }

  /** The range-for of CleanupAndExit as written: DestroyWindow(*it) for slots i, i+1, ... below the `end` fixed at the start. */
  function RangeForDestroy(g: Globals, i: nat, end: nat): (r: Globals)
    requires g.Valid() && end <= |g.store|
    ensures r.Valid() && |r.store| == |g.store|
    ensures r.control == g.control && r.token == g.token
    decreases end - i
  {
    if i >= end then g else RangeForDestroy(Destroy(g, g.store[i]), i + 1, end)
  }

  /** DestroyWindow for each handle of `hs` in turn. */
  function DestroyAll(g: Globals, hs: seq<Hwnd>): (r: Globals)
    requires g.Valid()
    ensures r.Valid() && |r.store| == |g.store|
    ensures r.control == g.control && r.token == g.token
  {
    if hs == [] then g else Destroy(DestroyAll(g, hs[..|hs| - 1]), hs[|hs| - 1])
  }

  /** The rest of CleanupAndExit: the control window if non-NULL, GDI+ if the token is non-zero, then PostQuitMessage. */
  function Finish(g: Globals): (r: Globals)
    requires g.Valid()
    ensures r.Valid()
  {
    var afterControl := if g.control != NULL then Destroy(g, g.control) else g;
    var afterGdiplus :=
      if afterControl.token != 0 then afterControl.(events := afterControl.events + [GdiplusShutdown(afterControl.token)])
      else afterControl;
    afterGdiplus.(events := afterGdiplus.events + [QuitPosted])
  }

  /** CleanupAndExit as written: the range-for runs over g_windows while each DestroyWindow erases from it. */
  function CleanupAsWritten(g: Globals): (r: Globals)
    requires g.Valid()
    ensures r.Valid()
  {
    Finish(RangeForDestroy(g, 0, g.size))
  }

  /** CleanupAndExit as intended: the loop runs over a copy of g_windows taken before the first DestroyWindow. */
  function Cleanup(g: Globals): (r: Globals)
    requires g.Valid()
    ensures r.Valid()
  {
    Finish(DestroyAll(g, g.Windows()))
  }

  function DestroyedEach(hs: seq<Hwnd>): (es: seq<Event>)
    ensures |es| == |hs|
    ensures forall i :: 0 <= i < |hs| ==> es[i] == Destroyed(hs[i])
  {
    if hs == [] then [] else DestroyedEach(hs[..|hs| - 1]) + [Destroyed(hs[|hs| - 1])]
  }

  /** Destroying the window at the head of g_windows removes it from the list and from the live set, and logs it. */
  lemma DestroyHead(p: Globals)
    requires Tidy(p) && p.size > 0
    ensures var h := p.Windows()[0];
            var r := Destroy(p, h);
            && Tidy(r)
            && r.Windows() == p.Windows()[1..]
            && r.live == p.live - {h}
            && r.events == p.events + [Destroyed(h)]
  {
    var h := p.Windows()[0];
    assert h == p.store[0];
    DestroyKeepsTidy(p, h);
    assert Find(p.Windows(), h) == 0;
  }

  /** Destroying one more handle after a list of them. */
  lemma DestroyAllSnoc(g: Globals, hs: seq<Hwnd>, h: Hwnd)
    requires g.Valid()
    ensures DestroyAll(g, hs + [h]) == Destroy(DestroyAll(g, hs), h)
  {
    assert (hs + [h])[..|hs|] == hs;
  }

  lemma DestroyedEachSnoc(hs: seq<Hwnd>, h: Hwnd)
    ensures DestroyedEach(hs + [h]) == DestroyedEach(hs) + [Destroyed(h)]
  {
    assert (hs + [h])[..|hs|] == hs;
  }

  /** Destroying the first i listed windows, one by one, keeps the invariant and leaves the rest listed. */
  lemma {:induction false} DestroyPrefixKeepsRest(g: Globals, i: nat)
    requires Tidy(g) && i <= g.size
    ensures Tidy(DestroyAll(g, g.Windows()[..i]))
    ensures DestroyAll(g, g.Windows()[..i]).Windows() == g.Windows()[i..]
  {
    if i > 0 {
      DestroyPrefixKeepsRest(g, i - 1);
      DestroyPrefixStep(g, g.Windows(), i - 1);
    }
  }

  /** One more step of the snapshot loop: from the first j windows destroyed to the first j + 1. */
  lemma DestroyPrefixStep(g: Globals, w: seq<Hwnd>, j: nat)
    requires g.Valid() && w == g.Windows() && j < |w|
    requires Tidy(DestroyAll(g, w[..j])) && DestroyAll(g, w[..j]).Windows() == w[j..]
    ensures Tidy(DestroyAll(g, w[..j + 1])) && DestroyAll(g, w[..j + 1]).Windows() == w[j + 1..]
  {
    assert w[..j + 1] == w[..j] + [w[j]];
    var p := DestroyAll(g, w[..j]);
    DestroyAllSnoc(g, w[..j], w[j]);
    DestroyNextOf(p, w, j);
  }

  /** When the listed windows are a suffix w[j..], destroying w[j] leaves the suffix w[j + 1..]. */
  lemma DestroyNextOf(p: Globals, w: seq<Hwnd>, j: nat)
    requires Tidy(p) && j < |w| && p.Windows() == w[j..]
    ensures Tidy(Destroy(p, w[j])) && Destroy(p, w[j]).Windows() == w[j + 1..]
  {
    assert p.Windows()[0] == w[j];
    DestroyHead(p);
    assert w[j..][1..] == w[j + 1..];
  }

  /** DestroyWindow for each handle of a list kills exactly those of them that were live. */
  lemma {:induction false} DestroyAllKills(g: Globals, hs: seq<Hwnd>)
    requires g.Valid()
    ensures DestroyAll(g, hs).live == g.live - (set x | x in hs)
  {
    if hs != [] {
      var init, h := hs[..|hs| - 1], hs[|hs| - 1];
      DestroyAllKills(g, init);
      assert hs == init + [h];
      assert (set x | x in hs) == (set x | x in init) + {h};
    }
  }

  /** DestroyWindow for each of a list of distinct live overlay windows logs each destruction, in list order. */
  lemma {:induction false} DestroyAllLogs(g: Globals, hs: seq<Hwnd>)
    requires g.Valid()
    requires forall i :: 0 <= i < |hs| ==> hs[i] in g.live && hs[i] != g.control
    requires forall i, j :: 0 <= i < j < |hs| ==> hs[i] != hs[j]
    ensures DestroyAll(g, hs).events == g.events + DestroyedEach(hs)
  {
    if hs != [] {
      var init, h := hs[..|hs| - 1], hs[|hs| - 1];
      DestroyAllLogs(g, init);
      assert h !in init by {
        forall k | 0 <= k < |init| ensures init[k] != h { assert init[k] == hs[k]; }
      }
      assert hs == init + [h];
      DestroyAllLogsStep(g, init, h);
    }
  }

  /** One more live overlay window, not destroyed before, adds exactly its own Destroyed event. */
  lemma DestroyAllLogsStep(g: Globals, init: seq<Hwnd>, h: Hwnd)
    requires g.Valid() && h in g.live && h != g.control && h !in init
    requires DestroyAll(g, init).events == g.events + DestroyedEach(init)
    ensures DestroyAll(g, init + [h]).events == g.events + DestroyedEach(init + [h])
  {
    DestroyAllKills(g, init);
    DestroyAllSnoc(g, init, h);
    DestroyedEachSnoc(init, h);
  }

  /** Destroying the first i listed windows, one by one: the rest stay listed, the first i are gone and logged. */
  lemma DestroyPrefix(g: Globals, i: nat)
    requires Tidy(g) && i <= g.size
    ensures var r := DestroyAll(g, g.Windows()[..i]);
            && Tidy(r)
            && r.Windows() == g.Windows()[i..]
            && r.live == g.live - (set x | x in g.Windows()[..i])
            && r.events == g.events + DestroyedEach(g.Windows()[..i])
  {
    DestroyPrefixKeepsRest(g, i);
    DestroyAllKills(g, g.Windows()[..i]);
    var w := g.Windows();
    assert forall k :: 0 <= k < i ==> w[..i][k] == g.store[k];
    DestroyAllLogs(g, w[..i]);
  }

  /** What the control-window step adds to the log. */
  function ControlEvents(g: Globals): seq<Event>
  {
    if g.control in g.live then [Destroyed(g.control), QuitPosted] else []
  }

  function ShutdownEvents(token: nat): seq<Event>
  {
    if token != 0 then [GdiplusShutdown(token)] else []
  }

  /**
   * The tail of CleanupAndExit: the control window (if it still exists) is destroyed, which
   * posts a quit, GDI+ is shut down if the token is non-zero, then the quit request is posted;
   * g_windows is not touched.
   */
  lemma FinishShutsDown(p: Globals)
    requires Tidy(p)
    ensures var r := Finish(p);
            && Tidy(r) && r.Windows() == p.Windows()
            && r.live == p.live - {p.control}
            && r.events == p.events + ControlEvents(p) + ShutdownEvents(p.token) + [QuitPosted]
  {
    if p.control != NULL {
      DestroyKeepsTidy(p, p.control);
    }
  }

  /**
   * CleanupAndExit as intended: every listed window is destroyed in list order and erased,
   * then the control window, then GDI+ is shut down, then the quit request is posted.
   */
  lemma CleanupDestroysEveryWindow(g: Globals)
    requires Tidy(g)
    ensures var r := Cleanup(g);
            && r.Windows() == []
            && r.live == g.live - (set x | x in g.Windows()) - {g.control}
            && r.events == g.events + DestroyedEach(g.Windows()) + ControlEvents(g) + ShutdownEvents(g.token) + [QuitPosted]
            && Tidy(r)
  {
    DestroyPrefix(g, g.size);
    var w := g.Windows();
    assert w[..g.size] == w;
    var p := DestroyAll(g, w);
    FinishShutsDown(p);
    assert ControlEvents(p) == ControlEvents(g) by {
      assert g.control !in (set x | x in g.Windows());
    }
  }

  /**
   * Neither global is reset, so a second CleanupAndExit (WM_CLOSE, then again after the
   * message loop) destroys nothing more but shuts GDI+ down again with the same token
   * and posts a second quit request.
   */
  lemma SecondCleanupRepeatsShutdown(g: Globals)
    requires Tidy(g)
    ensures var once := Cleanup(g);
            var twice := Cleanup(once);
            && twice.live == once.live
            && twice.Windows() == []
            && twice.events == once.events + ShutdownEvents(g.token) + [QuitPosted]
  {
    CleanupDestroysEveryWindow(g);
    var once := Cleanup(g);
    assert once.Windows() == [];
    assert DestroyAll(once, once.Windows()) == once;
    assert g.control !in once.live;
  }

  /** The as-written range-for keeps the invariant and never brings a window back. */
  lemma {:induction false} RangeForKeepsTidy(g: Globals, i: nat, end: nat)
    requires Tidy(g) && end <= |g.store|
    ensures Tidy(RangeForDestroy(g, i, end)) && RangeForDestroy(g, i, end).live <= g.live
    decreases end - i
  {
    if i < end {
      var d := Destroy(g, g.store[i]);
      DestroyKeepsTidy(g, g.store[i]);
      DestroyEffect(g, g.store[i]);
      assert d.live <= g.live;
      RangeForKeepsTidy(d, i + 1, end);
      assert RangeForDestroy(g, i, end) == RangeForDestroy(d, i + 1, end);
    }
  }

  /**
   * From `before` to `after` no window came to life and the log only grew by Destroyed
   * events, each for a window alive in `before` and dead in `after`.
   */
  predicate OnlyDeaths(before: Globals, after: Globals)
  {
    && after.live <= before.live
    && |before.events| <= |after.events|
    && after.events[..|before.events|] == before.events
    && forall k :: |before.events| <= k < |after.events| ==>
         after.events[k].Destroyed? && after.events[k].hwnd in before.live - after.live
  }

  lemma OnlyDeathsTrans(a: Globals, b: Globals, c: Globals)
    requires OnlyDeaths(a, b) && OnlyDeaths(b, c)
    ensures OnlyDeaths(a, c)
  {
    assert c.events[..|a.events|] == c.events[..|b.events|][..|a.events|];
    forall k | |a.events| <= k < |c.events|
      ensures c.events[k].Destroyed? && c.events[k].hwnd in a.live - c.live
    {
      if k < |b.events| {
        assert c.events[k] == c.events[..|b.events|][k];
      }
    }
  }

  /** With the control window gone, DestroyWindow of any handle only logs a death. */
  lemma DestroyOnlyDeath(g: Globals, h: Hwnd)
    requires g.Valid() && g.control !in g.live
    ensures OnlyDeaths(g, Destroy(g, h))
  {
    DestroyEffect(g, h);
  }

  /** Once the control window is gone, the as-written range-for only destroys overlay windows. */
  lemma {:induction false} RangeForDestroysOnlyOverlays(g: Globals, i: nat, end: nat)
    requires g.Valid() && end <= |g.store| && g.control !in g.live
    ensures OnlyDeaths(g, RangeForDestroy(g, i, end))
    decreases end - i
  {
    if i < end {
      var p := Destroy(g, g.store[i]);
      DestroyOnlyDeath(g, g.store[i]);
      RangeForDestroysOnlyOverlays(p, i + 1, end);
      OnlyDeathsTrans(g, p, RangeForDestroy(p, i + 1, end));
    } else {
      assert g.events[..|g.events|] == g.events;
    }
  }

  /**
   * The program runs CleanupAndExit as written twice: on WM_CLOSE and again after the
   * message loop ends. Neither g_windows nor the globals are reset in between, so the
   * second call walks what the first left listed (destroying only overlay windows that
   * survived the first call, never the control window again), then shuts GDI+ down again
   * with the same token and posts another quit request.
   */
  lemma SecondLiveCleanupRepeatsTail(g: Globals)
    requires Tidy(g)
    ensures var once := CleanupAsWritten(g);
            var loop := RangeForDestroy(once, 0, once.size);
            var twice := CleanupAsWritten(once);
            && Tidy(twice)
            && OnlyDeaths(once, loop) && twice.live == loop.live
            && twice.events == loop.events + ShutdownEvents(g.token) + [QuitPosted]
  {
    var first := RangeForDestroy(g, 0, g.size);
    RangeForKeepsTidy(g, 0, g.size);
    FinishShutsDown(first);
    var once := CleanupAsWritten(g);
    assert once.control !in once.live;
    RangeForKeepsTidy(once, 0, once.size);
    RangeForDestroysOnlyOverlays(once, 0, once.size);
    var loop := RangeForDestroy(once, 0, once.size);
    FinishShutsDown(loop);
    assert ControlEvents(loop) == [];
  }

  /** Three listed live overlay windows and no control window or GDI+ token. */
  function ThreeWindows(): (g: Globals)
    ensures Tidy(g)
  {
    var g := Globals([1, 2, 3], 3, {1, 2, 3}, NULL, 0, []);
    assert g.store[0] == 1 && g.store[1] == 2 && g.store[2] == 3;
    g
  }

  /** The first iteration of the range-for over ThreeWindows(): window 1 goes, 2 and 3 move down a slot. */
  lemma LiveEraseFirstStep()
    ensures Destroy(ThreeWindows(), 1) == Globals([2, 3, 3], 2, {2, 3}, NULL, 0, [Destroyed(1)])
  {
    var gone := Globals([1, 2, 3], 3, {2, 3}, NULL, 0, [Destroyed(1)]);
    assert gone.live == ({1, 2, 3} - {1});
    assert gone.Windows() == [1, 2, 3];
    assert Find([1, 2, 3], 1) == 0;
    assert EraseAt([1, 2, 3], 3, 0) == [2, 3, 3];
    assert OnDestroy(gone, 1) == gone.(store := [2, 3, 3], size := 2);
  }

  /** The second iteration reads slot 1, which now holds window 3. */
  lemma LiveEraseSecondStep()
    ensures Destroy(Globals([2, 3, 3], 2, {2, 3}, NULL, 0, [Destroyed(1)]), 3)
            == Globals([2, 3, 3], 1, {2}, NULL, 0, [Destroyed(1), Destroyed(3)])
  {
    var gone := Globals([2, 3, 3], 2, {2}, NULL, 0, [Destroyed(1), Destroyed(3)]);
    assert gone.live == ({2, 3} - {3});
    assert gone.Windows() == [2, 3];
    assert Find([2, 3], 3) == 1;
    assert EraseAt([2, 3, 3], 2, 1) == [2, 3, 3];
    assert OnDestroy(gone, 3) == gone.(size := 1);
  }

  /**
   * The live erase skips windows: with three listed windows the range-for destroys the
   * first, then the third (moved to slot 1), then meets the stale copy of the third in
   * slot 2. The second window is never destroyed and stays listed.
   */
  lemma LiveEraseLeavesWindowAlive()
    ensures CleanupAsWritten(ThreeWindows()).live == {2}
    ensures CleanupAsWritten(ThreeWindows()).Windows() == [2]
    ensures CleanupAsWritten(ThreeWindows()).events == [Destroyed(1), Destroyed(3), QuitPosted]
    ensures CleanupAsWritten(ThreeWindows()) == SURVIVOR
  {
    var g := ThreeWindows();
    LiveEraseFirstStep();
    LiveEraseSecondStep();
    var g2 := Globals([2, 3, 3], 1, {2}, NULL, 0, [Destroyed(1), Destroyed(3)]);
    assert Destroy(g2, 3) == g2;
    assert RangeForDestroy(g, 0, 3) == g2;
    assert Finish(g2) == g2.(events := g2.events + [QuitPosted]) == SURVIVOR;
    assert SURVIVOR.Windows() == [2];
  }

  /** The state the first call leaves on three windows: only window 2 listed and alive, quit posted. */
  ghost const SURVIVOR: Globals := Globals([2, 3, 3], 1, {2}, NULL, 0, [Destroyed(1), Destroyed(3), QuitPosted])

  /** A CleanupAndExit started from that state destroys window 2 and posts another quit. */
  lemma CleanupOfSurvivor(once: Globals)
    requires once == SURVIVOR
    ensures CleanupAsWritten(once).live == {}
    ensures CleanupAsWritten(once).events == once.events + [Destroyed(2), QuitPosted]
  {
    var loop := Destroy(once, 2);
    DestroyEffect(once, 2);
    assert RangeForDestroy(once, 0, 1) == loop;
  }

  /**
   * On the same three windows the program's second CleanupAndExit destroys window 2, the
   * one the first call skipped, and posts a second quit request.
   */
  lemma SecondLiveCleanupDestroysSurvivor()
    ensures CleanupAsWritten(CleanupAsWritten(ThreeWindows())).live == {}
    ensures CleanupAsWritten(CleanupAsWritten(ThreeWindows())).events
            == [Destroyed(1), Destroyed(3), QuitPosted, Destroyed(2), QuitPosted]
  {
    LiveEraseLeavesWindowAlive();
    CleanupOfSurvivor(CleanupAsWritten(ThreeWindows()));
  }

  /** On the same three windows the snapshot loop destroys all of them, in list order. */
  lemma SnapshotDestroysAllThree()
    ensures Cleanup(ThreeWindows()).live == {}
    ensures Cleanup(ThreeWindows()).events == [Destroyed(1), Destroyed(2), Destroyed(3), QuitPosted]
  {
    var g := ThreeWindows();
    CleanupDestroysEveryWindow(g);
    assert g.Windows() == [1, 2, 3];
    assert (set x | x in g.Windows()) == {1, 2, 3};
    assert DestroyedEach([1, 2, 3]) == [Destroyed(1), Destroyed(2), Destroyed(3)];
  }

  /** One monitor as MonitorEnumProc meets it: GetMonitorInfo's result, the rectangle, LoadPNG's result, the factory's calls. */
  datatype Monitor = Monitor(info: Status, rect: Rect, png: Option<Pixels.Loaded>, paint: Paint.Outcomes)

  /** MonitorEnumProc reaches CreateOverlayWindow only when the monitor info and the image were both obtained. */
  predicate ReachesFactory(m: Monitor)
  {
    m.info.Ok? && m.png.Some?
  }

  /**
   * The handles the enumeration appends, when the OS hands out `base`, `base + 1`, … to
   * the successive CreateOverlayWindow calls.
   */
  function CreatedHandles(ms: seq<Monitor>, base: nat): seq<Hwnd>
  {
    if ms == [] then []
    else if !ReachesFactory(ms[0]) then CreatedHandles(ms[1..], base)
    else (if Paint.Succeeds(ms[0].paint) then [base] else []) + CreatedHandles(ms[1..], base + 1)
  }

  /** The appended handles are at most one per monitor, at least `base`, and strictly increasing, hence distinct. */
  lemma {:induction false} CreatedHandlesIncrease(ms: seq<Monitor>, base: nat)
    ensures var hs := CreatedHandles(ms, base);
            && |hs| <= |ms|
            && (forall i :: 0 <= i < |hs| ==> hs[i] >= base)
            && (forall i, j :: 0 <= i < j < |hs| ==> hs[i] < hs[j])
  {
    if ms != [] {
      if ReachesFactory(ms[0]) {
        CreatedHandlesIncrease(ms[1..], base + 1);
      } else {
        CreatedHandlesIncrease(ms[1..], base);
      }
    }
  }

  /** How many handle values the enumeration consumes. */
  function FactoryCalls(ms: seq<Monitor>): nat
  {
    if ms == [] then 0 else (if ReachesFactory(ms[0]) then 1 else 0) + FactoryCalls(ms[1..])
  }

  /**
   * One step of the enumeration: once monitor i has appended what it creates to `before`,
   * giving `after`, and consumed its handle value, the handles still to come are those of
   * the later monitors.
   */
  lemma EnumerationStep(ms: seq<Monitor>, i: nat, before: seq<Hwnd>, after: seq<Hwnd>, base: nat, next: nat)
    requires i < |ms|
    requires after == before + (if ReachesFactory(ms[i]) && Paint.Succeeds(ms[i].paint) then [base] else [])
    requires next == base + (if ReachesFactory(ms[i]) then 1 else 0)
    ensures before + CreatedHandles(ms[i..], base) == after + CreatedHandles(ms[i + 1..], next)
    ensures FactoryCalls(ms[i..]) == next - base + FactoryCalls(ms[i + 1..])
  {
    assert ms[i..][0] == ms[i] && ms[i..][1..] == ms[i + 1..];
  }

  /** The handles a list holds, as a set. */
  function Members(hs: seq<Hwnd>): set<Hwnd>
  {
    set x | x in hs
  }

  /** The same step for the set of live windows, which gains the handle exactly when g_windows does. */
  lemma EnumerationLiveStep(ms: seq<Monitor>, i: nat, before: set<Hwnd>, after: set<Hwnd>, base: nat, next: nat)
    requires i < |ms|
    requires after == before + (if ReachesFactory(ms[i]) && Paint.Succeeds(ms[i].paint) then {base} else {})
    requires next == base + (if ReachesFactory(ms[i]) then 1 else 0)
    ensures before + Members(CreatedHandles(ms[i..], base)) == after + Members(CreatedHandles(ms[i + 1..], next))
  {
    assert ms[i..][0] == ms[i] && ms[i..][1..] == ms[i + 1..];
  }

  /** When every monitor gets its window, g_windows gains one handle per monitor. */
  lemma {:induction false} AllMonitorsCreated(ms: seq<Monitor>, base: nat)
    requires forall i :: 0 <= i < |ms| ==> ReachesFactory(ms[i]) && Paint.Succeeds(ms[i].paint)
    ensures |CreatedHandles(ms, base)| == |ms|
  {
    if ms != [] {
      AllMonitorsCreated(ms[1..], base + 1);
    }
  }

  /** The process: crosshair.cpp's globals, plus the OS state they refer to. */
  class Process {
    var store: seq<Hwnd>
    var size: nat
    var live: set<Hwnd>
    var control: Hwnd
    var token: nat
    var events: seq<Event>
    /** Every handle the OS has handed out is below this value. */
    var next: Hwnd

    function State(): Globals
      reads this
    {
      Globals(store, size, live, control, token, events)
    }

    ghost predicate Valid()
      reads this
    {
      && Tidy(State())
      && control < next
      && (forall h :: h in live ==> h < next)
    }

    function Windows(): seq<Hwnd>
      reads this
      requires size <= |store|
    {
      store[..size]
    }

    /** The state WinMain has set up before enumerating monitors: GDI+ started, the control window created. */
    constructor (controlWindow: Hwnd, gdiplusToken: nat)
      ensures Valid()
      ensures Windows() == [] && control == controlWindow && token == gdiplusToken && events == []
      ensures live == if controlWindow == NULL then {} else {controlWindow}
    {
      store, size := [], 0;
      live := if controlWindow == NULL then {} else {controlWindow};
      control, token, events := controlWindow, gdiplusToken, [];
      next := controlWindow + 1;
    }

    /** std::find(g_windows.begin(), g_windows.end(), h), as a position. */
    method FindWindow(h: Hwnd) returns (k: nat)
      requires size <= |store|
      ensures k <= size
      ensures k < size ==> store[k] == h
      ensures forall j :: 0 <= j < k ==> store[j] != h
      ensures k == Find(Windows(), h)
    {
      k := 0;
      while k < size && store[k] != h
        invariant k <= size
        invariant forall j :: 0 <= j < k ==> store[j] != h
      {
        k := k + 1;
      }
      assert forall j :: 0 <= j < k ==> Windows()[j] != h;
    }

    /** WndProc's WM_DESTROY case: erase the first match from g_windows, if there is one. */
    method WndProcDestroy(h: Hwnd)
      requires size <= |store|
      modifies this
      ensures State() == OnDestroy(old(State()), h)
      ensures next == old(next)
    {
      var k := FindWindow(h);
      if k < size {
        store := EraseAt(store, size, k);
        size := size - 1;
      }
    }

    /** DestroyWindow(h), with the WM_DESTROY it delivers. */
    method DestroyWindow(h: Hwnd) returns (ok: bool)
      requires Valid()
      modifies this
      ensures Valid()
      ensures ok <==> h in old(live)
      ensures State() == Destroy(old(State()), h)
      ensures next == old(next)
    {
      ok := h in live;
      if !ok {
        return;
      }
      DestroyKeepsTidy(State(), h);
      live := live - {h};
      events := events + [Destroyed(h)];
      if h == control {
        events := events + [QuitPosted];
      } else {
        WndProcDestroy(h);
      }
    }

    /**
     * MonitorEnumProc: skips the monitor (logging) when GetMonitorInfo or LoadPNG fail,
     * appends the window to g_windows only when CreateOverlayWindow returns one, and
     * always asks for the enumeration to continue.
     */
    method MonitorEnumProc(m: Monitor) returns (cont: bool)
      requires Valid()
      modifies this
      ensures Valid() && cont
      ensures var made := ReachesFactory(m) && Paint.Succeeds(m.paint);
              && Windows() == old(Windows()) + (if made then [old(next)] else [])
              && live == (if made then old(live) + {old(next)} else old(live))
      ensures next == old(next) + (if ReachesFactory(m) then 1 else 0)
      ensures control == old(control) && token == old(token) && events == old(events)
    {
      if m.info.Fail? {
        return true;
      }
      if m.png.None? {
        return true;
      }
      var img := m.png.value;
      var hwnd := next;
      next := next + 1;
      var r, _ := Paint.CppCreateOverlayWindow(m.rect, img.width, img.height, img.raw, hwnd, m.paint);
      if r.Some? {
        live := live + {hwnd};
        store, size := store[..size] + [hwnd], size + 1;
      }
      return true;
    }

    /**
     * EnumDisplayMonitors with MonitorEnumProc: the callback never stops the enumeration,
     * so every monitor is visited and g_windows gains the created handles in order.
     */
    method EnumerateMonitors(ms: seq<Monitor>)
      requires Valid()
      modifies this
      ensures Valid()
      ensures Windows() == old(Windows()) + CreatedHandles(ms, old(next))
      ensures live == old(live) + Members(CreatedHandles(ms, old(next)))
      ensures next == old(next) + FactoryCalls(ms)
      ensures control == old(control) && token == old(token) && events == old(events)
    {
      var i := 0;
      while i < |ms|
        invariant 0 <= i <= |ms| && Valid()
        invariant old(Windows()) + CreatedHandles(ms, old(next)) == Windows() + CreatedHandles(ms[i..], next)
        invariant old(live) + Members(CreatedHandles(ms, old(next))) == live + Members(CreatedHandles(ms[i..], next))
        invariant old(next) + FactoryCalls(ms) == next + FactoryCalls(ms[i..])
        invariant control == old(control) && token == old(token) && events == old(events)
      {
        ghost var before, liveBefore, base := Windows(), live, next;
        var _ := MonitorEnumProc(ms[i]);
        EnumerationStep(ms, i, before, Windows(), base, next);
        EnumerationLiveStep(ms, i, liveBefore, live, base, next);
        i := i + 1;
      }
      assert ms[i..] == [];
    }

    /**
     * CleanupAndExit as written: the range-for fixes end() once and reads g_windows'
     * slots while each DestroyWindow erases from the same vector.
     */
    method CleanupAndExitAsWritten()
      requires Valid()
      modifies this
      ensures State() == CleanupAsWritten(old(State()))
      ensures Valid() && next == old(next)
    {
      var end := size;
      var i := 0;
      while i < end
        invariant size <= |store| && end <= |store| == |old(store)|
        invariant Valid() && next == old(next)
        invariant RangeForDestroy(State(), i, end) == RangeForDestroy(old(State()), 0, end)
        decreases end - i
      {
        var _ := DestroyWindow(store[i]);
        i := i + 1;
      }
      FinishCleanup();
    }

    /**
     * The program's shutdown path: ControlWndProc's WM_CLOSE calls CleanupAndExit, and
     * WinMain calls it again once the message loop ends.
     */
    method CloseThenExitAsWritten()
      requires Valid()
      modifies this
      ensures State() == CleanupAsWritten(CleanupAsWritten(old(State())))
      ensures Valid() && next == old(next)
    {
      CleanupAndExitAsWritten();
      CleanupAndExitAsWritten();
    }

    /**
     * CleanupAndExit as intended: the windows are destroyed from a copy of g_windows,
     * so every one of them is destroyed and g_windows ends empty.
     */
    method CleanupAndExit()
      requires Valid()
      modifies this
      ensures State() == Cleanup(old(State()))
      ensures Valid() && next == old(next)
      ensures Windows() == []
      ensures live == old(live) - (set x | x in old(Windows())) - {old(control)}
      ensures events == old(events) + DestroyedEach(old(Windows())) + ControlEvents(old(State()))
                        + ShutdownEvents(old(token)) + [QuitPosted]
    {
      CleanupDestroysEveryWindow(State());
      var snapshot := Windows();
      var i := 0;
      while i < |snapshot|
        invariant 0 <= i <= |snapshot| && Valid() && next == old(next)
        invariant State() == DestroyAll(old(State()), snapshot[..i])
      {
        assert snapshot[..i + 1][..i] == snapshot[..i];
        var _ := DestroyWindow(snapshot[i]);
        i := i + 1;
      }
      assert snapshot[..i] == snapshot;
      FinishCleanup();
    }

    /** The control window, GDI+ and the quit request. */
    method FinishCleanup()
      requires Valid()
      modifies this
      ensures State() == Finish(old(State()))
      ensures Valid() && next == old(next)
    {
      if control != NULL {
        var _ := DestroyWindow(control);
      }
      if token != 0 {
        events := events + [GdiplusShutdown(token)];
      }
      events := events + [QuitPosted];
    }
  }
}
