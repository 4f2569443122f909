/**
 * The per-window factory: create the layered window, then paint it once through a
 * screen DC, a memory DC and a top-down 32-bit DIB, and release what was acquired.
 * Each native call is a step whose success or failure is an input (`Outcomes`); a
 * `Session` records the calls in order and the stack of handles still owned.
 */
module Paint {
  import opened Win32
  import opened Styles
  import Placement
  import Pixels

  /** The native objects one factory invocation acquires. */
  datatype Handle = Window | ScreenDC | MemoryDC | DibBitmap | BitmapSelection

  /** The blend the one-shot composite asks for (BLENDFUNCTION). */
  datatype Blend = Blend(blendOp: nat, blendFlags: nat, sourceConstantAlpha: nat, alphaFormat: nat)

  const AC_SRC_OVER: nat := 0
  const AC_SRC_ALPHA: nat := 1
  const ULW_ALPHA: nat := 2
  /** Straight per-pixel alpha, constant alpha fully opaque. */
  const STRAIGHT_ALPHA: Blend := Blend(AC_SRC_OVER, 0, 255, AC_SRC_ALPHA)

  /** The native calls the factory issues, with the arguments the model keeps. */
  datatype Call =
    | CreateWindowEx(exStyle: Style, style: Style, pos: Point, width: int, height: int)
    | GetDC
    | CreateCompatibleDC
    | CreateDIBSection(width: int, height: int, bitCount: nat)  // a negative height asks for top-down rows
    | CopyPixels(count: nat)
    | SelectBitmap
    | ShowWindow(topmost: bool)  // SetWindowPos with SWP_NOMOVE | SWP_NOSIZE | SWP_NOACTIVATE | SWP_SHOWWINDOW
    | UpdateLayeredWindow(pos: Point, width: int, height: int, source: Point, blend: Blend, flags: nat)
    | RestoreOldBitmap
    | DeleteBitmap
    | DeleteMemoryDC
    | ReleaseScreenDC
    | DestroyWindow

  /** What each native call of the factory reports. */
  datatype Outcomes = Outcomes(
    createWindow: Status, getDC: Status, compatibleDC: Status, dibSection: Status,
    selectObject: Status, setWindowPos: Status, updateLayered: Status)

  /** Both programs hand back a window exactly when these three checked calls succeed. */
  predicate Succeeds(o: Outcomes)
  {
    o.createWindow.Ok? && o.dibSection.Ok? && o.updateLayered.Ok?
  }

  /** `[h]` when the call that acquires `h` succeeded. */
  function IfOk(st: Status, h: Handle): seq<Handle>
  {
    if st.Ok? then [h] else []
  }

  /** The only handle that may outlive a factory call is the window itself. */
  predicate NoTransientHeld(held: seq<Handle>)
  {
    forall i :: 0 <= i < |held| ==> held[i] == Window
  }

  /** The calls up to and including the DIB, shared by both programs. */
  function Front(exStyle: Style, pos: Point, w: int, h: int): seq<Call>
  {
    [CreateWindowEx(exStyle, WS_POPUP, pos, w, h), GetDC, CreateCompatibleDC, CreateDIBSection(w, -h, 32)]
  }

  /** Copy, select, show, composite: the paint itself. */
  function PaintCalls(count: nat, pos: Point, w: int, h: int, topmost: bool): seq<Call>
  {
    [CopyPixels(count), SelectBitmap, ShowWindow(topmost), UpdateLayeredWindow(pos, w, h, Point(0, 0), STRAIGHT_ALPHA, ULW_ALPHA)]
  }

  /** The cleanup after the composite: each release undoes the latest acquisition still held. */
  const CLEANUP: seq<Call> := [RestoreOldBitmap, DeleteBitmap, DeleteMemoryDC, ReleaseScreenDC]

  /** Python's result: the window handle, or the error `WinError` raises (the failing call's last error). */
  datatype Created = Created(hwnd: Hwnd) | Raised(err: nat)

  /** One factory invocation: the calls made so far and the handles owned, oldest first. */
  class Session {
    var journal: seq<Call>
    var held: seq<Handle>

    constructor ()
      ensures journal == [] && held == []
    {
      journal := [];
      held := [];
    }

    /** Issues a call that yields handle `h` when it succeeds. */
    method Acquire(c: Call, h: Handle, st: Status)
      requires h !in held
      modifies this
      ensures journal == old(journal) + [c]
      ensures held == old(held) + IfOk(st, h)
    {
      journal := journal + [c];
      held := held + IfOk(st, h);
    }

    /**
     * Issues a call that gives back `h`. It must be the latest handle still held, so that
     * releases run in reverse order of acquisition; a handle never acquired (a NULL
     * argument) is left alone, as the OS does.
     */
    method Release(c: Call, h: Handle)
      requires h in held ==> held[|held| - 1] == h
      modifies this
      ensures journal == old(journal) + [c]
      ensures held == if h in old(held) then old(held)[..|old(held)| - 1] else old(held)
    {
      journal := journal + [c];
      if h in held {
        held := held[..|held| - 1];
      }
    }

    /**
     * Releases `h` where the owned handles are `rest` with `h` on top when its
     * acquisition (`st`) succeeded; afterwards exactly `rest` is owned.
     */
    method Undo(c: Call, h: Handle, ghost rest: seq<Handle>, ghost st: Status)
      requires h !in rest && held == rest + IfOk(st, h)
      modifies this
      ensures journal == old(journal) + [c]
      ensures held == rest
    {
      assert h in held <==> st.Ok?;
      Release(c, h);
    }

    /** Issues a call that neither acquires nor releases a handle. */
    method Issue(c: Call)
      modifies this
      ensures journal == old(journal) + [c] && held == old(held)
    {
      journal := journal + [c];
    }

    /** GetDC, CreateCompatibleDC and CreateDIBSection (top-down, 32 bits), once the window exists. */
    method AcquireSurfaces(w: int, h: int, o: Outcomes)
      requires held == [Window]
      modifies this
      ensures journal == old(journal) + [GetDC, CreateCompatibleDC, CreateDIBSection(w, -h, 32)]
      ensures held == [Window] + IfOk(o.getDC, ScreenDC) + IfOk(o.compatibleDC, MemoryDC) + IfOk(o.dibSection, DibBitmap)
    {
      Acquire(GetDC, ScreenDC, o.getDC);
      Acquire(CreateCompatibleDC, MemoryDC, o.compatibleDC);
      Acquire(CreateDIBSection(w, -h, 32), DibBitmap, o.dibSection);
    }

    /** DeleteDC of the memory DC, then ReleaseDC of the screen DC. */
    method ReleaseDCs(o: Outcomes)
      requires held == [Window] + IfOk(o.getDC, ScreenDC) + IfOk(o.compatibleDC, MemoryDC)
      modifies this
      ensures journal == old(journal) + [DeleteMemoryDC, ReleaseScreenDC]
      ensures held == [Window]
    {
      Undo(DeleteMemoryDC, MemoryDC, [Window] + IfOk(o.getDC, ScreenDC), o.compatibleDC);
      Undo(ReleaseScreenDC, ScreenDC, [Window], o.getDC);
    }

    /**
     * The paint once the DIB exists: copy the pixels, select the DIB, show the window,
     * composite, then give back the selection, the DIB and the two DCs.
     */
    method PaintOnce(count: nat, pos: Point, w: int, h: int, topmost: bool, o: Outcomes)
      requires held == [Window] + IfOk(o.getDC, ScreenDC) + IfOk(o.compatibleDC, MemoryDC) + [DibBitmap]
      modifies this
      ensures journal == old(journal) + PaintCalls(count, pos, w, h, topmost) + CLEANUP
      ensures held == [Window]
    {
      ghost var withMem := [Window] + IfOk(o.getDC, ScreenDC) + IfOk(o.compatibleDC, MemoryDC);
      Issue(CopyPixels(count));
      Acquire(SelectBitmap, BitmapSelection, o.selectObject);
      Issue(ShowWindow(topmost));
      Issue(UpdateLayeredWindow(pos, w, h, Point(0, 0), STRAIGHT_ALPHA, ULW_ALPHA));
      Undo(RestoreOldBitmap, BitmapSelection, withMem + [DibBitmap], o.selectObject);
      Undo(DeleteBitmap, DibBitmap, withMem, Ok);
      ReleaseDCs(o);
    }
  }

  /**
   * overlay.py's create_overlay_window as written. A failed CreateWindowExW raises
   * before any DC exists. A failed CreateDIBSection raises with both DCs (those that
   * were obtained) and the window still held. Otherwise the window is shown before the
   * composite, the four releases always run in reverse order of acquisition, and only
   * then does a failed composite raise, leaving the window alive.
   */
  method PyCreateOverlayWindowAsWritten(mon: Rect, imgW: int, imgH: int, bytes: seq<Pixels.byte>, hwnd: Hwnd, o: Outcomes)
    returns (r: Created, s: Session)
    ensures fresh(s)
    ensures var pos := Placement.PyOrigin(mon, imgW, imgH);
            var front := Front(PyExStyle(), pos, imgW, imgH);
            && (o.createWindow.Fail? ==>
                  r == Raised(o.createWindow.code) && s.journal == front[..1] && s.held == [])
            && (o.createWindow.Ok? && o.dibSection.Fail? ==>
                  && r == Raised(o.dibSection.code) && s.journal == front
                  && s.held == [Window] + IfOk(o.getDC, ScreenDC) + IfOk(o.compatibleDC, MemoryDC))
            && (o.createWindow.Ok? && o.dibSection.Ok? ==>
                  && r == (if o.updateLayered.Ok? then Created(hwnd) else Raised(o.updateLayered.code))
                  && s.journal == front + PaintCalls(|bytes|, pos, imgW, imgH, false) + CLEANUP
                  && s.held == [Window])
    ensures r.Created? <==> Succeeds(o)
    ensures NoTransientHeld(s.held) <==>
              !(o.createWindow.Ok? && o.dibSection.Fail? && (o.getDC.Ok? || o.compatibleDC.Ok?))
  {
    s := new Session();
    var pos := Placement.PyOrigin(mon, imgW, imgH);
    s.Acquire(CreateWindowEx(PyExStyle(), WS_POPUP, pos, imgW, imgH), Window, o.createWindow);
    if o.createWindow.Fail? {
      return Raised(o.createWindow.code), s;
    }
    s.AcquireSurfaces(imgW, imgH, o);
    if o.dibSection.Fail? {
      ghost var withMem := [Window] + IfOk(o.getDC, ScreenDC) + IfOk(o.compatibleDC, MemoryDC);
      assert NoTransientHeld(withMem) <==> o.getDC.Fail? && o.compatibleDC.Fail? by {
        if o.getDC.Ok? { assert withMem[1] == ScreenDC; }
        else if o.compatibleDC.Ok? { assert withMem[1] == MemoryDC; }
      }
      return Raised(o.dibSection.code), s;
    }
    s.PaintOnce(|bytes|, pos, imgW, imgH, false, o);
    if o.updateLayered.Fail? {
      return Raised(o.updateLayered.code), s;
    }
    r := Created(hwnd);
  }

  /**
   * overlay.py's create_overlay_window corrected: the window is created with the real
   * no-activate bit, and the DIB-failure path releases the memory DC and the screen DC
   * before raising; every other step is as written. No transient handle survives any
   * exit path, and a failure after CreateWindowExW leaves the window alive, as in the source.
   */
  method PyCreateOverlayWindow(mon: Rect, imgW: int, imgH: int, bytes: seq<Pixels.byte>, hwnd: Hwnd, o: Outcomes)
    returns (r: Created, s: Session)
    ensures fresh(s)
    ensures var pos := Placement.PyOrigin(mon, imgW, imgH);
            var front := Front(ExStyle(), pos, imgW, imgH);
            && (o.createWindow.Fail? ==>
                  r == Raised(o.createWindow.code) && s.journal == front[..1] && s.held == [])
            && (o.createWindow.Ok? && o.dibSection.Fail? ==>
                  && r == Raised(o.dibSection.code)
                  && s.journal == front + [DeleteMemoryDC, ReleaseScreenDC]
                  && s.held == [Window])
            && (o.createWindow.Ok? && o.dibSection.Ok? ==>
                  && r == (if o.updateLayered.Ok? then Created(hwnd) else Raised(o.updateLayered.code))
                  && s.journal == front + PaintCalls(|bytes|, pos, imgW, imgH, false) + CLEANUP
                  && s.held == [Window])
    ensures r.Created? <==> Succeeds(o)
    ensures r.Created? ==> r.hwnd == hwnd
    ensures NoTransientHeld(s.held)
    ensures s.held == (if o.createWindow.Ok? then [Window] else [])
  {
    s := new Session();
    var pos := Placement.PyOrigin(mon, imgW, imgH);
    s.Acquire(CreateWindowEx(ExStyle(), WS_POPUP, pos, imgW, imgH), Window, o.createWindow);
    if o.createWindow.Fail? {
      return Raised(o.createWindow.code), s;
    }
    s.AcquireSurfaces(imgW, imgH, o);
    if o.dibSection.Fail? {
      s.ReleaseDCs(o);
      return Raised(o.dibSection.code), s;
    }
    s.PaintOnce(|bytes|, pos, imgW, imgH, false, o);
    if o.updateLayered.Fail? {
      return Raised(o.updateLayered.code), s;
    }
    r := Created(hwnd);
  }

  /**
   * crosshair.cpp's CreateOverlayWindow. A failed CreateWindowEx returns NULL before
   * any DC exists. A failed CreateDIBSection releases the memory DC, then the screen DC,
   * then destroys the window. After the composite the four releases always run, and a
   * failed composite also destroys the window. So on every exit nothing transient is
   * held, and the window survives exactly when the call returns it.
   */
  method CppCreateOverlayWindow(mon: Rect, imgW: int, imgH: int, bytes: seq<Pixels.byte>, hwnd: Hwnd, o: Outcomes)
    returns (r: Option<Hwnd>, s: Session)
    ensures fresh(s)
    ensures var pos := Placement.CppOrigin(mon, imgW, imgH);
            var front := Front(ExStyle(), pos, imgW, imgH);
            && (o.createWindow.Fail? ==> s.journal == front[..1])
            && (o.createWindow.Ok? && o.dibSection.Fail? ==>
                  s.journal == front + [DeleteMemoryDC, ReleaseScreenDC, DestroyWindow])
            && (o.createWindow.Ok? && o.dibSection.Ok? ==>
                  s.journal == front + PaintCalls(|bytes|, pos, imgW, imgH, true) + CLEANUP
                               + (if o.updateLayered.Ok? then [] else [DestroyWindow]))
    ensures r == (if Succeeds(o) then Some(hwnd) else None)
    ensures s.held == (if r.Some? then [Window] else [])
  {
    s := new Session();
    var pos := Placement.CppOrigin(mon, imgW, imgH);
    s.Acquire(CreateWindowEx(ExStyle(), WS_POPUP, pos, imgW, imgH), Window, o.createWindow);
    if o.createWindow.Fail? {
      return None, s;
    }
    s.AcquireSurfaces(imgW, imgH, o);
    if o.dibSection.Fail? {
      s.ReleaseDCs(o);
      s.Undo(DestroyWindow, Window, [], Ok);
      return None, s;
    }
    s.PaintOnce(|bytes|, pos, imgW, imgH, true, o);
    if o.updateLayered.Fail? {
      s.Undo(DestroyWindow, Window, [], Ok);
      return None, s;
    }
    r := Some(hwnd);
  }
}
