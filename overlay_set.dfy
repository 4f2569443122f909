/**
 * overlay.py's enum_monitors with the make_one callback: one factory call per monitor,
 * a failing factory call is logged with the monitor's device name and skipped, and the
 * windows list collects the handles that were created, in enumeration order.
 */
module OverlaySet {
  import opened Win32
  import Paint
  import Pixels

  /** One monitor the enumeration visits, with what its native calls will report. */
  datatype Monitor = Monitor(info: Status, rect: Rect, device: string, hwnd: Hwnd, paint: Paint.Outcomes)

  /** The position of the first monitor whose GetMonitorInfoW fails, or the count of monitors when none does. */
  function FirstInfoFailure(ms: seq<Monitor>): (k: nat)
    ensures k <= |ms|
    ensures forall i :: 0 <= i < k ==> ms[i].info.Ok?
    ensures k < |ms| ==> ms[k].info.Fail?
  {
    if ms == [] then 0
    else if ms[0].info.Fail? then 0
    else 1 + FirstInfoFailure(ms[1..])
  }

  /** The handles of the monitors whose factory call returned a window, in order. */
  function Created(ms: seq<Monitor>): seq<Hwnd>
  {
    if ms == [] then []
    else
      var last := ms[|ms| - 1];
      Created(ms[..|ms| - 1]) + (if Paint.Succeeds(last.paint) then [last.hwnd] else [])
  }

  /** The device names of the monitors whose factory call raised, in order. */
  function FailedDevices(ms: seq<Monitor>): seq<string>
  {
    if ms == [] then []
    else
      var last := ms[|ms| - 1];
      FailedDevices(ms[..|ms| - 1]) + (if Paint.Succeeds(last.paint) then [] else [last.device])
  }

  /** Every monitor whose info is read either adds a window or adds a log line: N monitors, k failures, N-k windows. */
  lemma {:induction false} CreatedAndFailedPartition(ms: seq<Monitor>)
    ensures |Created(ms)| + |FailedDevices(ms)| == |ms|
  {
    if ms != [] {
      CreatedAndFailedPartition(ms[..|ms| - 1]);
    }
  }

  /** When every monitor's window is created, the list holds exactly their handles in order and nothing is logged. */
  lemma {:induction false} AllSucceed(ms: seq<Monitor>)
    requires forall i :: 0 <= i < |ms| ==> Paint.Succeeds(ms[i].paint)
    ensures |Created(ms)| == |ms|
    ensures forall i :: 0 <= i < |ms| ==> Created(ms)[i] == ms[i].hwnd
    ensures FailedDevices(ms) == []
  {
    if ms != [] {
      AllSucceed(ms[..|ms| - 1]);
    }
  }

  /** With exactly one failing monitor k, the list has N-1 windows and the log names monitor k alone. */
  lemma {:induction false} OneMonitorFails(ms: seq<Monitor>, k: nat)
    requires k < |ms|
    requires !Paint.Succeeds(ms[k].paint)
    requires forall i :: 0 <= i < |ms| && i != k ==> Paint.Succeeds(ms[i].paint)
    ensures |Created(ms)| == |ms| - 1
    ensures FailedDevices(ms) == [ms[k].device]
  {
    if k == |ms| - 1 {
      AllSucceed(ms[..k]);
    } else {
      OneMonitorFails(ms[..|ms| - 1], k);
    }
    CreatedAndFailedPartition(ms);
  }

  /** make_one's call of create_overlay_window, as written, for one monitor, seen only through its result. */
  method CreateFor(m: Monitor, imgW: int, imgH: int, bytes: seq<Pixels.byte>) returns (r: Paint.Created)
    ensures r.Created? <==> Paint.Succeeds(m.paint)
    ensures r.Created? ==> r.hwnd == m.hwnd
  {
    var s;
    r, s := Paint.PyCreateOverlayWindowAsWritten(m.rect, imgW, imgH, bytes, m.hwnd, m.paint);
  }

  /**
   * enum_monitors(make_one). Each monitor's info is read outside the try: a failure there
   * escapes the callback and ends the enumeration with its error. A factory failure is
   * caught and logged with the device name, and the enumeration goes on.
   */
  method EnumMonitors(ms: seq<Monitor>, imgW: int, imgH: int, bytes: seq<Pixels.byte>)
    returns (windows: seq<Hwnd>, logged: seq<string>, escaped: Option<nat>)
    ensures var k := FirstInfoFailure(ms);
            && windows == Created(ms[..k])
            && logged == FailedDevices(ms[..k])
            && escaped == (if k < |ms| then Some(ms[k].info.code) else None)
  {
    windows, logged := [], [];
    var i := 0;
    while i < |ms|
      invariant 0 <= i <= |ms|
      invariant forall j :: 0 <= j < i ==> ms[j].info.Ok?
      invariant windows == Created(ms[..i])
      invariant logged == FailedDevices(ms[..i])
    {
      var m := ms[i];
      if m.info.Fail? {
        return windows, logged, Some(m.info.code);
      }
      var r := CreateFor(m, imgW, imgH, bytes);
      assert ms[..i + 1][..i] == ms[..i];
      match r {
        case Created(h) => windows := windows + [h];
        case Raised(_) => logged := logged + [m.device];
      }
      i := i + 1;
    }
    assert ms[..i] == ms;
    escaped := None;
  }
}
