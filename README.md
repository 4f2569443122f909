# PNGcrosshair in Dafny

PNGcrosshair draws one PNG image, centred, on every monitor. It uses a borderless,
always-on-top, click-through, per-pixel-alpha layered window, painted once. There are two
implementations: `overlay.py` (Python over ctypes) and `crosshair.cpp` (C++ over Win32 and
GDI+). This project models the parts of both that decide things:

- **Placement** (`placement.dfy`): where each program puts the image on a monitor. Python
  uses floor division. C++ uses `int` division, which truncates toward zero. Proved: margin
  bounds for both, and that the two agree except for an odd negative slack, where C++ is one
  pixel to the right (or lower).
- **Window attributes** (`styles.dfy`): the extended-style bitmask of each program.
- **Pixel buffer** (`pixels.dfy`): the byte layout `load_png` hands to the DIB. The
  `split()` bands bind by position, so the name `b` holds red and `r` holds blue. The merge
  therefore restores the original order, and the 'BGRA' packing emits B,G,R,A bytes, as the
  docstring at overlay.py:220 says. Proved: the layout, and a round trip back to the pixels.
- **Class registration and window procedure** (`overlay_class.dfy`): `_register_class_once`,
  where "class already exists" (1410) counts as success, and the Python `wndproc`.
- **Per-window paint lifecycle** (`paint.dfy`): both window factories. A `Session` object
  records the native calls in order and keeps the stack of owned handles. Releases must
  undo the latest acquisition. The contracts pin down, for every pattern of call failures,
  the exact call sequence, the result and the handles still owned.
- **Python overlay set** (`overlay_set.dfy`): `enum_monitors(make_one)`. It makes one
  factory call per monitor, logs and skips a failing factory call, and stops the
  enumeration when `GetMonitorInfoW` fails.
- **Executable directory** (`exe_path.dfy`): the C++ derivation of `overlay.png`'s path
  from the executable path.
- **C++ process state** (`crosshair.dfy`): the `Process` class, with `g_windows` as a
  vector's storage and size, the control window, the GDI+ token, the set of live windows
  and a log of shutdown effects. Modelled members:
  - `WndProc`'s find-and-erase;
  - `DestroyWindow` with the `WM_DESTROY` it delivers;
  - `MonitorEnumProc` and the enumeration;
  - `CleanupAndExit` as written, with the range-for erasing from the vector it walks;
  - `CleanupAndExit` as intended, walking a snapshot.

  The pure functions over the `Globals` value type specify these methods. The lemmas prove
  what a shutdown achieves and what a second shutdown repeats.

Native calls are not executed. Each call's success or failure, and the OS-assigned handle
values, are inputs to the model.

Where the Python code differs from its own comments or from the C++ program, the model
follows the code:
- `WS_EX_NOACTIVATE` at overlay.py:41 holds 0x00080000, the layered bit. Python's ex_style
  therefore lacks the no-activate bit 0x08000000 that crosshair.cpp:246 sets.
- The raise on a failed `CreateDIBSection` (overlay.py:319) comes before the "Clean up GDI
  objects" block (overlay.py:355-360). On that path the two DCs are never released, whereas
  crosshair.cpp:279-280 releases them.

With floor division a negative slack does not make both margins negative: a slack of -1
gives a leading margin of -1 and a trailing margin of 0 (`Placement.PyMargins`).

## Model

| member | source | states |
|---|---|---|
| Placement.FloorDiv | overlay.py:277-278 | Python's `//` by a positive divisor: the quotient q satisfies q*b <= a < q*b + b |
| Placement.TruncDiv | crosshair.cpp:242-243 | C++ `/`: truncates toward zero; for a >= 0 it is the floor, for a < 0 it is minus the floor of -a, with the remainder's sign following a |
| Placement.PyOrigin | overlay.py:275-278 | the offset from the monitor's corner is half of the free space rounded down, on both axes, even when the space is negative |
| Placement.CppOrigin | crosshair.cpp:240-243 | the offset is half of the free space rounded toward zero: down for a non-negative space, up for a negative one |
| Placement.PyMargins | overlay.py:275-278 | on both axes, the leading margin is floor(slack/2) and leading + trailing equals the slack, so lead <= trail <= lead + 1; lead < 0 iff slack < 0 and trail < 0 iff slack < -1 (a slack of -1 leaves the trailing margin 0) |
| Placement.CppMargins | crosshair.cpp:240-243 | on both axes, the C++ margins also add up to the slack and differ by at most one; for a non-negative slack the trailing one is the larger, for a negative slack the leading one |
| Placement.OriginsAgreeOrDifferByOne | crosshair.cpp:242-243 | the C++ origin equals the Python one, except that it is exactly one greater when the slack is negative and odd |
| Placement.PyOriginExamples | overlay.py:277-278 | a 1920x1080 monitor and a 100x50 image give (910, 515); a 100x100 image on a 50x50 monitor gives (-25, -25) |
| Placement.OriginsDivergeExample | crosshair.cpp:242 | a 101-wide image on a 50-wide monitor (slack -51) is placed at x = -25 by C++ and at x = -26 by Python |
| Styles.PyExStyle | overlay.py:281-282 | overlay.py's ex_style is 0x000800A8 and lacks the SDK no-activate bit 0x08000000 |
| Styles.ExStyle | crosshair.cpp:246 | with the SDK values the ex_style is 0x080800A8 and carries layered, transparent, topmost, no-activate and tool-window |
| Styles.PyExStyleMissesOnlyNoActivate | overlay.py:38-42 | Python's no-activate constant equals its layered constant, so its style is the intended one minus exactly the no-activate bit |
| Pixels.ToBytesBgra | overlay.py:226 | the 'BGRA' raw packer: four bytes per pixel, pixel i at bytes 4i..4i+3 as its b, g, r, a |
| Pixels.BgraRoundTrip | overlay.py:226 | reading 4-byte groups back as B,G,R,A recovers every pixel of the packed buffer |
| Pixels.SplitMerge | overlay.py:224-225 | `split()` then `merge('RGBA', (b, g, r, a))` leaves a pixel unchanged, because the names bind to the bands by position |
| Pixels.MergeAll | overlay.py:224-225 | the split-and-merge leaves the whole image unchanged |
| Pixels.LoadPng | overlay.py:219-227 | the buffer holds width*height*4 bytes, and pixel i's bytes are its b, g, r, a, top row first |
| Pixels.LoadPngRoundTrip | overlay.py:219-227 | reading the returned buffer as B,G,R,A gives back exactly the decoded pixels |
| Pixels.LoadPngRedPixel | overlay.py:224-226 | an opaque pure-red pixel is stored as the bytes 0, 0, 255, 255 |
| OverlayClass.RegisterClassOnce | overlay.py:245-266 | the name is returned iff registration succeeded or failed only with 1410; any other failure raises with its code; the class table gains the name only on a real registration |
| OverlayClass.RegisterTwiceIsIdempotent | overlay.py:260-266 | once the class is registered, a further call returns the same name whatever the OS reports and leaves the table unchanged |
| OverlayClass.PyWndProc | overlay.py:233-237 | WM_DESTROY posts the quit request and returns 0; every other message goes to DefWindowProcW and its answer is returned |
| Paint.PyCreateOverlayWindowAsWritten | overlay.py:284-364 | per path, the exact call sequence and the handles still owned. CreateWindowExW failing raises with nothing owned. CreateDIBSection failing raises with the window and each DC that was obtained still owned. Otherwise the four releases run in reverse acquisition order and a failed composite raises with only the window owned. A window is returned iff the three checked calls succeed. Nothing transient is owned, except on the DIB path after a DC was obtained |
| Paint.PyCreateOverlayWindow | overlay.py:284-364 | as above, created with the SDK no-activate bit, with the DIB path releasing the memory DC and then the screen DC before raising; on every path only the window, if created, is still owned |
| Paint.CppCreateOverlayWindow | crosshair.cpp:237-320 | per path, the exact call sequence. The DIB path releases both DCs and destroys the window. A failed composite destroys the window after the four releases. The result is the window iff the three checked calls succeed, and the window is still owned exactly then |
| OverlaySet.FirstInfoFailure | overlay.py:375-376 | the first monitor whose GetMonitorInfoW fails; all earlier monitors' infos were read |
| OverlaySet.CreateFor | overlay.py:404-406 | make_one's call of create_overlay_window, as written, hands back the monitor's window exactly when its three checked calls succeed |
| OverlaySet.EnumMonitors | overlay.py:371-385 | up to the first info failure, the windows list is the created handles in enumeration order and the log is the failing monitors' device names; an info failure escapes with its code |
| OverlaySet.CreatedAndFailedPartition | overlay.py:377-385 | every visited monitor adds exactly one of a window or a log line |
| OverlaySet.AllSucceed | overlay.py:404-408 | when every factory call succeeds, the list is the monitors' handles in order and nothing is logged |
| OverlaySet.OneMonitorFails | overlay.py:377-385 | with exactly one failing monitor, the list holds N-1 windows and only that monitor's device is logged |
| ExePath.FindLastOf | crosshair.cpp:100 | `find_last_of`: the position of the last occurrence of the character, or none when it does not occur |
| ExePath.ExeDir | crosshair.cpp:99-100 | the directory is a prefix of the path; it is the whole path iff there is no backslash; otherwise it ends just before the last backslash |
| ExePath.LastBackslashOfJoin | crosshair.cpp:100 | in `dir\name` with no backslash in the name, the last backslash is the one just before the name |
| ExePath.PngPath | crosshair.cpp:99-101 | the image path ends in `\overlay.png`; what precedes it is a prefix of the executable path that stops just before the last backslash, or is the whole path when there is none |
| ExePath.PngPathIsBesideExe | crosshair.cpp:99-101 | the image path lies in the executable's directory: taking its directory gives the executable's directory back |
| ExePath.ExeDirOfSuffixed | crosshair.cpp:100-101 | appending `\overlay.png` to any directory and taking the directory again gives that directory |
| ExePath.ExeDirOfJoin | crosshair.cpp:99-100 | the directory of a path `dir\name` whose name has no backslash is exactly `dir` |
| ExePath.ExeDirExample | crosshair.cpp:186-188 | `C:\Tools\crosshair.exe` has the directory `C:\Tools` |
| ExePath.PngPathExample | crosshair.cpp:186-189 | `C:\Tools\crosshair.exe` gives `C:\Tools\overlay.png` |
| Crosshair.Find | crosshair.cpp:143 | `std::find`: the first position holding the handle, or the length when it is absent |
| Crosshair.EraseFirst | crosshair.cpp:143-147 | the list shortens by one iff the handle was listed; the rest of its behaviour is stated by `EraseFirstAbsent`, `EraseFirstRemovesOne`, `EraseFirstKeepsOrder` and `EraseFirstDistinct` |
| Crosshair.EraseFirstAbsent | crosshair.cpp:144-147 | erasing an unlisted handle leaves g_windows unchanged |
| Crosshair.EraseFirstRemovesOne | crosshair.cpp:143-147 | the erase removes exactly one occurrence of the handle (as a multiset), shortening the list by one iff it was listed |
| Crosshair.EraseFirstKeepsOrder | crosshair.cpp:146 | elements before the erased position keep their index and later ones move down one, in order |
| Crosshair.EraseFirstDistinct | crosshair.cpp:143-147 | on a list of distinct handles the result is distinct and holds exactly the others |
| Crosshair.EraseAt | crosshair.cpp:146 | `vector::erase`: the first size-1 slots are the list without position k; the old last slot keeps its value |
| Crosshair.OnDestroy | crosshair.cpp:139-149 | WndProc's WM_DESTROY changes only g_windows, which becomes the list minus the first occurrence of the window |
| Crosshair.Destroy | crosshair.cpp:135-171 | DestroyWindow with the WM_DESTROY it delivers keeps the vector's storage length, the control handle and the GDI+ token |
| Crosshair.DestroyEffect | crosshair.cpp:135-171 | a dead or NULL handle changes nothing; a live one dies and its destruction is logged; the control window's WM_DESTROY posts a quit, and an overlay window's erases its first occurrence from g_windows |
| Crosshair.DestroyKeepsTidy | crosshair.cpp:135-165 | destroying any handle keeps g_windows a list of distinct live windows other than the control window |
| Crosshair.RangeForDestroy | crosshair.cpp:30-33 | the range-for with end() fixed at entry, reading each slot of the live vector; its own contract is only a frame (storage length, control handle, GDI+ token), the behaviour is in `RangeForKeepsTidy`, `RangeForDestroysOnlyOverlays` and `LiveEraseLeavesWindowAlive` |
| Crosshair.DestroyAll | crosshair.cpp:30-33 | DestroyWindow for each handle of a list in turn (the snapshot loop); its own contract is only a frame, the behaviour is in `DestroyAllKills`, `DestroyAllLogs` and `DestroyPrefix` |
| Crosshair.Finish | crosshair.cpp:35-47 | the tail of CleanupAndExit; its own contract only keeps the vector well formed, the behaviour is in `FinishShutsDown` |
| Crosshair.CleanupAsWritten | crosshair.cpp:27-48 | CleanupAndExit as written, the range-for then the tail; its own contract only keeps the vector well formed, the behaviour is in `RangeForKeepsTidy`, `SecondLiveCleanupRepeatsTail` and `LiveEraseLeavesWindowAlive` |
| Crosshair.Cleanup | crosshair.cpp:27-48 | CleanupAndExit as intended, over a copy of g_windows; its own contract only keeps the vector well formed, the behaviour is in `CleanupDestroysEveryWindow` |
| Crosshair.DestroyHead | crosshair.cpp:30-33 | destroying the window in slot 0 keeps the invariant, moves every other listed window down one slot, kills only it and logs only its destruction |
| Crosshair.DestroyPrefixKeepsRest | crosshair.cpp:30-33 | after destroying the first i listed windows one by one, the invariant holds and exactly the remaining windows are listed, in their order |
| Crosshair.DestroyPrefixStep | crosshair.cpp:30-33 | if after the first j destroys the invariant holds and the windows from j on are listed, one more destroy keeps the invariant and leaves the windows from j + 1 on |
| Crosshair.DestroyAllKills | crosshair.cpp:30-33 | calling DestroyWindow for each handle of a list kills exactly the listed handles that were live, and no other window |
| Crosshair.DestroyAllLogs | crosshair.cpp:30-33 | for distinct live overlay windows, those calls log one destruction per handle, in list order |
| Crosshair.DestroyPrefix | crosshair.cpp:30-33 | destroying the first i listed windows one by one leaves the rest listed, kills exactly those i and logs them in order |
| Crosshair.FinishShutsDown | crosshair.cpp:35-47 | the tail leaves g_windows alone, destroys the control window if it exists (which posts a quit), shuts GDI+ down if the token is non-zero, then posts a quit, and keeps the invariant |
| Crosshair.CleanupDestroysEveryWindow | crosshair.cpp:27-48 | the snapshot shutdown destroys every listed window in list order, then the control window, then GDI+, then posts a quit, leaving g_windows empty |
| Crosshair.SecondCleanupRepeatsShutdown | crosshair.cpp:125-131 | for the corrected, snapshot shutdown: neither global is reset, so a second call destroys nothing but repeats the GDI+ shutdown with the same token and the quit request |
| Crosshair.RangeForKeepsTidy | crosshair.cpp:30-33 | the as-written range-for keeps the invariant and brings no window back to life |
| Crosshair.RangeForDestroysOnlyOverlays | crosshair.cpp:30-33 | once the control window is dead, the range-for only appends Destroyed events, each for a window alive before it and dead after it |
| Crosshair.SecondLiveCleanupRepeatsTail | crosshair.cpp:125-131 | the program's two as-written CleanupAndExit calls (on WM_CLOSE at crosshair.cpp:160, then after the message loop): the second walks what the first left listed, destroying only surviving overlay windows, never the control window again, then repeats the GDI+ shutdown with the same token and posts another quit |
| Crosshair.SecondLiveCleanupDestroysSurvivor | crosshair.cpp:125-131 | on windows 1, 2, 3 the second call destroys window 2, which the first skipped, and the log reads 1, 3, quit, 2, quit |
| Crosshair.LiveEraseLeavesWindowAlive | crosshair.cpp:30-33 | with windows 1, 2, 3 listed, the as-written loop destroys 1 and 3, revisits the stale copy of 3, and leaves 2 alive and listed; the whole state after the call is given |
| Crosshair.CleanupOfSurvivor | crosshair.cpp:27-48 | from the state the first call leaves on windows 1, 2, 3, one more CleanupAndExit kills window 2 and logs its destruction and a quit |
| Crosshair.LiveEraseFirstStep | crosshair.cpp:30-33 | the loop's first step on windows 1, 2, 3 destroys 1 and shifts the list to 2, 3, leaving a stale 3 in the vacated last slot |
| Crosshair.LiveEraseSecondStep | crosshair.cpp:30-33 | the second step reads slot 1, now window 3, destroys it, and leaves only 2 listed and alive |
| Crosshair.SnapshotDestroysAllThree | crosshair.cpp:30-33 | on the same three windows the snapshot loop destroys 1, 2 and 3 in order and leaves none alive |
| Crosshair.CreatedHandlesIncrease | crosshair.cpp:202-206 | the appended handles are at most one per monitor, strictly increasing and all at least the first handle value handed out |
| Crosshair.AllMonitorsCreated | crosshair.cpp:173-208 | when every monitor's info, image and factory call succeed, g_windows gains one handle per monitor |
| Crosshair.Process.constructor | crosshair.cpp:11-13 | the start state: g_windows empty, the control window and the GDI+ token as given, only the control window alive |
| Crosshair.Process.FindWindow | crosshair.cpp:143 | the loop's result is the first position of the handle in g_windows, or its size, and equals `Find` |
| Crosshair.Process.WndProcDestroy | crosshair.cpp:139-149 | the new state is `OnDestroy` of the old one |
| Crosshair.Process.DestroyWindow | crosshair.cpp:135-171 | succeeds iff the handle is live; the new state is `Destroy` of the old; the invariant is kept |
| Crosshair.Process.MonitorEnumProc | crosshair.cpp:173-208 | always continues; g_windows gains the new handle exactly when info, image and factory all succeed; a handle value is consumed iff the factory is reached |
| Crosshair.Process.EnumerateMonitors | crosshair.cpp:114-121 | every monitor is visited; g_windows grows by the created handles in order, and exactly those handles become live |
| Crosshair.Process.CleanupAndExitAsWritten | crosshair.cpp:27-48 | the range-for over the live vector, with end() fixed at entry; the new state is `CleanupAsWritten` of the old; the invariant is kept and no handle value is consumed, so it can be called again |
| Crosshair.Process.CleanupAndExit | crosshair.cpp:27-48 | the snapshot shutdown keeps the invariant and consumes no handle value: g_windows ends empty, every listed window and the control window are dead, and the log is the destroys in list order, the control window's destroy and quit, the GDI+ shutdown, then a quit |
| Crosshair.Process.FinishCleanup | crosshair.cpp:35-47 | the new state is `Finish` of the old: control window, GDI+, quit request; the invariant is kept and no handle value is consumed |
| Crosshair.Process.CloseThenExitAsWritten | crosshair.cpp:125-131 | the program's two calls, on WM_CLOSE (crosshair.cpp:160) and after the message loop: the new state is `CleanupAsWritten` applied twice, and the invariant is kept |

## Left out

- ctypes declarations and structure layouts (overlay.py:1-214) are declarations only; the model keeps the values they carry.
- Both message loops (overlay.py:411-414, crosshair.cpp:124-129) and message dispatch are not modelled. A message reaching a procedure is a call of `PyWndProc`, `Crosshair.Process.DestroyWindow` or `Crosshair.Process.CleanupAndExitAsWritten`.
- ControlWndProc's WM_CLOSE (crosshair.cpp:159-161) is the call of `Crosshair.Process.CleanupAndExitAsWritten` (the two calls together are `Crosshair.Process.CloseThenExitAsWritten`); its WM_DESTROY (crosshair.cpp:163-165) is the quit request inside `Destroy`.
- Image decoding is not modelled: Pillow's `Image.open(...).convert('RGBA')` and GDI+'s `LoadPNG` (crosshair.cpp:321-349). The C++ buffer layout from `LockBits` is not modelled either. The model starts from the decoded pixels.
- `main`'s path handling and file-existence check (overlay.py:395-398) use `os.path`, which is not modelled.
- The log and stderr text is not modelled, nor is the `GetLastError` value printed after a failure.
- GDI+ startup, the two C++ class registrations and `CreateControlWindow` (crosshair.cpp:52-92, 210-235) create no state the model needs beyond the control handle and token given to `Crosshair.Process.constructor`.
- WinMain's first image load and its `imgData.empty()` guard (crosshair.cpp:103-121) are not modelled. Each monitor's own load result is an input to `MonitorEnumProc`.
- The failure result of `EnumDisplayMonitors` itself is not modelled, in either program (overlay.py:387-388, crosshair.cpp:117-120).
- `GetModuleFileName` is not modelled; the executable path is an input. Its truncation at `MAX_PATH` is not modelled.
- Placement.CppOrigin: computes with unbounded integers. C++ `int` overflow for coordinates near 2^31 is not modelled.
- Paint.PyCreateOverlayWindowAsWritten: the error raised is the failing call's own code. The code's `get_last_error()` read after later calls is not modelled.
- Paint.PyCreateOverlayWindowAsWritten: `_register_class_once` runs inside the argument list of `CreateWindowExW`. That registration step is outside the factory model: the recorded `CreateWindowEx` call carries no class name, and `OverlayClass.RegisterClassOnce` models the registration, raising path included, on its own.
- Paint.CppCreateOverlayWindow: the outcomes of `GetDC`, `CreateCompatibleDC`, `SelectObject` and `SetWindowPos` are free inputs. As in the source, they do not change the control flow.
- Paint.CppCreateOverlayWindow: the pixel copy into the DIB's memory is recorded only by its byte count.
- OverlaySet.EnumMonitors: the OS-assigned window handle of each monitor is an input (`hwnd`).
- In C++ (`Crosshair.Process.MonitorEnumProc`), handle values come from a counter, so they are distinct and fresh.
- OverlaySet.EnumMonitors: an exception escaping the ctypes callback is modelled as ending the enumeration with that error. What ctypes does with it at the native boundary is not modelled.
- The Python window's live/terminated life after creation is not modelled. Python has no teardown of its windows list; its `wndproc` decision is `OverlayClass.PyWndProc`.
- Concurrency, and messages arriving during a factory call, are not modelled.
- Crosshair.Process.CleanupAndExitAsWritten: modifying a vector while a range-for walks it is undefined behaviour in C++. The model fixes one reading: contiguous storage, with end() captured at entry.

## Findings

| source | as written | input that shows it | evidently intended | confidence | as-written member | corrected member |
|---|---|---|---|---|---|---|
| overlay.py:41 | `WS_EX_NOACTIVATE = 0x00080000`, the layered bit again, so ex_style is 0x000800A8 | any overlay window: its ex_style lacks bit 0x08000000 | the SDK value 0x08000000, as crosshair.cpp:246 gets from windows.h | high; not executed | Styles.PyExStyle | Styles.ExStyle |
| overlay.py:318-319 | a failed CreateDIBSection raises at once, while the memory DC and the screen DC are still owned | createWindow, getDC and compatibleDC succeed, dibSection fails: both DCs are still owned after the raise | release the memory DC and the screen DC before raising, as crosshair.cpp:279-280 does | high; not executed | Paint.PyCreateOverlayWindowAsWritten | Paint.PyCreateOverlayWindow |
| crosshair.cpp:30-33 | the range-for walks g_windows while each DestroyWindow erases from it | windows 1, 2, 3 listed: 1 and 3 are destroyed, 3 is met twice, and 2 stays alive and listed | destroy every listed window, by walking a copy taken before the loop | medium (undefined behaviour; assumes contiguous storage; the program's second call at crosshair.cpp:131 then destroys the survivor, see `Crosshair.SecondLiveCleanupDestroysSurvivor`); not executed | Crosshair.LiveEraseLeavesWindowAlive | Crosshair.Process.CleanupAndExit |
