/**
 * The extended window style each overlay window is created with.
 * overlay.py binds its own constants; crosshair.cpp takes them from the Windows SDK headers.
 */
module Styles {

  type Style = bv32

  // overlay.py's constants, as that file binds them.
  const PY_WS_EX_LAYERED: Style     := 0x0008_0000
  const PY_WS_EX_TRANSPARENT: Style := 0x0000_0020
  const PY_WS_EX_TOPMOST: Style     := 0x0000_0008
  const PY_WS_EX_NOACTIVATE: Style  := 0x0008_0000
  const PY_WS_EX_TOOLWINDOW: Style  := 0x0000_0080
  const WS_POPUP: Style             := 0x8000_0000

  // The Windows SDK values crosshair.cpp compiles against.
  const WS_EX_LAYERED: Style     := 0x0008_0000
  const WS_EX_TRANSPARENT: Style := 0x0000_0020
  const WS_EX_TOPMOST: Style     := 0x0000_0008
  const WS_EX_NOACTIVATE: Style  := 0x0800_0000
  const WS_EX_TOOLWINDOW: Style  := 0x0000_0080

  /** True when every bit of `flag` is set in `s`. */
  predicate HasFlag(s: Style, flag: Style) { s & flag == flag }

  /** overlay.py's ex_style, the OR of its five constants as written. */
  function PyExStyle(): (s: Style)
    ensures s == 0x0008_00A8
    ensures !HasFlag(s, WS_EX_NOACTIVATE)
  {
    PY_WS_EX_LAYERED | PY_WS_EX_TRANSPARENT | PY_WS_EX_TOPMOST | PY_WS_EX_NOACTIVATE | PY_WS_EX_TOOLWINDOW
  }

  /** The extended style with the Windows SDK values (crosshair.cpp's exStyle); it carries all five attributes the overlay needs. */
  function ExStyle(): (s: Style)
    ensures s == 0x0808_00A8
    ensures HasFlag(s, WS_EX_LAYERED) && HasFlag(s, WS_EX_TRANSPARENT) && HasFlag(s, WS_EX_TOPMOST)
    ensures HasFlag(s, WS_EX_NOACTIVATE) && HasFlag(s, WS_EX_TOOLWINDOW)
  {
    WS_EX_LAYERED | WS_EX_TRANSPARENT | WS_EX_TOPMOST | WS_EX_NOACTIVATE | WS_EX_TOOLWINDOW
  }

  /**
   * overlay.py's no-activate constant repeats the layered bit, so its ex_style has every
   * attribute of crosshair.cpp's except no-activate, and nothing else.
   */
  lemma PyExStyleMissesOnlyNoActivate()
    ensures PY_WS_EX_NOACTIVATE == PY_WS_EX_LAYERED
    ensures PyExStyle() == ExStyle() & !WS_EX_NOACTIVATE
    ensures PyExStyle() | WS_EX_NOACTIVATE == ExStyle()
  {
  }
}
