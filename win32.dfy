/** Types shared by both programs: handles, call outcomes, rectangles and points. */
module Win32 {

  /** A window handle; 0 stands for NULL. */
  type Hwnd = nat

  const NULL: Hwnd := 0

  /** What a native call reports: success, or failure with the code GetLastError would give. */
  datatype Status = Ok | Fail(code: nat)

  datatype Option<T> = None | Some(value: T)

  /** A screen rectangle in virtual-screen coordinates (RECT). */
  datatype Rect = Rect(left: int, top: int, right: int, bottom: int)
  {
    function Width(): int { right - left }
    function Height(): int { bottom - top }
  }

  datatype Point = Point(x: int, y: int)

  /** Window-message identifiers the handlers look at. */
  const WM_DESTROY: nat := 0x0002
  const WM_CLOSE: nat := 0x0010

  /** GetLastError value RegisterClassW reports when the class name is already taken. */
  const ERROR_CLASS_ALREADY_EXISTS: nat := 1410
}
