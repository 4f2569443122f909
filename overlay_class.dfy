/**
 * overlay.py's window-class registration and window procedure.
 * The process-wide table of registered class names is passed in and out explicitly.
 */
module OverlayClass {
  import opened Win32

  const CLASS_NAME: string := "PyOverlayWnd"

  /** The outcome of one RegisterClassW call and the class table after it. */
  datatype Registered = Registered(atom: Status, classes: set<string>)

  /**
   * RegisterClassW: a name already in the table is refused with
   * ERROR_CLASS_ALREADY_EXISTS; otherwise the call adds the name, unless the
   * OS reports some other failure (`fault`).
   */
  function RegisterClassW(classes: set<string>, name: string, fault: Option<nat>): (r: Registered)
    ensures r.atom.Ok? <==> name !in classes && fault.None?
    ensures name in r.classes <==> name in classes || r.atom.Ok?
    ensures r.classes - {name} == classes - {name}
    ensures r.atom.Fail? && name !in classes ==> fault == Some(r.atom.code)
    ensures name in classes ==> r.atom == Fail(ERROR_CLASS_ALREADY_EXISTS)
  {
    if name in classes then Registered(Fail(ERROR_CLASS_ALREADY_EXISTS), classes)
    else if fault.Some? then Registered(Fail(fault.value), classes)
    else Registered(Ok, classes + {name})
  }

  /** Either the class name to create windows with, or the error `WinError(err)` raises. */
  datatype ClassResult = ClassName(name: string) | Raised(err: nat)

  /** _register_class_once: a failure with code 1410 counts as success; any other failure raises. */
  function RegisterClassOnce(classes: set<string>, fault: Option<nat>): (r: (ClassResult, set<string>))
    ensures r.1 == if CLASS_NAME !in classes && fault.None? then classes + {CLASS_NAME} else classes
    ensures r.0.ClassName? <==> CLASS_NAME in classes || fault.None? || fault == Some(ERROR_CLASS_ALREADY_EXISTS)
    ensures r.0.ClassName? ==> r.0.name == CLASS_NAME
    ensures r.0.Raised? ==> Some(r.0.err) == fault
  {
    var reg := RegisterClassW(classes, CLASS_NAME, fault);
    match reg.atom
    case Ok => (ClassName(CLASS_NAME), reg.classes)
    case Fail(err) =>
      if err != ERROR_CLASS_ALREADY_EXISTS then (Raised(err), reg.classes)
      else (ClassName(CLASS_NAME), reg.classes)
  }

  /**
   * Registering twice: once the first call has registered the class or found it registered,
   * a second call returns the same name whatever the OS would report, and the table stays as
   * it was, holding the name once.
   */
  lemma RegisterTwiceIsIdempotent(classes: set<string>, first: Option<nat>, second: Option<nat>)
    requires CLASS_NAME in classes || first.None?
    ensures RegisterClassOnce(classes, first).0 == ClassName(CLASS_NAME)
    ensures CLASS_NAME in RegisterClassOnce(classes, first).1
    ensures var once := RegisterClassOnce(classes, first);
            var twice := RegisterClassOnce(once.1, second);
            twice == (ClassName(CLASS_NAME), once.1)
  {
  }

  /** What wndproc does with one message. */
  datatype Reply = Reply(result: int, quitPosted: bool, forwarded: bool)

  /**
   * wndproc: WM_DESTROY posts the quit request for the whole message loop and returns 0;
   * every other message is forwarded to DefWindowProcW, whose answer `defaultResult` is returned.
   */
  function PyWndProc(msg: nat, defaultResult: int): (r: Reply)
    ensures r.quitPosted <==> msg == WM_DESTROY
    ensures r.forwarded <==> !r.quitPosted
    ensures r.result == if r.quitPosted then 0 else defaultResult
  {
    if msg == WM_DESTROY then Reply(0, true, false) else Reply(defaultResult, false, true)
  }
}
