/**
 Locating Explorer's notification-area toolbar: the window of class
 ToolbarWindow32 inside SysPager inside TrayNotifyWnd inside the top-level
 Shell_TrayWnd.
 */
module Locator {
  import opened Win32

  /** The window classes from the taskbar down to the icon toolbar. */
  const TrayChain: seq<string> := ["Shell_TrayWnd", "TrayNotifyWnd", "SysPager", "ToolbarWindow32"]

  /** SystemTray.FindExplorerTrayToolbarHwnd: nested lookups, each scoped to the
      previous result; NULL as soon as one of them finds nothing. */
  function FindExplorerTrayToolbarHwnd(env: Desktop): (h: Handle)
    ensures h == Walk(env, NULL, TrayChain)
  {
    assert TrayChain[1..][1..][1..] == ["ToolbarWindow32"] && TrayChain[1..][1..][1..][1..] == [];
    var hwnd := FindWindow(env, "Shell_TrayWnd");
    if hwnd != NULL then
      var hwnd := FindWindowEx(env, hwnd, "TrayNotifyWnd");
      if hwnd != NULL then
        var hwnd := FindWindowEx(env, hwnd, "SysPager");
        if hwnd != NULL then
          FindWindowEx(env, hwnd, "ToolbarWindow32")
        else NULL
      else NULL
    else NULL
  }

  /** Reference definition: follow any chain of classes from `parent`, giving up
      with NULL at the first class that is not found. */
  function Walk(env: Desktop, parent: Handle, classes: seq<string>): Handle
    decreases |classes|
  {
    if classes == [] then parent
    else
      var child := FindWindowEx(env, parent, classes[0]);
      if child == NULL then NULL else Walk(env, child, classes[1..])
  }

  /** Every lookup along `classes`, each scoped to the previous one, finds a window. */
  predicate ChainSucceeds(env: Desktop, parent: Handle, classes: seq<string>)
    decreases |classes|
  {
    classes == [] ||
    (FindWindowEx(env, parent, classes[0]) != NULL &&
     ChainSucceeds(env, FindWindowEx(env, parent, classes[0]), classes[1..]))
  }

  /** A walk over a non-empty chain finds a window exactly when every lookup
      along it succeeds, and what it finds is the last lookup's answer. */
  lemma {:induction false} WalkFindsIffChainSucceeds(env: Desktop, parent: Handle, classes: seq<string>)
    requires classes != []
    ensures Walk(env, parent, classes) != NULL <==> ChainSucceeds(env, parent, classes)
    ensures Walk(env, parent, classes) != NULL ==>
              Walk(env, parent, classes) ==
              FindWindowEx(env, Walk(env, parent, classes[..|classes| - 1]), classes[|classes| - 1])
    decreases |classes|
  {
    var child := FindWindowEx(env, parent, classes[0]);
    if child != NULL && |classes| > 1 {
      WalkFindsIffChainSucceeds(env, child, classes[1..]);
      assert classes[1..][|classes[1..]| - 1] == classes[|classes| - 1];
      assert classes[..|classes| - 1][0] == classes[0];
      assert classes[..|classes| - 1][1..] == classes[1..][..|classes[1..]| - 1];
    } else if child != NULL {
      assert Walk(env, child, classes[1..]) == child;
      assert classes[..|classes| - 1] == [];
    }
  }

  /** The locator is the reference walk over the four tray classes, started
      from the desktop; so it returns non-NULL exactly when all four lookups
      succeed, each scoped to the previous result. */
  lemma LocatorWalksTrayChain(env: Desktop)
    ensures FindExplorerTrayToolbarHwnd(env) == Walk(env, NULL, TrayChain)
    ensures FindExplorerTrayToolbarHwnd(env) != NULL <==> ChainSucceeds(env, NULL, TrayChain)
  {
    WalkFindsIffChainSucceeds(env, NULL, TrayChain);
  }
}
