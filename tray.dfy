/**
 The tray tile's two objects. `SystemTray` runs one enumeration pass over
 Explorer's notification-area toolbar per `Run` and hands every surviving icon
 to its delegate; `Tray` is the tile's control, whose `OnTrayIconAdded` is that
 delegate, which keeps the panel of items, and whose mouse handlers forward
 gestures to the icons' owners.

 Every call into the operating system that matters is appended to a log:
 `SystemTray.calls` for the pass (including each delegate call), `Tray.posted`
 for the messages the mouse handlers post.
 */
module Tray {
  import opened Win32
  import opened Locator
  import opened NotifyIcon
  import opened TrayPass
  import opened TrayUi

  /** What the panel gains from button `index` in a pass: the item of its
      normalised record, when the record is kept, accepted and converts. */
  ghost function ShownAt(env: Desktop, hProcess: Handle, hBuffer: Handle, index: int): seq<Item>
  {
    var nid := DeliveredAt(env, hProcess, hBuffer, index);
    if Kept(env, TrayItemAt(env, hProcess, hBuffer, index)) && Accepts(nid) && Converts(env, nid)
    then [ItemFor(nid)] else []
  }

  /** After the loop and the epilogue, the log and the panel are those of the
      whole pass. */
  lemma PassClosesLoop(env: Desktop, start: seq<Call>, shown: seq<Item>, calls: seq<Call>, children: seq<Item>)
    requires Toolbar(env) != NULL && Count(env) >= 1
    requires calls == start + ([SendMessage(Toolbar(env), TB_BUTTONCOUNT, 0, NULL)] + Prologue(env)) +
                      LoopCalls(env, Toolbar(env), ProcessOf(env), BufferOf(env), Count(env) as int) + Epilogue(env)
    requires children == shown + Displayed(env, Notifications(
                           LoopCalls(env, Toolbar(env), ProcessOf(env), BufferOf(env), Count(env) as int)))
    ensures calls == start + GetTrayItemsCalls(env)
    ensures children == shown + Displayed(env, Notifications(GetTrayItemsCalls(env)))
  {
    PassFromLoop(env);
    var loop := LoopCalls(env, Toolbar(env), ProcessOf(env), BufferOf(env), Count(env) as int);
    var head := [SendMessage(Toolbar(env), TB_BUTTONCOUNT, 0, NULL)] + Prologue(env);
    ConcatAssoc(start, head, loop);
    ConcatAssoc(start, head + loop, Epilogue(env));
  }

  lemma ConcatAssoc<T>(a: seq<T>, b: seq<T>, c: seq<T>)
    ensures a + b + c == a + (b + c)
  {
  }

  /** The loop invariant of GetTrayItems survives one more iteration. */
  lemma LoopInvariantStep(env: Desktop, toolbar: Handle, hProcess: Handle, hBuffer: Handle, i: nat,
                          before: seq<Call>, shown: seq<Item>, calls: seq<Call>, children: seq<Item>)
    requires calls == before + LoopCalls(env, toolbar, hProcess, hBuffer, i) +
                      IterationCalls(env, toolbar, hProcess, hBuffer, i)
    requires children == shown + Displayed(env, Notifications(LoopCalls(env, toolbar, hProcess, hBuffer, i))) +
                         ShownAt(env, hProcess, hBuffer, i)
    ensures calls == before + LoopCalls(env, toolbar, hProcess, hBuffer, i + 1)
    ensures children == shown + Displayed(env, Notifications(LoopCalls(env, toolbar, hProcess, hBuffer, i + 1)))
  {
    DisplayedStep(env, toolbar, hProcess, hBuffer, i);
    var done := LoopCalls(env, toolbar, hProcess, hBuffer, i);
    ConcatAssoc(before, done, IterationCalls(env, toolbar, hProcess, hBuffer, i));
    ConcatAssoc(shown, Displayed(env, Notifications(done)), ShownAt(env, hProcess, hBuffer, i));
  }

  /** One more iteration of the loop adds to the panel what that button shows. */
  lemma DisplayedStep(env: Desktop, toolbar: Handle, hProcess: Handle, hBuffer: Handle, i: nat)
    ensures Displayed(env, Notifications(LoopCalls(env, toolbar, hProcess, hBuffer, i + 1))) ==
            Displayed(env, Notifications(LoopCalls(env, toolbar, hProcess, hBuffer, i))) +
            ShownAt(env, hProcess, hBuffer, i)
  {
    var nids := Notifications(LoopCalls(env, toolbar, hProcess, hBuffer, i));
    LoopStep(env, toolbar, hProcess, hBuffer, i);
    if Kept(env, TrayItemAt(env, hProcess, hBuffer, i)) {
      DisplayedSnoc(env, nids, DeliveredAt(env, hProcess, hBuffer, i));
    } else {
      assert nids + [] == nids;
    }
  }

  class SystemTray {
    /** The tray delegate: the `Tray` whose OnTrayIconAdded receives each icon,
        or null before SetSystrayCallback. */
    var trayDelegate: Tray?
    /** The calls made so far, oldest first. */
    var calls: seq<Call>

    constructor()
      ensures trayDelegate == null && calls == []
    {
      trayDelegate := null;
      calls := [];
    }

    method SetSystrayCallback(theDelegate: Tray)
      modifies this`trayDelegate
      ensures trayDelegate == theDelegate
    {
      trayDelegate := theDelegate;
    }

    /** A pass runs only when the tile is not the shell and a delegate is set. */
    method Run(env: Desktop, runningAsShell: bool)
      modifies this`calls, (if trayDelegate == null then {} else {trayDelegate})`children
      ensures calls == old(calls) + RunCalls(env, runningAsShell, trayDelegate != null)
      ensures trayDelegate != null ==>
        trayDelegate.children ==
        old(trayDelegate.children) + Displayed(env, Notifications(RunCalls(env, runningAsShell, true)))
    {
      if !runningAsShell && trayDelegate != null {
        GetTrayItems(env);
      }
    }

    /** One pass: locate the toolbar, ask for its button count, open Explorer,
        allocate the scratch buffer, fetch and filter every index in order,
        hand each survivor to the delegate, then free and close. */
    method GetTrayItems(env: Desktop)
      requires trayDelegate != null
      modifies this`calls, trayDelegate`children
      ensures calls == old(calls) + GetTrayItemsCalls(env)
      ensures trayDelegate.children ==
              old(trayDelegate.children) + Displayed(env, Notifications(GetTrayItemsCalls(env)))
    {
      var toolbarHwnd := FindExplorerTrayToolbarHwnd(env);
      if toolbarHwnd == NULL {
        return;
      }

      var count := GetNumTrayIcons(env, toolbarHwnd);
      if count < 1 {
        assert Notifications([SendMessage(toolbarHwnd, TB_BUTTONCOUNT, 0, NULL)]) == [];
        return;
      }

      var processId := GetWindowThreadProcessId(env, toolbarHwnd);
      var hProcess := OpenProcessResult(env);
      calls := calls + [OpenProcess(processId)];
      var hBuffer := VirtualAllocExResult(env, hProcess);
      calls := calls + [VirtualAllocEx(hProcess)];
      assert calls == old(calls) + [SendMessage(toolbarHwnd, TB_BUTTONCOUNT, 0, NULL)] + Prologue(env);

      assert toolbarHwnd == Toolbar(env) && count == Count(env);
      assert hProcess == ProcessOf(env) && hBuffer == BufferOf(env);
      ghost var head := [SendMessage(toolbarHwnd, TB_BUTTONCOUNT, 0, NULL)] + Prologue(env);
      assert calls == old(calls) + head;
      ghost var before := calls;
      ghost var shown := trayDelegate.children;
      for i := 0 to count as int
        invariant calls == before + LoopCalls(env, toolbarHwnd, hProcess, hBuffer, i)
        invariant trayDelegate.children ==
                  shown + Displayed(env, Notifications(LoopCalls(env, toolbarHwnd, hProcess, hBuffer, i)))
      {
        DeliverTrayItem(env, i, hBuffer, hProcess, toolbarHwnd);
        LoopInvariantStep(env, toolbarHwnd, hProcess, hBuffer, i, before, shown, calls, trayDelegate.children);
      }

      calls := calls + Epilogue(env);
      PassClosesLoop(env, old(calls), shown, calls, trayDelegate.children);
    }

    /** The body of the loop in GetTrayItems for button `index`: fetch its
        record, skip it when its window is NULL or gone, otherwise normalise it
        and hand it to the delegate (whose answer is ignored). */
    method DeliverTrayItem(env: Desktop, index: int, hBuffer: Handle, hProcess: Handle, toolbarHwnd: Handle)
      requires trayDelegate != null
      modifies this`calls, trayDelegate`children
      ensures calls == old(calls) + IterationCalls(env, toolbarHwnd, hProcess, hBuffer, index)
      ensures trayDelegate.children == old(trayDelegate.children) + ShownAt(env, hProcess, hBuffer, index)
    {
      var trayItem := GetTrayItem(env, index, hBuffer, hProcess, toolbarHwnd);
      if trayItem.hWnd == NULL || !IsWindow(env, trayItem.hWnd) {
        return;
      }
      var nid := GetTrayItemIconData(trayItem);
      calls := calls + [Notify(NIM_ADD, nid)];
      var accepted := trayDelegate.OnTrayIconAdded(env, NIM_ADD, nid);
      // A rejected icon is only logged; the loop goes on.
    }

    /** TB_BUTTONCOUNT: how many buttons the toolbar holds. */
    method GetNumTrayIcons(env: Desktop, toolbarHwnd: Handle) returns (count: int32)
      modifies this`calls
      ensures count == ButtonCountReply(env, toolbarHwnd)
      ensures calls == old(calls) + [SendMessage(toolbarHwnd, TB_BUTTONCOUNT, 0, NULL)]
    {
      calls := calls + [SendMessage(toolbarHwnd, TB_BUTTONCOUNT, 0, NULL)];
      count := ButtonCountReply(env, toolbarHwnd);
    }

    /** Fetch the descriptor of button `index` through the scratch buffer and,
        when its dwData is non-NULL, the tray record it points at, with the
        state replaced by the descriptor's hidden bit. Any failure leaves the
        default record. */
    method GetTrayItem(env: Desktop, index: int, hBuffer: Handle, hProcess: Handle, toolbarHwnd: Handle)
      returns (trayItem: TrayItem)
      modifies this`calls
      ensures trayItem == TrayItemAt(env, hProcess, hBuffer, index)
      ensures calls == old(calls) + GetTrayItemCalls(env, toolbarHwnd, hProcess, hBuffer, index)
    {
      trayItem := DefaultTrayItem;

      calls := calls + [SendMessage(toolbarHwnd, TB_GETBUTTON, index, hBuffer)];
      calls := calls + [ReadProcessMemory(hProcess, hBuffer)];
      var button := ReadButton(env, hProcess, hBuffer, index);
      if button.Some? {
        var tbButton := button.value;
        if tbButton.dwData != NULL {
          calls := calls + [ReadProcessMemory(hProcess, tbButton.dwData)];
          var record := ReadTrayItem(env, hProcess, tbButton.dwData);
          if record.Some? {
            trayItem := record.value;
            trayItem := trayItem.(dwState := HiddenState(tbButton.fsState));
          }
        }
      }
    }
  }

  class Tray {
    var systemTray: SystemTray?
    /** clickTimer.IsEnabled: a first left press is waiting for a second. */
    var clickTimerEnabled: bool
    /** Root.Children: the items on the panel, in the order they were added. */
    var children: seq<Item>
    /** The messages posted and foreground requests made, oldest first. */
    var posted: seq<Call>

    /** The tray's SystemTray delivers to this tray. */
    ghost predicate Valid()
      reads this, systemTray
    {
      systemTray != null && systemTray.trayDelegate == this
    }

    /** Builds the control, loads it (which refreshes once) and leaves the click
        timer idle. */
    constructor(env: Desktop, runningAsShell: bool)
      ensures Valid() && fresh(systemTray)
      ensures !clickTimerEnabled && posted == []
      ensures children == Displayed(env, Notifications(RunCalls(env, runningAsShell, true)))
      ensures systemTray.calls == RunCalls(env, runningAsShell, true)
    {
      systemTray := null;
      children := [];
      posted := [];
      clickTimerEnabled := false;
      new;
      Load(env, runningAsShell);
    }

    /** A fresh SystemTray delivering to this tray, and a first refresh. */
    method Load(env: Desktop, runningAsShell: bool)
      modifies this
      ensures Valid() && fresh(systemTray)
      ensures children == Displayed(env, Notifications(RunCalls(env, runningAsShell, true)))
      ensures systemTray.calls == RunCalls(env, runningAsShell, true)
      ensures clickTimerEnabled == old(clickTimerEnabled) && posted == old(posted)
    {
      var tray := new SystemTray();
      tray.SetSystrayCallback(this);
      systemTray := tray;
      Refresh(env, runningAsShell);
    }

    /** Empties the panel, then runs a pass: afterwards the panel holds exactly
        the delivered icons that OnTrayIconAdded accepted and whose bitmaps
        converted, in delivery order. */
    method Refresh(env: Desktop, runningAsShell: bool)
      requires Valid()
      modifies this`children, systemTray`calls
      ensures Valid()
      ensures children == Displayed(env, Notifications(RunCalls(env, runningAsShell, true)))
      ensures systemTray.calls == old(systemTray.calls) + RunCalls(env, runningAsShell, true)
    {
      children := [];
      systemTray.Run(env, runningAsShell);
    }

    /** The tray delegate: accepts an icon that announces and has an icon
        handle, and then tries to show it. */
    method OnTrayIconAdded(env: Desktop, msg: uint32, nid: SafeNotifyIconData) returns (accepted: bool)
      modifies this`children
      ensures accepted == Accepts(nid)
      ensures children == old(children) + if accepted && Converts(env, nid) then [ItemFor(nid)] else []
    {
      if nid.uFlags & NIF_ICON == NIF_ICON && nid.hIcon != NULL {
        AddIconToUI(env, nid);
        return true;
      }
      return false;
    }

    /** Appends an item for `nid` unless its icon handle is NULL or does not
        convert to a bitmap; the tooltip is the tip text or "No Title". */
    method AddIconToUI(env: Desktop, nid: SafeNotifyIconData)
      modifies this`children
      ensures children == old(children) + if Converts(env, nid) then [ItemFor(nid)] else []
    {
      var buttonData := TrayIconData(TrayData(nid.hIcon, nid.hWnd, nid.uCallbackMessage, nid.uID), nid.szTip);
      if nid.hIcon == NULL {
        // "Icon handle is invalid": reported, nothing added.
        return;
      }
      if nid.hIcon !in env.drawable {
        // The bitmap conversion failed: reported, nothing added.
        return;
      }
      children := children + [Item(buttonData, ToolTipText(nid.szTip))];
    }

    /** Left press: a second press while the timer runs is a double click,
        otherwise it starts the timer and is a single click. */
    method ItemMouseLeftButtonDown(item: Item)
      modifies this`clickTimerEnabled, this`posted
      ensures clickTimerEnabled == React(old(clickTimerEnabled), LeftDown(item)).timerEnabled
      ensures posted == old(posted) + React(old(clickTimerEnabled), LeftDown(item)).posts
    {
      if item.buttonData.traydata.hWnd != NULL {
        if clickTimerEnabled {
          clickTimerEnabled := false;
          HandleDoubleClick(item);
        } else {
          clickTimerEnabled := true;
          HandleSingleClick(item);
        }
      }
    }

    /** The double-click interval elapsed. */
    method ClickTimerTick()
      modifies this`clickTimerEnabled
      ensures clickTimerEnabled == React(old(clickTimerEnabled), Tick).timerEnabled
    {
      clickTimerEnabled := false;
    }

    method HandleSingleClick(item: Item)
      modifies this`posted
      ensures posted == old(posted) + [Post(item.buttonData.traydata, WM_LBUTTONDOWN)]
    {
      var data := item.buttonData.traydata;
      posted := posted + [PostMessage(data.hWnd, data.uCallbackMessage, ToInt32(data.uID), WM_LBUTTONDOWN)];
    }

    method HandleDoubleClick(item: Item)
      modifies this`posted
      ensures posted == old(posted) + [Post(item.buttonData.traydata, WM_LBUTTONDBLCLK),
                                       SetForegroundWindow(item.buttonData.traydata.hWnd)]
    {
      var data := item.buttonData.traydata;
      posted := posted + [PostMessage(data.hWnd, data.uCallbackMessage, ToInt32(data.uID), WM_LBUTTONDBLCLK)];
      posted := posted + [SetForegroundWindow(data.hWnd)];
    }

    method ItemMouseRightButtonDown(item: Item)
      modifies this`posted
      ensures posted == old(posted) + React(clickTimerEnabled, RightDown(item)).posts
    {
      var data := item.buttonData.traydata;
      if data.hWnd != NULL {
        posted := posted + [PostMessage(data.hWnd, data.uCallbackMessage, ToInt32(data.uID), WM_RBUTTONDOWN)];
      }
    }

    method ItemMouseRightButtonUp(item: Item)
      modifies this`posted
      ensures posted == old(posted) + React(clickTimerEnabled, RightUp(item)).posts
    {
      var data := item.buttonData.traydata;
      if data.hWnd != NULL {
        posted := posted + [PostMessage(data.hWnd, data.uCallbackMessage, ToInt32(data.uID), WM_RBUTTONUP)];
        posted := posted + [PostMessage(data.hWnd, data.uCallbackMessage, ToInt32(data.uID), WM_CONTEXTMENU)];
      }
    }
  }
}
