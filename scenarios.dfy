/**
 End-to-end situations of one enumeration pass, stated over any desktop that
 fits them: some buttons point at live records and one has no data; the
 toolbar lookup breaks off part-way; Explorer cannot be opened.
 */
module Scenarios {
  import opened Win32
  import opened Locator
  import opened TrayPass

  /** Button `index` has a non-NULL dwData that leads to a record whose window
      is alive. */
  predicate PointsToLiveRecord(env: Desktop, hProcess: Handle, hBuffer: Handle, index: int)
  {
    match ReadButton(env, hProcess, hBuffer, index)
    case None => false
    case Some(button) =>
      button.dwData != NULL &&
      match ReadTrayItem(env, hProcess, button.dwData)
      case None => false
      case Some(record) => record.hWnd != NULL && IsWindow(env, record.hWnd)
  }

  /** A button pointing at a live record survives the filter. */
  lemma LiveRecordIsKept(env: Desktop, hProcess: Handle, hBuffer: Handle, index: int)
    requires PointsToLiveRecord(env, hProcess, hBuffer, index)
    ensures Kept(env, TrayItemAt(env, hProcess, hBuffer, index))
  {
    var button := ReadButton(env, hProcess, hBuffer, index).value;
    var record := ReadTrayItem(env, hProcess, button.dwData).value;
    assert TrayItemAt(env, hProcess, hBuffer, index) == record.(dwState := HiddenState(button.fsState));
  }

  /** Three buttons: 0 and 2 lead to live records, 1 has a NULL dwData. The
      delegate is called exactly twice, for index 0 and then index 2, and the
      second read is skipped for index 1. */
  lemma ThreeButtonsMiddleWithoutData(env: Desktop)
    requires Toolbar(env) != NULL && Count(env) == 3
    requires PointsToLiveRecord(env, ProcessOf(env), BufferOf(env), 0)
    requires ReadButton(env, ProcessOf(env), BufferOf(env), 1).Some?
    requires ReadButton(env, ProcessOf(env), BufferOf(env), 1).value.dwData == NULL
    requires PointsToLiveRecord(env, ProcessOf(env), BufferOf(env), 2)
    ensures DeliveredIndices(env, false, true) == [0, 2]
    ensures Notifications(RunCalls(env, false, true)) ==
            [DeliveredAt(env, ProcessOf(env), BufferOf(env), 0), DeliveredAt(env, ProcessOf(env), BufferOf(env), 2)]
    ensures GetTrayItemCalls(env, Toolbar(env), ProcessOf(env), BufferOf(env), 1) ==
            [SendMessage(Toolbar(env), TB_GETBUTTON, 1, BufferOf(env)), ReadProcessMemory(ProcessOf(env), BufferOf(env))]
  {
    var hProcess, hBuffer := ProcessOf(env), BufferOf(env);
    LiveRecordIsKept(env, hProcess, hBuffer, 0);
    FailedReadIsSkipped(env, hProcess, hBuffer, 1);
    LiveRecordIsKept(env, hProcess, hBuffer, 2);
    assert Survivors(env, hProcess, hBuffer, 1) == [0];
    assert Survivors(env, hProcess, hBuffer, 2) == [0];
    assert Survivors(env, hProcess, hBuffer, 3) == [0, 2];
    RunDeliversSurvivorsInOrder(env, false, true);
  }

  /** When any lookup along the tray chain finds nothing (for instance
      TrayNotifyWnd under a found Shell_TrayWnd), the pass makes no call at
      all: no count query, no process open, no allocation, no delegate call. */
  lemma LookupFailureStopsPass(env: Desktop, runningAsShell: bool, hasDelegate: bool)
    requires !ChainSucceeds(env, NULL, TrayChain)
    ensures FindExplorerTrayToolbarHwnd(env) == NULL
    ensures RunCalls(env, runningAsShell, hasDelegate) == []
    ensures DeliveredIndices(env, runningAsShell, hasDelegate) == []
  {
    LocatorWalksTrayChain(env);
  }

  /** The lookup in the situation above: a taskbar whose TrayNotifyWnd is missing. */
  lemma MissingNotifyAreaStopsPass(env: Desktop, runningAsShell: bool, hasDelegate: bool)
    requires FindWindow(env, "Shell_TrayWnd") != NULL
    requires FindWindowEx(env, FindWindow(env, "Shell_TrayWnd"), "TrayNotifyWnd") == NULL
    ensures RunCalls(env, runningAsShell, hasDelegate) == []
  {
    assert TrayChain[0] == "Shell_TrayWnd" && TrayChain[1..][0] == "TrayNotifyWnd";
    LookupFailureStopsPass(env, runningAsShell, hasDelegate);
  }

  /** With a NULL process handle every descriptor read fails, so no index survives. */
  lemma {:induction false} NothingSurvivesWithoutProcess(env: Desktop, hBuffer: Handle, n: nat)
    ensures Survivors(env, NULL, hBuffer, n) == []
  {
    if n > 0 {
      NothingSurvivesWithoutProcess(env, hBuffer, n - 1);
      FailedReadIsSkipped(env, NULL, hBuffer, n - 1);
    }
  }

  /** OpenProcess fails: since its result is not checked, the pass still
      allocates (on the NULL process), walks every index, frees and closes, but
      no record is read and the delegate is never called. */
  lemma FailedOpenDeliversNothing(env: Desktop, runningAsShell: bool, hasDelegate: bool)
    requires ProcessOf(env) == NULL
    ensures Notifications(RunCalls(env, runningAsShell, hasDelegate)) == []
    ensures DeliveredIndices(env, runningAsShell, hasDelegate) == []
    ensures var calls := RunCalls(env, runningAsShell, hasDelegate);
      && CountOf(calls, IsAlloc) == CountOf(calls, IsFree)
      && CountOf(calls, IsOpen) == CountOf(calls, IsClose)
      && (Enumerates(env, runningAsShell, hasDelegate) ==> CountOf(calls, IsAlloc) == 1)
  {
    NothingSurvivesWithoutProcess(env, BufferOf(env), if Count(env) < 0 then 0 else Count(env) as nat);
    RunDeliversSurvivorsInOrder(env, runningAsShell, hasDelegate);
    ResourcesBalanced(env, runningAsShell, hasDelegate);
  }
}
