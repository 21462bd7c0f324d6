/**
 One enumeration pass of SystemTray, as functions of the `Desktop`: the record
 each index yields, the calls each step makes, and the whole log of calls of
 `Run`. The class `Tray.SystemTray` is proved to produce exactly these logs;
 the lemmas here state what the pass promises about them.
 */
module TrayPass {
  import opened Win32
  import opened Locator
  import opened NotifyIcon

  /** The state GetTrayItem stores in the record: the descriptor's hidden bit,
      as 1 or 0. */
  function HiddenState(fsState: bv8): (state: uint32)
    ensures state == 1 <==> fsState & TBSTATE_HIDDEN != 0
    ensures state == 0 <==> fsState & TBSTATE_HIDDEN == 0
  {
    if fsState & TBSTATE_HIDDEN != 0 then 1 else 0
  }

  /** The record GetTrayItem returns for `index`: the default (all-zero) record
      unless the descriptor read, a non-NULL dwData and the record read all
      succeed. */
  function TrayItemAt(env: Desktop, hProcess: Handle, hBuffer: Handle, index: int): TrayItem
  {
    match ReadButton(env, hProcess, hBuffer, index)
    case None => DefaultTrayItem
    case Some(button) =>
      if button.dwData == NULL then DefaultTrayItem
      else
        match ReadTrayItem(env, hProcess, button.dwData)
        case None => DefaultTrayItem
        case Some(record) => record.(dwState := HiddenState(button.fsState))
  }

  /** The calls GetTrayItem makes for `index`: TB_GETBUTTON into the scratch
      buffer, the read-back, and the record read when dwData is non-NULL. */
  function GetTrayItemCalls(env: Desktop, toolbar: Handle, hProcess: Handle, hBuffer: Handle, index: int): seq<Call>
  {
    [SendMessage(toolbar, TB_GETBUTTON, index, hBuffer), ReadProcessMemory(hProcess, hBuffer)] +
    match ReadButton(env, hProcess, hBuffer, index)
    case Some(button) =>
      if button.dwData != NULL then [ReadProcessMemory(hProcess, button.dwData)] else []
    case None => []
  }

  /** The loop keeps a record only if its window is non-NULL and alive. */
  predicate Kept(env: Desktop, trayItem: TrayItem)
  {
    trayItem.hWnd != NULL && IsWindow(env, trayItem.hWnd)
  }

  /** The notify-icon data delivered for `index` when it is kept. */
  function DeliveredAt(env: Desktop, hProcess: Handle, hBuffer: Handle, index: int): SafeNotifyIconData
  {
    GetTrayItemIconData(TrayItemAt(env, hProcess, hBuffer, index))
  }

  /** The calls of one iteration of the loop in GetTrayItems. */
  function IterationCalls(env: Desktop, toolbar: Handle, hProcess: Handle, hBuffer: Handle, index: int): seq<Call>
  {
    GetTrayItemCalls(env, toolbar, hProcess, hBuffer, index) +
    if Kept(env, TrayItemAt(env, hProcess, hBuffer, index))
    then [Notify(NIM_ADD, DeliveredAt(env, hProcess, hBuffer, index))]
    else []
  }

  /** The calls of the first `n` iterations. */
  function LoopCalls(env: Desktop, toolbar: Handle, hProcess: Handle, hBuffer: Handle, n: nat): seq<Call>
  {
    if n == 0 then []
    else LoopCalls(env, toolbar, hProcess, hBuffer, n - 1) + IterationCalls(env, toolbar, hProcess, hBuffer, n - 1)
  }

  /** The indices below `n` whose records survive the filter, in index order. */
  function Survivors(env: Desktop, hProcess: Handle, hBuffer: Handle, n: nat): seq<int>
  {
    if n == 0 then []
    else
      Survivors(env, hProcess, hBuffer, n - 1) +
      if Kept(env, TrayItemAt(env, hProcess, hBuffer, n - 1)) then [n - 1] else []
  }

  // The values GetTrayItems computes before its loop.
  function Toolbar(env: Desktop): Handle { FindExplorerTrayToolbarHwnd(env) }
  function Count(env: Desktop): int32 { ButtonCountReply(env, Toolbar(env)) }
  function ProcessOf(env: Desktop): Handle { OpenProcessResult(env) }
  function BufferOf(env: Desktop): Handle { VirtualAllocExResult(env, ProcessOf(env)) }

  /** Run reaches the loop: not the shell, a delegate set, a toolbar found and
      at least one button. */
  predicate Enumerates(env: Desktop, runningAsShell: bool, hasDelegate: bool)
  {
    !runningAsShell && hasDelegate && Toolbar(env) != NULL && Count(env) >= 1
  }

  /** Opening Explorer and allocating the scratch buffer, before the loop. */
  function Prologue(env: Desktop): seq<Call>
  {
    [OpenProcess(GetWindowThreadProcessId(env, Toolbar(env))), VirtualAllocEx(ProcessOf(env))]
  }

  /** Freeing the scratch buffer and closing Explorer, after the loop. */
  function Epilogue(env: Desktop): seq<Call>
  {
    [VirtualFreeEx(ProcessOf(env), BufferOf(env)), CloseHandle(ProcessOf(env))]
  }

  /** The calls of the loop over all `Count(env)` buttons. */
  function PassLoop(env: Desktop): seq<Call>
  {
    LoopCalls(env, Toolbar(env), ProcessOf(env), BufferOf(env), if Count(env) < 0 then 0 else Count(env) as nat)
  }

  /** The calls of GetTrayItems. */
  function GetTrayItemsCalls(env: Desktop): seq<Call>
  {
    if Toolbar(env) == NULL then []
    else
      [SendMessage(Toolbar(env), TB_BUTTONCOUNT, 0, NULL)] +
      if Count(env) < 1 then [] else Prologue(env) + PassLoop(env) + Epilogue(env)
  }

  /** The calls of SystemTray.Run. */
  function RunCalls(env: Desktop, runningAsShell: bool, hasDelegate: bool): seq<Call>
  {
    if !runningAsShell && hasDelegate then GetTrayItemsCalls(env) else []
  }

  /** The indices whose records Run delivers to the delegate, in call order. */
  function DeliveredIndices(env: Desktop, runningAsShell: bool, hasDelegate: bool): seq<int>
  {
    if Enumerates(env, runningAsShell, hasDelegate)
    then Survivors(env, ProcessOf(env), BufferOf(env), Count(env) as nat)
    else []
  }

  // ---------------------------------------------------------------------
  // Reading a log.

  /** The notify-icon data of the delegate calls in a log, in order. */
  function Notifications(calls: seq<Call>): seq<SafeNotifyIconData>
  {
    if calls == [] then []
    else (if calls[0].Notify? then [calls[0].nid] else []) + Notifications(calls[1..])
  }

  /** How many calls in a log satisfy `p`. */
  function CountOf(calls: seq<Call>, p: Call -> bool): nat
  {
    if calls == [] then 0 else (if p(calls[0]) then 1 else 0) + CountOf(calls[1..], p)
  }

  predicate IsOpen(c: Call) { c.OpenProcess? }
  predicate IsClose(c: Call) { c.CloseHandle? }
  predicate IsAlloc(c: Call) { c.VirtualAllocEx? }
  predicate IsFree(c: Call) { c.VirtualFreeEx? }
  predicate IsRead(c: Call) { c.ReadProcessMemory? }
  predicate IsNotify(c: Call) { c.Notify? }
  predicate IsResource(c: Call) { IsOpen(c) || IsClose(c) || IsAlloc(c) || IsFree(c) }

  lemma {:induction false} NotificationsAppend(a: seq<Call>, b: seq<Call>)
    ensures Notifications(a + b) == Notifications(a) + Notifications(b)
  {
    if a != [] {
      assert (a + b)[1..] == a[1..] + b;
      NotificationsAppend(a[1..], b);
    } else {
      assert a + b == b;
    }
  }

  lemma {:induction false} CountOfAppend(a: seq<Call>, b: seq<Call>, p: Call -> bool)
    ensures CountOf(a + b, p) == CountOf(a, p) + CountOf(b, p)
  {
    if a != [] {
      assert (a + b)[1..] == a[1..] + b;
      CountOfAppend(a[1..], b, p);
    } else {
      assert a + b == b;
    }
  }

  /** A log without delegate calls carries no notifications. */
  lemma {:induction false} NoNotifyNoNotifications(calls: seq<Call>)
    requires forall i :: 0 <= i < |calls| ==> !calls[i].Notify?
    ensures Notifications(calls) == []
    ensures CountOf(calls, IsNotify) == 0
  {
    if calls != [] {
      NoNotifyNoNotifications(calls[1..]);
    }
  }

  // ---------------------------------------------------------------------
  // One index.

  /** A failed descriptor read, a NULL dwData or a failed record read leave the
      default record, which the loop skips. */
  lemma FailedReadIsSkipped(env: Desktop, hProcess: Handle, hBuffer: Handle, index: int)
    requires ReadButton(env, hProcess, hBuffer, index).None? ||
             ReadButton(env, hProcess, hBuffer, index).value.dwData == NULL ||
             ReadTrayItem(env, hProcess, ReadButton(env, hProcess, hBuffer, index).value.dwData).None?
    ensures TrayItemAt(env, hProcess, hBuffer, index) == DefaultTrayItem
    ensures !Kept(env, TrayItemAt(env, hProcess, hBuffer, index))
  {
  }

  /** A kept index was read in full, and what reaches the delegate is the
      foreign record's fields with the hidden state taken from the descriptor's
      state byte, whatever the record's own state says. */
  lemma KeptIndexDelivery(env: Desktop, hProcess: Handle, hBuffer: Handle, index: int)
    requires Kept(env, TrayItemAt(env, hProcess, hBuffer, index))
    ensures ReadButton(env, hProcess, hBuffer, index).Some?
    ensures ReadButton(env, hProcess, hBuffer, index).value.dwData != NULL
    ensures ReadTrayItem(env, hProcess, ReadButton(env, hProcess, hBuffer, index).value.dwData).Some?
    ensures
      var button := ReadButton(env, hProcess, hBuffer, index).value;
      var record := ReadTrayItem(env, hProcess, button.dwData).value;
      var nid := DeliveredAt(env, hProcess, hBuffer, index);
      && (nid.dwState == 1 <==> button.fsState & TBSTATE_HIDDEN != 0)
      && (nid.dwState == 0 <==> button.fsState & TBSTATE_HIDDEN == 0)
      && nid.hWnd == record.hWnd && nid.uID == record.uID
      && nid.uCallbackMessage == record.uCallbackMessage
      && nid.szTip == record.szIconText && nid.hIcon == record.hIcon
      && nid.uVersion == record.uVersion && nid.guidItem == record.guidItem
      && IsWindow(env, nid.hWnd) && nid.hWnd != NULL
  {
  }

  /** The record read is attempted exactly when the descriptor read succeeded
      with a non-NULL dwData; otherwise the index costs one read only. */
  lemma {:induction false} SecondReadOnlyForNonNullData(env: Desktop, toolbar: Handle, hProcess: Handle, hBuffer: Handle, index: int)
    ensures
      var button := ReadButton(env, hProcess, hBuffer, index);
      CountOf(GetTrayItemCalls(env, toolbar, hProcess, hBuffer, index), IsRead) ==
      if button.Some? && button.value.dwData != NULL then 2 else 1
  {
    var calls := GetTrayItemCalls(env, toolbar, hProcess, hBuffer, index);
    var head := [SendMessage(toolbar, TB_GETBUTTON, index, hBuffer), ReadProcessMemory(hProcess, hBuffer)];
    var tail := calls[2..];
    assert calls == head + tail;
    CountOfAppend(head, tail, IsRead);
    assert head[1..][1..] == [];
    if tail != [] {
      assert tail[1..] == [];
    }
  }

  // ---------------------------------------------------------------------
  // The loop.

  /** The loop opens, allocates, frees and closes nothing, and every delegate
      call in it is an NIM_ADD. */
  lemma {:induction false} LoopUsesNoResources(env: Desktop, toolbar: Handle, hProcess: Handle, hBuffer: Handle, n: nat)
    ensures CountOf(LoopCalls(env, toolbar, hProcess, hBuffer, n), IsResource) == 0
    ensures forall c :: c in LoopCalls(env, toolbar, hProcess, hBuffer, n) && c.Notify? ==> c.message == NIM_ADD
  {
    if n > 0 {
      var before := LoopCalls(env, toolbar, hProcess, hBuffer, n - 1);
      var step := IterationCalls(env, toolbar, hProcess, hBuffer, n - 1);
      LoopUsesNoResources(env, toolbar, hProcess, hBuffer, n - 1);
      CountOfAppend(before, step, IsResource);
      StepUsesNoResources(step);
    }
  }

  lemma {:induction false} StepUsesNoResources(calls: seq<Call>)
    requires forall c :: c in calls ==> c.SendMessage? || c.ReadProcessMemory? || c.Notify?
    ensures CountOf(calls, IsResource) == 0
  {
    if calls != [] {
      assert calls[0] in calls;
      assert forall c :: c in calls[1..] ==> c in calls;
      StepUsesNoResources(calls[1..]);
    }
  }

  /** One iteration calls the delegate once, with the normalised record, if
      the index is kept, and not at all otherwise. */
  lemma IterationNotifications(env: Desktop, toolbar: Handle, hProcess: Handle, hBuffer: Handle, index: int)
    ensures Notifications(IterationCalls(env, toolbar, hProcess, hBuffer, index)) ==
            if Kept(env, TrayItemAt(env, hProcess, hBuffer, index))
            then [DeliveredAt(env, hProcess, hBuffer, index)] else []
  {
    var fetch := GetTrayItemCalls(env, toolbar, hProcess, hBuffer, index);
    var notify := IterationCalls(env, toolbar, hProcess, hBuffer, index)[|fetch|..];
    assert IterationCalls(env, toolbar, hProcess, hBuffer, index) == fetch + notify;
    NotificationsAppend(fetch, notify);
    NoNotifyNoNotifications(fetch);
    if notify != [] {
      assert notify[1..] == [];
    }
  }

  /** One more iteration extends the loop's log by the fetch of that index and,
      when it is kept, by one delegate call carrying its normalised record. */
  lemma LoopStep(env: Desktop, toolbar: Handle, hProcess: Handle, hBuffer: Handle, i: nat)
    ensures LoopCalls(env, toolbar, hProcess, hBuffer, i + 1) ==
            LoopCalls(env, toolbar, hProcess, hBuffer, i) + GetTrayItemCalls(env, toolbar, hProcess, hBuffer, i) +
            if Kept(env, TrayItemAt(env, hProcess, hBuffer, i))
            then [Notify(NIM_ADD, DeliveredAt(env, hProcess, hBuffer, i))] else []
    ensures Notifications(LoopCalls(env, toolbar, hProcess, hBuffer, i + 1)) ==
            Notifications(LoopCalls(env, toolbar, hProcess, hBuffer, i)) +
            if Kept(env, TrayItemAt(env, hProcess, hBuffer, i))
            then [DeliveredAt(env, hProcess, hBuffer, i)] else []
  {
    NotificationsAppend(LoopCalls(env, toolbar, hProcess, hBuffer, i), IterationCalls(env, toolbar, hProcess, hBuffer, i));
    IterationNotifications(env, toolbar, hProcess, hBuffer, i);
  }

  /** An enumerating pass, written over the values GetTrayItems computes before
      its loop: the count query, the prologue, the loop over every button and
      the epilogue; its delegate calls are the loop's. */
  lemma PassFromLoop(env: Desktop)
    requires Toolbar(env) != NULL && Count(env) >= 1
    ensures GetTrayItemsCalls(env) ==
            [SendMessage(Toolbar(env), TB_BUTTONCOUNT, 0, NULL)] + Prologue(env) +
            LoopCalls(env, Toolbar(env), ProcessOf(env), BufferOf(env), Count(env) as int) + Epilogue(env)
    ensures Notifications(GetTrayItemsCalls(env)) ==
            Notifications(LoopCalls(env, Toolbar(env), ProcessOf(env), BufferOf(env), Count(env) as int))
  {
    EnumeratingPassLog(env);
    PassNotifiesLoop(env);
  }

  /** The delegate calls of the first `n` iterations carry the normalised
      records of the surviving indices, one per survivor, in index order. */
  lemma {:induction false} LoopDeliversSurvivors(env: Desktop, toolbar: Handle, hProcess: Handle, hBuffer: Handle, n: nat)
    ensures
      var nids := Notifications(LoopCalls(env, toolbar, hProcess, hBuffer, n));
      var survivors := Survivors(env, hProcess, hBuffer, n);
      && |nids| == |survivors|
      && forall k :: 0 <= k < |survivors| ==> nids[k] == DeliveredAt(env, hProcess, hBuffer, survivors[k])
  {
    if n > 0 {
      var i := n - 1;
      LoopDeliversSurvivors(env, toolbar, hProcess, hBuffer, i);
      NotificationsAppend(LoopCalls(env, toolbar, hProcess, hBuffer, i), IterationCalls(env, toolbar, hProcess, hBuffer, i));
      IterationNotifications(env, toolbar, hProcess, hBuffer, i);
    }
  }

  /** The survivors below `n` are exactly the kept indices below `n`, each once,
      in increasing order. */
  lemma {:induction false} SurvivorsAreKeptInOrder(env: Desktop, hProcess: Handle, hBuffer: Handle, n: nat)
    ensures var s := Survivors(env, hProcess, hBuffer, n); |s| <= n
    ensures var s := Survivors(env, hProcess, hBuffer, n);
      forall k :: 0 <= k < |s| ==> 0 <= s[k] < n && Kept(env, TrayItemAt(env, hProcess, hBuffer, s[k]))
    ensures var s := Survivors(env, hProcess, hBuffer, n);
      forall j, k :: 0 <= j < k < |s| ==> s[j] < s[k]
    ensures var s := Survivors(env, hProcess, hBuffer, n);
      forall i :: 0 <= i < n && Kept(env, TrayItemAt(env, hProcess, hBuffer, i)) ==> i in s
  {
    if n > 0 {
      SurvivorsAreKeptInOrder(env, hProcess, hBuffer, n - 1);
    }
  }

  // ---------------------------------------------------------------------
  // The whole pass.

  /** Run does nothing at all when the tile runs as the shell or no delegate is
      set, and stops after the lookup (or after the count query) when no toolbar
      is found (or it has no buttons): no process is opened, nothing is
      allocated or read and the delegate is not called. */
  lemma NoEnumerationNoEffects(env: Desktop, runningAsShell: bool, hasDelegate: bool)
    requires !Enumerates(env, runningAsShell, hasDelegate)
    ensures runningAsShell || !hasDelegate || Toolbar(env) == NULL ==> RunCalls(env, runningAsShell, hasDelegate) == []
    ensures |RunCalls(env, runningAsShell, hasDelegate)| <= 1
    ensures forall c :: c in RunCalls(env, runningAsShell, hasDelegate) ==> c == SendMessage(Toolbar(env), TB_BUTTONCOUNT, 0, NULL)
  {
  }

  /** The count of a two-call log. */
  lemma CountOfPair(a: Call, b: Call, p: Call -> bool)
    ensures CountOf([a, b], p) == (if p(a) then 1 else 0) + (if p(b) then 1 else 0)
  {
    assert [a, b][1..] == [b];
    assert [b][1..] == [];
    assert CountOf([b], p) == (if p(b) then 1 else 0) + CountOf([], p);
  }

  /** An enumerating pass is the count query, the prologue, the loop and the
      epilogue. */
  lemma EnumeratingPassLog(env: Desktop)
    requires Toolbar(env) != NULL && Count(env) >= 1
    ensures GetTrayItemsCalls(env) ==
            [SendMessage(Toolbar(env), TB_BUTTONCOUNT, 0, NULL)] + Prologue(env) + PassLoop(env) + Epilogue(env)
  {
  }

  /** The counts of an enumerating pass split over its four parts. */
  lemma {:induction false} EnumeratingPassShape(env: Desktop, p: Call -> bool)
    requires Toolbar(env) != NULL && Count(env) >= 1
    ensures GetTrayItemsCalls(env) ==
            [SendMessage(Toolbar(env), TB_BUTTONCOUNT, 0, NULL)] + Prologue(env) + PassLoop(env) + Epilogue(env)
    ensures CountOf(GetTrayItemsCalls(env), p) ==
            (if p(SendMessage(Toolbar(env), TB_BUTTONCOUNT, 0, NULL)) then 1 else 0) +
            CountOf(Prologue(env), p) + CountOf(PassLoop(env), p) + CountOf(Epilogue(env), p)
  {
    var query := [SendMessage(Toolbar(env), TB_BUTTONCOUNT, 0, NULL)];
    assert GetTrayItemsCalls(env) == query + (Prologue(env) + PassLoop(env) + Epilogue(env));
    CountOfAppend(query, Prologue(env) + PassLoop(env) + Epilogue(env), p);
    CountOfAppend(Prologue(env) + PassLoop(env), Epilogue(env), p);
    CountOfAppend(Prologue(env), PassLoop(env), p);
    assert query[1..] == [];
  }

  /** Within one pass the process is opened once and closed once and the scratch
      buffer allocated once and freed once when the loop is reached, and none of
      them happens otherwise; the open and allocation precede every read and
      delegate call, and the free and close follow them all. */
  lemma ResourcesBalanced(env: Desktop, runningAsShell: bool, hasDelegate: bool)
    ensures
      var calls := RunCalls(env, runningAsShell, hasDelegate);
      var once := if Enumerates(env, runningAsShell, hasDelegate) then 1 else 0;
      && CountOf(calls, IsOpen) == once && CountOf(calls, IsClose) == once
      && CountOf(calls, IsAlloc) == once && CountOf(calls, IsFree) == once
    ensures Enumerates(env, runningAsShell, hasDelegate) ==>
      var calls := RunCalls(env, runningAsShell, hasDelegate);
      && |calls| >= 5
      && calls[1] == OpenProcess(GetWindowThreadProcessId(env, Toolbar(env)))
      && calls[2] == VirtualAllocEx(ProcessOf(env))
      && calls[|calls| - 2] == VirtualFreeEx(ProcessOf(env), BufferOf(env))
      && calls[|calls| - 1] == CloseHandle(ProcessOf(env))
      && CountOf(calls[3..|calls| - 2], IsResource) == 0
  {
    var calls := RunCalls(env, runningAsShell, hasDelegate);
    if Enumerates(env, runningAsShell, hasDelegate) {
      LoopUsesNoResources(env, Toolbar(env), ProcessOf(env), BufferOf(env), Count(env) as nat);
      LoopCountsNone(PassLoop(env));
      EnumeratingPassShape(env, IsOpen);
      EnumeratingPassShape(env, IsClose);
      EnumeratingPassShape(env, IsAlloc);
      EnumeratingPassShape(env, IsFree);
      CountOfPair(Prologue(env)[0], Prologue(env)[1], IsOpen);
      CountOfPair(Prologue(env)[0], Prologue(env)[1], IsClose);
      CountOfPair(Prologue(env)[0], Prologue(env)[1], IsAlloc);
      CountOfPair(Prologue(env)[0], Prologue(env)[1], IsFree);
      CountOfPair(Epilogue(env)[0], Epilogue(env)[1], IsOpen);
      CountOfPair(Epilogue(env)[0], Epilogue(env)[1], IsClose);
      CountOfPair(Epilogue(env)[0], Epilogue(env)[1], IsAlloc);
      CountOfPair(Epilogue(env)[0], Epilogue(env)[1], IsFree);
      assert calls[3..|calls| - 2] == PassLoop(env);
    } else if calls != [] {
      assert calls[1..] == [];
    }
  }

  /** No resource call in a log means none of each kind. */
  lemma {:induction false} LoopCountsNone(calls: seq<Call>)
    requires CountOf(calls, IsResource) == 0
    ensures CountOf(calls, IsOpen) == 0 && CountOf(calls, IsClose) == 0
    ensures CountOf(calls, IsAlloc) == 0 && CountOf(calls, IsFree) == 0
  {
    if calls != [] {
      LoopCountsNone(calls[1..]);
    }
  }

  /** Run calls the delegate once per surviving index, in increasing index
      order, always with NIM_ADD, with the normalised record of that index; the
      surviving indices are exactly the buttons whose records name a live,
      non-NULL window; and there are never more calls than buttons. */
  lemma RunDeliversSurvivorsInOrder(env: Desktop, runningAsShell: bool, hasDelegate: bool)
    ensures
      var nids := Notifications(RunCalls(env, runningAsShell, hasDelegate));
      var indices := DeliveredIndices(env, runningAsShell, hasDelegate);
      && |nids| == |indices|
      && (forall k :: 0 <= k < |indices| ==>
            && 0 <= indices[k] < Count(env) as int
            && nids[k] == DeliveredAt(env, ProcessOf(env), BufferOf(env), indices[k])
            && Kept(env, TrayItemAt(env, ProcessOf(env), BufferOf(env), indices[k])))
      && (forall j, k :: 0 <= j < k < |indices| ==> indices[j] < indices[k])
    ensures Enumerates(env, runningAsShell, hasDelegate) ==>
      forall i :: 0 <= i < Count(env) as int && Kept(env, TrayItemAt(env, ProcessOf(env), BufferOf(env), i)) ==>
        i in DeliveredIndices(env, runningAsShell, hasDelegate)
    ensures |Notifications(RunCalls(env, runningAsShell, hasDelegate))| <= if Count(env) < 0 then 0 else Count(env) as int
    ensures forall c :: c in RunCalls(env, runningAsShell, hasDelegate) && c.Notify? ==> c.message == NIM_ADD
  {
    var calls := RunCalls(env, runningAsShell, hasDelegate);
    if Enumerates(env, runningAsShell, hasDelegate) {
      var n := Count(env) as nat;
      PassNotifiesLoop(env);
      LoopDeliversSurvivors(env, Toolbar(env), ProcessOf(env), BufferOf(env), n);
      SurvivorsAreKeptInOrder(env, ProcessOf(env), BufferOf(env), n);
    } else {
      NoEnumerationNoEffects(env, runningAsShell, hasDelegate);
      NoNotifyNoNotifications(calls);
    }
  }

  /** The delegate calls of an enumerating pass are those of its loop. */
  lemma PassNotifiesLoop(env: Desktop)
    requires Toolbar(env) != NULL && Count(env) >= 1
    ensures Notifications(GetTrayItemsCalls(env)) == Notifications(PassLoop(env))
    ensures forall c :: c in GetTrayItemsCalls(env) && c.Notify? ==> c.message == NIM_ADD
  {
    var head := [SendMessage(Toolbar(env), TB_BUTTONCOUNT, 0, NULL)] + Prologue(env);
    EnumeratingPassShape(env, IsNotify);
    assert GetTrayItemsCalls(env) == head + PassLoop(env) + Epilogue(env);
    NotificationsAppend(head + PassLoop(env), Epilogue(env));
    NotificationsAppend(head, PassLoop(env));
    NoNotifyNoNotifications(head);
    NoNotifyNoNotifications(Epilogue(env));
    LoopUsesNoResources(env, Toolbar(env), ProcessOf(env), BufferOf(env), Count(env) as nat);
  }

  /** No record whose window is NULL or dead ever reaches the delegate. */
  lemma DeliveredWindowsAreLive(env: Desktop, runningAsShell: bool, hasDelegate: bool)
    ensures forall nid :: nid in Notifications(RunCalls(env, runningAsShell, hasDelegate)) ==>
              nid.hWnd != NULL && IsWindow(env, nid.hWnd)
  {
    RunDeliversSurvivorsInOrder(env, runningAsShell, hasDelegate);
    var nids := Notifications(RunCalls(env, runningAsShell, hasDelegate));
    var indices := DeliveredIndices(env, runningAsShell, hasDelegate);
    forall nid | nid in nids
      ensures nid.hWnd != NULL && IsWindow(env, nid.hWnd)
    {
      var k :| 0 <= k < |nids| && nids[k] == nid;
      KeptIndexDelivery(env, ProcessOf(env), BufferOf(env), indices[k]);
    }
  }
}
