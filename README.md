# AvalonBar tray tile — a Dafny model

The tray tile of AvalonBar shows the icons of Windows' notification area inside a
sidebar tile. It does not register as a shell of its own. Instead it reads the
icons out of Explorer:

- it locates Explorer's notification-area toolbar (`Shell_TrayWnd` →
  `TrayNotifyWnd` → `SysPager` → `ToolbarWindow32`);
- it asks the toolbar for its button count;
- it opens the Explorer process and allocates one scratch buffer inside it;
- for every button index, in order, it fetches the button descriptor with
  `TB_GETBUTTON` and follows the descriptor's `dwData` to the per-icon tray
  record;
- it drops records whose window is NULL or gone, and normalises the others
  into `SafeNotifyIconData`;
- it hands each one to a delegate with `NIM_ADD`;
- it frees the buffer and closes the process.

The tile's control (`Tray`) is that delegate. It accepts icons that announce
an icon handle and shows each accepted icon whose bitmap converts as an item
with a tooltip. Every refresh empties its panel and runs a fresh pass. Left
clicks are told apart from double clicks by one timer flag. Each gesture is
forwarded to the icon's owner as a mouse notification posted on the icon's
callback message.

The model consists of seven files:

- `win32.dfy` (module `Win32`) holds handles, constants and the foreign
  records. It also holds the `Desktop` environment: a value that fixes what
  each operating-system query returns. The `Call` log entry records each call
  that has an effect.
- `locator.dfy` (`Locator`) is the toolbar lookup, with a reference walk over
  any chain of window classes.
- `notify_icon.dfy` (`NotifyIcon`) turns one tray record into the data handed
  to the delegate.
- `tray_pass.dfy` (`TrayPass`) describes one enumeration pass as functions of
  the `Desktop`: the record read for each index, the log of calls, the indices
  that survive the filter, and the lemmas about them.
- `tray_ui.dfy` (`TrayUi`) holds the control's decisions as functions: the
  accept test, the tooltip, the items a sequence of delivered icons produces,
  and the click state machine.
- `tray.dfy` (`Tray`) holds the two classes of the source, `SystemTray` and
  `Tray`. Their methods update fields and logs in place, and are proved
  against the functions above.
- `scenarios.dfy` (`Scenarios`) covers three end-to-end situations of a pass.

## Model

| member | source | states |
|---|---|---|
| Win32.ToInt32 | Tray/SystemTray.cs:151 | the unchecked `(int)` of a `uint` keeps the value modulo 2^32 and is non-negative exactly when the value is below 2^31 |
| Locator.WalkFindsIffChainSucceeds | Tray/SystemTray.cs:83-104 | walking a non-empty chain of classes finds a window iff every lookup along it succeeds, each scoped to the previous result, and the window found is the last lookup's answer |
| Locator.FindExplorerTrayToolbarHwnd | Tray/SystemTray.cs:83-104 | the nested lookups return exactly the reference walk over Shell_TrayWnd, TrayNotifyWnd, SysPager, ToolbarWindow32 from the desktop |
| Locator.LocatorWalksTrayChain | Tray/SystemTray.cs:83-104 | the toolbar locator is the walk over Shell_TrayWnd, TrayNotifyWnd, SysPager, ToolbarWindow32 from the desktop, so it is non-NULL iff all four lookups succeed |
| NotifyIcon.GetTrayItemIconData | Tray/SystemTray.cs:140-165 | window, id, callback, tip, icon, version and guid are copied; the state is the record's state as `int`; the flags always hold GUID, MESSAGE, TIP and STATE, hold ICON iff the icon handle is non-NULL, and hold nothing else |
| TrayPass.HiddenState | Tray/SystemTray.cs:129 | the state is 1 iff the descriptor's TBSTATE_HIDDEN bit (8) is set and 0 iff it is clear |
| TrayPass.FailedReadIsSkipped | Tray/SystemTray.cs:111-138 | a failed descriptor read, a NULL dwData or a failed record read leave the default record, which the loop skips |
| TrayPass.KeptIndexDelivery | Tray/SystemTray.cs:118-129 | an index that survives had a descriptor with non-NULL dwData and a readable record; what the delegate gets carries that record's fields, a live non-NULL window, and a state that is 1 iff the descriptor's hidden bit is set, whatever the record's own state |
| TrayPass.SecondReadOnlyForNonNullData | Tray/SystemTray.cs:118-125 | an index costs two reads iff the descriptor read succeeds with non-NULL dwData, otherwise one |
| TrayPass.LoopUsesNoResources | Tray/SystemTray.cs:54-77 | the loop itself opens, allocates, frees and closes nothing, and every delegate call in it is NIM_ADD |
| TrayPass.LoopDeliversSurvivors | Tray/SystemTray.cs:54-77 | the delegate calls of the first n iterations carry, one each and in order, the normalised records of the surviving indices |
| TrayPass.SurvivorsAreKeptInOrder | Tray/SystemTray.cs:54-62 | the surviving indices below n are exactly the indices below n whose record is kept, strictly increasing |
| TrayPass.NoEnumerationNoEffects | Tray/SystemTray.cs:25-48 | without enumeration (as shell, no delegate, no toolbar or fewer than one button) the pass makes at most the count query and no other call |
| TrayPass.ResourcesBalanced | Tray/SystemTray.cs:50-81 | a pass opens, allocates, frees and closes exactly once each when it reaches the loop and never otherwise; open and allocation come first, free and close last |
| TrayPass.RunDeliversSurvivorsInOrder | Tray/SystemTray.cs:25-77 | Run calls the delegate once per surviving index, in increasing index order, with that index's normalised record, always with NIM_ADD, never more often than the count; every kept index is delivered |
| TrayPass.DeliveredWindowsAreLive | Tray/SystemTray.cs:56-62 | no record whose window is NULL or not a window reaches the delegate |
| TrayUi.ToolTipText | Tray/Main.xaml.cs:115 | the tooltip is never empty: the tip text when it is non-empty, "No Title" otherwise |
| TrayUi.DisplayedItemsShowAcceptedIcons | Tray/Main.xaml.cs:75-122 | every item shown comes from a delivered icon that passed the accept test and converted, carries that icon's window, callback and id, and shows the tip text or "No Title" |
| TrayUi.DisplayedIsAcceptedInOrder | Tray/Main.xaml.cs:75-122 | for any delivered icons, the panel holds exactly the accepted, convertible ones: its j-th item is the item of the j-th such icon, their positions strictly increase, and every accepted, convertible icon is among them |
| TrayUi.DisplayedKeepsAll | Tray/Main.xaml.cs:75-122 | when every delivered icon is accepted and converts, the panel holds one item per icon, in delivery order |
| TrayUi.DoubleClicksFollowSingleClicks | Tray/Main.xaml.cs:131-168 | over any run of gestures the double-click posts never outnumber the single-click posts, counting a pending first press |
| TrayUi.NullWindowIsInert | Tray/Main.xaml.cs:131-190 | gestures on items whose window is NULL post nothing and leave the timer as it was |
| TrayUi.PostsGoToGesturedItems | Tray/Main.xaml.cs:158-190 | every post and foreground request goes to the window, on the callback message, of an item that was gestured on |
| TrayUi.TickSeparatesClicks | Tray/Main.xaml.cs:143-161 | two left presses with a timer tick between them post two WM_LBUTTONDOWN and no double click |
| TrayUi.PressPressIsDoubleClick | Tray/Main.xaml.cs:136-168 | two left presses without a tick post WM_LBUTTONDOWN, then WM_LBUTTONDBLCLK and a foreground request for the second item, and stop the timer |
| TrayUi.RightClickPosts | Tray/Main.xaml.cs:170-190 | a right press posts one WM_RBUTTONDOWN and a right release posts WM_RBUTTONUP then WM_CONTEXTMENU, with the timer untouched |
| Tray.SystemTray.constructor | Tray/SystemTray.cs:16-18 | a new SystemTray has no delegate and has made no call |
| Tray.SystemTray.SetSystrayCallback | Tray/SystemTray.cs:20-23 | the delegate is the one given |
| Tray.SystemTray.Run | Tray/SystemTray.cs:25-32 | the log grows by exactly the calls of a pass, which are none when running as shell or without a delegate; the delegate's panel grows by the items of the icons delivered |
| Tray.SystemTray.GetTrayItems | Tray/SystemTray.cs:34-81 | the log grows by the count query, open, allocation, the loop's calls and free and close, and the delegate's panel by the items of the delivered icons |
| Tray.SystemTray.DeliverTrayItem | Tray/SystemTray.cs:56-76 | one loop iteration logs the index's fetch and, when the record is kept, one NIM_ADD delegate call; the panel grows by that icon's item when it is kept, accepted and converts |
| Tray.SystemTray.GetNumTrayIcons | Tray/SystemTray.cs:106-109 | returns the toolbar's reply to TB_BUTTONCOUNT and logs that message |
| Tray.SystemTray.GetTrayItem | Tray/SystemTray.cs:111-139 | returns the index's record (default on any failure, the state replaced by the hidden bit otherwise) and logs TB_GETBUTTON, the descriptor read and, for non-NULL dwData, the record read |
| Tray.Tray.constructor | Tray/Main.xaml.cs:37-43 | the new control has its SystemTray delivering to it, the click timer idle, nothing posted, and the panel of one full pass |
| Tray.Tray.Load | Tray/Main.xaml.cs:45-57 | a fresh SystemTray delivers to this control and one refresh has run |
| Tray.Tray.Refresh | Tray/Main.xaml.cs:69-73 | the panel is emptied and then equals `Displayed` of the icons one pass delivers, which by `TrayUi.DisplayedIsAcceptedInOrder` is exactly the items of the accepted, convertible icons, in delivery order |
| Tray.Tray.OnTrayIconAdded | Tray/Main.xaml.cs:75-83 | returns true iff the ICON flag is set and the icon handle is non-NULL; only then can an item be added |
| Tray.Tray.AddIconToUI | Tray/Main.xaml.cs:85-129 | appends the icon's item exactly when its handle is non-NULL and converts to a bitmap, and changes nothing otherwise |
| Tray.Tray.ItemMouseLeftButtonDown | Tray/Main.xaml.cs:131-151 | with the timer idle: start it and post WM_LBUTTONDOWN; running: stop it, post WM_LBUTTONDBLCLK, request the foreground; nothing for a NULL window |
| Tray.Tray.ClickTimerTick | Tray/Main.xaml.cs:153-156 | the timer stops |
| Tray.Tray.HandleSingleClick | Tray/Main.xaml.cs:158-161 | posts WM_LBUTTONDOWN to the item's window on its callback message with its id |
| Tray.Tray.HandleDoubleClick | Tray/Main.xaml.cs:163-168 | posts WM_LBUTTONDBLCLK and then requests the foreground for the item's window |
| Tray.Tray.ItemMouseRightButtonDown | Tray/Main.xaml.cs:170-179 | posts exactly one WM_RBUTTONDOWN, none for a NULL window |
| Tray.Tray.ItemMouseRightButtonUp | Tray/Main.xaml.cs:181-190 | posts WM_RBUTTONUP then WM_CONTEXTMENU, none for a NULL window |
| Scenarios.ThreeButtonsMiddleWithoutData | Tray/SystemTray.cs:54-77 | three buttons where 0 and 2 lead to live records and 1 has NULL dwData: the delegate gets index 0 then index 2, and index 1 costs one read |
| Scenarios.LookupFailureStopsPass | Tray/SystemTray.cs:36-41 | when any lookup of the chain fails, the toolbar is NULL and the pass makes no call at all |
| Scenarios.MissingNotifyAreaStopsPass | Tray/SystemTray.cs:85-89 | a taskbar without TrayNotifyWnd leads to a pass without any call |
| Scenarios.FailedOpenDeliversNothing | Tray/SystemTray.cs:50-81 | when OpenProcess fails the delegate is never called, yet allocations match frees and opens match closes, and a pass that reaches the loop still allocates once |

## Left out

- The Win32 primitives are not modelled as code. `FindWindow`/`FindWindowEx`, `IsWindow`, `SendMessage`, `GetWindowThreadProcessId`, `OpenProcess`, `VirtualAllocEx`, `ReadProcessMemory`, `VirtualFreeEx`, `CloseHandle`, `PostMessage` and `SetForegroundWindow` become answers of the `Desktop` value or entries of a call log.
- Byte-level struct layout and marshalling (`StructLayout`, `Marshal.PtrToStructure`, `AllocHGlobal`/`FreeHGlobal`) are left out. The descriptor and the record are read as whole values or fail.
- The scratch buffer is reused, and when `TB_GETBUTTON` writes nothing, the source reads back the previous index's descriptor. The model gives each index its own descriptor or a failed read.
- `Imaging.CreateBitmapSourceFromHIcon` and WPF rendering are reduced to membership of the icon handle in `Desktop.drawable`.
- `DispatcherTimer` intervals (the 5-second refresh, the 500 ms double-click delay) are left out. Only the click timer's enabled flag and explicit tick gestures remain. The refresh timer and `Unload` are not part of this model.
- Logging (`ShellLogger`) and `MessageBox` are left out. A failed icon is just not added.
- The `Tile` plugin lifecycle is not part of this model. `EnvironmentHelper.IsAppRunningAsShell` is a boolean input of `Run`.
- Tray/Item.xaml.cs and Tray/Structures.cs are not part of this model. An item is a value holding its tray data and tooltip.
- Concurrency with Explorer changing the toolbar during a pass is left out. The `Desktop` is fixed for one pass.
- The `(int)` truncation of `SendMessage`'s `IntPtr` reply in GetNumTrayIcons is left out. The toolbar's reply is an `int32` already.
- A `null` tip string cannot arise, because the record's tip is a marshalled fixed-size string, so the tooltip is modelled over strings only.
- The tooltip and the two left/right press handlers are assumed to reach WPF. Tray/Item.xaml.cs:24-27 declares public fields `ToolTip`, `MouseLeftButtonDown` and `MouseRightButtonDown` on `Item`, hiding the WPF members of those names. So the assignments at Tray/Main.xaml.cs:115, 118 and 119 go to plain fields that nothing reads, and only `MouseRightButtonUp` (Tray/Main.xaml.cs:120) is a real event subscription. The model treats all three handlers and the tooltip as wired, as the control's code intends; this is an observation from reading the code, not executed.
- `sender as Item` yielding null is not modelled. The source's handlers would then throw. The handlers take an item.
- Tray.SystemTray.GetTrayItems: requires a delegate. Its only caller, `Run`, checks that one is set, so the source's in-loop branch for a missing delegate cannot run.
- Tray.SystemTray.DeliverTrayItem: this is the body of the loop of GetTrayItems, stated as a method of its own; the source has it inline.
- A stricter reading of the pass would abort when `OpenProcess` fails and never allocate. The source never checks the results of `OpenProcess` or `VirtualAllocEx` (Tray/SystemTray.cs:51-52), so the model follows the code: the allocation, every index's reads (all failing), the free and the close still happen (`Scenarios.FailedOpenDeliversNothing`).
