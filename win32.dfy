/**
 The slice of the Win32 API that the tray tile talks to, as values: handles,
 the message and flag constants it uses, the two foreign records it reads out
 of Explorer (the toolbar button descriptor and the per-icon tray record), the
 notify-icon data it hands on, and an abstract `Desktop` environment that
 answers every query the tile makes of the operating system.

 Nothing here calls the operating system: a `Desktop` value fixes what each
 primitive would return, and the calls that change something (or that the
 properties are about) are recorded as `Call` entries in a log kept by the
 classes of module `Tray`.
 */
module Win32 {

  datatype Option<+T> = None | Some(value: T)

  /** An `IntPtr`: a window handle, process handle, icon handle or an address in
      another process. `NULL` is `IntPtr.Zero`. */
  type Handle = int
  const NULL: Handle := 0

  newtype uint32 = x: int | 0 <= x < 0x1_0000_0000
  newtype int32 = x: int | -0x8000_0000 <= x < 0x8000_0000

  /** C#'s unchecked `(int)` conversion of a `uint`: the same 32 bits read as
      two's complement. */
  function ToInt32(u: uint32): (r: int32)
    ensures (r as int - u as int) % 0x1_0000_0000 == 0
    ensures r >= 0 <==> u < 0x8000_0000
  {
    if u < 0x8000_0000 then u as int as int32 else (u as int - 0x1_0000_0000) as int32
  }

  // Window messages.
  const WM_USER: uint32 := 0x0400
  const TB_GETBUTTON: uint32 := WM_USER + 23
  const TB_BUTTONCOUNT: uint32 := WM_USER + 24

  // Mouse notifications forwarded to an icon's owner in the lParam of its
  // callback message.
  const WM_CONTEXTMENU: int32 := 0x007B
  const WM_LBUTTONDOWN: int32 := 0x0201
  const WM_LBUTTONDBLCLK: int32 := 0x0203
  const WM_RBUTTONDOWN: int32 := 0x0204
  const WM_RBUTTONUP: int32 := 0x0205

  /** The toolbar button state bit that marks a hidden button. */
  const TBSTATE_HIDDEN: bv8 := 8

  /** Shell_NotifyIcon message: an icon was added. */
  const NIM_ADD: uint32 := 0

  // NOTIFYICONDATA.uFlags bits.
  const NIF_MESSAGE: bv32 := 0x01
  const NIF_ICON: bv32 := 0x02
  const NIF_TIP: bv32 := 0x04
  const NIF_STATE: bv32 := 0x08
  const NIF_GUID: bv32 := 0x20

  datatype Guid = Guid(bytes: seq<bv8>)
  const EmptyGuid: Guid := Guid([0, 0, 0, 0, 0, 0, 0, 0, 0, 0, 0, 0, 0, 0, 0, 0])

  /** TBBUTTON as Explorer's toolbar hands it out; `dwData` is an address in
      Explorer pointing at the button's `TrayItem`. */
  datatype TbButton = TbButton(
    iBitmap: int32,
    idCommand: int32,
    fsState: bv8,
    fsStyle: bv8,
    dwData: Handle,
    iString: Handle)

  /** The record Explorer keeps for each notification icon. */
  datatype TrayItem = TrayItem(
    hWnd: Handle,
    uID: uint32,
    uCallbackMessage: uint32,
    dwState: uint32,
    uVersion: uint32,
    hIcon: Handle,
    uIconDemoteTimerID: Handle,
    dwUserPref: uint32,
    dwLastSoundTime: uint32,
    szExeName: string,
    szIconText: string,
    uNumSeconds: uint32,
    guidItem: Guid)

  /** `new TrayItem()`: every field zero. */
  const DefaultTrayItem: TrayItem :=
    TrayItem(NULL, 0, 0, 0, 0, NULL, NULL, 0, 0, "", "", 0, EmptyGuid)

  /** The process-local notify-icon data handed to the tray delegate. */
  datatype SafeNotifyIconData = SafeNotifyIconData(
    hWnd: Handle,
    uID: uint32,
    uCallbackMessage: uint32,
    uFlags: bv32,
    hIcon: Handle,
    szTip: string,
    dwState: int32,
    uVersion: uint32,
    guidItem: Guid)

  /** What the operating system would answer, fixed for the duration of one
      enumeration pass or one user gesture. */
  datatype Desktop = Desktop(
    // FindWindowEx(parent, NULL, class, null); parent NULL means the desktop
    windows: map<(Handle, string), Handle>,
    // IsWindow
    live: set<Handle>,
    // the reply of each toolbar window to TB_BUTTONCOUNT
    buttonCounts: map<Handle, int32>,
    // GetWindowThreadProcessId
    owners: map<Handle, uint32>,
    // what OpenProcess returns; NULL when access is denied
    process: Handle,
    // what VirtualAllocEx returns for a valid process handle; NULL on failure
    buffer: Handle,
    // the descriptor TB_GETBUTTON leaves in the scratch buffer, per index;
    // an index that is absent makes the read-back fail
    buttons: map<int, TbButton>,
    // the tray record readable at each address in Explorer
    records: map<Handle, TrayItem>,
    // icon handles that Imaging.CreateBitmapSourceFromHIcon converts
    drawable: set<Handle>)

  /** FindWindowEx(parent, IntPtr.Zero, cls, null). */
  function FindWindowEx(env: Desktop, parent: Handle, cls: string): Handle
  {
    if (parent, cls) in env.windows then env.windows[(parent, cls)] else NULL
  }

  /** FindWindow(cls, null): a top-level window, i.e. a child of the desktop. */
  function FindWindow(env: Desktop, cls: string): Handle
  {
    FindWindowEx(env, NULL, cls)
  }

  predicate IsWindow(env: Desktop, hWnd: Handle)
  {
    hWnd in env.live
  }

  /** SendMessage(toolbar, TB_BUTTONCOUNT, 0, 0); a window that does not answer
      yields 0. */
  function ButtonCountReply(env: Desktop, toolbar: Handle): int32
  {
    if toolbar in env.buttonCounts then env.buttonCounts[toolbar] else 0
  }

  function GetWindowThreadProcessId(env: Desktop, hWnd: Handle): uint32
  {
    if hWnd in env.owners then env.owners[hWnd] else 0
  }

  function OpenProcessResult(env: Desktop): Handle
  {
    env.process
  }

  /** VirtualAllocEx fails on a NULL process handle. */
  function VirtualAllocExResult(env: Desktop, hProcess: Handle): Handle
  {
    if hProcess == NULL then NULL else env.buffer
  }

  /** ReadProcessMemory of the scratch buffer after TB_GETBUTTON for `index`. */
  function ReadButton(env: Desktop, hProcess: Handle, hBuffer: Handle, index: int): Option<TbButton>
  {
    if hProcess == NULL || hBuffer == NULL || index !in env.buttons then None
    else Some(env.buttons[index])
  }

  /** ReadProcessMemory of a TrayItem at `address` in Explorer. */
  function ReadTrayItem(env: Desktop, hProcess: Handle, address: Handle): Option<TrayItem>
  {
    if hProcess == NULL || address !in env.records then None
    else Some(env.records[address])
  }

  /** One entry of the log of effects: a call into the operating system, or a
      call of the tray delegate. */
  datatype Call =
    | SendMessage(hWnd: Handle, msg: uint32, wParam: int, lParam: Handle)
    | OpenProcess(processId: uint32)
    | VirtualAllocEx(hProcess: Handle)
    | ReadProcessMemory(hProcess: Handle, address: Handle)
    | VirtualFreeEx(hProcess: Handle, address: Handle)
    | CloseHandle(hProcess: Handle)
    | Notify(message: uint32, nid: SafeNotifyIconData)
    | PostMessage(target: Handle, callback: uint32, id: int32, event: int32)
    | SetForegroundWindow(window: Handle)
}
