/**
 Normalising one tray record read out of Explorer into the notify-icon data
 handed to the tray delegate (SystemTray.GetTrayItemIconData).
 */
module NotifyIcon {
  import opened Win32

  /** The flags every normalised icon carries, whatever its icon handle. */
  const BaseFlags: bv32 := NIF_GUID | NIF_MESSAGE | NIF_TIP | NIF_STATE

  /** Copies the identity, messaging, text, version and state fields, announces
      GUID, MESSAGE, TIP and STATE, and announces ICON only for a non-NULL icon
      handle. */
  function GetTrayItemIconData(trayItem: TrayItem): (nid: SafeNotifyIconData)
    ensures nid.hWnd == trayItem.hWnd && nid.uID == trayItem.uID
    ensures nid.uCallbackMessage == trayItem.uCallbackMessage
    ensures nid.szTip == trayItem.szIconText && nid.hIcon == trayItem.hIcon
    ensures nid.uVersion == trayItem.uVersion && nid.guidItem == trayItem.guidItem
    ensures nid.dwState == ToInt32(trayItem.dwState)
    ensures nid.uFlags & BaseFlags == BaseFlags
    ensures nid.uFlags & NIF_ICON != 0 <==> trayItem.hIcon != NULL
    ensures nid.uFlags & !(BaseFlags | NIF_ICON) == 0
  {
    var nid := SafeNotifyIconData(
      hWnd := trayItem.hWnd,
      uID := trayItem.uID,
      uCallbackMessage := trayItem.uCallbackMessage,
      uFlags := BaseFlags,
      hIcon := trayItem.hIcon,
      szTip := trayItem.szIconText,
      dwState := ToInt32(trayItem.dwState),
      uVersion := trayItem.uVersion,
      guidItem := trayItem.guidItem);
    if nid.hIcon != NULL then nid.(uFlags := nid.uFlags | NIF_ICON) else nid
  }
}
