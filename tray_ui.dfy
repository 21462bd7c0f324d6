/**
 The decisions of the tray tile's control (Main.xaml.cs) as functions: which
 delivered icons it accepts, what item it shows for one, and how the shared
 click timer turns mouse gestures on an item into callback messages posted to
 the icon's owner.
 */
module TrayUi {
  import opened Win32

  /** TRAYDATA: what an item keeps of the icon it shows. */
  datatype TrayData = TrayData(hIcon: Handle, hWnd: Handle, uCallbackMessage: uint32, uID: uint32)

  /** TrayIconData: the tray data and the raw tip text. */
  datatype TrayIconData = TrayIconData(traydata: TrayData, text: string)

  /** One item of the tile's panel. */
  datatype Item = Item(buttonData: TrayIconData, toolTip: string)

  const NoTitle: string := "No Title"

  /** OnTrayIconAdded's test: the ICON flag is announced and the handle is non-NULL. */
  predicate Accepts(nid: SafeNotifyIconData)
  {
    nid.uFlags & NIF_ICON == NIF_ICON && nid.hIcon != NULL
  }

  /** AddIconToUI gets past its checks: a non-NULL icon handle that converts to a bitmap. */
  predicate Converts(env: Desktop, nid: SafeNotifyIconData)
  {
    nid.hIcon != NULL && nid.hIcon in env.drawable
  }

  /** The tooltip: the tip text, unless it is empty. */
  function ToolTipText(tip: string): (t: string)
    ensures |t| > 0
    ensures |tip| > 0 ==> t == tip
    ensures tip == [] ==> t == NoTitle
  {
    if |tip| > 0 then tip else NoTitle
  }

  /** The item AddIconToUI builds for `nid`. */
  function ItemFor(nid: SafeNotifyIconData): Item
  {
    Item(TrayIconData(TrayData(nid.hIcon, nid.hWnd, nid.uCallbackMessage, nid.uID), nid.szTip),
         ToolTipText(nid.szTip))
  }

  /** The items appended to the panel while `nids` are handed to OnTrayIconAdded in order. */
  function Displayed(env: Desktop, nids: seq<SafeNotifyIconData>): seq<Item>
  {
    if nids == [] then []
    else
      Displayed(env, nids[..|nids| - 1]) +
      var nid := nids[|nids| - 1];
      if Accepts(nid) && Converts(env, nid) then [ItemFor(nid)] else []
  }

  /** Handing one more icon to OnTrayIconAdded appends at most its own item. */
  lemma DisplayedSnoc(env: Desktop, nids: seq<SafeNotifyIconData>, nid: SafeNotifyIconData)
    ensures Displayed(env, nids + [nid]) ==
            Displayed(env, nids) + if Accepts(nid) && Converts(env, nid) then [ItemFor(nid)] else []
  {
    assert (nids + [nid])[..|nids + [nid]| - 1] == nids;
  }

  /** Every displayed item shows an accepted, convertible icon of `nids`, with
      the icon's own window, callback and id, and a tooltip that is the tip text
      or "No Title" when that is empty; there are never more items than icons. */
  lemma {:induction false} DisplayedItemsShowAcceptedIcons(env: Desktop, nids: seq<SafeNotifyIconData>)
    ensures |Displayed(env, nids)| <= |nids|
    ensures forall item :: item in Displayed(env, nids) ==>
      exists nid :: nid in nids && Accepts(nid) && Converts(env, nid) && item == ItemFor(nid)
    ensures forall item :: item in Displayed(env, nids) ==>
      item.buttonData.traydata.hIcon in env.drawable &&
      (item.toolTip == item.buttonData.text || (item.buttonData.text == [] && item.toolTip == NoTitle))
  {
    if nids != [] {
      var init := nids[..|nids| - 1];
      DisplayedItemsShowAcceptedIcons(env, init);
      assert forall nid :: nid in init ==> nid in nids;
      assert nids[|nids| - 1] in nids;
    }
  }

  /** An icon that every delivered icon passes and converts is shown: nothing
      is dropped except for a failed test or a failed conversion. */
  lemma {:induction false} DisplayedKeepsAll(env: Desktop, nids: seq<SafeNotifyIconData>)
    requires forall k :: 0 <= k < |nids| ==> Accepts(nids[k]) && Converts(env, nids[k])
    ensures |Displayed(env, nids)| == |nids|
    ensures forall k :: 0 <= k < |nids| ==> Displayed(env, nids)[k] == ItemFor(nids[k])
  {
    if nids != [] {
      DisplayedKeepsAll(env, nids[..|nids| - 1]);
    }
  }

  /** The positions in `nids` of the icons that pass the test and convert, in order. */
  function ShownPositions(env: Desktop, nids: seq<SafeNotifyIconData>): seq<int>
  {
    if nids == [] then []
    else
      ShownPositions(env, nids[..|nids| - 1]) +
      var nid := nids[|nids| - 1];
      if Accepts(nid) && Converts(env, nid) then [|nids| - 1] else []
  }

  /** The panel holds exactly the accepted, convertible icons of `nids`, in
      delivery order: its j-th item is the item of the j-th such icon, those
      positions strictly increase, and every accepted, convertible icon is
      among them. */
  lemma {:induction false} DisplayedIsAcceptedInOrder(env: Desktop, nids: seq<SafeNotifyIconData>)
    ensures var ps := ShownPositions(env, nids);
      |Displayed(env, nids)| == |ps|
    ensures var ps := ShownPositions(env, nids);
      forall j :: 0 <= j < |ps| ==>
        0 <= ps[j] < |nids| && Accepts(nids[ps[j]]) && Converts(env, nids[ps[j]]) &&
        Displayed(env, nids)[j] == ItemFor(nids[ps[j]])
    ensures var ps := ShownPositions(env, nids);
      forall i, j :: 0 <= i < j < |ps| ==> ps[i] < ps[j]
    ensures var ps := ShownPositions(env, nids);
      forall k :: 0 <= k < |nids| && Accepts(nids[k]) && Converts(env, nids[k]) ==> k in ps
  {
    if nids != [] {
      var init := nids[..|nids| - 1];
      DisplayedIsAcceptedInOrder(env, init);
      assert forall k :: 0 <= k < |init| ==> init[k] == nids[k];
    }
  }

  // ---------------------------------------------------------------------
  // The click state machine.

  /** A user gesture on an item, or the tick of the double-click timer. */
  datatype Gesture =
    | LeftDown(item: Item)
    | RightDown(item: Item)
    | RightUp(item: Item)
    | Tick

  /** What one gesture leaves behind: the timer's enabled flag and the calls posted. */
  datatype Reaction = Reaction(timerEnabled: bool, posts: seq<Call>)

  /** PostMessage(hWnd, uCallbackMessage, (int)uID, event). */
  function Post(data: TrayData, event: int32): Call
  {
    PostMessage(data.hWnd, data.uCallbackMessage, ToInt32(data.uID), event)
  }

  /** One gesture, given whether the click timer is running. */
  function React(timerEnabled: bool, g: Gesture): Reaction
  {
    match g
    case Tick => Reaction(false, [])
    case LeftDown(item) =>
      var data := item.buttonData.traydata;
      if data.hWnd == NULL then Reaction(timerEnabled, [])
      else if timerEnabled then
        Reaction(false, [Post(data, WM_LBUTTONDBLCLK), SetForegroundWindow(data.hWnd)])
      else Reaction(true, [Post(data, WM_LBUTTONDOWN)])
    case RightDown(item) =>
      var data := item.buttonData.traydata;
      if data.hWnd == NULL then Reaction(timerEnabled, [])
      else Reaction(timerEnabled, [Post(data, WM_RBUTTONDOWN)])
    case RightUp(item) =>
      var data := item.buttonData.traydata;
      if data.hWnd == NULL then Reaction(timerEnabled, [])
      else Reaction(timerEnabled, [Post(data, WM_RBUTTONUP), Post(data, WM_CONTEXTMENU)])
  }

  /** A sequence of gestures, in order. */
  function Replay(timerEnabled: bool, gs: seq<Gesture>): Reaction
    decreases |gs|
  {
    if gs == [] then Reaction(timerEnabled, [])
    else
      var first := React(timerEnabled, gs[0]);
      var rest := Replay(first.timerEnabled, gs[1..]);
      Reaction(rest.timerEnabled, first.posts + rest.posts)
  }

  /** How many posted calls carry mouse notification `event`. */
  function Posted(calls: seq<Call>, event: int32): nat
  {
    if calls == [] then 0
    else (if calls[0].PostMessage? && calls[0].event == event then 1 else 0) + Posted(calls[1..], event)
  }

  lemma {:induction false} PostedAppend(a: seq<Call>, b: seq<Call>, event: int32)
    ensures Posted(a + b, event) == Posted(a, event) + Posted(b, event)
  {
    if a != [] {
      assert (a + b)[1..] == a[1..] + b;
      PostedAppend(a[1..], b, event);
    } else {
      assert a + b == b;
    }
  }

  /** Every double click is the second half of a single click: over any run of
      gestures, the double-click notifications never outnumber the single-click
      ones, counting a timer running at the start as a pending single click and
      one running at the end as a single click not yet completed. */
  lemma {:induction false} DoubleClicksFollowSingleClicks(timerEnabled: bool, gs: seq<Gesture>)
    ensures
      var r := Replay(timerEnabled, gs);
      Posted(r.posts, WM_LBUTTONDBLCLK) + (if r.timerEnabled then 1 else 0) <=
      Posted(r.posts, WM_LBUTTONDOWN) + (if timerEnabled then 1 else 0)
    decreases |gs|
  {
    if gs != [] {
      var first := React(timerEnabled, gs[0]);
      DoubleClicksFollowSingleClicks(first.timerEnabled, gs[1..]);
      PostedAppend(first.posts, Replay(first.timerEnabled, gs[1..]).posts, WM_LBUTTONDBLCLK);
      PostedAppend(first.posts, Replay(first.timerEnabled, gs[1..]).posts, WM_LBUTTONDOWN);
      var fp := first.posts;
      if |fp| > 0 {
        assert |fp| > 1 ==> fp[1..][1..] == [];
      }
    }
  }

  /** Gestures on an item whose window is NULL post nothing and leave the timer
      as it was, however many of them there are. */
  lemma {:induction false} NullWindowIsInert(timerEnabled: bool, gs: seq<Gesture>)
    requires forall k :: 0 <= k < |gs| ==> !gs[k].Tick? && gs[k].item.buttonData.traydata.hWnd == NULL
    ensures Replay(timerEnabled, gs) == Reaction(timerEnabled, [])
  {
    if gs != [] {
      NullWindowIsInert(timerEnabled, gs[1..]);
    }
  }

  /** Everything a run of gestures posts goes to the window of one of the items
      gestured on, on that item's callback message. */
  lemma {:induction false} PostsGoToGesturedItems(timerEnabled: bool, gs: seq<Gesture>)
    ensures forall c :: c in Replay(timerEnabled, gs).posts ==>
      exists k :: 0 <= k < |gs| && !gs[k].Tick? &&
        (c.PostMessage? ==> c.target == gs[k].item.buttonData.traydata.hWnd &&
                            c.callback == gs[k].item.buttonData.traydata.uCallbackMessage) &&
        (c.SetForegroundWindow? ==> c.window == gs[k].item.buttonData.traydata.hWnd)
    decreases |gs|
  {
    if gs != [] {
      var first := React(timerEnabled, gs[0]);
      var rest := Replay(first.timerEnabled, gs[1..]);
      PostsGoToGesturedItems(first.timerEnabled, gs[1..]);
      forall c | c in Replay(timerEnabled, gs).posts
        ensures (exists k :: 0 <= k < |gs| && !gs[k].Tick? &&
                  (c.PostMessage? ==> c.target == gs[k].item.buttonData.traydata.hWnd &&
                                      c.callback == gs[k].item.buttonData.traydata.uCallbackMessage) &&
                  (c.SetForegroundWindow? ==> c.window == gs[k].item.buttonData.traydata.hWnd))
      {
        if c in first.posts {
          assert !gs[0].Tick?;
        } else {
          assert c in rest.posts;
          var k :| 0 <= k < |gs[1..]| && !gs[1..][k].Tick? &&
            (c.PostMessage? ==> c.target == gs[1..][k].item.buttonData.traydata.hWnd &&
                                c.callback == gs[1..][k].item.buttonData.traydata.uCallbackMessage) &&
            (c.SetForegroundWindow? ==> c.window == gs[1..][k].item.buttonData.traydata.hWnd);
          assert gs[1..][k] == gs[k + 1];
        }
      }
    }
  }

  /** Two left presses with a timer tick between them are two single clicks:
      two WM_LBUTTONDOWN posts and no double click. */
  lemma TickSeparatesClicks(a: Item, b: Item)
    requires a.buttonData.traydata.hWnd != NULL && b.buttonData.traydata.hWnd != NULL
    ensures Replay(false, [LeftDown(a), Tick, LeftDown(b)]) ==
            Reaction(true, [Post(a.buttonData.traydata, WM_LBUTTONDOWN), Post(b.buttonData.traydata, WM_LBUTTONDOWN)])
  {
    var gs := [LeftDown(a), Tick, LeftDown(b)];
    var second := [Post(b.buttonData.traydata, WM_LBUTTONDOWN)];
    assert gs[1..] == [Tick, LeftDown(b)];
    assert gs[1..][1..] == [LeftDown(b)];
    assert gs[1..][1..][1..] == [];
    assert Replay(false, gs[1..][1..]) == Reaction(true, second + []);
    assert Replay(true, gs[1..]) == Reaction(true, [] + second);
  }

  /** Two left presses before the tick are a single click followed by a double
      click posted to the item pressed second, which is then brought to the
      foreground; the timer ends idle. */
  lemma PressPressIsDoubleClick(a: Item, b: Item)
    requires a.buttonData.traydata.hWnd != NULL && b.buttonData.traydata.hWnd != NULL
    ensures Replay(false, [LeftDown(a), LeftDown(b)]) ==
            Reaction(false, [Post(a.buttonData.traydata, WM_LBUTTONDOWN),
                             Post(b.buttonData.traydata, WM_LBUTTONDBLCLK),
                             SetForegroundWindow(b.buttonData.traydata.hWnd)])
  {
    var gs := [LeftDown(a), LeftDown(b)];
    var second := [Post(b.buttonData.traydata, WM_LBUTTONDBLCLK), SetForegroundWindow(b.buttonData.traydata.hWnd)];
    assert gs[1..] == [LeftDown(b)];
    assert gs[1..][1..] == [];
    assert Replay(true, gs[1..]) == Reaction(false, second + []);
  }

  /** A right press posts one WM_RBUTTONDOWN; a right release posts
      WM_RBUTTONUP and then WM_CONTEXTMENU; neither touches the timer. */
  lemma RightClickPosts(timerEnabled: bool, item: Item)
    requires item.buttonData.traydata.hWnd != NULL
    ensures Replay(timerEnabled, [RightDown(item), RightUp(item)]) ==
            Reaction(timerEnabled, [Post(item.buttonData.traydata, WM_RBUTTONDOWN),
                                    Post(item.buttonData.traydata, WM_RBUTTONUP),
                                    Post(item.buttonData.traydata, WM_CONTEXTMENU)])
  {
    var gs := [RightDown(item), RightUp(item)];
    var data := item.buttonData.traydata;
    assert gs[1..] == [RightUp(item)];
    assert gs[1..][1..] == [];
    assert Replay(timerEnabled, gs[1..]) == Reaction(timerEnabled, [Post(data, WM_RBUTTONUP), Post(data, WM_CONTEXTMENU)] + []);
  }
}
