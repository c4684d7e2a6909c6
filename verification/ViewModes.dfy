/** What a connection window remembers about its view modes: the fields that rcw_switch_viewmode carries from
    a window to the one that replaces it, as values, and what survives any run of switches. */
module ViewModes {

  const SCROLLED_WINDOW := 1
  const SCROLLED_FULLSCREEN := 3
  const VIEWPORT_FULLSCREEN := 4

  /** The size and maximized flag of a window on the screen. */
  datatype Frame = Frame(width: int, height: int, maximized: bool)

  /** `windowed` holds ss_width, ss_height and ss_maximized; `frame` is what the window manager shows. */
  datatype View = View(mode: int, fullscreenMode: int, windowed: Frame, multiMon: bool, frame: Frame)

  predicate IsFullscreen(mode: int) {
    mode == SCROLLED_FULLSCREEN || mode == VIEWPORT_FULLSCREEN
  }

  predicate ViewOk(v: View) {
    (v.mode == SCROLLED_WINDOW || IsFullscreen(v.mode)) && IsFullscreen(v.fullscreenMode)
  }

  const FIRST_FRAME := Frame(640, 480, false)

  /** A window as rcw_create_scrolled leaves it. */
  function NewScrolled(f: Frame): View {
    View(SCROLLED_WINDOW, VIEWPORT_FULLSCREEN, f, false, f)
  }

  /** A window as rcw_create_fullscreen leaves it; `screen` is the size the fullscreen window gets. */
  function NewFullscreen(mode: int, multiMon: bool, screen: Frame): View {
    var m := if mode == 0 then VIEWPORT_FULLSCREEN else mode;
    View(m, m, FIRST_FRAME, multiMon, screen)
  }

  /** The view of the window that replaces one with view v. */
  function Switched(v: View, newMode: int, screen: Frame): View {
    if newMode == v.mode then v
    else if IsFullscreen(newMode) then
      var w := NewFullscreen(v.fullscreenMode, v.multiMon, screen);
      if v.mode == SCROLLED_WINDOW then w.(windowed := v.frame) else w
    else
      var w := NewScrolled(v.windowed);
      if IsFullscreen(v.mode) then w.(fullscreenMode := v.mode) else w
  }

  /** The choice of a fullscreen mode in the toolbar's menu. */
  function Chosen(v: View, mode: int, screen: Frame): View {
    NewFullscreen(mode, v.multiMon, screen)
  }

  /** The fullscreen shortcut. */
  function Toggled(v: View, screen: Frame): View {
    Switched(v, if v.mode == SCROLLED_WINDOW then v.fullscreenMode else SCROLLED_WINDOW, screen)
  }

  /** The fullscreen button: on its way to fullscreen it takes the multi-monitor setting of the profile in view. */
  function Pressed(v: View, multiMon: bool, screen: Frame): View {
    Toggled(if v.mode == SCROLLED_WINDOW && multiMon then v.(multiMon := true) else v, screen)
  }

  /** The multi-monitor button: put down it also presses the fullscreen button unless that is down already, and
      let up it leaves fullscreen. */
  function Spread(v: View, on: bool, screen: Frame): View {
    if !on then Switched(v, SCROLLED_WINDOW, screen)
    else if v.mode == SCROLLED_WINDOW then Pressed(v, true, screen)
    else v
  }

  datatype Event =
    | Shortcut(screen: Frame)
    | Button(multiMon: bool, screen: Frame)  // with the multi-monitor setting of the profile in view
    | MultiMonitor(on: bool, screen: Frame)
    | Choose(viewport: bool, screen: Frame)
    | Resize(frame: Frame)

  function ChosenMode(e: Event): int
    requires e.Choose?
  {
    if e.viewport then VIEWPORT_FULLSCREEN else SCROLLED_FULLSCREEN
  }

  function React(v: View, e: Event): View {
    match e
    case Shortcut(screen) => Toggled(v, screen)
    case Button(multiMon, screen) => Pressed(v, multiMon, screen)
    case MultiMonitor(on, screen) => Spread(v, on, screen)
    case Choose(_, screen) => Chosen(v, ChosenMode(e), screen)
    case Resize(frame) => v.(frame := frame)
  }

  /** The view after the first n events of a run. */
  function ViewAt(v: View, events: seq<Event>, n: nat): View
    requires n <= |events|
  {
    if n == 0 then v else React(ViewAt(v, events, n - 1), events[n - 1])
  }

  // ---------------------------------------------------------------- whether the window is fullscreen

  predicate Full(v: View) {
    v.mode != SCROLLED_WINDOW
  }

  /** Whether the window is fullscreen after the first n events, as the events alone tell. */
  predicate FullAt(full: bool, events: seq<Event>, n: nat)
    requires n <= |events|
  {
    if n == 0 then full
    else
      match events[n - 1]
      case Shortcut(_) => !FullAt(full, events, n - 1)
      case Button(_, _) => !FullAt(full, events, n - 1)
      case MultiMonitor(on, _) => on
      case Choose(_, _) => true
      case Resize(_) => FullAt(full, events, n - 1)
  }

  /** Fullscreen windows remember the mode they are in. */
  predicate Settled(v: View) {
    ViewOk(v) && (Full(v) ==> v.mode == v.fullscreenMode)
  }

  /** The last fullscreen mode chosen in the menu, or the first one. */
  function LastMode(mode: int, events: seq<Event>, n: nat): int
    requires n <= |events|
  {
    if n == 0 then mode else if events[n - 1].Choose? then ChosenMode(events[n - 1]) else LastMode(mode, events, n - 1)
  }

  lemma {:induction false} ModesOfRun(v: View, events: seq<Event>, n: nat)
    requires Settled(v) && n <= |events|
    ensures var w := ViewAt(v, events, n);
      && Settled(w) && (Full(w) <==> FullAt(Full(v), events, n))
      && w.fullscreenMode == LastMode(v.fullscreenMode, events, n)
  {
    if n > 0 {
      ModesOfRun(v, events, n - 1);
    }
  }

  // ---------------------------------------------------------------- the frame

  /** Event i is a resize of a window that is not fullscreen. */
  predicate ResizesWindow(full: bool, events: seq<Event>, i: nat)
    requires i < |events|
  {
    events[i].Resize? && !FullAt(full, events, i)
  }

  /** The frame the window was last left with: that of the last resize while windowed, or the first one. */
  function LastLeft(f: Frame, full: bool, events: seq<Event>, n: nat): Frame
    requires n <= |events|
  {
    if n == 0 then f
    else if ResizesWindow(full, events, n - 1) then events[n - 1].frame
    else LastLeft(f, full, events, n - 1)
  }

  /** The menu was used since the window was last resized while windowed. */
  ghost predicate Forgotten(full: bool, events: seq<Event>, n: nat)
    requires n <= |events|
  {
    exists i :: 0 <= i < n && events[i].Choose? && forall j :: i < j < n ==> !ResizesWindow(full, events, j)
  }

  /** The frame of a window, or the one it remembers while it is fullscreen. */
  function Remembered(v: View): Frame {
    if Full(v) then v.windowed else v.frame
  }

  /** In every run: a use of the menu resets the frame, a resize of the window sets it, and nothing else does. */
  lemma {:induction false} FramesOfRun(v: View, events: seq<Event>, n: nat)
    requires Settled(v) && n <= |events|
    ensures Remembered(ViewAt(v, events, n))
            == if Forgotten(Full(v), events, n) then FIRST_FRAME else LastLeft(Remembered(v), Full(v), events, n)
  {
    if n > 0 {
      ModesOfRun(v, events, n - 1);
      FramesOfRun(v, events, n - 1);
      ForgottenStep(Full(v), events, n);
    }
  }

  lemma ForgottenStep(full: bool, events: seq<Event>, n: nat)
    requires 0 < n <= |events|
    ensures Forgotten(full, events, n)
            <==> events[n - 1].Choose? || (Forgotten(full, events, n - 1) && !ResizesWindow(full, events, n - 1))
  {
    if Forgotten(full, events, n - 1) && !ResizesWindow(full, events, n - 1) {
      var i :| 0 <= i < n - 1 && events[i].Choose? && forall j :: i < j < n - 1 ==> !ResizesWindow(full, events, j);
      assert forall j :: i < j < n ==> !ResizesWindow(full, events, j);
    }
  }

  /** The frame a window was last left with is the one it shows or remembers exactly when the menu was not used
      since, or the frame happens to be the initial one. */
  lemma FrameReturnsExactlyWhen(v: View, events: seq<Event>)
    requires Settled(v)
    ensures var left := LastLeft(Remembered(v), Full(v), events, |events|);
      Remembered(ViewAt(v, events, |events|)) == left <==> !Forgotten(Full(v), events, |events|) || left == FIRST_FRAME
  {
    FramesOfRun(v, events, |events|);
  }

  /** A window that loses its frame: fullscreen, the other fullscreen mode from the menu, and back. */
  lemma MenuForgets(screen: Frame)
    ensures var left := Frame(800, 600, false);
      var events := [Shortcut(screen), Choose(false, screen), Shortcut(screen)];
      ViewAt(NewScrolled(left), events, 3).frame == Frame(640, 480, false) != left
  {
    var v := NewScrolled(Frame(800, 600, false));
    var events := [Shortcut(screen), Choose(false, screen), Shortcut(screen)];
    assert ViewAt(v, events, 1) == React(v, events[0]);
    assert ViewAt(v, events, 2) == React(ViewAt(v, events, 1), events[1]);
    assert ViewAt(v, events, 3) == React(ViewAt(v, events, 2), events[2]);
  }

  // ---------------------------------------------------------------- toggles alone

  predicate IsToggle(e: Event) {
    e.Shortcut? || e.Button?
  }

  function Toggles(events: seq<Event>, n: nat): nat
    requires n <= |events|
  {
    if n == 0 then 0 else Toggles(events, n - 1) + if IsToggle(events[n - 1]) then 1 else 0
  }

  lemma {:induction false} TogglesAlternate(full: bool, events: seq<Event>, n: nat)
    requires n <= |events| && forall i :: 0 <= i < n ==> IsToggle(events[i]) || events[i].Resize?
    ensures FullAt(full, events, n) <==> full == (Toggles(events, n) % 2 == 0)
  {
    if n > 0 {
      TogglesAlternate(full, events, n - 1);
    }
  }

  /** With toggles and resizes only, an even number of toggles gives back a windowed view with the frame it was
      left with and the same fullscreen mode; after an odd number that frame is remembered. */
  lemma TogglesReturn(v: View, events: seq<Event>)
    requires Settled(v) && !Full(v) && forall i :: 0 <= i < |events| ==> IsToggle(events[i]) || events[i].Resize?
    ensures var w := ViewAt(v, events, |events|);
      && w.fullscreenMode == v.fullscreenMode
      && (Full(w) <==> Toggles(events, |events|) % 2 == 1)
      && Remembered(w) == LastLeft(v.frame, false, events, |events|)
  {
    ModesOfRun(v, events, |events|);
    FramesOfRun(v, events, |events|);
    TogglesAlternate(false, events, |events|);
    NoChoice(v.fullscreenMode, events, |events|);
  }

  lemma {:induction false} NoChoice(mode: int, events: seq<Event>, n: nat)
    requires n <= |events| && forall i :: 0 <= i < n ==> !events[i].Choose?
    ensures LastMode(mode, events, n) == mode
  {
    if n > 0 {
      NoChoice(mode, events, n - 1);
    }
  }

  // ---------------------------------------------------------------- the multi-monitor flag

  predicate Enters(full: bool, events: seq<Event>, i: nat)
    requires i < |events|
  {
    !FullAt(full, events, i) && FullAt(full, events, i + 1)
  }

  predicate Returns(full: bool, events: seq<Event>, i: nat)
    requires i < |events|
  {
    FullAt(full, events, i) && !FullAt(full, events, i + 1)
  }

  ghost predicate NoReturn(full: bool, events: seq<Event>, from: nat, n: nat)
    requires n <= |events|
  {
    forall i :: from <= i < n ==> !Returns(full, events, i)
  }

  /** The window went fullscreen by a button that sets the flag, and has not come back since. */
  ghost predicate EnteredSpread(full: bool, events: seq<Event>, n: nat)
    requires n <= |events|
  {
    exists i: nat :: i < n && Enters(full, events, i) && SetsFlag(events[i]) && NoReturn(full, events, i + 1, n)
  }

  predicate SetsFlag(e: Event) {
    (e.Button? && e.multiMon) || e.MultiMonitor?
  }

  /** In every run a window carries the multi-monitor flag exactly when it went fullscreen by a button with the
      profile set to several monitors, or had the flag at first, and no return to a window has come between. */
  lemma {:induction false} MultiMonExactlyWhen(v: View, events: seq<Event>, n: nat)
    requires Settled(v) && n <= |events|
    ensures ViewAt(v, events, n).multiMon
            <==> (v.multiMon && NoReturn(Full(v), events, 0, n)) || EnteredSpread(Full(v), events, n)
  {
    if n > 0 {
      ModesOfRun(v, events, n - 1);
      MultiMonExactlyWhen(v, events, n - 1);
      FlagStep(Full(v), events, n);
    }
  }

  lemma FlagStep(full: bool, events: seq<Event>, n: nat)
    requires 0 < n <= |events|
    ensures NoReturn(full, events, 0, n) <==> NoReturn(full, events, 0, n - 1) && !Returns(full, events, n - 1)
    ensures EnteredSpread(full, events, n)
            <==> (Enters(full, events, n - 1) && SetsFlag(events[n - 1]))
                 || (EnteredSpread(full, events, n - 1) && !Returns(full, events, n - 1))
  {
    if EnteredSpread(full, events, n - 1) && !Returns(full, events, n - 1) {
      var i: nat :| i < n - 1 && Enters(full, events, i) && SetsFlag(events[i]) && NoReturn(full, events, i + 1, n - 1);
      assert NoReturn(full, events, i + 1, n);
    }
    if Enters(full, events, n - 1) && SetsFlag(events[n - 1]) {
      assert NoReturn(full, events, n, n);
    }
    if EnteredSpread(full, events, n) {
      var i: nat :| i < n && Enters(full, events, i) && SetsFlag(events[i]) && NoReturn(full, events, i + 1, n);
      assert i < n - 1 ==> NoReturn(full, events, i + 1, n - 1) && !Returns(full, events, n - 1);
    }
  }
}
