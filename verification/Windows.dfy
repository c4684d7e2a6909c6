/** The connection windows of rcw.c: windows own ordered tabs, each tab is one connection, each connection
    points back to its window. GTK's notebook is the sequence `pages` with a current position. */
module Windows {
  import opened Basics
  import opened ViewModes

  /** What a profile says about where it opens. */
  datatype Profile = Profile(group: Option<string>, protocol: Option<string>, viewMode: int, multiMon: bool,
                             frame: Frame)

  datatype TabMode = ByGroup | ByProtocol | AllTabs | NoTabs

  /** Whatever forces a new connection into fullscreen: kiosk mode, the command line, the preference. */
  datatype Preferences = Preferences(tabMode: TabMode, kiosk: bool, fullscreen: bool, startFullscreen: bool)

  /** What the message panel in view asks, if it is one that ends the connection. */
  datatype Panel = NoPanel | LastError | Prompt

  /** A connection object with its protocol widget. `freed` says that the widget no longer has it; `idles` counts
      the times its plugin has said that the connection ended and the main loop has not heard yet. */
  class Connection {
    const index: nat  // how many were opened before
    var profile: Profile
    var cnnwin: Window?
    var connected: bool
    var closed: bool
    var userDisconnect: bool
    var error: bool
    var panel: Panel
    var idles: nat
    var freed: bool

    constructor (index: nat, profile: Profile)
      ensures this.index == index && this.profile == profile && cnnwin == null && closed && idles == 0 && !freed
    {
      this.index, this.profile := index, profile;
      cnnwin, connected, closed, userDisconnect, error := null, false, true, false, false;
      panel, idles, freed := NoPanel, 0, false;
    }
  }

  class Window {
    var pages: seq<Connection>
    var current: int
    var tag: Option<string>
    var viewMode: int
    var multiMon: bool
    var fssViewMode: int
    var ssFrame: Frame
    var frame: Frame
    var hostkeyActivated: bool
    var hostkeyUsed: bool

    ghost function Look(): View
      reads this
    {
      View(viewMode, fssViewMode, ssFrame, multiMon, frame)
    }

    constructor (look: View)
      ensures pages == [] && current == -1 && tag == None && Look() == look
      ensures !hostkeyActivated && !hostkeyUsed
    {
      pages, current, tag := [], -1, None;
      viewMode, fssViewMode := look.mode, look.fullscreenMode;
      ssFrame, multiMon, frame := look.windowed, look.multiMon, look.frame;
      hostkeyActivated, hostkeyUsed := false, false;
    }

    /** The window's own part of the invariant. */
    ghost predicate Proper()
      reads this
    {
      Distinct(pages) && Settled(Look()) && if pages == [] then current == -1 else 0 <= current < |pages|
    }

    /** gtk_notebook_insert_page, then the new tab is brought into view. */
    method InsertPage(at: nat, c: Connection)
      requires Proper() && at <= |pages| && c !in pages
      modifies this`pages, this`current
      ensures Proper() && pages == InsertAt(old(pages), at, c) && current == at
    {
      InsertAtDistinct(pages, at, c);
      pages := pages[..at] + [c] + pages[at..];
      current := at;
    }

    /** gtk_notebook_set_current_page: a position past the end changes nothing, a negative one is the last tab. */
    method SetCurrentPage(i: int)
      requires Proper()
      modifies this`current
      ensures Proper() && (0 <= i < |pages| ==> current == i)
      ensures i >= |pages| ==> current == old(current)
    {
      if i < |pages| {
        current := if i < 0 then |pages| - 1 else i;
      }
    }
  }

  /** The current position after tab i of n is removed: the next tab takes over, or the last one. */
  function CurrentWithout(current: int, i: nat, n: nat): int {
    if i < current || (i == current && i == n - 1) then current - 1 else current
  }

  function Tag(mode: TabMode, p: Profile): Option<string> {
    match mode
    case ByGroup => p.group
    case ByProtocol => p.protocol
    case _ => None
  }

  /** The tab that was current stays so; if it is the one removed, the next tab takes over, or the last one. */
  lemma CurrentFollows<T>(pages: seq<T>, current: nat, i: nat)
    requires current < |pages| && i < |pages|
    ensures var rest := RemoveAt(pages, i); var now := CurrentWithout(current, i, |pages|);
      && (rest == [] ==> now == -1)
      && (rest != [] ==> 0 <= now < |rest|
                         && rest[now] == if i != current then pages[current]
                                         else if i < |pages| - 1 then pages[i + 1]
                                         else pages[i - 1])
  {
  }

  /** This is the first of these windows with the tag, or null and there is none. */
  ghost predicate FirstTagged(ws: seq<Window>, tag: Option<string>, w: Window?)
    reads ws
  {
    if w == null then forall v :: v in ws ==> v.tag != tag
    else
      exists k :: 0 <= k < |ws| && ws[k] == w && ws[k].tag == tag && forall j :: 0 <= j < k ==> ws[j].tag != tag
  }

  function OpeningMode(prefs: Preferences, p: Profile): int {
    if prefs.kiosk || p.multiMon || prefs.fullscreen || prefs.startFullscreen then VIEWPORT_FULLSCREEN else p.viewMode
  }

  /** The view of the window made for a profile's first connection. */
  function OpeningView(prefs: Preferences, p: Profile, screen: Frame): View {
    var mode := OpeningMode(prefs, p);
    if IsFullscreen(mode) then NewFullscreen(mode, p.multiMon, screen) else NewScrolled(p.frame)
  }

  /** A new window is fullscreen if anything asks for it, in the profile's own mode only if that alone asks; it
      spreads over all monitors only as a fullscreen window. Otherwise it has the profile's size. */
  lemma OpensAsAsked(prefs: Preferences, p: Profile, screen: Frame)
    ensures var v := OpeningView(prefs, p, screen);
      if prefs.kiosk || p.multiMon || prefs.fullscreen || prefs.startFullscreen then
        v == View(VIEWPORT_FULLSCREEN, VIEWPORT_FULLSCREEN, Frame(640, 480, false), p.multiMon, screen)
      else if p.viewMode == SCROLLED_FULLSCREEN || p.viewMode == VIEWPORT_FULLSCREEN then
        v == View(p.viewMode, p.viewMode, Frame(640, 480, false), false, screen)
      else v == View(SCROLLED_WINDOW, VIEWPORT_FULLSCREEN, p.frame, false, p.frame)
    ensures SCROLLED_WINDOW == 1 && SCROLLED_FULLSCREEN == 3 && VIEWPORT_FULLSCREEN == 4
  {
  }

  class App {
    var pool: seq<Window>
    const prefs: Preferences
    var ever: seq<Connection>  // all connections opened so far
    ghost var live: set<Connection>

    ghost predicate Owns(w: Window)
      reads this`live, w, live`cnnwin, live`freed
    {
      w.Proper() && forall c :: c in w.pages ==> c in live && c.cnnwin == w && !c.freed
    }

    /** Every live connection is one tab of the window it points to, and of no other; no window is without
        tabs, except perhaps one that is being built. */
    ghost predicate Sound(built: set<Window>)
      reads this`pool, this`live, pool, live`cnnwin, live`freed
    {
      && Distinct(pool)
      && (forall w :: w in pool ==> Owns(w) && (w.pages == [] ==> w in built))
      && (forall c :: c in live ==> c.cnnwin != null && c.cnnwin in pool && c in c.cnnwin.pages)
    }

    ghost predicate Valid()
      reads this`pool, this`live, pool, live`cnnwin, live`freed
    {
      Sound({})
    }

    /** The window that a connection points to, if it is still there. */
    ghost function Host(c: Connection): set<Window>
      reads this`pool, c`cnnwin
    {
      set w | w in pool && w == c.cnnwin
    }

    constructor (prefs: Preferences)
      ensures Valid() && pool == [] && ever == [] && live == {} && this.prefs == prefs
    {
      this.prefs := prefs;
      pool, ever, live := [], [], {};
    }

    /** rcw_create_scrolled and rcw_create_fullscreen: the new window joins the pool without tabs. */
    method CreateWindow(look: View) returns (w: Window)
      requires Valid() && Settled(look)
      modifies this`pool
      ensures fresh(w) && pool == old(pool) + [w] && Sound({w})
      ensures w.pages == [] && w.current == -1 && w.tag == None && w.Look() == look
      ensures !w.hostkeyActivated && !w.hostkeyUsed
    {
      w := new Window(look);
      pool := pool + [w];
      assert forall v :: v in pool ==> v == w || v in old(pool);
    }

    /** rcw_append_new_page */
    method AppendNewPage(w: Window, c: Connection)
      requires w.Proper() && c !in w.pages
      modifies w`pages, w`current, c`cnnwin
      ensures w.Proper() && w.pages == old(w.pages) + [c] && c.cnnwin == w
      ensures w.current == if old(w.pages) == [] then 0 else old(w.current)
    {
      w.pages := w.pages + [c];
      c.cnnwin := w;
      if w.current < 0 {
        w.current := 0;
      }
    }

    /** gtk_notebook_remove_page, and the window's end when that was its last tab. */
    method RemovePage(w: Window, i: nat)
      requires w.Proper() && i < |w.pages| && Distinct(pool)
      modifies this`pool, w`pages, w`current
      ensures w.Proper() && w.pages == RemoveAt(old(w.pages), i)
      ensures w.current == CurrentWithout(old(w.current), i, |old(w.pages)|)
      ensures Distinct(pool) && pool == if w.pages == [] then Without(old(pool), w) else old(pool)
    {
      RemoveAtDistinct(w.pages, i);
      WithoutDistinct(pool, w);
      w.current := CurrentWithout(w.current, i, |w.pages|);
      w.pages := w.pages[..i] + w.pages[i + 1..];
      if w.pages == [] {
        pool := Without(pool, w);
      }
    }

    /** rcw_migrate: all tabs move, in order, to a window that has none; the old window is gone. */
    method Migrate(from: Window, to: Window)
      requires Sound({to}) && from in pool && to in pool && from != to && to.pages == []
      modifies this`pool, from`pages, from`current, to`pages, to`current, to`tag, from.pages`cnnwin
      ensures Valid() && pool == Without(old(pool), from) && to in pool && from !in pool
      ensures to.pages == old(from.pages) && to.current == old(from.current) && to.tag == old(from.tag)
    {
      ghost var ws := pool;
      assert Owns(from) && Owns(to);
      to.tag := from.tag;
      var cp := from.current;
      AppendAll(from, to);
      RemoveAll(from);
      to.SetCurrentPage(cp);
      WithoutDistinct(ws, from);
      assert forall w :: w in pool <==> w in ws && w != from;
      forall w | w in pool ensures Owns(w) && w.pages != [] {
        if w != to {
          assert w in ws && w != from;
          assert old(Owns(w));
          forall c | c in w.pages ensures c.cnnwin == w {
            assert old(c.cnnwin) == w;
          }
        }
      }
      forall c | c in live ensures c.cnnwin != null && c.cnnwin in pool && c in c.cnnwin.pages {
        assert old(c.cnnwin != null && c.cnnwin in pool && c in c.cnnwin.pages);
        if old(c.cnnwin) != from {
          assert old(Owns(from)) && c !in old(from.pages);
        }
      }
    }

    method AppendAll(from: Window, to: Window)
      requires from.Proper() && to.Proper() && from != to && to.pages == []
      modifies to`pages, to`current, from.pages`cnnwin
      ensures to.Proper() && to.pages == from.pages && forall c :: c in from.pages ==> c.cnnwin == to
    {
      var np := |from.pages|;
      for i := 0 to np
        invariant to.pages == from.pages[..i] && to.Proper()
        invariant forall c :: c in from.pages[..i] ==> c.cnnwin == to
      {
        AppendNewPage(to, from.pages[i]);
      }
    }

    /** The loop of rcw_migrate that empties the old notebook from its end. */
    method RemoveAll(w: Window)
      requires w.Proper() && w.pages != [] && Distinct(pool)
      modifies this`pool, w`pages, w`current
      ensures w.pages == [] && pool == Without(old(pool), w)
    {
      var i := |w.pages| - 1;
      while i >= 0
        invariant -1 <= i && |w.pages| == i + 1 && w.Proper() && Distinct(pool)
        invariant pool == if w.pages == [] then Without(old(pool), w) else old(pool)
      {
        RemovePage(w, i);
        i := i - 1;
      }
    }

    // ---------------------------------------------------------------- view modes

    /** The replacement of a window by a new one: both forms of the view switch and the fullscreen menu. */
    method Rebuild(w: Window, look: View) returns (newwin: Window)
      requires Valid() && w in pool && Settled(look)
      modifies this`pool, w`pages, w`current, w.pages`cnnwin
      ensures Valid() && fresh(newwin) && pool == Without(old(pool) + [newwin], w) && newwin in pool && w !in pool
      ensures newwin.pages == old(w.pages) && newwin.current == old(w.current) && newwin.tag == old(w.tag)
      ensures newwin.Look() == look && !newwin.hostkeyActivated && !newwin.hostkeyUsed
    {
      newwin := CreateWindow(look);
      Migrate(w, newwin);
    }

    /** rcw_switch_viewmode. `screen` is the frame that a fullscreen window gets. */
    method SwitchViewmode(w: Window, newMode: int, screen: Frame) returns (newwin: Window)
      requires Valid() && w in pool
      modifies this`pool, w`pages, w`current, w.pages`cnnwin
      ensures Valid() && newwin.Look() == Switched(old(w.Look()), newMode, screen)
      ensures newMode == old(w.viewMode) ==> newwin == w && pool == old(pool) && unchanged(w)
      ensures newMode != old(w.viewMode) ==>
                && fresh(newwin) && pool == Without(old(pool) + [newwin], w) && newwin in pool && w !in pool
                && newwin.hostkeyUsed && !newwin.hostkeyActivated
      ensures newwin.pages == old(w.pages) && newwin.current == old(w.current) && newwin.tag == old(w.tag)
    {
      assert Owns(w);
      var oldMode := w.viewMode;
      if oldMode == newMode {
        return w;
      }
      if newMode == VIEWPORT_FULLSCREEN || newMode == SCROLLED_FULLSCREEN {
        var left := w.frame;
        newwin := Rebuild(w, NewFullscreen(w.fssViewMode, w.multiMon, screen));
        Remember(newwin, if oldMode == SCROLLED_WINDOW then left else newwin.ssFrame, newwin.fssViewMode);
      } else {
        newwin := Rebuild(w, NewScrolled(w.ssFrame));
        var full := oldMode == VIEWPORT_FULLSCREEN || oldMode == SCROLLED_FULLSCREEN;
        Remember(newwin, newwin.ssFrame, if full then oldMode else newwin.fssViewMode);
      }
    }

    /** What the new window keeps of the old one; a hostkey still held down counts as used. */
    method Remember(w: Window, ssFrame: Frame, fssViewMode: int)
      requires Valid() && w in pool && Settled(w.Look().(fullscreenMode := fssViewMode))
      modifies w`ssFrame, w`fssViewMode, w`hostkeyUsed
      ensures Valid() && w.Look() == old(w.Look()).(windowed := ssFrame, fullscreenMode := fssViewMode) && w.hostkeyUsed
    {
      assert forall v :: v in pool ==> Owns(v);
      w.ssFrame := ssFrame;
      w.fssViewMode := fssViewMode;
      w.hostkeyUsed := true;
      assert forall v :: v in pool ==> Owns(v);
    }

    /** rco_viewport_fullscreen_mode and rco_scrolled_fullscreen_mode. */
    method ChooseFullscreen(w: Window, mode: int, screen: Frame) returns (newwin: Window)
      requires Valid() && w in pool && IsFullscreen(mode)
      modifies this`pool, w, w.pages`cnnwin
      ensures Valid() && fresh(newwin) && pool == Without(old(pool) + [newwin], w) && newwin in pool && w !in pool
      ensures newwin.Look() == Chosen(old(w.Look()), mode, screen) && !newwin.hostkeyUsed
      ensures newwin.pages == old(w.pages) && newwin.current == old(w.current) && newwin.tag == old(w.tag)
    {
      assert Owns(w);
      newwin := Rebuild(w, NewFullscreen(mode, w.multiMon, screen));
      w.fssViewMode := mode;  // nobody reads this field of the old window again, whenever it is set
    }

    /** The fullscreen shortcut. */
    method ToggleFullscreen(w: Window, screen: Frame) returns (newwin: Window)
      requires Valid() && w in pool
      modifies this`pool, w`pages, w`current, w.pages`cnnwin
      ensures Valid() && newwin in pool && (newwin == w || fresh(newwin)) && OnlyNew(old(pool), old(live))
      ensures newwin.Look() == Toggled(old(w.Look()), screen)
      ensures newwin.pages == old(w.pages) && newwin.current == old(w.current) && newwin.tag == old(w.tag)
    {
      newwin := SwitchViewmode(w, if w.viewMode == SCROLLED_WINDOW then w.fssViewMode else SCROLLED_WINDOW, screen);
    }

    /** rcw_toolbar_fullscreen for the fullscreen button; `multiMon` is the setting of the profile in view. */
    method ToolbarFullscreen(w: Window, multiMon: bool, screen: Frame) returns (newwin: Window)
      requires Valid() && w in pool
      modifies this`pool, w, w.pages`cnnwin
      ensures Valid() && newwin in pool && (newwin == w || fresh(newwin)) && OnlyNew(old(pool), old(live))
      ensures newwin.Look() == Pressed(old(w.Look()), multiMon, screen)
      ensures newwin.pages == old(w.pages) && newwin.current == old(w.current) && newwin.tag == old(w.tag)
    {
      if w.viewMode == SCROLLED_WINDOW {
        if multiMon {
          SetMultiMon(w);
        }
        newwin := SwitchViewmode(w, w.fssViewMode, screen);
      } else {
        newwin := SwitchViewmode(w, SCROLLED_WINDOW, screen);
      }
    }

    method SetMultiMon(w: Window)
      requires Valid() && w in pool
      modifies w`multiMon
      ensures Valid() && w.multiMon
    {
      assert forall v :: v in pool ==> Owns(v);
      w.multiMon := true;
      assert forall v :: v in pool ==> Owns(v);
    }

    /** rcw_toolbar_multi_monitor_mode, with the fullscreen button it presses. */
    method MultiMonitorMode(w: Window, on: bool, screen: Frame) returns (newwin: Window)
      requires Valid() && w in pool
      modifies this`pool, w, w.pages`cnnwin
      ensures Valid() && newwin in pool && (newwin == w || fresh(newwin)) && OnlyNew(old(pool), old(live))
      ensures newwin.Look() == Spread(old(w.Look()), on, screen)
      ensures newwin.pages == old(w.pages) && newwin.current == old(w.current) && newwin.tag == old(w.tag)
    {
      newwin := w;
      if !on {
        newwin := SwitchViewmode(w, SCROLLED_WINDOW, screen);
      } else if w.viewMode == SCROLLED_WINDOW {
        SetMultiMon(w);
        newwin := ToolbarFullscreen(w, true, screen);
      }
    }

    /** Whatever can change the view of a window. */
    method ChangeView(w: Window, e: ViewModes.Event) returns (newwin: Window)
      requires Valid() && w in pool
      modifies this`pool, w, w.pages`cnnwin
      ensures Valid() && newwin in pool && (newwin == w || fresh(newwin)) && OnlyNew(old(pool), old(live))
      ensures newwin.Look() == React(old(w.Look()), e)
      ensures newwin.pages == old(w.pages) && newwin.current == old(w.current) && newwin.tag == old(w.tag)
    {
      newwin := w;
      match e {
        case Shortcut(screen) => newwin := ToggleFullscreen(w, screen);
        case Button(multiMon, screen) => newwin := ToolbarFullscreen(w, multiMon, screen);
        case MultiMonitor(on, screen) => newwin := MultiMonitorMode(w, on, screen);
        case Choose(_, screen) => newwin := ChooseFullscreen(w, ChosenMode(e), screen);
        case Resize(frame) => Resize(w, frame);
      }
    }

    /** Any run of view changes of one window: tabs, order, tag and current tab stay, and frame, fullscreen mode
        and multi-monitor flag are what the events say. */
    method ViewRun(w: Window, events: seq<ViewModes.Event>) returns (win: Window)
      requires Valid() && w in pool
      modifies this`pool, w, w.pages`cnnwin
      ensures Valid() && win in pool && live == old(live) && win.Look() == ViewAt(old(w.Look()), events, |events|)
      ensures win.pages == old(w.pages) && win.current == old(w.current) && win.tag == old(w.tag)
      ensures Full(win.Look()) <==> FullAt(old(Full(w.Look())), events, |events|)
      ensures win.fssViewMode == LastMode(old(w.fssViewMode), events, |events|)
      ensures Remembered(win.Look())
              == if Forgotten(old(Full(w.Look())), events, |events|) then FIRST_FRAME
                 else LastLeft(old(Remembered(w.Look())), old(Full(w.Look())), events, |events|)
      ensures win.multiMon
              <==> (old(w.multiMon) && NoReturn(old(Full(w.Look())), events, 0, |events|))
                   || EnteredSpread(old(Full(w.Look())), events, |events|)
    {
      win := w;
      ghost var look := w.Look();
      for n := 0 to |events|
        invariant Valid() && win in pool && (win == w || fresh(win))
        invariant win.Look() == ViewAt(look, events, n)
        invariant win.pages == old(w.pages) && win.current == old(w.current) && win.tag == old(w.tag)
      {
        win := ChangeView(win, events[n]);
      }
      ModesOfRun(look, events, |events|);
      FramesOfRun(look, events, |events|);
      MultiMonExactlyWhen(look, events, |events|);
    }

    // ---------------------------------------------------------------- opening

    /** rcw_find: the first window of the pool with the wanted tag. A profile without the wanted setting gets
        the first window, whatever its tag is. */
    method FindWindow(p: Profile) returns (w: Window?)
      ensures w == null || w in pool
      ensures w != null <==> prefs.tabMode != NoTabs && exists v :: v in pool && Fits(p, v)
      ensures w != null ==> Fits(p, w)
      ensures w != null ==>
                exists k :: 0 <= k < |pool| && pool[k] == w && forall j :: 0 <= j < k ==> !Fits(p, pool[j])
      ensures prefs.tabMode == ByGroup && p.group.Some? ==> FirstTagged(pool, p.group, w)
      ensures prefs.tabMode == ByProtocol && p.protocol.Some? ==> FirstTagged(pool, p.protocol, w)
      ensures (prefs.tabMode == AllTabs || (prefs.tabMode == ByGroup && p.group.None?)
               || (prefs.tabMode == ByProtocol && p.protocol.None?)) ==> w == if pool == [] then null else pool[0]
    {
      if prefs.tabMode == NoTabs {
        return null;
      }
      var tag := Tag(prefs.tabMode, p);
      for i := 0 to |pool|
        invariant forall j :: 0 <= j < i ==> !Fits(p, pool[j])
      {
        if tag == None || pool[i].tag == tag {
          return pool[i];
        }
      }
      return null;
    }

    predicate Fits(p: Profile, w: Window)
      reads w
    {
      Tag(prefs.tabMode, p) == None || w.tag == Tag(prefs.tabMode, p)
    }

    /** rcw_open_from_file_full; `failed` says that the plugin could not be set up. */
    method OpenFromFile(p: Profile, failed: bool, screen: Frame) returns (c: Connection?, w: Window?)
      requires Valid()
      modifies this`pool, this`ever, this`live, pool`pages, pool`current
      ensures Valid() && (failed <==> c == null) && (failed <==> w == null)
      ensures failed ==> pool == old(pool) && live == old(live) && ever == old(ever)
      ensures !failed ==> fresh(c) && live == old(live) + {c} && c.profile == p && c.cnnwin == w
      ensures !failed ==> ever == old(ever) + [c] && c.index == |old(ever)| && c.closed && !c.freed && c.idles == 0
      ensures !failed && w !in old(pool) ==>
                && pool == old(pool) + [w] && w.pages == [c] && w.tag == Tag(prefs.tabMode, p)
                && w.Look() == OpeningView(prefs, p, screen)
                && (prefs.tabMode == NoTabs || forall v :: v in old(pool) ==> !Fits(p, v))
      ensures !failed && w in old(pool) ==>
                && pool == old(pool) && prefs.tabMode != NoTabs && Fits(p, w)
                && w.pages == old(w.pages) + [c] && w.current == |old(w.pages)|
      ensures !failed && w !in old(pool) ==> w.tag == match prefs.tabMode
                                                      case ByGroup => p.group
                                                      case ByProtocol => p.protocol
                                                      case _ => None
      ensures !failed && prefs.tabMode == ByGroup && p.group.Some? ==>
                FirstTagged(old(pool), p.group, if w in old(pool) then w else null)
      ensures !failed && prefs.tabMode == ByProtocol && p.protocol.Some? ==>
                FirstTagged(old(pool), p.protocol, if w in old(pool) then w else null)
      ensures forall v :: v in old(pool) && v != w ==> unchanged(v)
    {
      if failed {
        return null, null;
      }
      c := new Connection(|ever|, p);
      ever := ever + [c];
      w := OpenSomewhere(c, screen);
    }

    /** The connection goes to the window that fits its profile, or to a new one. */
    method OpenSomewhere(c: Connection, screen: Frame) returns (w: Window)
      requires Valid() && c !in live && !c.freed
      modifies this`pool, this`live, c`cnnwin, pool`pages, pool`current
      ensures Valid() && live == old(live) + {c} && c.cnnwin == w
      ensures w !in old(pool) ==>
                && pool == old(pool) + [w] && w.pages == [c] && w.tag == Tag(prefs.tabMode, c.profile)
                && w.Look() == OpeningView(prefs, c.profile, screen)
                && (prefs.tabMode == NoTabs || forall v :: v in old(pool) ==> !Fits(c.profile, v))
      ensures w in old(pool) ==>
                && pool == old(pool) && prefs.tabMode != NoTabs && Fits(c.profile, w)
                && w.pages == old(w.pages) + [c] && w.current == |old(w.pages)|
      ensures prefs.tabMode == ByGroup && c.profile.group.Some? ==>
                FirstTagged(old(pool), c.profile.group, if w in old(pool) then w else null)
      ensures prefs.tabMode == ByProtocol && c.profile.protocol.Some? ==>
                FirstTagged(old(pool), c.profile.protocol, if w in old(pool) then w else null)
      ensures forall v :: v in old(pool) && v != w ==> unchanged(v)
    {
      var found := FindWindow(c.profile);
      if found == null {
        w := OpenWindow(c, screen);
      } else {
        w := found;
        OpenTab(c, w);
      }
    }

    /** The connection goes to a new window. */
    method OpenWindow(c: Connection, screen: Frame) returns (w: Window)
      requires Valid() && c !in live && !c.freed
      modifies this`pool, this`live, c`cnnwin
      ensures Valid() && fresh(w) && live == old(live) + {c} && pool == old(pool) + [w]
      ensures c.cnnwin == w && w.pages == [c] && w.tag == Tag(prefs.tabMode, c.profile)
      ensures w.Look() == OpeningView(prefs, c.profile, screen)
    {
      w := CreateWindow(OpeningView(prefs, c.profile, screen));
      ghost var ws := pool;
      w.tag := Tag(prefs.tabMode, c.profile);
      AppendNewPage(w, c);
      live := live + {c};
      forall v | v in pool ensures Owns(v) && v.pages != [] {
        if v != w {
          assert v in old(pool);
          assert old(Owns(v));
        }
      }
      forall x | x in live ensures x.cnnwin != null && x.cnnwin in pool && x in x.cnnwin.pages {
        assert x != c ==> old(x.cnnwin != null && x.cnnwin in pool && x in x.cnnwin.pages);
      }
    }

    /** The connection becomes the last tab of a window, and the one in view. */
    method OpenTab(c: Connection, w: Window)
      requires Valid() && c !in live && !c.freed && w in pool
      modifies this`live, c`cnnwin, w`pages, w`current
      ensures Valid() && live == old(live) + {c} && c.cnnwin == w
      ensures w.pages == old(w.pages) + [c] && w.current == |old(w.pages)|
    {
      assert Owns(w);
      AppendNewPage(w, c);
      w.SetCurrentPage(|w.pages| - 1);
      live := live + {c};
      forall v | v in pool ensures Owns(v) && v.pages != [] {
        assert old(Owns(v));
        assert v != w ==> c !in v.pages;
      }
      forall x | x in live ensures x.cnnwin != null && x.cnnwin in pool && x in x.cnnwin.pages {
        assert x != c ==> old(x.cnnwin != null && x.cnnwin in pool && x in x.cnnwin.pages);
      }
    }

    // ---------------------------------------------------------------- dragging

    /** rcw_on_notebook_create_window and the move GTK then makes: tab i of a window is dropped on `target`,
        another window, or (null) on no window; `at` is the position GTK drops it at. */
    method DragTab(w: Window, i: nat, target: Window?, at: nat) returns (dest: Window?)
      requires Valid() && w in pool && i < |w.pages|
      requires target != null ==> target in pool && at <= |target.pages|
      modifies this`pool, this`live, pool`pages, pool`current, w.pages`cnnwin
      ensures Valid() && live == old(live)
      ensures dest == null <==> target == w || (target == null && |old(w.pages)| == 1)
      ensures dest == null ==> pool == old(pool) && unchanged(w) && forall c :: c in w.pages ==> unchanged(c)
      ensures dest != null ==> dest == target || (target == null && fresh(dest))
      ensures dest != null ==>
                w.pages == RemoveAt(old(w.pages), i) && w.current == CurrentWithout(old(w.current), i, |old(w.pages)|)
      ensures dest != null && target != null ==>
                && target.pages == InsertAt(old(target.pages), at, old(w.pages[i])) && target.current == at
                && pool == if w.pages == [] then Without(old(pool), w) else old(pool)
      ensures dest != null && target == null ==>
                && dest.pages == old([w.pages[i]]) && dest.tag == old(w.tag) && pool == old(pool) + [dest]
                && dest.Look() == NewScrolled(old(w.frame).(maximized := false))
      ensures forall v :: v in old(pool) && v != w && v != target ==> unchanged(v)
    {
      assert Owns(w);
      dest := null;
      if w == target || (|w.pages| == 1 && target == null) {
        return;
      }
      if target == null {
        dest := DragOut(w, i);
      } else {
        dest := target;
        MoveTab(w, i, target, at);
      }
    }

    /** A new window around one of several tabs. */
    method DragOut(w: Window, i: nat) returns (dest: Window)
      requires Valid() && w in pool && i < |w.pages| && |w.pages| > 1
      modifies this`pool, this`live, w`pages, w`current, w.pages`cnnwin
      ensures Valid() && fresh(dest) && pool == old(pool) + [dest] && live == old(live)
      ensures dest.pages == old([w.pages[i]]) && dest.tag == old(w.tag)
      ensures dest.Look() == NewScrolled(old(w.frame).(maximized := false))
      ensures w.pages == RemoveAt(old(w.pages), i) && w.current == CurrentWithout(old(w.current), i, |old(w.pages)|)
    {
      dest := CreateTagged(NewScrolled(w.frame.(maximized := false)), w.tag);
      MoveTab(w, i, dest, 0);
    }

    method CreateTagged(look: View, tag: Option<string>) returns (w: Window)
      requires Valid() && Settled(look)
      modifies this`pool
      ensures fresh(w) && pool == old(pool) + [w] && Sound({w})
      ensures w.pages == [] && w.current == -1 && w.tag == tag && w.Look() == look
    {
      w := CreateWindow(look);
      w.tag := tag;
      assert forall v :: v in pool ==> Owns(v);
    }

    /** GTK's move of a tab: out of the old notebook, into the new one, and into view there. */
    method MoveTab(w: Window, i: nat, dest: Window, at: nat)
      requires Sound({dest}) && w in pool && dest in pool && w != dest && i < |w.pages| && at <= |dest.pages|
      modifies this`pool, this`live, w`pages, w`current, dest`pages, dest`current, w.pages`cnnwin
      ensures Valid() && live == old(live)
      ensures w.pages == RemoveAt(old(w.pages), i) && w.current == CurrentWithout(old(w.current), i, |old(w.pages)|)
      ensures dest.pages == InsertAt(old(dest.pages), at, old(w.pages[i])) && dest.current == at
      ensures pool == if w.pages == [] then Without(old(pool), w) else old(pool)
    {
      assert Owns(w) && Owns(dest);
      var c := w.pages[i];
      Detach(w, i, c, {dest});
      Attach(dest, at, c);
    }

    /** A connection without a tab does not count as live until it has one again. */
    method Detach(w: Window, i: nat, c: Connection, ghost built: set<Window>)
      requires Sound(built) && w in pool && w !in built && i < |w.pages| && w.pages[i] == c
      modifies this`pool, this`live, w`pages, w`current
      ensures Sound(built) && live == old(live) - {c}
      ensures w.pages == RemoveAt(old(w.pages), i) && w.current == CurrentWithout(old(w.current), i, |old(w.pages)|)
      ensures pool == if w.pages == [] then Without(old(pool), w) else old(pool)
      ensures forall v :: v in pool <==> v in old(pool) && (v == w ==> w.pages != [])
    {
      assert Owns(w);
      ghost var ws := pool;
      RemoveAtDistinct(w.pages, i);
      RemovePage(w, i);
      live := live - {c};
      WithoutDistinct(ws, w);
      assert forall v :: v in pool <==> v in ws && (v == w ==> w.pages != []);
      forall v | v in pool ensures Owns(v) && (v.pages == [] ==> v in built) {
        assert v in ws;
        assert old(Owns(v));
        assert v != w ==> c !in v.pages;
      }
      forall x | x in live ensures x.cnnwin != null && x.cnnwin in pool && x in x.cnnwin.pages {
        assert old(x.cnnwin != null && x.cnnwin in pool && x in x.cnnwin.pages);
      }
    }

    method Attach(w: Window, at: nat, c: Connection)
      requires Sound({w}) && w in pool && at <= |w.pages| && c !in live && !c.freed
      modifies this`live, w`pages, w`current, c`cnnwin
      ensures Valid() && live == old(live) + {c} && c.cnnwin == w
      ensures w.pages == InsertAt(old(w.pages), at, c) && w.current == at
    {
      assert Owns(w);
      InsertAtDistinct(w.pages, at, c);
      c.cnnwin := w;
      w.InsertPage(at, c);
      live := live + {c};
      forall v | v in pool ensures Owns(v) && v.pages != [] {
        assert old(Owns(v));
        assert v != w ==> c !in v.pages;
      }
      forall x | x in live ensures x.cnnwin != null && x.cnnwin in pool && x in x.cnnwin.pages {
        assert x != c ==> old(x.cnnwin != null && x.cnnwin in pool && x in x.cnnwin.pages);
      }
    }

    // ---------------------------------------------------------------- closing

    /** nb_find_page_by_cnnobj: the position of a connection's tab, past the end when it has none there. */
    method FindPage(w: Window, c: Connection) returns (i: nat)
      ensures i < |w.pages| ==> w.pages[i] == c && c !in w.pages[..i]
      ensures i >= |w.pages| ==> c !in w.pages
    {
      i := 0;
      while i < |w.pages| && w.pages[i] != c
        invariant i <= |w.pages| && c !in w.pages[..i]
      {
        i := i + 1;
      }
    }

    /** rco_closewin; a second call for the same connection does nothing. */
    method CloseWin(c: Connection)
      requires Valid() && (c.freed || c in live)
      modifies this`pool, this`live, c`freed, Host(c)`pages, Host(c)`current
      ensures Valid() && c.freed
      ensures old(c.freed) ==> pool == old(pool) && live == old(live) && forall w :: w in pool ==> unchanged(w)
      ensures !old(c.freed) ==> live == old(live) - {c} && Closed(old(pool), pool, c.cnnwin, old(c.cnnwin.pages), c)
    {
      if c.freed {
        return;
      }
      var w: Window := c.cnnwin;
      assert Owns(w);
      var i := FindPage(w, c);
      WithoutIsRemoveAt(w.pages, i);
      FreeTab(w, i, c);
    }

    method FreeTab(w: Window, i: nat, c: Connection)
      requires Valid() && w in pool && i < |w.pages| && w.pages[i] == c
      modifies this`pool, this`live, w`pages, w`current, c`freed
      ensures Valid() && live == old(live) - {c} && c.freed
      ensures w.pages == RemoveAt(old(w.pages), i) && pool == if w.pages == [] then Without(old(pool), w) else old(pool)
    {
      Detach(w, i, c, {});
      assert forall v :: v in pool ==> Owns(v);
      c.freed := true;
      assert forall v :: v in pool ==> Owns(v);
    }

    /** The tab of connection c is gone from window w, and w with it if that was its only tab. */
    ghost predicate Closed(was: seq<Window>, now: seq<Window>, w: Window?, tabs: seq<Connection>, c: Connection)
      reads w
    {
      w != null && w.pages == Without(tabs, c) && now == if w.pages == [] then Without<Window>(was, w) else was
    }

    /** rco_on_disconnect: after an error the tab stays and shows a message. */
    method Disconnect(c: Connection)
      requires Valid() && c in live
      modifies this`pool, this`live, c`connected, c`panel, c`freed, Host(c)`pages, Host(c)`current
      ensures Valid() && !c.connected && c.freed == !c.error
      ensures c.error ==>
                c.panel == LastError && pool == old(pool) && live == old(live) && forall w :: w in pool ==> unchanged(w)
      ensures !c.error ==> live == old(live) - {c} && Closed(old(pool), pool, c.cnnwin, old(c.cnnwin.pages), c)
    {
      c.connected := false;
      if c.error {
        c.panel := LastError;
      } else {
        CloseWin(c);
      }
    }

    /** remmina_protocol_widget_close_connection: a connection the plugin already closed goes at once, whatever
        error it had; otherwise the plugin is asked and answers later. */
    method CloseConnection(c: Connection)
      requires Valid() && c in live
      modifies this`pool, this`live, c`connected, c`panel, c`freed, c`error, c`userDisconnect, Host(c)`pages
      modifies Host(c)`current
      ensures Valid() && c.freed == c.closed
      ensures !c.closed ==>
                c.userDisconnect && pool == old(pool) && live == old(live) && forall w :: w in pool ==> unchanged(w)
      ensures c.closed ==> live == old(live) - {c} && Closed(old(pool), pool, c.cnnwin, old(c.cnnwin.pages), c)
    {
      if c.closed {
        c.error := false;
        Disconnect(c);
      } else {
        c.userDisconnect := true;
      }
    }

    /** rcw_close_all_connections, from the last tab to the first: the tabs whose connection the plugin has
        already closed go, in place; the others stay until the plugin answers. */
    method CloseAll(w: Window)
      requires Valid() && w in pool
      modifies this`pool, this`live, w`pages, w`current, w.pages`connected, w.pages`panel, w.pages`freed
      modifies w.pages`error, w.pages`userDisconnect
      ensures Valid() && w.pages == old(StillOpen(w.pages, ClosedOf(w.pages)))
      ensures forall c :: c in w.pages <==> c in old(w.pages) && !old(c.closed)
      ensures pool == if w.pages == [] then Without(old(pool), w) else old(pool)
      ensures live == old(live - ClosedOf(w.pages)) && forall c :: c in old(ClosedOf(w.pages)) ==> c.freed
      ensures forall c :: c in w.pages ==> c.userDisconnect
    {
      ghost var was, ps, shut := live, w.pages, ClosedOf(w.pages);
      SweepAll(w, shut);
      StillOpenIs(ps, shut);
      SweepEnds(ps, shut, w.pages, was, live);
    }

    method SweepAll(w: Window, ghost shut: set<Connection>)
      requires Valid() && w in pool && shut == ClosedOf(w.pages)
      modifies this`pool, this`live, w`pages, w`current
      modifies w.pages`connected, w.pages`panel, w.pages`freed, w.pages`error, w.pages`userDisconnect
      ensures Valid() && Sweep(old(w.pages), shut, 0, w.pages, old(live), live)
      ensures pool == if w.pages == [] then Without(old(pool), w) else old(pool)
      ensures forall c :: c in old(w.pages) ==> Swept(c, c in shut)
    {
      ghost var ws, was, ps := pool, live, w.pages;
      assert Owns(w);
      SweepStarts(ps, shut, was);
      for i := |w.pages| downto 0
        invariant Valid() && Sweep(ps, shut, i, w.pages, was, live)
        invariant pool == if w.pages == [] then Without(ws, w) else ws
        invariant forall j :: i <= j < |ps| ==> Swept(ps[j], ps[j] in shut)
      {
        SweepStep(ps, shut, i, w.pages, was, live);
        SweepTab(w, i, w.pages[i], ps, shut, was);
      }
    }

    /** One round of that loop. */
    method SweepTab(w: Window, i: nat, c: Connection, ghost ps: seq<Connection>, ghost shut: set<Connection>,
                    ghost was: set<Connection>)
      requires Valid() && w in pool && Sweep(ps, shut, i + 1, w.pages, was, live)
      requires i < |w.pages| && i < |ps| && c == ps[i] == w.pages[i] && (c.closed <==> c in shut)
      modifies this`pool, this`live, w`pages, w`current, c`connected, c`panel, c`freed, c`error, c`userDisconnect
      ensures Valid() && Sweep(ps, shut, i, w.pages, was, live) && Swept(c, c in shut)
      ensures pool == if w.pages == [] then Without(old(pool), w) else old(pool)
    {
      SweepStep(ps, shut, i, w.pages, was, live);
      CloseTab(w, i, c);
    }

    predicate Swept(c: Connection, shut: bool)
      reads c
    {
      if shut then c.freed else c.userDisconnect
    }

    method CloseTab(w: Window, i: nat, c: Connection)
      requires Valid() && w in pool && i < |w.pages| && w.pages[i] == c
      modifies this`pool, this`live, w`pages, w`current, c`connected, c`panel, c`freed, c`error, c`userDisconnect
      ensures Valid() && c.freed == c.closed
      ensures c.closed ==> live == old(live) - {c} && w.pages == RemoveAt(old(w.pages), i)
      ensures c.closed ==> pool == if w.pages == [] then Without(old(pool), w) else old(pool)
      ensures !c.closed ==> live == old(live) && w.pages == old(w.pages) && pool == old(pool) && c.userDisconnect
    {
      assert Owns(w);
      WithoutIsRemoveAt(w.pages, i);
      CloseConnection(c);
    }

    method CountOpen(w: Window) returns (nopen: nat)
      ensures nopen == |StillOpen(w.pages, ClosedOf(w.pages))|
    {
      nopen := 0;
      for i := 0 to |w.pages|
        invariant nopen == |StillOpen(w.pages[..i], ClosedOf(w.pages))|
      {
        StillOpenSnoc(w.pages, i, ClosedOf(w.pages));
        if !w.pages[i].closed {
          nopen := nopen + 1;
        }
      }
      assert w.pages[..|w.pages|] == w.pages;
    }

    /** rcw_delete: `answer` is what the user says if asked. Asked is who closes two or more connections that
        are still open, or, by preference, the last one. */
    method Delete(w: Window, confirm: bool, confirmLast: bool, answer: bool) returns (done: bool)
      requires Valid() && w in pool
      modifies this`pool, this`live, w`pages, w`current, w.pages`connected, w.pages`panel, w.pages`freed
      modifies w.pages`error, w.pages`userDisconnect
      ensures Valid()
      ensures confirm && !answer ==>
                (done <==> |old(StillOpen(w.pages, ClosedOf(w.pages)))| <= if confirmLast then 0 else 1)
      ensures (done <==> answer || !confirm || !old(Asked(StillOpen(w.pages, ClosedOf(w.pages)), confirmLast)))
      ensures !done ==> pool == old(pool) && live == old(live) && w.pages == old(w.pages)
      ensures done ==> w.pages == old(StillOpen(w.pages, ClosedOf(w.pages))) && live == old(live - ClosedOf(w.pages))
      ensures done ==>
                (forall c :: c in w.pages ==> c.userDisconnect) && forall c :: c in old(ClosedOf(w.pages)) ==> c.freed
      ensures done ==> pool == if w.pages == [] then Without(old(pool), w) else old(pool)
    {
      if confirm {
        var nopen := CountOpen(w);
        if (nopen > 1 || (nopen == 1 && confirmLast)) && !answer {
          return false;
        }
      }
      CloseAll(w);
      return true;
    }

    // ---------------------------------------------------------------- runs

    /** The user resizes a window, or the window manager does. */
    method Resize(w: Window, frame: Frame)
      requires Valid() && w in pool
      modifies w`frame
      ensures Valid() && w.Look() == old(w.Look()).(frame := frame)
    {
      assert forall v :: v in pool ==> Owns(v);
      w.frame := frame;
      assert forall v :: v in pool ==> Owns(v);
    }

    /** The keyboard's next-tab and previous-tab shortcuts go round. */
    method NextTab(w: Window, forward: bool)
      requires Valid() && w in pool
      modifies w`current
      ensures Valid()
      ensures forward ==> w.current == if old(w.current) == |w.pages| - 1 then 0 else old(w.current) + 1
      ensures !forward ==> w.current == if old(w.current) == 0 then |w.pages| - 1 else old(w.current) - 1
    {
      assert forall v :: v in pool ==> Owns(v);
      var i := if forward then w.current + 1 else w.current - 1;
      if i >= |w.pages| {
        i := 0;
      } else if i < 0 {
        i := |w.pages| - 1;
      }
      w.SetCurrentPage(i);
      assert forall v :: v in pool ==> Owns(v);
    }

    /** remmina_protocol_widget_open_connection_real, up to the plugin's own part. */
    method OpenConnection(c: Connection)
      requires Valid() && c in live
      modifies c`closed
      ensures Valid() && !c.closed
    {
      c.closed := false;
    }

    /** rco_on_connect */
    method Connect(c: Connection)
      requires Valid() && c in live
      modifies c`connected
      ensures Valid() && c.connected
    {
      c.connected := true;
    }

    /** remmina_protocol_widget_signal_connection_closed: the connection counts as closed from here on, and the
        main loop hears of it later. `error` says whether the plugin set an error before. */
    method SignalClosed(c: Connection, error: bool)
      requires Valid() && c in live
      modifies c`closed, c`error, c`idles
      ensures Valid() && c.closed && c.error == error && c.idles == old(c.idles) + 1
    {
      c.closed, c.error := true, error;
      c.idles := c.idles + 1;
    }

    /** conn_closed, the idle that follows, when its connection is still there. `prompt` is the profile's wish to
        be asked first. */
    method ConnectionClosed(c: Connection, prompt: bool)
      requires Valid() && c in live
      modifies this`pool, this`live, c`connected, c`panel, c`freed, c`userDisconnect, Host(c)`pages, Host(c)`current
      ensures Valid() && (c.freed <==> !c.error && (old(c.userDisconnect) || !prompt))
      ensures !c.freed ==> pool == old(pool) && live == old(live) && forall w :: w in pool ==> unchanged(w)
      ensures !c.freed ==> c.panel == if c.error then LastError else Prompt
      ensures c.freed ==> live == old(live) - {c} && Closed(old(pool), pool, c.cnnwin, old(c.cnnwin.pages), c)
    {
      if !c.userDisconnect && !c.error && prompt {
        c.userDisconnect := false;
        c.panel := Prompt;
      } else {
        Disconnect(c);
      }
    }

    /** The main loop runs an idle of a connection. It finds the connection unless that was freed before; the
        code does not ask, and what it then does with what is no longer there is not modelled. */
    method RunIdle(c: Connection, prompt: bool) returns (found: bool)
      requires Valid() && (c in live || c.freed) && c.idles > 0
      modifies this`pool, this`live, Host(c)`pages, Host(c)`current
      modifies c`idles, c`connected, c`panel, c`freed, c`userDisconnect
      ensures Valid() && c.idles == old(c.idles) - 1 && found == !old(c.freed)
      ensures c.freed <==> !found || (!c.error && (old(c.userDisconnect) || !prompt))
      ensures !found || !c.freed ==> pool == old(pool) && live == old(live) && forall w :: w in pool ==> unchanged(w)
      ensures found && c.freed ==>
                live == old(live) - {c} && Closed(old(pool), pool, c.cnnwin, old(c.cnnwin.pages), c)
    {
      found := !c.freed;
      c.idles := c.idles - 1;
      if found {
        ConnectionClosed(c, prompt);
      }
    }

    /** The button of a panel that ends the connection: cb_lasterror_confirmed, or conn_closed_real. */
    method PanelAnswer(c: Connection)
      requires Valid() && c in live
      modifies this`pool, this`live, c`connected, c`panel, c`freed, Host(c)`pages, Host(c)`current
      ensures Valid() && (c.freed <==> old(c.panel).LastError? || (old(c.panel).Prompt? && !c.error))
      ensures !c.freed ==> pool == old(pool) && live == old(live) && forall w :: w in pool ==> unchanged(w)
      ensures c.freed ==> live == old(live) - {c} && Closed(old(pool), pool, c.cnnwin, old(c.cnnwin.pages), c)
    {
      assert Owns(c.cnnwin);
      match c.panel {
        case NoPanel =>
        case LastError => CloseWin(c);
        case Prompt => Disconnect(c);
      }
    }

    /** rco_on_close_button_clicked */
    method CloseButton(c: Connection)
      requires Valid() && c in live
      modifies this`pool, this`live, c`connected, c`panel, c`freed, c`error, c`userDisconnect, Host(c)`pages
      modifies Host(c)`current
      ensures Valid() && c.freed == c.closed
      ensures !c.closed ==>
                c.userDisconnect && pool == old(pool) && live == old(live) && forall w :: w in pool ==> unchanged(w)
      ensures c.closed ==> live == old(live) - {c} && Closed(old(pool), pool, c.cnnwin, old(c.cnnwin.pages), c)
    {
      assert Owns(c.cnnwin);
      if !c.closed {
        CloseConnection(c);
      } else {
        CloseWin(c);
      }
    }

    /** Windows and connections are those there were, or new ones. */
    twostate predicate OnlyNew(ws: seq<Window>, cs: set<Connection>)
      reads this
    {
      (forall w :: w in pool ==> w in ws || fresh(w)) && (forall c :: c in live ==> c in cs || fresh(c))
    }
  }

  predicate IsTabAt(app: App, w: Window, i: nat, c: Connection)
    reads app`pool, w
  {
    w in app.pool && i < |w.pages| && w.pages[i] == c
  }

  /** The invariant in words: a live connection is one tab, of the window it points to, and of no other. */
  lemma ExactlyOneTab(app: App, c: Connection)
    requires app.Valid() && c in app.live
    ensures exists w: Window, i: nat :: w in app.pool && w == c.cnnwin && i < |w.pages| && w.pages[i] == c
    ensures forall v: Window, w: Window, i: nat, j: nat ::
              IsTabAt(app, v, i, c) && IsTabAt(app, w, j, c) ==> v == w && i == j
  {
    assert app.Owns(c.cnnwin);
    var i: nat :| i < |c.cnnwin.pages| && c.cnnwin.pages[i] == c;
    forall v: Window, w: Window, i: nat, j: nat | IsTabAt(app, v, i, c) && IsTabAt(app, w, j, c)
      ensures v == w && i == j
    {
      assert app.Owns(v) && app.Owns(w);
    }
  }

  ghost predicate Asked(open: seq<Connection>, confirmLast: bool) {
    |open| > 1 || (|open| == 1 && confirmLast)
  }

  ghost function ClosedOf(tabs: seq<Connection>): set<Connection>
    reads tabs
  {
    set c | c in tabs && c.closed
  }

  ghost function StillOpen(tabs: seq<Connection>, shut: set<Connection>): seq<Connection> {
    if tabs == [] then []
    else (if tabs[0] in shut then [] else [tabs[0]]) + StillOpen(tabs[1..], shut)
  }

  lemma StillOpenStep(tabs: seq<Connection>, i: nat, shut: set<Connection>)
    requires i < |tabs|
    ensures StillOpen(tabs[i..], shut) == (if tabs[i] in shut then [] else [tabs[i]]) + StillOpen(tabs[i + 1..], shut)
  {
    assert tabs[i..][1..] == tabs[i + 1..];
  }

  lemma {:induction false} StillOpenSnoc(tabs: seq<Connection>, i: nat, shut: set<Connection>)
    requires i < |tabs|
    ensures StillOpen(tabs[..i + 1], shut) == StillOpen(tabs[..i], shut) + if tabs[i] in shut then [] else [tabs[i]]
  {
    if i > 0 {
      StillOpenSnoc(tabs[1..], i - 1, shut);
      assert tabs[..i + 1][1..] == tabs[1..][..i] && tabs[..i][1..] == tabs[1..][..i - 1];
    }
  }

  /** How far the closing of all tabs has come: it has still to look at the first i. */
  ghost predicate Sweep(all: seq<Connection>, shut: set<Connection>, i: nat, tabs: seq<Connection>,
                        was: set<Connection>, live: set<Connection>) {
    i <= |all| && tabs == all[..i] + StillOpen(all[i..], shut) && live == was - set c | c in all[i..] && c in shut
  }

  lemma SweepStarts(all: seq<Connection>, shut: set<Connection>, was: set<Connection>)
    ensures Sweep(all, shut, |all|, all, was, was)
  {
    assert all[|all|..] == [] && all[..|all|] == all;
  }

  lemma SweepEnds(all: seq<Connection>, shut: set<Connection>, tabs: seq<Connection>, was: set<Connection>,
                  live: set<Connection>)
    requires Sweep(all, shut, 0, tabs, was, live) && forall c :: c in shut ==> c in all
    ensures tabs == StillOpen(all, shut) && live == was - shut
  {
    assert all[0..] == all;
  }

  lemma SweepStep(all: seq<Connection>, shut: set<Connection>, i: nat, tabs: seq<Connection>, was: set<Connection>,
                  live: set<Connection>)
    requires Sweep(all, shut, i + 1, tabs, was, live)
    ensures i < |tabs| && tabs[i] == all[i]
    ensures all[i] in shut ==> Sweep(all, shut, i, RemoveAt(tabs, i), was, live - {all[i]})
    ensures all[i] !in shut ==> Sweep(all, shut, i, tabs, was, live)
  {
    StillOpenStep(all, i, shut);
    assert all[i..] == [all[i]] + all[i + 1..];
    var rest := StillOpen(all[i + 1..], shut);
    assert all[..i + 1] == all[..i] + [all[i]];
    assert RemoveAt(tabs, i) == all[..i] + rest;
  }

  lemma {:induction false} StillOpenIs(tabs: seq<Connection>, shut: set<Connection>)
    ensures forall c :: c in StillOpen(tabs, shut) <==> c in tabs && c !in shut
  {
    if tabs != [] {
      StillOpenIs(tabs[1..], shut);
      assert tabs == [tabs[0]] + tabs[1..];
    }
  }

  ghost predicate ComesBefore(tabs: seq<Connection>, a: Connection, b: Connection) {
    exists k, l :: 0 <= k < l < |tabs| && tabs[k] == a && tabs[l] == b
  }

  lemma BeforeBehind(head: seq<Connection>, rest: seq<Connection>, a: Connection, b: Connection)
    requires ComesBefore(rest, a, b) || (head == [a] && b in rest)
    ensures ComesBefore(head + rest, a, b)
  {
    var all, n := head + rest, |head|;
    if ComesBefore(rest, a, b) {
      var k, l :| 0 <= k < l < |rest| && rest[k] == a && rest[l] == b;
      assert all[n + k] == a && all[n + l] == b;
    } else {
      var l :| 0 <= l < |rest| && rest[l] == b;
      assert all[0] == a && all[n + l] == b;
    }
  }

  /** What is still open keeps its order. */
  lemma {:induction false} StillOpenKeepsOrder(tabs: seq<Connection>, shut: set<Connection>, a: Connection,
                                               b: Connection)
    requires ComesBefore(tabs, a, b) && a !in shut && b !in shut
    ensures ComesBefore(StillOpen(tabs, shut), a, b)
  {
    var head: seq<Connection> := if tabs[0] in shut then [] else [tabs[0]];
    var rest := tabs[1..];
    var k, l :| 0 <= k < l < |tabs| && tabs[k] == a && tabs[l] == b;
    assert StillOpen(tabs, shut) == head + StillOpen(rest, shut);
    assert rest[l - 1] == b;
    if k == 0 {
      StillOpenIs(rest, shut);
    } else {
      assert rest[k - 1] == a;
      StillOpenKeepsOrder(rest, shut, a, b);
    }
    BeforeBehind(head, StillOpen(rest, shut), a, b);
  }
}
