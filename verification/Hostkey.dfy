/** The hostkey of a connection window: rcw_hostkey_func with the two flags it keeps in its window, and the
    events that change those flags or put the connection into another window. */
module Hostkey {
  import opened Basics

  datatype Shortcut =
    | Fullscreen | Autofit | NextTab | PrevTab | Clipboard | Scale | Grab | Minimize | ViewOnly | Screenshot
    | Disconnect | ToggleToolbar
    | PluginTool  // looked up in the protocol plugin

  /** Keys are GDK key values; hostkey 0 means that there is none. `shortcuts` are the configured ones in the
      order in which they are compared. */
  datatype Keys = Keys(hostkey: nat, shortcuts: seq<(Shortcut, nat)>, hardened: bool, lower: nat -> nat,
                       arrows: set<nat>)

  datatype Flags = Flags(activated: bool, used: bool)

  datatype Event =
    | Key(keyval: nat, release: bool, stuck: bool)  // `stuck`: an arrow key finds nothing to scroll and gives up
    | FocusOut
    | ViewSwitch  // by the toolbar; the shortcut is a Key
    | Moved(flags: Flags)  // to a window with these flags: dropped on another one, dragged out, or by the menu

  /** How rcw_hostkey_func ends. */
  datatype Outcome =
    | Passed  // to the remote side
    | Trapped
    | Stuck
    | Dispatched(shortcut: Shortcut)

  // ---------------------------------------------------------------- the flags as values

  predicate IsHostkey(k: Keys, keyval: nat) {
    k.hostkey != 0 && keyval == k.hostkey
  }

  predicate Dispatches(k: Keys, f: Flags, e: Event) {
    e.Key? && if e.release then IsHostkey(k, e.keyval) && !f.used else !IsHostkey(k, e.keyval) && f.activated
  }

  predicate Completes(k: Keys, f: Flags, e: Event) {
    Dispatches(k, f, e) && !(e.stuck && k.lower(e.keyval) in k.arrows)
  }

  predicate IsPress(k: Keys, e: Event) {
    e.Key? && !e.release && IsHostkey(k, e.keyval)
  }

  function Next(k: Keys, f: Flags, e: Event): Flags {
    match e
    case FocusOut => f.(activated := false)
    case ViewSwitch => Flags(false, true)
    case Moved(flags) => flags
    case Key(keyval, release, _) =>
      if IsPress(k, e) then Flags(true, false)
      else if Completes(k, f, e) then Flags(false, true)
      else Flags(f.activated && !(release && IsHostkey(k, keyval)), f.used || Dispatches(k, f, e))
  }

  function After(k: Keys, f: Flags, events: seq<Event>): Flags
    decreases |events|
  {
    if events == [] then f else After(k, Next(k, f, events[0]), events[1..])
  }

  /** How many dispatches complete in a run. */
  function Completed(k: Keys, f: Flags, events: seq<Event>): nat
    decreases |events|
  {
    if events == [] then 0
    else (if Completes(k, f, events[0]) then 1 else 0) + Completed(k, Next(k, f, events[0]), events[1..])
  }

  /** How often a run moves to a window that is not quiet; new windows have clear flags. */
  function Moves(events: seq<Event>): nat {
    if events == [] then 0
    else (if events[0].Moved? && !Quiet(events[0].flags) then 1 else 0) + Moves(events[1..])
  }

  const CLEAR := Flags(false, false)

  predicate NoPress(k: Keys, events: seq<Event>) {
    forall i :: 0 <= i < |events| ==> !IsPress(k, events[i])
  }

  /** Nothing can be dispatched before the hostkey is pressed. */
  predicate Quiet(f: Flags) {
    !f.activated && f.used
  }

  // ---------------------------------------------------------------- what holds of every run

  /** Until the next press at most one dispatch completes, and none from a quiet window; each move to a window
      that is not quiet allows one more. */
  lemma {:induction false} AtMostOnePerPress(k: Keys, f: Flags, events: seq<Event>)
    requires NoPress(k, events)
    ensures Completed(k, f, events) <= Moves(events) + if Quiet(f) then 0 else 1
    ensures Moves(events) == 0 && (Quiet(f) || Completed(k, f, events) > 0) ==> Quiet(After(k, f, events))
    decreases |events|
  {
    if events != [] {
      var e, rest := events[0], events[1..];
      assert forall i :: 0 <= i < |rest| ==> rest[i] == events[i + 1];
      assert !IsPress(k, e);
      AtMostOnePerPress(k, Next(k, f, e), rest);
    }
  }

  /** A window made by a view switch dispatches nothing until the hostkey is pressed again. */
  lemma AfterViewSwitch(k: Keys, f: Flags, events: seq<Event>)
    requires NoPress(k, events) && Moves(events) == 0
    ensures Completed(k, Next(k, f, ViewSwitch), events) == 0
  {
    AtMostOnePerPress(k, Next(k, f, ViewSwitch), events);
  }

  /** The same for a switch made by the shortcut itself, and for whatever else a shortcut does. */
  lemma AfterDispatch(k: Keys, f: Flags, e: Event, events: seq<Event>)
    requires Completes(k, f, e) && NoPress(k, events) && Moves(events) == 0
    ensures Completed(k, Next(k, f, e), events) == 0
  {
    AtMostOnePerPress(k, Next(k, f, e), events);
  }

  /** From a press to the next one, with anything but moves to windows that are not quiet: at most one dispatch. */
  lemma BetweenPresses(k: Keys, f: Flags, press: Event, events: seq<Event>)
    requires IsPress(k, press) && NoPress(k, events) && Moves(events) == 0
    ensures Completed(k, f, [press] + events) <= 1
  {
    var all := [press] + events;
    assert all[1..] == events;
    AtMostOnePerPress(k, Next(k, f, press), events);
  }

  /** A run that exceeds the bound: the release of a hostkey that has been used is dispatched again in a new
      window. NewWindowFires says exactly when that happens. */
  lemma NewWindowForgets(k: Keys, f: Flags, keyval: nat)
    requires k.hostkey != 0 && keyval != k.hostkey
    ensures var press, other := Key(k.hostkey, false, false), Key(keyval, false, false);
      Completed(k, f, [press, other, Moved(CLEAR), Key(k.hostkey, true, false)]) == 2
  {
    var e0, e1, e3 := Key(k.hostkey, false, false), Key(keyval, false, false), Key(k.hostkey, true, false);
    var all := [e0, e1, Moved(CLEAR), e3];
    assert all[1..] == [e1, Moved(CLEAR), e3] && all[1..][1..] == [Moved(CLEAR), e3] && all[1..][1..][1..] == [e3];
    assert Completed(k, Flags(false, false), [e3]) == 1 by {
      assert [e3][1..] == [];
    }
    assert Completed(k, Flags(false, true), [Moved(CLEAR), e3]) == 1;
    assert Completed(k, Flags(true, false), [e1, Moved(CLEAR), e3]) == 2;
  }

  // ---------------------------------------------------------------- exactly how many dispatches a run completes

  predicate IsRelease(k: Keys, e: Event) {
    e.Key? && e.release && IsHostkey(k, e.keyval)
  }

  predicate OtherPress(k: Keys, e: Event) {
    e.Key? && !e.release && !IsHostkey(k, e.keyval)
  }

  predicate GivesUp(k: Keys, e: Event) {
    e.Key? && e.stuck && k.lower(e.keyval) in k.arrows
  }

  /** What sets the flags afresh: a press of the hostkey, or a move to another window. */
  predicate Boundary(k: Keys, e: Event) {
    IsPress(k, e) || e.Moved?
  }

  ghost predicate NoBoundary(k: Keys, events: seq<Event>) {
    forall i :: 0 <= i < |events| ==> !Boundary(k, events[i])
  }

  /** Another key is pressed while the hostkey is down: before the hostkey is released, the focus goes or the
      view switches. */
  ghost predicate KeyFires(k: Keys, events: seq<Event>) {
    exists i :: 0 <= i < |events| && KeyFiresAt(k, events, i)
  }

  ghost predicate KeyFiresAt(k: Keys, events: seq<Event>, i: nat)
    requires i < |events|
  {
    OtherPress(k, events[i]) && !GivesUp(k, events[i]) && forall j :: 0 <= j < i ==> KeepsDown(k, events[j])
  }

  predicate KeepsDown(k: Keys, e: Event) {
    !e.FocusOut? && !e.ViewSwitch? && !IsRelease(k, e)
  }

  /** The hostkey is released unused: before any view switch and, if it is down, before another key is pressed
      with the focus still there. */
  ghost predicate ReleaseFires(k: Keys, down: bool, events: seq<Event>) {
    exists i :: 0 <= i < |events| && ReleaseFiresAt(k, down, events, i)
  }

  ghost predicate ReleaseFiresAt(k: Keys, down: bool, events: seq<Event>, i: nat)
    requires i < |events|
  {
    && IsRelease(k, events[i]) && !GivesUp(k, events[i])
    && forall j :: 0 <= j < i ==> KeepsUnused(k, down, events, j)
  }

  ghost predicate KeepsUnused(k: Keys, down: bool, events: seq<Event>, j: nat)
    requires j < |events|
  {
    !IsRelease(k, events[j]) && !events[j].ViewSwitch? && (down && OtherPress(k, events[j]) ==> FocusGone(events, j))
  }

  ghost predicate FocusGone(events: seq<Event>, j: nat)
    requires j <= |events|
  {
    exists l :: 0 <= l < j && events[l].FocusOut?
  }

  /** A stretch of events without presses of the hostkey and moves dispatches something. */
  ghost predicate Fires(k: Keys, f: Flags, events: seq<Event>) {
    (f.activated && KeyFires(k, events)) || (!f.used && ReleaseFires(k, f.activated, events))
  }

  lemma KeyFiresStep(k: Keys, events: seq<Event>)
    requires events != []
    ensures KeyFires(k, events)
            <==> (OtherPress(k, events[0]) && !GivesUp(k, events[0]))
                 || (KeepsDown(k, events[0]) && KeyFires(k, events[1..]))
  {
    var rest := events[1..];
    if KeepsDown(k, events[0]) && KeyFires(k, rest) {
      var i :| 0 <= i < |rest| && KeyFiresAt(k, rest, i);
      assert KeyFiresAt(k, events, i + 1);
    }
    assert OtherPress(k, events[0]) && !GivesUp(k, events[0]) ==> KeyFiresAt(k, events, 0);
    if KeyFires(k, events) {
      var i :| 0 <= i < |events| && KeyFiresAt(k, events, i);
      if i > 0 {
        assert KeepsDown(k, events[0]) && forall j :: 0 <= j < i - 1 ==> rest[j] == events[j + 1];
        assert KeyFiresAt(k, rest, i - 1);
      }
    }
  }

  lemma ReleaseFiresStep(k: Keys, down: bool, events: seq<Event>)
    requires events != []
    ensures var e := events[0];
      ReleaseFires(k, down, events)
      <==> (IsRelease(k, e) && !GivesUp(k, e))
           || (!IsRelease(k, e) && !e.ViewSwitch? && !(down && OtherPress(k, e))
               && ReleaseFires(k, down && !e.FocusOut?, events[1..]))
  {
    var e, rest, up := events[0], events[1..], down && !events[0].FocusOut?;
    forall j | 0 <= j < |rest| ensures KeepsUnused(k, down, events, j + 1) <==> KeepsUnused(k, up, rest, j) {
      FocusGoneStep(events, j);
    }
    if ReleaseFires(k, up, rest) && KeepsUnused(k, down, events, 0) {
      var i :| 0 <= i < |rest| && ReleaseFiresAt(k, up, rest, i);
      forall j | 0 <= j < i + 1 ensures KeepsUnused(k, down, events, j) {
        assert j > 0 ==> KeepsUnused(k, up, rest, j - 1);
      }
      assert ReleaseFiresAt(k, down, events, i + 1);
    }
    assert IsRelease(k, e) && !GivesUp(k, e) ==> ReleaseFiresAt(k, down, events, 0);
    if ReleaseFires(k, down, events) {
      var i :| 0 <= i < |events| && ReleaseFiresAt(k, down, events, i);
      if i > 0 {
        assert KeepsUnused(k, down, events, 0);
        forall j | 0 <= j < i - 1 ensures KeepsUnused(k, up, rest, j) {
          assert KeepsUnused(k, down, events, j + 1);
        }
        assert ReleaseFiresAt(k, up, rest, i - 1);
      }
    }
  }

  lemma FocusGoneStep(events: seq<Event>, j: nat)
    requires j < |events| - 1
    ensures FocusGone(events, j + 1) <==> events[0].FocusOut? || FocusGone(events[1..], j)
  {
    if l :| 0 <= l < j && events[1..][l].FocusOut? {
      assert events[l + 1].FocusOut?;
    }
    if l :| 0 <= l < j + 1 && events[l].FocusOut? {
      assert l > 0 ==> events[1..][l - 1].FocusOut?;
    }
  }

  /** One stretch completes one dispatch if it fires and none otherwise. */
  lemma {:induction false} StretchExactly(k: Keys, f: Flags, events: seq<Event>)
    requires NoBoundary(k, events)
    ensures Completed(k, f, events) == if Fires(k, f, events) then 1 else 0
    decreases |events|
  {
    if events != [] {
      var e, rest := events[0], events[1..];
      assert forall i :: 0 <= i < |rest| ==> rest[i] == events[i + 1];
      assert !Boundary(k, e);
      StretchExactly(k, Next(k, f, e), rest);
      KeyFiresStep(k, events);
      ReleaseFiresStep(k, f.activated, events);
    }
  }

  /** The events up to the first boundary. */
  function Stretch(k: Keys, events: seq<Event>): (n: nat)
    ensures n <= |events| && NoBoundary(k, events[..n]) && (n < |events| ==> Boundary(k, events[n]))
  {
    if events == [] || Boundary(k, events[0]) then 0
    else
      var n := 1 + Stretch(k, events[1..]);
      assert forall i :: 0 < i < n ==> events[..n][i] == events[1..][..n - 1][i - 1];
      n
  }

  /** How many stretches of a run fire. */
  ghost function Firing(k: Keys, f: Flags, events: seq<Event>): nat
    decreases |events|
  {
    var n := Stretch(k, events);
    (if Fires(k, f, events[..n]) then 1 else 0)
    + if n == |events| then 0 else Firing(k, Next(k, f, events[n]), events[n + 1..])
  }

  /** Every run completes exactly as many dispatches as it has stretches that fire. */
  lemma {:induction false} CompletedExactly(k: Keys, f: Flags, events: seq<Event>)
    ensures Completed(k, f, events) == Firing(k, f, events)
    decreases |events|
  {
    var n := Stretch(k, events);
    var stretch, rest := events[..n], events[n..];
    StretchExactly(k, f, stretch);
    assert events == stretch + rest;
    CompletedConcat(k, f, stretch, rest);
    if n < |events| {
      BoundaryResets(k, After(k, f, stretch), f, rest);
      assert rest[1..] == events[n + 1..];
      CompletedExactly(k, Next(k, f, events[n]), events[n + 1..]);
    }
  }

  lemma BoundaryResets(k: Keys, f: Flags, g: Flags, events: seq<Event>)
    requires events != [] && Boundary(k, events[0])
    ensures Completed(k, f, events) == Completed(k, Next(k, g, events[0]), events[1..])
  {
  }

  lemma {:induction false} CompletedConcat(k: Keys, f: Flags, a: seq<Event>, b: seq<Event>)
    ensures Completed(k, f, a + b) == Completed(k, f, a) + Completed(k, After(k, f, a), b)
    decreases |a|
  {
    if a == [] {
      assert a + b == b;
    } else {
      assert (a + b)[1..] == a[1..] + b;
      CompletedConcat(k, Next(k, f, a[0]), a[1..], b);
    }
  }

  /** A press of the hostkey is followed by at most one dispatch before the next press exactly when at most one
      of the stretches between moves fires. */
  lemma AtMostOneExactlyWhen(k: Keys, f: Flags, press: Event, events: seq<Event>)
    requires IsPress(k, press) && NoPress(k, events)
    ensures Completed(k, f, [press] + events) <= 1 <==> Firing(k, Flags(true, false), events) <= 1
  {
    assert ([press] + events)[1..] == events;
    CompletedExactly(k, Flags(true, false), events);
  }

  /** After a move the flags of the window it leads to decide, and nothing else. */
  lemma MoveFires(k: Keys, f: Flags, flags: Flags, events: seq<Event>)
    requires NoBoundary(k, events)
    ensures Completed(k, Next(k, f, Moved(flags)), events) == if Fires(k, flags, events) then 1 else 0
  {
    StretchExactly(k, flags, events);
  }

  /** In a new window something is dispatched before the next press or move exactly when the hostkey is
      released, not as an arrow key that gives up, before any view switch. */
  lemma NewWindowFires(k: Keys, f: Flags, events: seq<Event>)
    requires NoBoundary(k, events)
    ensures Completed(k, Next(k, f, Moved(CLEAR)), events) == if ReleaseFires(k, false, events) then 1 else 0
  {
    StretchExactly(k, Flags(false, false), events);
  }

  /** Some continuation without a press or a move dispatches something exactly when the window is not quiet. */
  lemma QuietExactlyWhen(k: Keys, f: Flags)
    requires k.hostkey != 0
    ensures (exists events :: NoBoundary(k, events) && Completed(k, f, events) > 0) <==> !Quiet(f)
  {
    forall events | NoBoundary(k, events) ensures Quiet(f) ==> Completed(k, f, events) == 0 {
      StretchExactly(k, f, events);
    }
    if !Quiet(f) {
      var e := if f.activated then Key(k.hostkey + 1, false, false) else Key(k.hostkey, true, false);
      var events := [e];
      assert events[1..] == [];
      assert NoBoundary(k, events) && Completed(k, f, events) == 1;
    }
  }

  /** The hostkey pressed and released alone is dispatched once, as a shortcut of its own, unless a view
      switch comes between; losing the focus does not prevent it. */
  lemma {:induction false} HostkeyAlone(k: Keys, f: Flags, between: seq<Event>)
    requires f.activated && !f.used && k.hostkey != 0
    requires forall i :: 0 <= i < |between| ==> between[i].FocusOut? || between[i].ViewSwitch?
    ensures Completes(k, After(k, f, between), Key(k.hostkey, true, false)) <==> ViewSwitch !in between
  {
    FlagsBetween(k, f, between);
  }

  lemma {:induction false} FlagsBetween(k: Keys, f: Flags, between: seq<Event>)
    requires forall i :: 0 <= i < |between| ==> between[i].FocusOut? || between[i].ViewSwitch?
    ensures After(k, f, between).used == (f.used || ViewSwitch in between)
    decreases |between|
  {
    if between != [] {
      assert between == [between[0]] + between[1..];
      FlagsBetween(k, Next(k, f, between[0]), between[1..]);
    }
  }

  // ---------------------------------------------------------------- the handler

  /** The first configured shortcut with this key; without one the plugin's tools are left. */
  function Lookup(shortcuts: seq<(Shortcut, nat)>, keyval: nat): (s: Shortcut)
    ensures (forall i :: 0 <= i < |shortcuts| ==> shortcuts[i].1 != keyval) ==> s == PluginTool
    ensures forall i :: 0 <= i < |shortcuts| && FirstWithKey(shortcuts, keyval, i) ==> s == shortcuts[i].0
  {
    if shortcuts == [] then PluginTool
    else if shortcuts[0].1 == keyval then shortcuts[0].0
    else Lookup(shortcuts[1..], keyval)
  }

  predicate FirstWithKey(shortcuts: seq<(Shortcut, nat)>, keyval: nat, i: nat)
    requires i < |shortcuts|
  {
    shortcuts[i].1 == keyval && forall j :: 0 <= j < i ==> shortcuts[j].1 != keyval
  }

  class Window {
    var hostkeyActivated: bool
    var hostkeyUsed: bool

    function State(): Flags
      reads this
    {
      Flags(hostkeyActivated, hostkeyUsed)
    }

    constructor (flags: Flags)
      ensures State() == flags
    {
      hostkeyActivated, hostkeyUsed := flags.activated, flags.used;
    }
  }

  /** A connection and the window it is in. */
  class Connection {
    var cnnwin: Window

    constructor (w: Window)
      ensures cnnwin == w
    {
      cnnwin := w;
    }

    /** rcw_hostkey_func. `stuck` says that an arrow key finds no viewport to move. */
    method HostkeyFunc(k: Keys, keyval: nat, release: bool, stuck: bool) returns (outcome: Outcome)
      modifies this, cnnwin
      ensures var e := Key(keyval, release, stuck);
        && cnnwin.State() == Next(k, old(cnnwin.State()), e)
        && (outcome.Dispatched? <==> Completes(k, old(cnnwin.State()), e))
        && (outcome.Stuck? <==> Dispatches(k, old(cnnwin.State()), e) && !Completes(k, old(cnnwin.State()), e))
        && (outcome.Passed? <==> !IsHostkey(k, keyval) && !old(cnnwin.hostkeyActivated))
      ensures outcome.Dispatched? ==>
                outcome.shortcut == Lookup(if k.hardened then [] else k.shortcuts, k.lower(keyval))
      ensures if outcome == Dispatched(Fullscreen) then fresh(cnnwin) else cnnwin == old(cnnwin)
    {
      var w := cnnwin;
      if release {
        if k.hostkey != 0 && keyval == k.hostkey {
          w.hostkeyActivated := false;
          if w.hostkeyUsed {
            return Trapped;
          }
        } else if w.hostkeyActivated {
          return Trapped;
        } else {
          return Passed;
        }
      } else if k.hostkey != 0 && keyval == k.hostkey {
        w.hostkeyActivated := true;
        w.hostkeyUsed := false;
        return Trapped;
      } else if !w.hostkeyActivated {
        return Passed;
      }
      w.hostkeyUsed := true;
      var key := k.lower(keyval);
      if key in k.arrows && stuck {
        return Stuck;
      }
      var shortcut := Lookup(if k.hardened then [] else k.shortcuts, key);
      if shortcut == Fullscreen {
        SwitchViewmode();
      }
      cnnwin.hostkeyActivated := false;
      outcome := Dispatched(shortcut);
    }

    /** As far as the hostkey goes, a view switch is a new window in which the hostkey counts as used. */
    method SwitchViewmode()
      modifies this
      ensures fresh(cnnwin) && cnnwin.State() == Flags(false, true)
    {
      cnnwin := new Window(Flags(false, true));
    }

    /** The tab is dropped on another window: the flags are that window's from here on. */
    method DropOn(w: Window)
      modifies this
      ensures cnnwin == w && cnnwin.State() == old(w.State())
    {
      cnnwin := w;
    }

    /** Any event; a window moved to is given by its flags. */
    method Handle(k: Keys, e: Event) returns (outcome: Outcome)
      modifies this, cnnwin
      ensures cnnwin.State() == Next(k, old(cnnwin.State()), e)
      ensures outcome.Dispatched? <==> Completes(k, old(cnnwin.State()), e)
      ensures cnnwin == old(cnnwin) || fresh(cnnwin)
    {
      outcome := Trapped;
      match e {
        case Key(keyval, release, stuck) => outcome := HostkeyFunc(k, keyval, release, stuck);
        case FocusOut => cnnwin.hostkeyActivated := false;
        case ViewSwitch => SwitchViewmode();
        case Moved(flags) =>
          var w := new Window(flags);
          DropOn(w);
      }
    }

    /** A run of events carries out exactly the dispatches that the flags allow. */
    method Run(k: Keys, events: seq<Event>) returns (dispatched: nat)
      modifies this, cnnwin
      ensures cnnwin.State() == After(k, old(cnnwin.State()), events)
      ensures dispatched == Completed(k, old(cnnwin.State()), events)
    {
      dispatched := 0;
      for n := 0 to |events|
        invariant cnnwin == old(cnnwin) || fresh(cnnwin)
        invariant After(k, cnnwin.State(), events[n..]) == After(k, old(cnnwin.State()), events)
        invariant dispatched + Completed(k, cnnwin.State(), events[n..]) == Completed(k, old(cnnwin.State()), events)
      {
        assert events[n..][1..] == events[n + 1..];
        var outcome := Handle(k, events[n]);
        if outcome.Dispatched? {
          dispatched := dispatched + 1;
        }
      }
    }
  }
}
