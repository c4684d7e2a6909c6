/** Whole runs of the connection windows: everything that can happen to them, one event after the other, and
    what becomes of the connections. */
module WindowRuns {
  import opened Basics
  import opened ViewModes
  import opened Windows
  import opened IdleLog

  datatype Event =
    | Open(profile: Profile, failed: bool, screen: Frame)
    | ViewChange(window: nat, change: ViewModes.Event)
    | Drag(window: nat, tab: nat, target: Option<nat>, at: nat)
    | Cycle(window: nat, forward: bool)
    | DeleteEvent(window: nat, confirm: bool, confirmLast: bool, answer: bool)
    | Opening(window: nat, tab: nat)
    | Connected(window: nat, tab: nat)
    | Ended(window: nat, tab: nat, error: bool)
    | PanelAnswered(window: nat, tab: nat)
    | ClosePressed(window: nat, tab: nat)
    | IdleRuns(connection: nat, prompt: bool)

  predicate OnWindow(e: Event) {
    e.ViewChange? || e.Drag? || e.Cycle? || e.DeleteEvent?
  }

  predicate OnTab(e: Event) {
    e.Opening? || e.Connected? || e.Ended? || e.PanelAnswered? || e.ClosePressed?
  }

  // ---------------------------------------------------------------- what an event does to a connection

  /** The connection is what the event is about: its tab, or its idle. */
  predicate IsTab(app: App, e: Event, c: Connection)
    reads app, app.pool
  {
    OnTab(e) && e.window < |app.pool| && e.tab < |app.pool[e.window].pages| && app.pool[e.window].pages[e.tab] == c
  }

  predicate Idles(app: App, e: Event, c: Connection)
    reads app, c
  {
    e.IdleRuns? && e.connection < |app.ever| && app.ever[e.connection] == c && c.idles > 0
  }

  predicate Ends(app: App, e: Event, c: Connection)
    reads app, app.pool
  {
    e.Ended? && IsTab(app, e, c)
  }

  /** The event frees the connection. */
  ghost predicate Frees(app: App, e: Event, c: Connection)
    reads app, app.pool, c, app.live
  {
    match e
    case ClosePressed(_, _) => IsTab(app, e, c) && c.closed
    case PanelAnswered(_, _) => IsTab(app, e, c) && (c.panel.LastError? || (c.panel.Prompt? && !c.error))
    case IdleRuns(_, prompt) => Idles(app, e, c) && !c.freed && !c.error && (c.userDisconnect || !prompt)
    case DeleteEvent(w, confirm, confirmLast, answer) =>
      && w < |app.pool| && c in app.pool[w].pages && c.closed
      && (answer || !confirm || !AskedAbout(app, app.pool[w], confirmLast))
    case _ => false
  }

  /** Closing this window would make the program ask first; all its tabs are live. */
  ghost predicate AskedAbout(app: App, w: Window, confirmLast: bool)
    reads app, w, app.live
  {
    Asked(StillOpen(w.pages, set c | c in w.pages && c in app.live && c.closed), confirmLast)
  }

  // ---------------------------------------------------------------- one event

  /** Connections keep the number under which they were opened, and live are those that were not freed. */
  ghost predicate Roster(app: App)
    reads app`ever, app`live, app.ever`freed
  {
    && (forall i :: 0 <= i < |app.ever| ==> app.ever[i].index == i && (app.ever[i] in app.live <==> !app.ever[i].freed))
    && (forall c :: c in app.live ==> c.index < |app.ever| && app.ever[c.index] == c)
  }

  method WindowEvent(app: App, e: Event)
    requires app.Valid() && OnWindow(e)
    modifies app`pool, app`live, app.pool
    modifies app.live`cnnwin, app.live`connected, app.live`panel, app.live`freed
    modifies app.live`error, app.live`userDisconnect
    ensures app.Valid() && app.OnlyNew(old(app.pool), old(app.live))
    ensures forall c :: c in app.live <==> c in old(app.live) && !old(Frees(app, e, c))
    ensures forall c :: c in old(app.live) && old(Frees(app, e, c)) ==> c.freed
  {
    if e.window >= |app.pool| {
      return;
    }
    var w := app.pool[e.window];
    assert app.Owns(w);
    match e {
      case ViewChange(_, change) =>
        var newwin := app.ChangeView(w, change);
      case Cycle(_, forward) =>
        app.NextTab(w, forward);
      case DeleteEvent(_, confirm, confirmLast, answer) =>
        assert ClosedOf(w.pages) == set c | c in w.pages && c in app.live && c.closed;
        var done := app.Delete(w, confirm, confirmLast, answer);
      case Drag(_, tab, target, at) =>
        if tab < |w.pages| {
          var dest: Window? := null;
          var position := 0;
          if target.Some? && target.value < |app.pool| {
            dest := app.pool[target.value];
            position := if at <= |dest.pages| then at else |dest.pages|;
          }
          dest := app.DragTab(w, tab, dest, position);
        }
    }
  }

  method TabEvent(app: App, e: Event, c: Connection)
    requires app.Valid() && c in app.live && IsTab(app, e, c)
    modifies app`pool, app`live, app.Host(c)`pages, app.Host(c)`current
    modifies c`connected, c`closed, c`error, c`idles, c`panel, c`freed, c`userDisconnect
    ensures app.Valid() && app.OnlyNew(old(app.pool), old(app.live))
    ensures c.freed == old(Frees(app, e, c)) && app.live == old(app.live) - (if c.freed then {c} else {})
    ensures c.idles == old(c.idles) + if e.Ended? then 1 else 0
  {
    assert app.Owns(c.cnnwin);
    match e {
      case Opening(_, _) => app.OpenConnection(c);
      case Connected(_, _) => app.Connect(c);
      case Ended(_, _, error) => app.SignalClosed(c, error);
      case PanelAnswered(_, _) => app.PanelAnswer(c);
      case ClosePressed(_, _) => app.CloseButton(c);
    }
  }

  /** An event at a window or a tab; events for windows or tabs that do not exist are ignored. */
  method PlaceEvent(app: App, e: Event)
    requires app.Valid() && (OnWindow(e) || OnTab(e))
    modifies app`pool, app`live, app.pool, app.live`cnnwin
    modifies app.live`connected, app.live`closed, app.live`error, app.live`idles
    modifies app.live`panel, app.live`freed, app.live`userDisconnect
    ensures app.Valid() && app.OnlyNew(old(app.pool), old(app.live))
    ensures forall c :: c in app.live <==> c in old(app.live) && !old(Frees(app, e, c))
    ensures forall c :: c in old(app.live) ==> c.freed == old(Frees(app, e, c))
    ensures forall c :: c in old(app.live) ==> c.idles == old(c.idles) + if old(Ends(app, e, c)) then 1 else 0
  {
    if OnWindow(e) {
      WindowEvent(app, e);
      NotFreed(app);
    } else if e.window < |app.pool| && e.tab < |app.pool[e.window].pages| {
      assert app.Owns(app.pool[e.window]);
      TabEvent(app, e, app.pool[e.window].pages[e.tab]);
      NotFreed(app);
    } else {
      NotFreed(app);
    }
  }

  lemma NotFreed(app: App)
    requires app.Valid()
    ensures forall c :: c in app.live ==> !c.freed
  {
    assert forall c :: c in app.live ==> app.Owns(c.cnnwin);
  }

  /** What an event does to the connections, by their numbers. */
  ghost function NoteOf(app: App, e: Event): Note
    reads app, app.pool, app.live, app.ever
  {
    var idle := e.IdleRuns? && e.connection < |app.ever| && app.ever[e.connection].idles > 0;
    Note(
      if e.Ended? && e.window < |app.pool| && e.tab < |app.pool[e.window].pages|
      then Some(app.pool[e.window].pages[e.tab].index) else None,
      if idle then Some(e.connection) else None,
      idle && !app.ever[e.connection].freed,
      set i | 0 <= i < |app.ever| && Frees(app, e, app.ever[i]))
  }

  ghost predicate Ready(app: App)
    reads app, app.pool, app.live, app.ever
  {
    app.Valid() && Roster(app)
  }

  /** The connections after an event are those before it, changed as the note says, and new ones. */
  twostate predicate Accounts(app: App, note: Note)
    reads app, app.ever
  {
    && old(app.ever) <= app.ever
    && (forall i :: 0 <= i < |old(app.ever)| ==>
          && app.ever[i].freed == (old(app.ever[i].freed) || i in note.freed)
          && app.ever[i].idles
             == old(app.ever[i].idles) + (if Reports(note, i) then 1 else 0) - (if RunsIdle(note, i) then 1 else 0))
    && (forall i :: |old(app.ever)| <= i < |app.ever| ==>
          fresh(app.ever[i]) && !app.ever[i].freed && app.ever[i].idles == 0)
  }

  /** The numbers in a note stand for the connections that the event concerns, which are there to be changed. */
  lemma NoteFits(app: App, e: Event)
    requires Ready(app)
    ensures Below(NoteOf(app, e), |app.ever|)
    ensures forall i: nat :: i < |app.ever| ==>
              && (Reports(NoteOf(app, e), i) <==> Ends(app, e, app.ever[i]))
              && (RunsIdle(NoteOf(app, e), i) <==> Idles(app, e, app.ever[i]))
              && (i in NoteOf(app, e).freed <==> Frees(app, e, app.ever[i]))
              && (Ends(app, e, app.ever[i]) || Frees(app, e, app.ever[i]) ==> app.ever[i] in app.live)
  {
    forall w: Window | w in app.pool ensures app.Owns(w) {
    }
  }

  method OpenEvent(app: App, e: Event)
    requires Ready(app) && e.Open?
    modifies app`pool, app`ever, app`live, app.pool
    ensures Ready(app) && app.OnlyNew(old(app.pool), old(app.live)) && Accounts(app, Note(None, None, false, {}))
    ensures |app.ever| == |old(app.ever)| + if e.failed then 0 else 1
  {
    var c, w := app.OpenFromFile(e.profile, e.failed, e.screen);
  }

  method IdleEvent(app: App, e: Event) returns (ghost note: Note)
    requires Ready(app) && e.IdleRuns?
    modifies app`pool, app`live, app.pool, app.ever
    ensures Ready(app) && app.OnlyNew(old(app.pool), old(app.live)) && app.ever == old(app.ever)
    ensures note == old(NoteOf(app, e)) && Accounts(app, note)
  {
    note := NoteOf(app, e);
    NoteFits(app, e);
    if e.connection < |app.ever| && app.ever[e.connection].idles > 0 {
      var found := app.RunIdle(app.ever[e.connection], e.prompt);
      NotFreed(app);
    }
  }

  method PlaceNoted(app: App, e: Event) returns (ghost note: Note)
    requires Ready(app) && (OnWindow(e) || OnTab(e))
    modifies app`pool, app`live, app.pool, app.ever
    ensures Ready(app) && app.OnlyNew(old(app.pool), old(app.live)) && app.ever == old(app.ever)
    ensures note == old(NoteOf(app, e)) && Accounts(app, note)
  {
    note := NoteOf(app, e);
    NoteFits(app, e);
    NotFreed(app);
    PlaceEvent(app, e);
    NotFreed(app);
  }

  /** One thing that happens to the program. The invariant is kept, and every connection is afterwards what the
      note of the event says. */
  method Handle(app: App, e: Event) returns (ghost note: Note)
    requires Ready(app)
    modifies app`pool, app`ever, app`live, (set w | w in app.pool), (set c | c in app.ever)
    ensures Ready(app) && app.OnlyNew(old(app.pool), old(app.live))
    ensures note == old(NoteOf(app, e)) && Accounts(app, note)
    ensures |app.ever| == |old(app.ever)| + if e.Open? && !e.failed then 1 else 0
  {
    if e.Open? {
      note := Note(None, None, false, {});
      assert note == NoteOf(app, e);
      OpenEvent(app, e);
    } else if e.IdleRuns? {
      note := IdleEvent(app, e);
    } else {
      note := PlaceNoted(app, e);
    }
  }

  // ---------------------------------------------------------------- runs

  /** The log tells of every connection whether it was freed and how many of its idles are to come. */
  ghost predicate Tracks(app: App, log: Log)
    reads app`ever, app.ever`freed, app.ever`idles
  {
    && Consistent(log) && AllBelow(log, |app.ever|)
    && (forall i :: 0 <= i < |app.ever| ==>
          app.ever[i].freed == Freed(log, |log|, i) && app.ever[i].idles == Pending(log, |log|, i))
  }

  /** The connections opened by the first n events. */
  function Openings(events: seq<Event>, n: nat): nat
    requires n <= |events|
  {
    if n == 0 then 0 else Openings(events, n - 1) + if events[n - 1].Open? && !events[n - 1].failed then 1 else 0
  }

  method HandleLogged(app: App, e: Event, ghost before: Log) returns (ghost log: Log)
    requires Ready(app) && Tracks(app, before)
    modifies app`pool, app`ever, app`live, (set w | w in app.pool), (set c | c in app.ever)
    ensures Ready(app) && app.OnlyNew(old(app.pool), old(app.live)) && Tracks(app, log)
    ensures |log| == |before| + 1 && before <= log && log[|before|] == old(NoteOf(app, e))
    ensures old(app.ever) <= app.ever && |app.ever| == |old(app.ever)| + if e.Open? && !e.failed then 1 else 0
    ensures forall i :: |old(app.ever)| <= i < |app.ever| ==> fresh(app.ever[i])
  {
    NoteFits(app, e);
    ghost var was := app.ever;
    ghost var note := Handle(app, e);
    log := before + [note];
    ConsistentGrows(before, note);
    forall i: nat | i < |app.ever|
      ensures app.ever[i].freed == Freed(log, |log|, i) && app.ever[i].idles == Pending(log, |log|, i)
    {
      LogStep(before, note, i);
      if i >= |was| {
        Untouched(before, |before|, i);
      }
    }
  }

  /** Any run, from the start or from where a log has led: the invariant holds after every event, what is live is
      what was opened and not freed, and an idle finds its connection exactly when no earlier event freed the
      connection with an idle to come. */
  method Run(app: App, events: seq<Event>, ghost before: Log) returns (ghost log: Log)
    requires Ready(app) && Tracks(app, before)
    modifies app`pool, app`ever, app`live, (set w | w in app.pool), (set c | c in app.ever)
    ensures Ready(app) && Tracks(app, log) && |log| == |before| + |events| && before <= log
    ensures old(app.ever) <= app.ever && |app.ever| == |old(app.ever)| + Openings(events, |events|)
    ensures forall i: nat :: i < |app.ever| ==> (app.ever[i] in app.live <==> !Freed(log, |log|, i))
    ensures forall p: nat, c: nat :: p < |log| && RunsIdle(log[p], c) ==>
              (log[p].found <==> forall q :: 0 <= q < p ==> !StrandedAt(log, q, c))
  {
    log := before;
    for n := 0 to |events|
      invariant Ready(app) && app.OnlyNew(old(app.pool), old(app.live)) && Tracks(app, log)
      invariant |log| == |before| + n && before <= log
      invariant old(app.ever) <= app.ever && |app.ever| == |old(app.ever)| + Openings(events, n)
      invariant forall i :: |old(app.ever)| <= i < |app.ever| ==> fresh(app.ever[i])
    {
      log := HandleLogged(app, events[n], log);
    }
    forall p: nat, c: nat | p < |log| && RunsIdle(log[p], c)
      ensures log[p].found <==> forall q :: 0 <= q < p ==> !StrandedAt(log, q, c)
    {
      IdleFindsExactlyWhen(log, p, c);
    }
  }

  /** A new program has nothing on its books. */
  method Start(prefs: Preferences) returns (app: App)
    ensures fresh(app) && Ready(app) && Tracks(app, []) && app.prefs == prefs && app.ever == [] && app.pool == []
  {
    app := new App(prefs);
  }

  /** An idle that does not find its connection: the close button is pressed between the plugin's report and the
      idle. */
  method Stranded(prefs: Preferences, p: Profile, screen: Frame) returns (found: bool)
    ensures !found
  {
    var app := Start(prefs);
    var c, w := app.OpenFromFile(p, false, screen);
    app.OpenConnection(c);
    app.SignalClosed(c, false);
    app.CloseButton(c);
    assert c.freed && c.idles > 0 && c !in app.live;
    found := app.RunIdle(c, false);
  }
}
