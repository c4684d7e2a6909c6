/** Calls from worker threads that must run on the main thread: a worker posts a record to the idle queue
    of the main loop and sleeps on the record's condition variable; the main loop runs the call, sets
    `complete` and signals. The model is a state machine over all interleavings of any number of workers
    with the main loop. */
module MasterThread {
  import opened Basics
  import opened SettingsTable

  /** The next instruction of the worker inside remmina_masterthread_exec_and_wait. */
  datatype WorkerPc =
    | Posting     // record initialised, about to add it to the idle queue
    | Locking     // about to take the record's mutex, first or after a wakeup
    | Testing     // holds the mutex, about to test `complete`
    | Waiting     // asleep on the condition variable, mutex released
    | Leaving     // left the loop holding the mutex, about to destroy it
    | Destroyed   // mutex and condition destroyed, about to read the result and free the record
    | Returned
    | Dead        // cancelled, the cleanup handler has run

  /** Where the main loop is with a record; from Checking to Unlocking it is inside the callback. */
  datatype MainPc = Unposted | Queued | Checking | Running | Locks | Completing | Signalling | Unlocking | Done

  datatype Mutex = Free | HeldByWorker | HeldByMain | Ended

  datatype Actor = Caller | Callback

  /** One posted record, with the history of what was done to it. */
  datatype Call = Call(
    worker: nat, op: Op,
    wpc: WorkerPc, mpc: MainPc,
    cancelled: bool, complete: bool, mutex: Mutex, result: Option<string>,
    runs: nat, frees: seq<Actor>,
    invokedAt: nat, takenAt: nat, returnedAt: nat)

  /** The history: a worker's call starts, an operation takes effect on main, a worker's call returns. */
  datatype Event =
    | Invoke(call: nat, op: Op)
    | Take(actor: Option<nat>, taken: Taken)
    | Respond(call: nat, result: Option<string>)

  /** `stack` holds the callbacks main is inside of, innermost last: a dialog shown by a call runs a nested
      main loop that may dispatch further records. */
  datatype State = State(calls: seq<Call>, queue: seq<nat>, stack: seq<nat>, table: Table, hist: seq<Event>)

  datatype Action =
    | Enter(worker: nat, op: Op)  // a worker allocates and initialises a record
    | Advance(call: nat)          // the worker of the call executes its next instruction
    | Wake(call: nat)             // a spurious wakeup
    | Cancel(call: nat)           // the worker is cancelled and its cleanup handler runs
    | Dispatch(pos: nat)          // the main loop takes a record from the idle queue
    | MainStep                    // main executes the next instruction of the innermost callback
    | Direct(op: Op)              // main itself gets or sets, possibly inside a callback

  ghost predicate Init(s: State) {
    s.calls == [] && s.queue == [] && s.stack == [] && s.hist == []
  }

  // ---------------------------------------------------------------- steps

  predicate Active(c: Call) {
    c.wpc != Returned
  }

  function Top(s: State): nat
    requires s.stack != []
  {
    s.stack[|s.stack| - 1]
  }

  /** Main may start something new when it is outside every callback or inside the body of a call. */
  predicate MainOpen(s: State) {
    s.stack == [] || (Top(s) < |s.calls| && s.calls[Top(s)].mpc == Running)
  }

  predicate WorkerCan(c: Call) {
    match c.wpc
    case Locking => c.mutex == Free
    case Waiting => false
    case Returned => false
    case Dead => false
    case _ => true
  }

  predicate CallbackCan(c: Call) {
    match c.mpc
    case Checking => true
    case Running => true
    case Locks => c.mutex == Free
    case Completing => true
    case Signalling => true
    case Unlocking => true
    case _ => false
  }

  predicate Enabled(s: State, a: Action) {
    match a
    case Enter(w, _) => forall i :: 0 <= i < |s.calls| && s.calls[i].worker == w ==> !Active(s.calls[i])
    case Advance(i) => i < |s.calls| && WorkerCan(s.calls[i])
    case Wake(i) => i < |s.calls| && s.calls[i].wpc == Waiting
    // The code promises nothing for a cancellation that arrives once main has taken the record.
    case Cancel(i) => i < |s.calls| && s.calls[i].mpc == Queued && s.calls[i].wpc in {Locking, Testing, Waiting}
    case Dispatch(p) => p < |s.queue| && s.queue[p] < |s.calls| && MainOpen(s)
    case MainStep => s.stack != [] && Top(s) < |s.calls| && CallbackCan(s.calls[Top(s)])
    case Direct(_) => MainOpen(s)
  }

  function NewCall(worker: nat, op: Op, now: nat): Call {
    Call(worker, op, Posting, Unposted, false, false, Free, None, 0, [], now, 0, 0)
  }

  /** The worker's next instruction, as it changes the record. */
  function WorkerStep(c: Call, now: nat): Call
    requires WorkerCan(c)
  {
    match c.wpc
    case Posting => c.(wpc := Locking, mpc := Queued)
    case Locking => c.(wpc := Testing, mutex := HeldByWorker)
    case Testing => if c.complete then c.(wpc := Leaving) else c.(wpc := Waiting, mutex := Free)
    case Leaving => c.(wpc := Destroyed, mutex := Ended)
    case Destroyed => c.(wpc := Returned, frees := c.frees + [Caller], returnedAt := now)
  }

  function CancelStep(c: Call): Call {
    // A cancelled pthread_cond_wait takes the mutex again before the cleanup handler runs.
    c.(wpc := Dead, cancelled := true, mutex := if c.wpc == Waiting then HeldByWorker else c.mutex)
  }

  /** The callback's next instruction, as it changes the record. */
  function CallbackStep(c: Call, table: Table, now: nat): Call
    requires CallbackCan(c)
  {
    match c.mpc
    case Checking => if c.cancelled then c.(mpc := Done, frees := c.frees + [Callback]) else c.(mpc := Running)
    case Running => c.(mpc := Locks, result := Result(c.op, table), runs := c.runs + 1, takenAt := now)
    case Locks => c.(mpc := Completing, mutex := HeldByMain)
    case Completing => c.(mpc := Signalling, complete := true)
    case Signalling => c.(mpc := Unlocking, wpc := if c.wpc == Waiting then Locking else c.wpc)
    case Unlocking => c.(mpc := Done, mutex := Free)
  }

  function Do(s: State, a: Action): State
    requires Enabled(s, a)
  {
    match a
    case Enter(w, op) =>
      s.(calls := s.calls + [NewCall(w, op, |s.hist|)], hist := s.hist + [Invoke(|s.calls|, op)])
    case Advance(i) =>
      var c := s.calls[i];
      var t := s.(calls := s.calls[i := WorkerStep(c, |s.hist|)]);
      if c.wpc == Posting then t.(queue := s.queue + [i])
      else if c.wpc == Destroyed then t.(hist := s.hist + [Respond(i, c.result)])
      else t
    case Wake(i) => s.(calls := s.calls[i := s.calls[i].(wpc := Locking)])
    case Cancel(i) => s.(calls := s.calls[i := CancelStep(s.calls[i])])
    case Dispatch(p) =>
      var i := s.queue[p];
      s.(calls := s.calls[i := s.calls[i].(mpc := Checking)],
         queue := RemoveAt(s.queue, p), stack := s.stack + [i])
    case MainStep =>
      var i := Top(s);
      var c := s.calls[i];
      var d := CallbackStep(c, s.table, |s.hist|);
      var t := s.(calls := s.calls[i := d], stack := if d.mpc == Done then s.stack[..|s.stack| - 1] else s.stack);
      if c.mpc == Running then
        t.(table := Effect(c.op, s.table), hist := s.hist + [Take(Some(i), Taken(c.op, Result(c.op, s.table)))])
      else t
    case Direct(op) =>
      s.(table := Effect(op, s.table), hist := s.hist + [Take(None, Taken(op, Result(op, s.table)))])
  }

  // ---------------------------------------------------------------- what every step keeps

  /** All there is to know about one record, whoever moves next. */
  ghost predicate CallInv(c: Call) {
    && (c.mpc == Unposted <==> c.wpc == Posting)
    && (c.cancelled <==> c.wpc == Dead)
    && (c.cancelled ==> c.mpc in {Queued, Checking, Done})
    && c.runs == (if c.mpc in {Locks, Completing, Signalling, Unlocking} || (c.mpc == Done && !c.cancelled)
                  then 1 else 0)
    && (c.complete <==> c.mpc in {Signalling, Unlocking} || (c.mpc == Done && !c.cancelled))
    && (c.wpc in {Testing, Leaving} ==> c.mutex == HeldByWorker)
    && (c.mutex == HeldByWorker ==> c.wpc in {Testing, Leaving, Dead})
    && (c.mutex == HeldByMain <==> c.mpc in {Completing, Signalling, Unlocking})
    && (c.mutex == Ended <==> c.wpc in {Destroyed, Returned})
    && (c.wpc == Waiting ==> c.mpc in {Queued, Checking, Running, Locks, Completing, Signalling})
    && (c.wpc in {Leaving, Destroyed, Returned} ==> c.mpc == Done)
    && c.frees == (if c.wpc == Returned then [Caller] else if c.cancelled && c.mpc == Done then [Callback] else [])
  }

  predicate InCallback(c: Call) {
    c.mpc in {Checking, Running, Locks, Completing, Signalling, Unlocking}
  }

  ghost predicate QueueInv(s: State) {
    && Distinct(s.queue)
    && (forall p :: 0 <= p < |s.queue| ==> s.queue[p] < |s.calls| && s.calls[s.queue[p]].mpc == Queued)
    && (forall i: nat :: i < |s.calls| && s.calls[i].mpc == Queued ==> i in s.queue)
  }

  ghost predicate StackInv(s: State) {
    && Distinct(s.stack)
    && (forall p :: 0 <= p < |s.stack| ==> s.stack[p] < |s.calls| && InCallback(s.calls[s.stack[p]]))
    && (forall p :: 0 <= p < |s.stack| - 1 ==> s.calls[s.stack[p]].mpc == Running)
    && (forall i: nat :: i < |s.calls| && InCallback(s.calls[i]) ==> i in s.stack)
  }

  ghost predicate WorkersInv(s: State) {
    forall i, j :: 0 <= i < j < |s.calls| && s.calls[i].worker == s.calls[j].worker ==> !Active(s.calls[i])
  }

  ghost predicate Inv(s: State) {
    && (forall i :: 0 <= i < |s.calls| ==> CallInv(s.calls[i]))
    && QueueInv(s) && StackInv(s) && WorkersInv(s)
  }

  lemma CallKept(c: Call, now: nat, table: Table)
    requires CallInv(c)
    ensures WorkerCan(c) ==> CallInv(WorkerStep(c, now))
    ensures CallbackCan(c) ==> CallInv(CallbackStep(c, table, now))
    ensures c.wpc == Waiting ==> CallInv(c.(wpc := Locking))
    ensures c.mpc == Queued && c.wpc in {Locking, Testing, Waiting} ==> CallInv(CancelStep(c))
    ensures c.mpc == Queued ==> CallInv(c.(mpc := Checking))
  {
  }

  /** A step that changes one record and moves it neither into nor out of the queue or the callbacks. */
  lemma ChangeInPlace(s: State, i: nat, d: Call, t: State)
    requires Inv(s) && i < |s.calls| && CallInv(d) && d.worker == s.calls[i].worker
    requires Active(d) ==> Active(s.calls[i])
    requires d.mpc == Queued <==> s.calls[i].mpc == Queued
    requires InCallback(d) <==> InCallback(s.calls[i])
    requires d.mpc == s.calls[i].mpc || (s.stack != [] && i == Top(s))
    requires t.calls == s.calls[i := d] && t.queue == s.queue && t.stack == s.stack
    ensures Inv(t)
  {
  }

  lemma EnterKeepsInv(s: State, c: Call, t: State)
    requires Inv(s) && CallInv(c) && c.mpc == Unposted
    requires forall i :: 0 <= i < |s.calls| && s.calls[i].worker == c.worker ==> !Active(s.calls[i])
    requires t.calls == s.calls + [c] && t.queue == s.queue && t.stack == s.stack
    ensures Inv(t)
  {
    assert QueueInv(t);
    assert StackInv(t);
  }

  lemma PostKeepsInv(s: State, i: nat, d: Call, t: State)
    requires Inv(s) && i < |s.calls| && CallInv(d) && d.worker == s.calls[i].worker
    requires s.calls[i].mpc == Unposted && d.mpc == Queued
    requires t.calls == s.calls[i := d] && t.queue == s.queue + [i] && t.stack == s.stack
    ensures Inv(t)
  {
    PushKeepsQueueInv(s, i, d, t);
    StackKept(s, i, d, t);
  }

  lemma PushKeepsQueueInv(s: State, i: nat, d: Call, t: State)
    requires QueueInv(s) && i < |s.calls| && s.calls[i].mpc == Unposted && d.mpc == Queued
    requires t.calls == s.calls[i := d] && t.queue == s.queue + [i]
    ensures QueueInv(t)
  {
    assert i !in s.queue;
    assert i == t.queue[|s.queue|];
    forall j: nat | j < |t.calls| && t.calls[j].mpc == Queued ensures j in t.queue {
      if j != i {
        assert j in s.queue;
      }
    }
  }

  /** A record outside every callback may change without entering one. */
  lemma StackKept(s: State, i: nat, d: Call, t: State)
    requires StackInv(s) && i < |s.calls| && !InCallback(s.calls[i]) && !InCallback(d)
    requires t.calls == s.calls[i := d] && t.stack == s.stack
    ensures StackInv(t)
  {
  }

  lemma DispatchKeepsInv(s: State, p: nat, t: State)
    requires Inv(s) && Enabled(s, Dispatch(p)) && t == Do(s, Dispatch(p))
    ensures Inv(t)
  {
    var i := s.queue[p];
    assert CallInv(t.calls[i]) by { CallKept(s.calls[i], 0, s.table); }
    PopKeepsQueueInv(s, p, t);
    PushKeepsStackInv(s, i, t);
  }

  lemma PopKeepsQueueInv(s: State, p: nat, t: State)
    requires QueueInv(s) && p < |s.queue| && s.queue[p] < |s.calls|
    requires t.calls == s.calls[s.queue[p] := s.calls[s.queue[p]].(mpc := Checking)] && t.queue == RemoveAt(s.queue, p)
    ensures QueueInv(t)
  {
    RemoveAtDistinct(s.queue, p);
    assert forall q :: 0 <= q < |t.queue| ==> t.queue[q] in s.queue;
  }

  lemma PushKeepsStackInv(s: State, i: nat, t: State)
    requires StackInv(s) && MainOpen(s)
    requires i < |s.calls| && s.calls[i].mpc == Queued
    requires t.calls == s.calls[i := s.calls[i].(mpc := Checking)] && t.stack == s.stack + [i]
    ensures StackInv(t)
  {
    assert i !in s.stack;
    assert t.stack[|s.stack|] == i;
    forall j: nat | j < |t.calls| && InCallback(t.calls[j]) ensures j in t.stack {
      if j != i {
        var q :| 0 <= q < |s.stack| && s.stack[q] == j;
        assert t.stack[q] == j;
      }
    }
  }

  lemma FinishKeepsInv(s: State, d: Call, t: State)
    requires Inv(s) && s.stack != [] && d.mpc == Done && CallInv(d) && d.worker == s.calls[Top(s)].worker
    requires Active(d) ==> Active(s.calls[Top(s)])
    requires t.calls == s.calls[Top(s) := d] && t.queue == s.queue && t.stack == s.stack[..|s.stack| - 1]
    ensures Inv(t)
  {
    PopKeepsStackInv(s, d, t);
    QueueKept(s, d, t);
  }

  lemma PopKeepsStackInv(s: State, d: Call, t: State)
    requires StackInv(s) && s.stack != [] && d.mpc == Done
    requires t.calls == s.calls[Top(s) := d] && t.stack == s.stack[..|s.stack| - 1]
    ensures StackInv(t)
  {
    assert forall p :: 0 <= p < |t.stack| ==> t.stack[p] == s.stack[p] != Top(s);
    forall j: nat | j < |t.calls| && InCallback(t.calls[j]) ensures j in t.stack {
      var q :| 0 <= q < |s.stack| && s.stack[q] == j;
      assert t.stack[q] == j;
    }
  }

  lemma QueueKept(s: State, d: Call, t: State)
    requires QueueInv(s) && StackInv(s) && s.stack != [] && d.mpc == Done
    requires t.calls == s.calls[Top(s) := d] && t.queue == s.queue
    ensures QueueInv(t)
  {
    assert InCallback(s.calls[Top(s)]);
  }

  lemma StepKeepsInv(s: State, a: Action)
    requires Inv(s) && Enabled(s, a)
    ensures Inv(Do(s, a))
  {
    var t := Do(s, a);
    match a
    case Enter(w, op) => EnterKeepsInv(s, NewCall(w, op, |s.hist|), t);
    case Advance(i) =>
      CallKept(s.calls[i], |s.hist|, s.table);
      if s.calls[i].wpc == Posting {
        PostKeepsInv(s, i, WorkerStep(s.calls[i], |s.hist|), t);
      } else {
        ChangeInPlace(s, i, WorkerStep(s.calls[i], |s.hist|), t);
      }
    case Wake(i) =>
      CallKept(s.calls[i], |s.hist|, s.table);
      ChangeInPlace(s, i, s.calls[i].(wpc := Locking), t);
    case Cancel(i) =>
      CallKept(s.calls[i], |s.hist|, s.table);
      ChangeInPlace(s, i, CancelStep(s.calls[i]), t);
    case Dispatch(p) => DispatchKeepsInv(s, p, t);
    case MainStep =>
      var i := Top(s);
      CallKept(s.calls[i], |s.hist|, s.table);
      var d := CallbackStep(s.calls[i], s.table, |s.hist|);
      if d.mpc == Done {
        FinishKeepsInv(s, d, t);
      } else {
        ChangeInPlace(s, i, d, t);
      }
    case Direct(_) =>
  }

  // ---------------------------------------------------------------- runs

  /** Any finite interleaving, from the moment nothing has been posted yet. */
  ghost predicate Run(states: seq<State>, acts: seq<Action>) {
    && |states| == |acts| + 1
    && Init(states[0])
    && forall k :: 0 <= k < |acts| ==> Enabled(states[k], acts[k]) && states[k + 1] == Do(states[k], acts[k])
  }

  ghost function Last(states: seq<State>): State
    requires states != []
  {
    states[|states| - 1]
  }

  lemma RunPrefix(states: seq<State>, acts: seq<Action>)
    requires Run(states, acts) && acts != []
    ensures Run(states[..|acts|], acts[..|acts| - 1])
    ensures Enabled(Last(states[..|acts|]), acts[|acts| - 1])
    ensures Last(states) == Do(Last(states[..|acts|]), acts[|acts| - 1])
  {
    var n := |acts| - 1;
    assert Enabled(states[n], acts[n]) && states[n + 1] == Do(states[n], acts[n]);
  }

  lemma {:induction false} InvAlways(states: seq<State>, acts: seq<Action>)
    requires Run(states, acts)
    ensures Inv(Last(states))
  {
    if acts != [] {
      RunPrefix(states, acts);
      InvAlways(states[..|acts|], acts[..|acts| - 1]);
      StepKeepsInv(Last(states[..|acts|]), acts[|acts| - 1]);
    }
  }

  /** Safety over every interleaving: a body never runs twice; when a worker returns, its call ran exactly
      once and the record was freed exactly once, by the worker; a call cancelled while queued never runs,
      and only the callback frees it. */
  lemma ExactlyOnce(states: seq<State>, acts: seq<Action>, i: nat)
    requires Run(states, acts) && i < |Last(states).calls|
    ensures var c := Last(states).calls[i];
      && c.runs <= 1 && |c.frees| <= 1
      && (c.wpc == Returned ==> c.runs == 1 && c.frees == [Caller] && !c.cancelled)
      && (c.cancelled ==> c.runs == 0 && Caller !in c.frees && (c.mpc == Done <==> c.frees == [Callback]))
      && (Callback in c.frees ==> c.cancelled)
  {
    InvAlways(states, acts);
    assert CallInv(Last(states).calls[i]);
  }

  /** Main only ever holds records that nobody has freed and whose mutex is alive: after the worker has
      returned the record is neither queued nor inside a callback. */
  lemma MainNeverTouchesAfterReturn(states: seq<State>, acts: seq<Action>, i: nat)
    requires Run(states, acts)
    requires i in Last(states).queue || i in Last(states).stack
    ensures i < |Last(states).calls|
    ensures var c := Last(states).calls[i]; c.frees == [] && c.mutex != Ended && c.wpc != Returned
  {
    InvAlways(states, acts);
    var s := Last(states);
    if i in s.queue {
      var p :| 0 <= p < |s.queue| && s.queue[p] == i;
      assert CallInv(s.calls[i]);
    } else {
      var p :| 0 <= p < |s.stack| && s.stack[p] == i;
      assert CallInv(s.calls[i]);
    }
  }

  /** No wakeup is lost: while a worker sleeps, the record is queued or main is inside its callback and has
      yet to signal; and a worker that is about to test after main finished finds `complete` set. */
  lemma NoLostWakeup(states: seq<State>, acts: seq<Action>, i: nat)
    requires Run(states, acts) && i < |Last(states).calls|
    ensures var s := Last(states); var c := s.calls[i];
      && (c.wpc == Waiting ==> i in s.queue || (i in s.stack && c.mpc != Unlocking))
      && (c.wpc == Testing && i !in s.queue && i !in s.stack ==> c.complete)
  {
    InvAlways(states, acts);
    assert CallInv(Last(states).calls[i]);
  }

  // ---------------------------------------------------------------- every worker returns

  function WorkerRank(w: WorkerPc): nat {
    match w
    case Posting => 6
    case Locking => 5
    case Testing => 4
    case Waiting => 3
    case Leaving => 2
    case Destroyed => 1
    case Returned => 0
    case Dead => 0
  }

  function MainRank(m: MainPc): nat {
    match m
    case Unposted => 8
    case Queued => 7
    case Checking => 6
    case Running => 5
    case Locks => 4
    case Completing => 3
    case Signalling => 2
    case Unlocking => 1
    case Done => 0
  }

  /** How many instructions the record can still see. A signal puts the worker back two instructions, so
      each instruction of main counts for four. */
  function Rank(c: Call): nat {
    4 * MainRank(c.mpc) + WorkerRank(c.wpc)
  }

  const FULL_RANK := 38

  function Measure(calls: seq<Call>): nat {
    if calls == [] then 0 else Rank(calls[|calls| - 1]) + Measure(calls[..|calls| - 1])
  }

  lemma {:induction false} MeasureUpdate(calls: seq<Call>, i: nat, d: Call)
    requires i < |calls|
    ensures Measure(calls[i := d]) == Measure(calls) - Rank(calls[i]) + Rank(d)
  {
    var n := |calls| - 1;
    if i == n {
      assert calls[i := d][..n] == calls[..n];
    } else {
      MeasureUpdate(calls[..n], i, d);
      assert calls[i := d][..n] == calls[..n][i := d];
    }
  }

  predicate Progress(a: Action) {
    a.Advance? || a.Dispatch? || a.MainStep?
  }

  lemma RankStep(c: Call, table: Table, now: nat)
    requires CallInv(c)
    ensures WorkerCan(c) ==> Rank(WorkerStep(c, now)) < Rank(c)
    ensures CallbackCan(c) ==> Rank(CallbackStep(c, table, now)) < Rank(c)
    ensures c.mpc == Queued ==> Rank(c.(mpc := Checking)) < Rank(c)
    ensures c.wpc == Waiting ==> Rank(c.(wpc := Locking)) == Rank(c) + 2
    ensures c.mpc == Queued ==> Rank(CancelStep(c)) <= Rank(c)
  {
  }

  /** Every instruction of a worker or of main makes the measure smaller. */
  lemma MeasureStep(s: State, a: Action)
    requires Inv(s) && Enabled(s, a)
    ensures var m := Measure(Do(s, a).calls);
      m <= Measure(s.calls) - (if Progress(a) then 1 else 0)
           + (if a.Enter? then FULL_RANK else 0) + (if a.Wake? then 2 else 0)
  {
    match a
    case Enter(w, op) =>
      var c := NewCall(w, op, |s.hist|);
      assert (s.calls + [c])[..|s.calls|] == s.calls;
    case Advance(i) =>
      RankStep(s.calls[i], s.table, |s.hist|);
      MeasureUpdate(s.calls, i, WorkerStep(s.calls[i], |s.hist|));
    case Wake(i) =>
      RankStep(s.calls[i], s.table, |s.hist|);
      MeasureUpdate(s.calls, i, s.calls[i].(wpc := Locking));
    case Cancel(i) =>
      RankStep(s.calls[i], s.table, |s.hist|);
      MeasureUpdate(s.calls, i, CancelStep(s.calls[i]));
    case Dispatch(p) =>
      RankStep(s.calls[s.queue[p]], s.table, |s.hist|);
      MeasureUpdate(s.calls, s.queue[p], s.calls[s.queue[p]].(mpc := Checking));
    case MainStep =>
      RankStep(s.calls[Top(s)], s.table, |s.hist|);
      MeasureUpdate(s.calls, Top(s), CallbackStep(s.calls[Top(s)], s.table, |s.hist|));
    case Direct(_) =>
  }

  function Count(acts: seq<Action>, kind: Action -> bool): nat {
    if acts == [] then 0 else (if kind(acts[|acts| - 1]) then 1 else 0) + Count(acts[..|acts| - 1], kind)
  }

  /** Work is bounded in every interleaving: at most 38 instructions for each call made and 2 more for each
      spurious wakeup, so with finitely many calls and spurious wakeups no run can go on for ever. */
  lemma {:induction false} WorkIsBounded(states: seq<State>, acts: seq<Action>)
    requires Run(states, acts)
    ensures Count(acts, Progress) + Measure(Last(states).calls)
            <= FULL_RANK * Count(acts, (a: Action) => a.Enter?) + 2 * Count(acts, (a: Action) => a.Wake?)
  {
    if acts != [] {
      RunPrefix(states, acts);
      WorkIsBounded(states[..|acts|], acts[..|acts| - 1]);
      InvAlways(states[..|acts|], acts[..|acts| - 1]);
      MeasureStep(Last(states[..|acts|]), acts[|acts| - 1]);
    }
  }

  predicate Finished(c: Call) {
    c.mpc == Done && c.wpc in {Returned, Dead}
  }

  /** A worker or main can take a step as long as one call is unfinished: no interleaving deadlocks. */
  lemma SomeoneCanMove(s: State, i: nat)
    requires Inv(s) && i < |s.calls| && !Finished(s.calls[i])
    ensures exists a :: Progress(a) && Enabled(s, a)
  {
    if s.stack != [] {
      var c := s.calls[Top(s)];
      assert CallInv(c);
      if CallbackCan(c) {
        assert Enabled(s, MainStep);
      } else {
        assert Enabled(s, Advance(Top(s)));
      }
    } else if s.queue != [] {
      assert Enabled(s, Dispatch(0));
    } else {
      assert CallInv(s.calls[i]);
      assert Enabled(s, Advance(i));
    }
  }

  /** When a run can go no further, every worker has returned from a call that ran exactly once, except those
      cancelled while queued, whose call never ran; every record has been freed exactly once. */
  lemma EveryWorkerReturns(states: seq<State>, acts: seq<Action>, i: nat)
    requires Run(states, acts) && i < |Last(states).calls|
    requires forall a :: Progress(a) ==> !Enabled(Last(states), a)
    ensures var c := Last(states).calls[i];
      if c.cancelled then c.runs == 0 && c.frees == [Callback]
      else c.wpc == Returned && c.runs == 1 && c.frees == [Caller]
  {
    InvAlways(states, acts);
    var s := Last(states);
    if !Finished(s.calls[i]) {
      SomeoneCanMove(s, i);
    }
    assert CallInv(s.calls[i]);
  }

  // ---------------------------------------------------------------- linearizability

  function Takes(hist: seq<Event>): seq<Taken> {
    if hist == [] then []
    else
      var last := hist[|hist| - 1];
      Takes(hist[..|hist| - 1]) + (if last.Take? then [last.taken] else [])
  }

  lemma TakesSnoc(hist: seq<Event>, e: Event)
    ensures Takes(hist + [e]) == Takes(hist) + (if e.Take? then [e.taken] else [])
  {
    assert (hist + [e])[..|hist|] == hist;
  }

  /** Main's order of execution is a sequential run from the first table to the current one. */
  ghost predicate OrderInv(first: Table, s: State) {
    Sequential(first, Takes(s.hist)) && s.table == After(first, Takes(s.hist))
  }

  lemma StepKeepsOrder(first: Table, s: State, a: Action)
    requires OrderInv(first, s) && Enabled(s, a)
    ensures OrderInv(first, Do(s, a))
  {
    StepLogs(s, a);
    LogKeepsOrder(first, s, Do(s, a));
  }

  /** A step appends at most one event, and changes the settings exactly as that event says. */
  ghost predicate Logs(s: State, t: State) {
    || (t.hist == s.hist && t.table == s.table)
    || (|t.hist| == |s.hist| + 1 && t.hist == s.hist + [t.hist[|s.hist|]]
        && var e := t.hist[|s.hist|];
           if e.Take? then e.taken.result == Result(e.taken.op, s.table) && t.table == Effect(e.taken.op, s.table)
           else t.table == s.table)
  }

  lemma StepLogs(s: State, a: Action)
    requires Enabled(s, a)
    ensures Logs(s, Do(s, a))
  {
  }

  lemma LogKeepsOrder(first: Table, s: State, t: State)
    requires OrderInv(first, s) && Logs(s, t)
    ensures OrderInv(first, t)
  {
    if t.hist != s.hist {
      var e := t.hist[|s.hist|];
      TakesSnoc(s.hist, e);
      if e.Take? {
        AfterSnoc(first, Takes(s.hist), e.taken);
        SequentialSnoc(first, Takes(s.hist), e.taken);
      } else {
        assert Takes(t.hist) == Takes(s.hist);
      }
    }
  }

  lemma {:induction false} OrderAlways(states: seq<State>, acts: seq<Action>)
    requires Run(states, acts)
    ensures OrderInv(states[0].table, Last(states))
  {
    if acts != [] {
      RunPrefix(states, acts);
      OrderAlways(states[..|acts|], acts[..|acts| - 1]);
      StepKeepsOrder(states[0].table, Last(states[..|acts|]), acts[|acts| - 1]);
    }
  }

  ghost predicate CallLogged(hist: seq<Event>, i: nat, c: Call) {
    && c.invokedAt < |hist| && hist[c.invokedAt] == Invoke(i, c.op)
    && (c.runs == 1 ==> c.invokedAt < c.takenAt < |hist| && hist[c.takenAt] == Take(Some(i), Taken(c.op, c.result)))
    && (c.wpc == Returned ==> c.takenAt < c.returnedAt < |hist| && hist[c.returnedAt] == Respond(i, c.result))
  }

  ghost predicate EventLogged(calls: seq<Call>, e: Event, p: nat) {
    match e
    case Invoke(i, _) => i < |calls| && calls[i].invokedAt == p
    case Take(actor, _) =>
      actor.Some? ==>
        actor.value < |calls| && calls[actor.value].runs == 1 && calls[actor.value].takenAt == p
    case Respond(i, _) => i < |calls| && calls[i].wpc == Returned && calls[i].returnedAt == p
  }

  ghost predicate HistInv(s: State) {
    && (forall i :: 0 <= i < |s.calls| ==> CallLogged(s.hist, i, s.calls[i]))
    && (forall p :: 0 <= p < |s.hist| ==> EventLogged(s.calls, s.hist[p], p))
  }

  lemma AppendKeepsHist(s: State, a: Action)
    requires HistInv(s) && (a.Enter? || a.Direct?) && Enabled(s, a)
    ensures HistInv(Do(s, a))
  {
    var t := Do(s, a);
    forall p | 0 <= p < |t.hist| ensures EventLogged(t.calls, t.hist[p], p) {
      if p < |s.hist| {
        assert EventLogged(s.calls, s.hist[p], p);
      }
    }
    forall j | 0 <= j < |t.calls| ensures CallLogged(t.hist, j, t.calls[j]) {
      assert j < |s.calls| ==> CallLogged(s.hist, j, s.calls[j]);
    }
  }

  /** A step of one call that appends at most the event this step stands for. */
  lemma LogStep(s: State, i: nat, d: Call, t: State)
    requires HistInv(s) && i < |s.calls|
    requires t.calls == s.calls[i := d] && (t.hist == s.hist || exists e :: t.hist == s.hist + [e])
    requires CallLogged(t.hist, i, d)
    requires |t.hist| > |s.hist| ==> EventLogged(t.calls, t.hist[|s.hist|], |s.hist|)
    requires d.invokedAt == s.calls[i].invokedAt
    requires s.calls[i].runs == 1 ==> d.runs == 1 && d.takenAt == s.calls[i].takenAt
    requires s.calls[i].wpc == Returned ==> d.wpc == Returned && d.returnedAt == s.calls[i].returnedAt
    ensures HistInv(t)
  {
    forall p | 0 <= p < |t.hist| ensures EventLogged(t.calls, t.hist[p], p) {
      if p < |s.hist| {
        assert EventLogged(s.calls, s.hist[p], p);
      }
    }
    forall j | 0 <= j < |t.calls| ensures CallLogged(t.hist, j, t.calls[j]) {
      assert CallLogged(s.hist, j, s.calls[j]);
    }
  }

  lemma StepKeepsHist(s: State, a: Action)
    requires Inv(s) && HistInv(s) && Enabled(s, a)
    ensures HistInv(Do(s, a))
  {
    var t := Do(s, a);
    match a
    case Enter(_, _) =>
      AppendKeepsHist(s, a);
    case Advance(i) =>
      assert CallInv(s.calls[i]) && CallLogged(s.hist, i, s.calls[i]);
      LogStep(s, i, WorkerStep(s.calls[i], |s.hist|), t);
    case Wake(i) =>
      assert CallLogged(s.hist, i, s.calls[i]);
      LogStep(s, i, s.calls[i].(wpc := Locking), t);
    case Cancel(i) =>
      assert CallInv(s.calls[i]) && CallLogged(s.hist, i, s.calls[i]);
      LogStep(s, i, CancelStep(s.calls[i]), t);
    case Dispatch(p) =>
      assert CallLogged(s.hist, s.queue[p], s.calls[s.queue[p]]);
      LogStep(s, s.queue[p], s.calls[s.queue[p]].(mpc := Checking), t);
    case MainStep =>
      CallbackKeepsHist(s);
    case Direct(_) =>
      AppendKeepsHist(s, a);
  }

  lemma CallbackKeepsHist(s: State)
    requires Inv(s) && HistInv(s) && Enabled(s, MainStep)
    ensures HistInv(Do(s, MainStep))
  {
    assert CallInv(s.calls[Top(s)]) && CallLogged(s.hist, Top(s), s.calls[Top(s)]);
    LogStep(s, Top(s), CallbackStep(s.calls[Top(s)], s.table, |s.hist|), Do(s, MainStep));
  }

  lemma {:induction false} HistAlways(states: seq<State>, acts: seq<Action>)
    requires Run(states, acts)
    ensures HistInv(Last(states))
  {
    if acts != [] {
      RunPrefix(states, acts);
      HistAlways(states[..|acts|], acts[..|acts| - 1]);
      InvAlways(states[..|acts|], acts[..|acts| - 1]);
      StepKeepsHist(Last(states[..|acts|]), acts[|acts| - 1]);
    }
  }

  /** An operation taken by main is the one a worker's return answers for. */
  predicate Answers(take: Event, respond: Event) {
    take.Take? && respond.Respond? && take.actor == Some(respond.call) && take.taken.result == respond.result
  }

  /** A history of concurrent settings calls is linearizable: the operations in main's order of execution
      form a sequential run; each call takes effect at most once, after it was invoked; each call that
      returned took effect before it returned, with the result it returned. */
  ghost predicate Linearizable(first: Table, hist: seq<Event>) {
    && Sequential(first, Takes(hist))
    && (forall p, q :: 0 <= p < q < |hist| && hist[p].Take? && hist[q].Take? && hist[p].actor.Some? ==>
          hist[p].actor != hist[q].actor)
    && (forall p :: 0 <= p < |hist| && hist[p].Take? && hist[p].actor.Some? ==>
          Invoke(hist[p].actor.value, hist[p].taken.op) in hist[..p])
    && (forall p :: 0 <= p < |hist| && hist[p].Respond? ==>
          exists q :: 0 <= q < p && Answers(hist[q], hist[p]))
  }

  /** Settings reads and writes made from any mix of threads are linearizable, in every run. */
  lemma SettingsAreLinearizable(states: seq<State>, acts: seq<Action>)
    requires Run(states, acts)
    ensures Linearizable(states[0].table, Last(states).hist)
    ensures Last(states).table == After(states[0].table, Takes(Last(states).hist))
  {
    OrderAlways(states, acts);
    HistAlways(states, acts);
    var s := Last(states);
    var hist := s.hist;
    forall p, q | 0 <= p < q < |hist| && hist[p].Take? && hist[q].Take? && hist[p].actor.Some?
      ensures hist[p].actor != hist[q].actor
    {
      assert EventLogged(s.calls, hist[p], p) && EventLogged(s.calls, hist[q], q);
    }
    forall p | 0 <= p < |hist| && hist[p].Take? && hist[p].actor.Some?
      ensures Invoke(hist[p].actor.value, hist[p].taken.op) in hist[..p]
    {
      assert EventLogged(s.calls, hist[p], p);
      var c := s.calls[hist[p].actor.value];
      assert CallLogged(hist, hist[p].actor.value, c);
      assert hist[..p][c.invokedAt] == hist[c.invokedAt];
    }
    InvAlways(states, acts);
    forall p | 0 <= p < |hist| && hist[p].Respond?
      ensures exists q :: 0 <= q < p && Answers(hist[q], hist[p])
    {
      assert EventLogged(s.calls, hist[p], p);
      var c := s.calls[hist[p].call];
      assert CallInv(c) && CallLogged(hist, hist[p].call, c);
      assert hist[c.takenAt].Take?;
    }
  }

  /** A call that returned before another was invoked takes effect before it. */
  lemma RealTimeOrder(states: seq<State>, acts: seq<Action>, i: nat, j: nat)
    requires Run(states, acts) && i < |Last(states).calls| && j < |Last(states).calls|
    requires Last(states).calls[i].wpc == Returned && Last(states).calls[j].runs == 1
    requires Last(states).calls[i].returnedAt < Last(states).calls[j].invokedAt
    ensures Last(states).calls[i].takenAt < Last(states).calls[j].takenAt
  {
    HistAlways(states, acts);
    assert CallLogged(Last(states).hist, i, Last(states).calls[i]);
    assert CallLogged(Last(states).hist, j, Last(states).calls[j]);
  }

  // ---------------------------------------------------------------- who posts

  /** Step k of a run is the one in which the worker of call i posts its record. */
  ghost predicate PostsAt(states: seq<State>, acts: seq<Action>, k: nat, i: nat)
    requires |states| == |acts| + 1
  {
    k < |acts| && acts[k] == Advance(i) && i < |states[k].calls| && states[k].calls[i].wpc == Posting
  }

  /** In every run the idle queue gains a record in no other step than that: nothing main does posts, also when
      it gets or sets inside a callback. */
  lemma MainNeverPosts(states: seq<State>, acts: seq<Action>, k: nat, i: nat)
    requires Run(states, acts) && k < |acts|
    requires i in states[k + 1].queue && i !in states[k].queue
    ensures PostsAt(states, acts, k, i)
  {
    assert Enabled(states[k], acts[k]) && states[k + 1] == Do(states[k], acts[k]);
  }

  /** How many of the first n steps post call i. */
  ghost function Posts(states: seq<State>, acts: seq<Action>, n: nat, i: nat): nat
    requires |states| == |acts| + 1 && n <= |acts|
  {
    if n == 0 then 0 else Posts(states, acts, n - 1, i) + if PostsAt(states, acts, n - 1, i) then 1 else 0
  }

  /** In every run each call is posted exactly once, in a step of its own worker. */
  lemma {:induction false} PostedExactlyOnce(states: seq<State>, acts: seq<Action>, n: nat, i: nat)
    requires Run(states, acts) && n <= |acts|
    ensures Posts(states, acts, n, i) == if i < |states[n].calls| && states[n].calls[i].wpc != Posting then 1 else 0
  {
    if n > 0 {
      PostedExactlyOnce(states, acts, n - 1, i);
      PostingStep(states[n - 1], acts[n - 1], states[n], i);
    }
  }

  lemma PostingStep(s: State, a: Action, t: State, i: nat)
    requires Enabled(s, a) && t == Do(s, a)
    ensures |s.calls| <= |t.calls|
    ensures i < |s.calls| ==> (t.calls[i].wpc == Posting <==> s.calls[i].wpc == Posting && a != Advance(i))
    ensures |s.calls| <= i < |t.calls| ==> t.calls[i].wpc == Posting
  {
  }
}
