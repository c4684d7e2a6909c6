/** The same protocol as code that changes shared state in place: the two functions of
    remmina_masterthread_exec.c, one instruction at a time, over records in the heap that worker and main both
    point to, the idle queue and the settings of one process. Each method does one step of the state machine of
    module MasterThread on the records it touches, and nothing to any other. */
module Process {
  import opened Basics
  import opened SettingsTable
  import opened MasterThread

  datatype Thread = Main | Worker(id: nat)

  /** A RemminaMTExecData, with where its two threads are and what was done to it; `index` is its place in the
      order of creation. */
  class Record {
    const index: nat
    const worker: nat
    const op: Op
    var cancelled: bool
    var complete: bool
    var mutex: Mutex
    var result: Option<string>
    var wpc: WorkerPc
    var mpc: MainPc
    var runs: nat
    var frees: seq<Actor>
    var invokedAt: nat
    var takenAt: nat
    var returnedAt: nat

    ghost function Value(): Call
      reads this
    {
      Call(worker, op, wpc, mpc, cancelled, complete, mutex, result, runs, frees, invokedAt, takenAt, returnedAt)
    }

    constructor (index: nat, worker: nat, op: Op, now: nat)
      ensures this.index == index && Value() == NewCall(worker, op, now)
    {
      this.index, this.worker, this.op := index, worker, op;
      cancelled, complete, mutex, result := false, false, Free, None;
      wpc, mpc, runs, frees := Posting, Unposted, 0, [];
      invokedAt, takenAt, returnedAt := now, 0, 0;
    }

    /** The worker's next instruction, as far as the record goes. */
    method WorkerInstruction(now: nat)
      requires WorkerCan(Value())
      modifies this
      ensures Value() == WorkerStep(old(Value()), now)
    {
      match wpc {
        case Posting =>
          wpc, mpc := Locking, Queued;
        case Locking =>
          mutex := HeldByWorker;
          wpc := Testing;
        case Testing =>
          if complete {
            wpc := Leaving;
          } else {
            mutex := Free;
            wpc := Waiting;
          }
        case Leaving =>
          mutex := Ended;
          wpc := Destroyed;
        case Destroyed =>
          frees, returnedAt := frees + [Caller], now;
          wpc := Returned;
      }
    }

    /** The callback's next instruction, as far as the record goes; `got` is what the body comes to. */
    method CallbackInstruction(got: Option<string>, ghost table: Table, now: nat)
      requires CallbackCan(Value()) && (mpc == Running ==> got == Result(op, table))
      modifies this
      ensures Value() == CallbackStep(old(Value()), table, now)
    {
      match mpc {
        case Checking =>
          if cancelled {
            frees := frees + [Callback];
            mpc := Done;
          } else {
            mpc := Running;
          }
        case Running =>
          result, runs, takenAt := got, runs + 1, now;
          mpc := Locks;
        case Locks =>
          mutex := HeldByMain;
          mpc := Completing;
        case Completing =>
          complete := true;
          mpc := Signalling;
        case Signalling =>
          if wpc == Waiting {
            wpc := Locking;
          }
          mpc := Unlocking;
        case Unlocking =>
          mutex := Free;
          mpc := Done;
      }
    }
  }

  class Process {
    var queue: seq<Record>
    var stack: seq<Record>
    var table: Table
    var hist: seq<Event>
    var created: nat
    ghost var records: seq<Record>
    ghost var state: State  // what all of it amounts to

    ghost predicate Known(r: Record)
      reads this`records
    {
      r.index < |records| && records[r.index] == r
    }

    ghost predicate Lists(rs: seq<Record>, indices: seq<nat>)
      reads this`records
    {
      |rs| == |indices| && forall p :: 0 <= p < |rs| ==> Known(rs[p]) && rs[p].index == indices[p]
    }

    lemma AllButLast(rs: seq<Record>, indices: seq<nat>)
      requires Lists(rs, indices) && rs != []
      ensures Lists(rs[..|rs| - 1], indices[..|indices| - 1])
    {
    }

    lemma WithoutOne(rs: seq<Record>, indices: seq<nat>, pos: nat)
      requires Lists(rs, indices) && pos < |rs|
      ensures Lists(RemoveAt(rs, pos), RemoveAt(indices, pos))
    {
    }

    ghost predicate Valid()
      reads this, records
    {
      && created == |records| == |state.calls|
      && (forall i :: 0 <= i < |records| ==> records[i].index == i && records[i].Value() == state.calls[i])
      && Lists(queue, state.queue) && Lists(stack, state.stack)
      && table == state.table && hist == state.hist
    }

    constructor (table: Table)
      ensures Valid() && Init(state) && state.table == table
    {
      queue, stack, this.table, hist, created := [], [], table, [], 0;
      records, state := [], State([], [], [], table, []);
    }

    /** remmina_file_get_string and remmina_file_set_string up to the point where they wait: on the main
        thread they act at once, on any other thread they fill in a new record. */
    method Start(thread: Thread, op: Op) returns (result: Option<string>, r: Record?)
      requires Valid() && Enabled(state, if thread.Main? then Direct(op) else Enter(thread.id, op))
      modifies this
      ensures Valid() && state == Do(old(state), if thread.Main? then Direct(op) else Enter(thread.id, op))
      ensures thread.Main? ==> r == null && result == Result(op, old(table)) && records == old(records)
      ensures thread.Worker? ==> r != null && fresh(r) && records == old(records) + [r]
    {
      result, r := None, null;
      state := Do(state, if thread.Main? then Direct(op) else Enter(thread.id, op));
      if thread.Main? {
        result := GetOrSet(None, op);
      } else {
        r := new Record(created, thread.id, op, |hist|);
        hist := hist + [Invoke(created, op)];
        records := records + [r];
        created := created + 1;
      }
    }

    /** The get or set itself, on the main thread. */
    method GetOrSet(actor: Option<nat>, op: Op) returns (result: Option<string>)
      modifies this`table, this`hist
      ensures result == Result(op, old(table)) && table == Effect(op, old(table))
      ensures hist == old(hist) + [Take(actor, Taken(op, result))]
    {
      result := Result(op, table);
      if op.SetString? && Writes(op, op.key) {
        table := table[op.key := Stored(op.value)];
      }
      hist := hist + [Take(actor, Taken(op, result))];
    }

    /** The next instruction of remmina_masterthread_exec_and_wait in the worker of a record. */
    method ExecAndWaitStep(r: Record)
      requires Valid() && Known(r) && Enabled(state, Advance(r.index))
      modifies this`queue, this`hist, this`state, r
      ensures Valid() && state == Do(old(state), Advance(r.index))
    {
      state := Do(state, Advance(r.index));
      var now := |hist|;
      if r.wpc == Posting {
        queue := queue + [r];
      } else if r.wpc == Destroyed {
        hist := hist + [Respond(r.index, r.result)];
      }
      r.WorkerInstruction(now);
    }

    /** The main loop takes the record at a position of the idle queue and enters the callback. */
    method DispatchIdle(pos: nat)
      requires Valid() && Enabled(state, Dispatch(pos))
      modifies this`queue, this`stack, this`state, queue
      ensures Valid() && state == Do(old(state), Dispatch(pos))
    {
      var r := queue[pos];
      WithoutOne(queue, state.queue, pos);
      state := Do(state, Dispatch(pos));
      queue := RemoveAt(queue, pos);
      stack := stack + [r];
      r.mpc := Checking;
    }

    /** The next instruction of remmina_masterthread_exec_callback in the innermost callback. */
    method CallbackInstruction()
      requires Valid() && Enabled(state, MainStep)
      modifies this`stack, this`table, this`hist, this`state, stack
      ensures Valid() && state == Do(old(state), MainStep)
    {
      if stack[|stack| - 1].mpc == Running {
        RunBody();
      } else {
        LeaveOrSignal();
      }
    }

    /** The instruction that runs the call. */
    method RunBody()
      requires Valid() && Enabled(state, MainStep) && stack[|stack| - 1].mpc == Running
      modifies this`table, this`hist, this`state, stack[|stack| - 1]
      ensures Valid() && state == Do(old(state), MainStep)
    {
      var r := stack[|stack| - 1];
      ghost var was := state;
      var now := |hist|;
      var got := GetOrSet(Some(r.index), r.op);
      r.CallbackInstruction(got, was.table, now);
      state := Do(was, MainStep);
    }

    /** Any other instruction: it is about the record alone, and the last one leaves the callback. */
    method LeaveOrSignal()
      requires Valid() && Enabled(state, MainStep) && stack[|stack| - 1].mpc != Running
      modifies this`stack, this`state, stack[|stack| - 1]
      ensures Valid() && state == Do(old(state), MainStep)
    {
      var r := stack[|stack| - 1];
      AllButLast(stack, state.stack);
      r.CallbackInstruction(None, table, |hist|);
      if r.mpc == Done {
        stack := stack[..|stack| - 1];
      }
      state := Do(state, MainStep);
    }

    // -------------------------------------------------------------- draining

    /** One step on main's side: of the innermost callback, of the worker it waits for, or of the idle queue. */
    method MainMoves()
      requires Valid() && Inv(state) && (stack != [] || queue != [])
      modifies this`queue, this`stack, this`table, this`hist, this`state, records
      ensures Valid() && Inv(state) && Measure(state.calls) < old(Measure(state.calls))
    {
      ghost var was := state;
      if stack == [] {
        DispatchIdle(0);
        StepKeepsInv(was, Dispatch(0));
        MeasureStep(was, Dispatch(0));
        return;
      }
      var r := stack[|stack| - 1];
      assert CallInv(was.calls[r.index]);
      var can := WouldStep(r);
      if can {
        CallbackInstruction();
        StepKeepsInv(was, MainStep);
        MeasureStep(was, MainStep);
      } else {
        WorkerMoves(r);
      }
    }

    /** Only a mutex held elsewhere keeps the callback from its next instruction. */
    method WouldStep(r: Record) returns (can: bool)
      ensures can == CallbackCan(r.Value())
    {
      can := r.mpc in {Checking, Running, Completing, Signalling, Unlocking} || (r.mpc == Locks && r.mutex == Free);
    }

    method WorkerMoves(r: Record)
      requires Valid() && Inv(state) && Known(r) && Enabled(state, Advance(r.index))
      modifies this`queue, this`hist, this`state, r
      ensures Valid() && Inv(state) && Measure(state.calls) < old(Measure(state.calls))
    {
      ghost var was := state;
      ExecAndWaitStep(r);
      StepKeepsInv(was, Advance(r.index));
      MeasureStep(was, Advance(r.index));
    }

    ghost predicate AllFinished(n: nat)
      reads this`state
    {
      n <= |state.calls| && forall j :: 0 <= j < n ==> Finished(state.calls[j])
    }

    method DrainStep(all: seq<Record>, i: nat) returns (next: nat)
      requires Valid() && Inv(state) && all == records && i <= |all|
      requires stack != [] || queue != [] || i < |all|
      requires stack == [] && queue == [] ==> AllFinished(i)
      modifies this`queue, this`stack, this`table, this`hist, this`state, records
      ensures Valid() && Inv(state) && next <= |all| && (stack == [] && queue == [] ==> AllFinished(next))
      ensures Measure(state.calls) < old(Measure(state.calls)) || (state == old(state) && next == i + 1)
    {
      next := 0;
      if stack != [] || queue != [] {
        MainMoves();
      } else if all[i].mpc == Done && all[i].wpc in {Returned, Dead} {
        next := i + 1;
      } else {
        assert CallInv(state.calls[i]);
        WorkerMoves(all[i]);
      }
    }

    /** Main keeps draining the queue while the workers run: the loop ends, and then every call that was not
        cancelled has returned after running exactly once. */
    method Drain(all: seq<Record>)
      requires Valid() && Inv(state) && all == records
      modifies this`queue, this`stack, this`table, this`hist, this`state, records
      ensures Valid() && Inv(state) && queue == [] && stack == []
      ensures forall r :: r in records ==> Finished(r.Value()) && (!r.cancelled ==> r.runs == 1 && r.frees == [Caller])
    {
      var i: nat := 0;
      while stack != [] || queue != [] || i < |all|
        invariant Valid() && Inv(state) && i <= |all|
        invariant stack == [] && queue == [] ==> AllFinished(i)
        decreases Measure(state.calls), |all| - i
      {
        i := DrainStep(all, i);
      }
      forall r | r in records ensures Finished(r.Value()) && CallInv(r.Value()) {
        var j :| 0 <= j < |records| && records[j] == r;
        assert CallInv(state.calls[j]);
      }
    }
  }
}
