/** The list of file transfers of remmina_ftp_client.c: rows of a list store, taken one after the other by a
    worker that works on a copy and reports back through a row reference. */
module TransferList {
  import opened Basics

  datatype FileType = Directory | File | Link

  datatype TaskType = Download | Upload

  datatype Status = Wait | Run | Finish | Error

  /** The columns that are set when a transfer is enqueued. */
  datatype Request = Request(fileType: FileType, name: string, taskType: TaskType, remoteDir: Option<string>,
                             localDir: Option<string>)

  /** The columns an update may change. */
  datatype Progress = Progress(size: real, status: Status, doneSize: real, tooltip: Option<string>)

  /** A row of the store, and also a worker's copy of one: then `ref` is its row reference. References stay
      with their row when other rows come and go. `serial` says how many task ids had been given out before;
      the row's own id is TaskId. */
  datatype Task = Task(ref: nat, serial: nat, request: Request, progress: Progress)

  /** `issued` counts the task ids given out, by whichever client. */
  datatype Store = Store(rows: seq<Task>, nextRef: nat, issued: nat)

  datatype Op =
    | Enqueue(request: Request, size: real)
    | OtherClient
    | Cancel(at: nat, granted: bool)
    | Update(task: Task)

  // ---------------------------------------------------------------- task ids

  /** The largest gint, and the number of gints. */
  const MAX_ID := 0x7fff_ffff
  const GINTS := 0x1_0000_0000

  /** remmina_ftp_client_taskid after n increments from 1, wrapping around as two's complement does. */
  function IdOf(n: nat): int {
    var m := (n + 1) % GINTS;
    if m > MAX_ID then m - GINTS else m
  }

  function TaskId(t: Task): int {
    IdOf(t.serial)
  }

  lemma IdsCount(n: nat)
    ensures IdOf(0) == 1 && IdOf(n + 1) == if IdOf(n) == MAX_ID then -MAX_ID - 1 else IdOf(n) + 1
  {
  }

  /** Two ids are the same exactly when a multiple of all gints lies between them. */
  lemma IdsAgree(a: nat, b: nat)
    ensures IdOf(a) == IdOf(b) <==> (a - b) % GINTS == 0
    ensures a != b && a < GINTS && b < GINTS ==> IdOf(a) != IdOf(b)
  {
  }

  // ---------------------------------------------------------------- the store as a value

  function New(s: Store, request: Request, size: real): Task {
    Task(s.nextRef, s.issued, request, Progress(size, Wait, 0.0, None))
  }

  /** The position of the row a reference stands for; -1 if that row was removed. */
  function RowOf(rows: seq<Task>, ref: nat): (p: int)
    ensures -1 <= p < |rows|
    ensures p >= 0 ==> rows[p].ref == ref
    ensures p == -1 ==> forall i :: 0 <= i < |rows| ==> rows[i].ref != ref
  {
    if rows == [] then -1
    else if rows[0].ref == ref then 0
    else
      var p := RowOf(rows[1..], ref);
      assert forall i :: 1 <= i < |rows| ==> rows[i] == rows[1..][i - 1];
      if p < 0 then -1 else p + 1
  }

  function Do(s: Store, op: Op): Store {
    match op
    case Enqueue(request, size) => Store(s.rows + [New(s, request, size)], s.nextRef + 1, s.issued + 1)
    case OtherClient => s.(issued := s.issued + 1)
    case Cancel(at, granted) => if at < |s.rows| && granted then s.(rows := RemoveAt(s.rows, at)) else s
    case Update(task) =>
      var p := RowOf(s.rows, task.ref);
      if p < 0 then s else s.(rows := s.rows[p := s.rows[p].(progress := task.progress)])
  }

  function After(s: Store, ops: seq<Op>): Store {
    if ops == [] then s else Do(After(s, ops[..|ops| - 1]), ops[|ops| - 1])
  }

  /** Rows are in order of creation, and so are their references and serials. */
  ghost predicate Inv(s: Store) {
    && (forall i :: 0 <= i < |s.rows| ==> s.rows[i].ref < s.nextRef && s.rows[i].serial < s.issued)
    && (forall i, j :: 0 <= i < j < |s.rows| ==> s.rows[i].ref < s.rows[j].ref && s.rows[i].serial < s.rows[j].serial)
  }

  lemma OpKeepsInv(s: Store, op: Op)
    requires Inv(s)
    ensures Inv(Do(s, op))
  {
    match op
    case Enqueue(_, _) =>
    case OtherClient =>
    case Cancel(at, granted) =>
      if at < |s.rows| && granted {
        RemoveKeepsInv(s, at);
      }
    case Update(task) =>
      var p := RowOf(s.rows, task.ref);
      if p >= 0 {
        var r := s.rows[p := s.rows[p].(progress := task.progress)];
        assert forall i :: 0 <= i < |r| ==> r[i].ref == s.rows[i].ref && r[i].serial == s.rows[i].serial;
      }
  }

  lemma RemoveKeepsInv(s: Store, at: nat)
    requires Inv(s) && at < |s.rows|
    ensures Inv(s.(rows := RemoveAt(s.rows, at)))
  {
    var r := RemoveAt(s.rows, at);
    assert forall i :: 0 <= i < |r| ==> r[i] == s.rows[if i < at then i else i + 1];
  }

  // ---------------------------------------------------------------- whole runs

  /** In every run rows stay in order, also with other clients at work. */
  lemma {:induction false} RunKeepsInv(s: Store, ops: seq<Op>)
    requires Inv(s)
    ensures Inv(After(s, ops))
  {
    if ops != [] {
      RunKeepsInv(s, ops[..|ops| - 1]);
      OpKeepsInv(After(s, ops[..|ops| - 1]), ops[|ops| - 1]);
    }
  }

  /** The same row at two times: what no update may change. */
  predicate SameRow(a: Task, b: Task) {
    a.ref == b.ref && a.serial == b.serial && a.request == b.request
  }

  /** Every row of a later state is a row of the earlier one with the same request and serial, or newer
      than all of them. */
  lemma {:induction false} RowsKeepIdentity(s: Store, ops: seq<Op>, row: Task)
    requires Inv(s) && row in After(s, ops).rows
    ensures (exists was :: was in s.rows && SameRow(was, row)) || (row.ref >= s.nextRef && row.serial >= s.issued)
    ensures After(s, ops).nextRef >= s.nextRef && After(s, ops).issued >= s.issued
  {
    if ops == [] {
      assert SameRow(row, row);
    } else {
      var front, op := ops[..|ops| - 1], ops[|ops| - 1];
      var mid := After(s, front);
      Grows(s, front);
      var was := Before(mid, op, row);
      if was in mid.rows {
        RowsKeepIdentity(s, front, was);
        if prior :| prior in s.rows && SameRow(prior, was) {
          assert SameRow(prior, row);
        }
      }
    }
  }

  lemma {:induction false} Grows(s: Store, ops: seq<Op>)
    ensures After(s, ops).nextRef >= s.nextRef && After(s, ops).issued >= s.issued
  {
    if ops != [] {
      Grows(s, ops[..|ops| - 1]);
    }
  }

  /** What a row was before one operation: the same row, or nothing yet. */
  lemma Before(s: Store, op: Op, row: Task) returns (was: Task)
    requires row in Do(s, op).rows
    ensures SameRow(was, row)
    ensures was in s.rows || (row.ref == s.nextRef && row.serial == s.issued)
  {
    was := row;
    if op.Update? {
      var p := RowOf(s.rows, op.task.ref);
      if p >= 0 && row !in s.rows {
        was := s.rows[p];
      }
    }
  }

  /** A row that was cancelled never comes back, so updates of its task change nothing, then or later. */
  lemma CancelledIsFinal(s: Store, ops: seq<Op>, task: Task)
    requires Inv(s) && task.ref < s.nextRef && forall row :: row in s.rows ==> row.ref != task.ref
    ensures Do(After(s, ops), Update(task)) == After(s, ops)
  {
    var rows := After(s, ops).rows;
    forall row | row in rows ensures row.ref != task.ref {
      RowsKeepIdentity(s, ops, row);
    }
    assert forall i :: 0 <= i < |rows| ==> rows[i] in rows;
  }

  /** A cancellation that is granted takes out the row it is for and no other. That row is gone for good: no later
      row has its serial, and an update of its task changes nothing, whatever happens in between. */
  lemma CancelTakesItsRow(s: Store, at: nat, ops: seq<Op>, progress: Progress)
    requires Inv(s) && at < |s.rows|
    ensures var row := s.rows[at]; var t := Do(s, Cancel(at, true));
      && t.rows == s.rows[..at] + s.rows[at + 1..] && row !in t.rows
      && (forall r :: r in s.rows && r != row ==> r in t.rows)
      && (forall r :: r in After(t, ops).rows ==> r.serial != row.serial && r.ref != row.ref)
      && Do(After(t, ops), Update(row.(progress := progress))) == After(t, ops)
    ensures Do(s, Cancel(at, false)) == s
  {
    var row, t := s.rows[at], Do(s, Cancel(at, true));
    OpKeepsInv(s, Cancel(at, true));
    forall i, j | 0 <= i < j < |s.rows| ensures s.rows[i] != s.rows[j] {
      assert s.rows[i].ref < s.rows[j].ref;
    }
    RemoveAtDistinct(s.rows, at);
    forall r | r in t.rows ensures r.ref != row.ref && r.serial != row.serial {
      var i :| 0 <= i < |s.rows| && s.rows[i] == r;
      assert i != at;
    }
    CancelledIsFinal(t, ops, row.(progress := progress));
    forall r | r in After(t, ops).rows ensures r.serial != row.serial && r.ref != row.ref {
      RowsKeepIdentity(t, ops, r);
    }
  }

  /** A worker's task taken at some time: if its row is still there, an update reaches exactly that row. */
  lemma UpdateReachesItsRow(s: Store, ops: seq<Op>, task: Task, progress: Progress)
    requires Inv(s) && task in s.rows
    ensures var t := After(s, ops);
      var u := Do(t, Update(task.(progress := progress)));
      && |u.rows| == |t.rows| && u.nextRef == t.nextRef && u.issued == t.issued
      && forall i :: 0 <= i < |t.rows| ==>
           && (t.rows[i].serial == task.serial ==>
                 SameRow(task, t.rows[i]) && u.rows[i] == t.rows[i].(progress := progress))
           && (t.rows[i].serial != task.serial ==> u.rows[i] == t.rows[i])
  {
    var t := After(s, ops);
    RunKeepsInv(s, ops);
    forall i | 0 <= i < |t.rows| ensures IsRow(task, t.rows[i]) {
      RowsKeepIdentity(s, ops, t.rows[i]);
      OneRow(s, task, t.rows[i]);
    }
    UpdateOneRow(t, task, progress);
  }

  lemma UpdateOneRow(t: Store, task: Task, progress: Progress)
    requires Inv(t) && forall i :: 0 <= i < |t.rows| ==> IsRow(task, t.rows[i])
    ensures var rows := Do(t, Update(task.(progress := progress))).rows;
      && |rows| == |t.rows|
      && forall i :: 0 <= i < |t.rows| ==>
           && (t.rows[i].serial == task.serial ==>
                 SameRow(task, t.rows[i]) && rows[i] == t.rows[i].(progress := progress))
           && (t.rows[i].serial != task.serial ==> rows[i] == t.rows[i])
  {
    var p := RowOf(t.rows, task.ref);
    forall i | 0 <= i < |t.rows| && t.rows[i].serial == task.serial ensures i == p {
      assert IsRow(task, t.rows[i]);
    }
  }

  /** Reference and serial name the same row. */
  predicate IsRow(task: Task, row: Task) {
    (row.ref == task.ref <==> row.serial == task.serial) && (row.ref == task.ref ==> SameRow(task, row))
  }

  lemma OneRow(s: Store, task: Task, row: Task)
    requires Inv(s) && task in s.rows
    requires (exists was :: was in s.rows && SameRow(was, row)) || (row.ref >= s.nextRef && row.serial >= s.issued)
    ensures IsRow(task, row)
  {
  }

  // ---------------------------------------------------------------- several clients

  /** One client's list. */
  datatype List = List(rows: seq<Task>, nextRef: nat)

  /** The lists of all clients over the one counter. */
  datatype World = World(lists: seq<List>, issued: nat)

  /** An operation of one client. */
  datatype Step = Step(client: nat, op: Op)

  function StoreOf(w: World, c: nat): Store
    requires c < |w.lists|
  {
    Store(w.lists[c].rows, w.lists[c].nextRef, w.issued)
  }

  function Act(w: World, step: Step): World {
    if step.client >= |w.lists| then w
    else
      var t := Do(StoreOf(w, step.client), step.op);
      World(w.lists[step.client := List(t.rows, t.nextRef)], t.issued)
  }

  function WorldAfter(w: World, steps: seq<Step>): World {
    if steps == [] then w else Act(WorldAfter(w, steps[..|steps| - 1]), steps[|steps| - 1])
  }

  /** Every list is in order, and no two lists hold the same serial. */
  ghost predicate WorldInv(w: World) {
    && (forall c: nat :: c < |w.lists| ==> Inv(StoreOf(w, c)))
    && (forall c: nat, d: nat :: c < d < |w.lists| ==> Apart(w.lists[c].rows, w.lists[d].rows))
  }

  ghost predicate Apart(a: seq<Task>, b: seq<Task>) {
    forall i, j :: 0 <= i < |a| && 0 <= j < |b| ==> a[i].serial != b[j].serial
  }

  /** What one client does looks to every other one like the turn of some other client. */
  lemma OthersSeeOthers(w: World, step: Step, c: nat)
    requires c < |w.lists| && step.client < |w.lists| && c != step.client
    ensures StoreOf(Act(w, step), c)
            == if step.op.Enqueue? || step.op.OtherClient? then Do(StoreOf(w, c), OtherClient) else StoreOf(w, c)
  {
  }

  lemma ActKeepsInv(w: World, step: Step)
    requires WorldInv(w)
    ensures WorldInv(Act(w, step))
  {
    if step.client < |w.lists| {
      var n, t := step.client, Do(StoreOf(w, step.client), step.op);
      OpKeepsInv(StoreOf(w, n), step.op);
      SerialsOf(StoreOf(w, n), step.op);
      var x := Act(w, step);
      forall c: nat | c < |x.lists| ensures Inv(StoreOf(x, c)) {
        assert Inv(StoreOf(w, c));
      }
      forall c: nat | c < |x.lists| && c != n ensures Apart(x.lists[c].rows, t.rows) && Apart(t.rows, x.lists[c].rows) {
        assert Inv(StoreOf(w, c));
        assert if c < n then Apart(w.lists[c].rows, w.lists[n].rows) else Apart(w.lists[n].rows, w.lists[c].rows);
      }
      forall c: nat, d: nat | c < d < |x.lists| ensures Apart(x.lists[c].rows, x.lists[d].rows) {
        assert Apart(w.lists[c].rows, w.lists[d].rows);
      }
    }
  }

  ghost predicate IsSerial(s: Store, serial: nat) {
    serial == s.issued || exists j :: 0 <= j < |s.rows| && s.rows[j].serial == serial
  }

  /** The serials after an operation are serials from before, or the new one. */
  lemma SerialsOf(s: Store, op: Op)
    ensures forall i :: 0 <= i < |Do(s, op).rows| ==>
              IsSerial(s, Do(s, op).rows[i].serial)
  {
    forall i | 0 <= i < |Do(s, op).rows|
      ensures IsSerial(s, Do(s, op).rows[i].serial)
    {
      var was := Before(s, op, Do(s, op).rows[i]);
    }
  }

  lemma {:induction false} WorldKeepsInv(w: World, steps: seq<Step>)
    requires WorldInv(w)
    ensures WorldInv(WorldAfter(w, steps))
  {
    if steps != [] {
      WorldKeepsInv(w, steps[..|steps| - 1]);
      ActKeepsInv(WorldAfter(w, steps[..|steps| - 1]), steps[|steps| - 1]);
    }
  }

  /** In every run of any number of clients, two rows, of one client or of two, share a task id exactly when a
      positive multiple of all gints was given out between them. */
  lemma IdsAreDistinct(w: World, steps: seq<Step>, c: nat, i: nat, d: nat, j: nat)
    requires WorldInv(w) && c < |WorldAfter(w, steps).lists| && d < |WorldAfter(w, steps).lists|
    requires i < |WorldAfter(w, steps).lists[c].rows| && j < |WorldAfter(w, steps).lists[d].rows| && (c != d || i != j)
    ensures var x := WorldAfter(w, steps);
      var a, b := x.lists[c].rows[i], x.lists[d].rows[j];
      && a.serial != b.serial && a.serial < x.issued && b.serial < x.issued
      && (TaskId(a) == TaskId(b) <==> (a.serial - b.serial) % GINTS == 0)
      && (x.issued <= GINTS ==> TaskId(a) != TaskId(b))
  {
    WorldKeepsInv(w, steps);
    var x := WorldAfter(w, steps);
    SerialsDiffer(x, c, i, d, j);
    IdsAgree(x.lists[c].rows[i].serial, x.lists[d].rows[j].serial);
  }

  lemma SerialsDiffer(x: World, c: nat, i: nat, d: nat, j: nat)
    requires WorldInv(x) && c < |x.lists| && d < |x.lists| && (c != d || i != j)
    requires i < |x.lists[c].rows| && j < |x.lists[d].rows|
    ensures var a, b := x.lists[c].rows[i].serial, x.lists[d].rows[j].serial;
      a != b && a < x.issued && b < x.issued
  {
    assert Inv(StoreOf(x, c)) && Inv(StoreOf(x, d));
    assert c < d ==> Apart(x.lists[c].rows, x.lists[d].rows);
    assert d < c ==> Apart(x.lists[d].rows, x.lists[c].rows);
  }

  // ---------------------------------------------------------------- fetching

  ghost predicate FirstWaiting(rows: seq<Task>, p: nat) {
    p < |rows| && rows[p].progress.status == Wait && forall i :: 0 <= i < p ==> rows[i].progress.status != Wait
  }

  ghost predicate NoneWaiting(rows: seq<Task>) {
    forall i :: 0 <= i < |rows| ==> rows[i].progress.status != Wait
  }

  /** The store after a worker reports its task as begun, finished or failed. */
  function Reported(s: Store, task: Task, status: Status): Store {
    Do(s, Update(task.(progress := task.progress.(status := status))))
  }

  /** A task that was reported is not given out again, whatever happens in between, unless an update puts it
      back to waiting. */
  lemma NotFetchedTwice(s: Store, ops: seq<Op>, task: Task, status: Status, p: nat)
    requires Inv(s) && task in s.rows && status != Wait
    requires forall i :: 0 <= i < |ops| && ops[i].Update? && ops[i].task.ref == task.ref ==>
               ops[i].task.progress.status != Wait
    requires FirstWaiting(After(Reported(s, task, status), ops).rows, p)
    ensures After(Reported(s, task, status), ops).rows[p].serial != task.serial
  {
    var begun := Reported(s, task, status);
    ReportedRow(s, task, status);
    var row := After(begun, ops).rows[p];
    RowsKeepIdentity(begun, ops, row);
    OneRow(begun, task.(progress := task.progress.(status := status)), row);
    if row.ref == task.ref {
      StaysBegun(begun, ops, task.ref, row);
    }
  }

  lemma ReportedRow(s: Store, task: Task, status: Status)
    requires Inv(s) && task in s.rows
    ensures var begun := Reported(s, task, status);
      && Inv(begun) && begun.nextRef == s.nextRef && task.(progress := task.progress.(status := status)) in begun.rows
      && forall i :: 0 <= i < |begun.rows| && begun.rows[i].ref == task.ref ==> begun.rows[i].progress.status == status
  {
    var progress := task.progress.(status := status);
    OpKeepsInv(s, Update(task.(progress := progress)));
    var p := RowOf(s.rows, task.ref);
    var k :| 0 <= k < |s.rows| && s.rows[k] == task;
    assert k == p;
    assert Reported(s, task, status).rows[k] == task.(progress := progress);
  }

  lemma {:induction false} StaysBegun(s: Store, ops: seq<Op>, ref: nat, row: Task)
    requires Inv(s) && ref < s.nextRef
    requires forall i :: 0 <= i < |s.rows| && s.rows[i].ref == ref ==> s.rows[i].progress.status != Wait
    requires forall i :: 0 <= i < |ops| && ops[i].Update? && ops[i].task.ref == ref ==>
               ops[i].task.progress.status != Wait
    requires row in After(s, ops).rows && row.ref == ref
    ensures row.progress.status != Wait
  {
    if ops != [] {
      var front, op := ops[..|ops| - 1], ops[|ops| - 1];
      Grows(s, front);
      if row in After(s, front).rows {
        StaysBegun(s, front, ref, row);
      } else {
        assert op == ops[|ops| - 1];
      }
    }
  }

  /** A row whose task nobody reports about keeps its progress as long as it is there. */
  lemma {:induction false} KeepsProgress(s: Store, ops: seq<Op>, ref: nat, progress: Progress, row: Task)
    requires Inv(s) && ref < s.nextRef
    requires forall i :: 0 <= i < |s.rows| && s.rows[i].ref == ref ==> s.rows[i].progress == progress
    requires forall i :: 0 <= i < |ops| && ops[i].Update? ==> ops[i].task.ref != ref
    requires row in After(s, ops).rows && row.ref == ref
    ensures row.progress == progress
  {
    if ops != [] {
      var front, op := ops[..|ops| - 1], ops[|ops| - 1];
      assert op.Update? ==> op.task.ref != ref;
      Grows(s, front);
      if row in After(s, front).rows {
        KeepsProgress(s, front, ref, progress, row);
      }
    }
  }

  /** A transfer that was asked for waits at the end of the list under the next id, with nothing done; as long
      as nobody reports about it, it still waits, and it is the one fetched once no row before it waits. */
  lemma EnqueuedIsFetched(s: Store, request: Request, size: real, ops: seq<Op>, p: nat)
    requires Inv(s) && forall i :: 0 <= i < |ops| && ops[i].Update? ==> ops[i].task.ref != s.nextRef
    requires var later := After(Do(s, Enqueue(request, size)), ops).rows;
      && p < |later| && later[p].serial == s.issued && forall i :: 0 <= i < p ==> later[i].progress.status != Wait
    ensures Do(s, Enqueue(request, size)).rows
            == s.rows + [Task(s.nextRef, s.issued, request, Progress(size, Wait, 0.0, None))]
    ensures var later := After(Do(s, Enqueue(request, size)), ops).rows;
      FirstWaiting(later, p) && later[p].request == request && later[p].progress == Progress(size, Wait, 0.0, None)
  {
    var t := Do(s, Enqueue(request, size));
    var row := After(t, ops).rows[p];
    OpKeepsInv(s, Enqueue(request, size));
    RowsKeepIdentity(t, ops, row);
    assert row.ref == s.nextRef && row.request == request;
    KeepsProgress(t, ops, s.nextRef, Progress(size, Wait, 0.0, None), row);
  }

  // ---------------------------------------------------------------- the client

  /** remmina_ftp_client_taskid, which is IdOf(issued). */
  class TaskIds {
    var issued: nat

    constructor ()
      ensures issued == 0
    {
      issued := 0;
    }
  }

  /** A file the user chose: `size` is absent when it cannot be examined. */
  datatype Chosen = Chosen(path: string, size: Option<real>)

  /** The last '/' of a path, or -1 (g_strrstr). */
  function LastSlash(path: string): (k: int)
    ensures -1 <= k < |path| && (k >= 0 ==> path[k] == '/') && forall i :: k < i < |path| ==> path[i] != '/'
  {
    if path == "" then -1
    else if path[|path| - 1] == '/' then |path| - 1
    else LastSlash(path[..|path| - 1])
  }

  function NameOf(path: string): string {
    path[LastSlash(path) + 1..]
  }

  function DirOf(path: string): Option<string> {
    var k := LastSlash(path);
    if k < 0 then None else Some(path[..k])
  }

  /** A path is its directory, a slash and its name; a path without a slash is a name alone. */
  lemma PathParts(path: string)
    ensures '/' !in NameOf(path)
    ensures path == match DirOf(path) case None => NameOf(path) case Some(dir) => dir + "/" + NameOf(path)
  {
  }

  /** The operations an upload of several files comes to: files that cannot be examined are skipped. */
  function Uploads(files: seq<Chosen>, fileType: FileType, remoteDir: Option<string>): seq<Op> {
    if files == [] then []
    else
      var f := files[|files| - 1];
      Uploads(files[..|files| - 1], fileType, remoteDir)
      + if f.size.None? then []
        else [Enqueue(Request(fileType, NameOf(f.path), Upload, remoteDir, DirOf(f.path)), f.size.value)]
  }

  /** The files that can be examined. */
  function Examined(files: seq<Chosen>): (r: seq<Chosen>)
    ensures forall f :: f in r <==> f in files && f.size.Some?
  {
    if files == [] then []
    else Examined(files[..|files| - 1]) + if files[|files| - 1].size.Some? then [files[|files| - 1]] else []
  }

  /** A row that waits to upload a file: directory and name make up its path, and the name has no slash. */
  predicate IsUpload(row: Task, f: Chosen, folder: bool, remoteDir: Option<string>) {
    var q := row.request;
    && q.taskType == Upload && q.fileType == (if folder then Directory else File) && q.remoteDir == remoteDir
    && '/' !in q.name && f.path == (if q.localDir.Some? then q.localDir.value + "/" else "") + q.name
    && f.size.Some? && row.progress == Progress(f.size.value, Wait, 0.0, None)
  }

  /** A row for each of these files, in order; the ids follow each other. */
  ghost predicate AllUploads(added: seq<Task>, serial: nat, files: seq<Chosen>, folder: bool,
                             remoteDir: Option<string>) {
    && |added| == |files|
    && forall i :: 0 <= i < |files| ==>
         added[i].serial == serial + i && IsUpload(added[i], files[i], folder, remoteDir)
  }

  /** From s to t these files got their rows. */
  ghost predicate Uploaded(s: Store, t: Store, files: seq<Chosen>, folder: bool, remoteDir: Option<string>) {
    && s.rows <= t.rows && t.issued == s.issued + |files|
    && AllUploads(t.rows[|s.rows|..], s.issued, files, folder, remoteDir)
  }

  lemma UploadedOneMore(s: Store, t: Store, files: seq<Chosen>, f: Chosen, folder: bool, remoteDir: Option<string>)
    requires Uploaded(s, t, files, folder, remoteDir) && f.size.Some?
    ensures var fileType := if folder then Directory else File;
      var u := Do(t, Enqueue(Request(fileType, NameOf(f.path), Upload, remoteDir, DirOf(f.path)), f.size.value));
      Uploaded(s, u, files + [f], folder, remoteDir)
  {
    var row := NewUpload(t, f, folder, remoteDir);
    OneMoreUpload(t.rows[|s.rows|..], s.issued, files, row, f, folder, remoteDir);
    RestOfLonger(t.rows, |s.rows|, row);
  }

  lemma NewUpload(t: Store, f: Chosen, folder: bool, remoteDir: Option<string>) returns (row: Task)
    requires f.size.Some?
    ensures var fileType := if folder then Directory else File;
      row == New(t, Request(fileType, NameOf(f.path), Upload, remoteDir, DirOf(f.path)), f.size.value)
    ensures IsUpload(row, f, folder, remoteDir)
  {
    var fileType := if folder then Directory else File;
    row := New(t, Request(fileType, NameOf(f.path), Upload, remoteDir, DirOf(f.path)), f.size.value);
    PathParts(f.path);
  }

  lemma RestOfLonger(rows: seq<Task>, n: nat, row: Task)
    requires n <= |rows|
    ensures (rows + [row])[n..] == rows[n..] + [row]
  {
  }

  lemma OneMoreUpload(added: seq<Task>, serial: nat, files: seq<Chosen>, row: Task, f: Chosen, folder: bool,
                      remoteDir: Option<string>)
    requires AllUploads(added, serial, files, folder, remoteDir)
    requires row.serial == serial + |files| && IsUpload(row, f, folder, remoteDir)
    ensures AllUploads(added + [row], serial, files + [f], folder, remoteDir)
  {
  }

  lemma {:induction false} UploadedRows(s: Store, files: seq<Chosen>, folder: bool, remoteDir: Option<string>)
    ensures var t := After(s, Uploads(files, if folder then Directory else File, remoteDir));
      Uploaded(s, t, Examined(files), folder, remoteDir)
  {
    if files != [] {
      var k, fileType := |files| - 1, if folder then Directory else File;
      UploadedRows(s, files[..k], folder, remoteDir);
      UploadsStep(s, files, k, fileType, remoteDir);
      assert files[..k + 1] == files;
      var t := After(s, Uploads(files[..k], fileType, remoteDir));
      if files[k].size.Some? {
        UploadedOneMore(s, t, Examined(files[..k]), files[k], folder, remoteDir);
      } else {
        assert Examined(files) == Examined(files[..k]);
      }
    }
  }

  class Client {
    const ids: TaskIds
    var rows: seq<Task>
    var nextRef: nat
    var currentDirectory: Option<string>

    ghost function View(): Store
      reads this, ids
    {
      Store(rows, nextRef, ids.issued)
    }

    constructor (ids: TaskIds)
      ensures this.ids == ids && rows == [] && Inv(View())
    {
      this.ids := ids;
      rows, nextRef, currentDirectory := [], 0, None;
    }

    method Append(request: Request, size: real)
      modifies this`rows, this`nextRef, ids
      ensures View() == Do(old(View()), Enqueue(request, size))
    {
      rows := rows + [Task(nextRef, ids.issued, request, Progress(size, Wait, 0.0, None))];
      nextRef := nextRef + 1;
      ids.issued := ids.issued + 1;
    }

    /** remmina_ftp_client_download */
    method DownloadFile(fileType: FileType, name: string, size: real, localDir: string)
      modifies this`rows, this`nextRef, ids
      ensures var request := Request(fileType, name, Download, currentDirectory, Some(localDir));
        View() == Do(old(View()), Enqueue(request, size))
      ensures rows == old(rows) + [Task(old(nextRef), old(ids.issued),
                                        Request(fileType, name, Download, currentDirectory, Some(localDir)),
                                        Progress(size, Wait, 0.0, None))]
    {
      Append(Request(fileType, name, Download, currentDirectory, Some(localDir)), size);
    }

    /** remmina_ftp_client_action_upload, once the files are chosen. */
    method UploadFiles(files: seq<Chosen>, folder: bool)
      modifies this`rows, this`nextRef, ids
      ensures View() == After(old(View()), Uploads(files, if folder then Directory else File, currentDirectory))
      ensures old(rows) <= rows
              && AllUploads(rows[|old(rows)|..], old(ids.issued), Examined(files), folder, currentDirectory)
    {
      var fileType := if folder then Directory else File;
      ghost var was := View();
      for i := 0 to |files|
        invariant View() == After(was, Uploads(files[..i], fileType, currentDirectory))
      {
        var f := files[i];
        UploadsStep(was, files, i, fileType, currentDirectory);
        if f.size.None? {
          continue;
        }
        Append(Request(fileType, NameOf(f.path), Upload, currentDirectory, DirOf(f.path)), f.size.value);
      }
      assert files[..|files|] == files;
      UploadedRows(was, files, folder, currentDirectory);
    }

    /** remmina_ftp_client_task_list_cell_on_activate: the user cancels the row at a position; whoever runs the
        transfers grants it or not. */
    method CancelTask(at: nat, granted: bool) returns (id: int)
      requires at < |rows|
      modifies this`rows
      ensures id == TaskId(old(rows)[at]) && View() == Do(old(View()), Cancel(at, granted))
      ensures rows == if granted then old(rows)[..at] + old(rows)[at + 1..] else old(rows)
    {
      id := TaskId(rows[at]);
      if granted {
        rows := rows[..at] + rows[at + 1..];
      }
    }

    /** remmina_ftp_client_get_waiting_task */
    method GetWaitingTask() returns (task: Option<Task>)
      ensures task.None? ==> NoneWaiting(rows)
      ensures task.Some? ==> exists p: nat :: FirstWaiting(rows, p) && task.value == rows[p]
    {
      var i := 0;
      while i < |rows|
        invariant i <= |rows|
        invariant forall j :: 0 <= j < i ==> rows[j].progress.status != Wait
      {
        if rows[i].progress.status == Wait {
          assert FirstWaiting(rows, i);
          return Some(rows[i]);
        }
        i := i + 1;
      }
      task := None;
    }

    /** remmina_ftp_client_update_task */
    method UpdateTask(task: Task)
      modifies this`rows
      ensures View() == Do(old(View()), Update(task))
    {
      var p := RowOf(rows, task.ref);
      if p < 0 {
        return;
      }
      rows := rows[p := rows[p].(progress := task.progress)];
    }
  }

  lemma UploadsStep(s: Store, files: seq<Chosen>, i: nat, fileType: FileType, remoteDir: Option<string>)
    requires i < |files|
    ensures var f := files[i];
      var before := After(s, Uploads(files[..i], fileType, remoteDir));
      After(s, Uploads(files[..i + 1], fileType, remoteDir)) ==
      if f.size.None? then before
      else Do(before, Enqueue(Request(fileType, NameOf(f.path), Upload, remoteDir, DirOf(f.path)), f.size.value))
  {
    var f, ops := files[i], Uploads(files[..i], fileType, remoteDir);
    assert files[..i + 1][..i] == files[..i] && files[..i + 1][i] == f;
    if f.size.Some? {
      AfterOneMore(s, ops, Enqueue(Request(fileType, NameOf(f.path), Upload, remoteDir, DirOf(f.path)), f.size.value));
    } else {
      assert ops + [] == ops;
    }
  }

  lemma AfterOneMore(s: Store, ops: seq<Op>, op: Op)
    ensures After(s, ops + [op]) == Do(After(s, ops), op)
  {
    assert (ops + [op])[..|ops|] == ops;
  }
}
