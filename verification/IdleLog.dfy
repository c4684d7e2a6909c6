/** The idles by which the main loop hears that a plugin's connection has ended, as a log of what each event of
    a run did to the connections. Connections are numbered in the order in which they were opened. */
module IdleLog {
  import opened Basics

  /** One event: the connection whose plugin reported its end, the connection whose idle ran and whether the
      idle found it, and the connections that were freed. */
  datatype Note = Note(ended: Option<nat>, idle: Option<nat>, found: bool, freed: set<nat>)

  type Log = seq<Note>

  predicate Reports(e: Note, c: nat) {
    e.ended == Some(c)
  }

  predicate RunsIdle(e: Note, c: nat) {
    e.idle == Some(c)
  }

  /** How many idles of a connection are still to come after the first n events. */
  function Pending(log: Log, n: nat, c: nat): int
    requires n <= |log|
  {
    if n == 0 then 0
    else
      Pending(log, n - 1, c)
      + (if Reports(log[n - 1], c) then 1 else 0)
      - (if RunsIdle(log[n - 1], c) then 1 else 0)
  }

  /** The connection was freed by one of the first n events. */
  ghost predicate Freed(log: Log, n: nat, c: nat)
    requires n <= |log|
  {
    exists q :: 0 <= q < n && c in log[q].freed
  }

  /** Only a connection that is there reports its end or is freed; only a pending idle runs, and it finds its
      connection exactly when that is still there. */
  ghost predicate EventFits(log: Log, p: nat)
    requires p < |log|
  {
    var e := log[p];
    && (e.ended.Some? ==> !Freed(log, p, e.ended.value))
    && (e.idle.Some? ==> Pending(log, p, e.idle.value) > 0 && e.found == !Freed(log, p, e.idle.value))
    && (forall c :: c in e.freed ==> !Freed(log, p, c))
  }

  ghost predicate Consistent(log: Log) {
    forall p :: 0 <= p < |log| ==> EventFits(log, p)
  }

  /** The connection is freed while an idle of its own is still to come. */
  ghost predicate StrandedAt(log: Log, q: nat, c: nat)
    requires q < |log|
  {
    c in log[q].freed && Pending(log, q + 1, c) > 0
  }

  /** An idle finds its connection exactly when no earlier event freed the connection with an idle to come. */
  lemma IdleFindsExactlyWhen(log: Log, p: nat, c: nat)
    requires Consistent(log) && p < |log| && RunsIdle(log[p], c)
    ensures log[p].found <==> forall q :: 0 <= q < p ==> !StrandedAt(log, q, c)
  {
    assert EventFits(log, p);
    if Freed(log, p, c) {
      var q :| 0 <= q < p && c in log[q].freed;
      NothingReported(log, q, p, c);
      assert StrandedAt(log, q, c);
    }
  }

  /** A connection that was freed reports nothing more, so its idles only run out. */
  lemma {:induction false} NothingReported(log: Log, q: nat, n: nat, c: nat)
    requires Consistent(log) && q < n <= |log| && c in log[q].freed
    ensures Pending(log, n, c) <= Pending(log, q + 1, c)
  {
    if q + 1 < n {
      NothingReported(log, q, n - 1, c);
      assert EventFits(log, n - 1);
    }
  }

  /** Idles to come are those reported and not yet run, never fewer than none. */
  lemma {:induction false} PendingIsNatural(log: Log, n: nat, c: nat)
    requires Consistent(log) && n <= |log|
    ensures Pending(log, n, c) >= 0
  {
    if n > 0 {
      PendingIsNatural(log, n - 1, c);
      assert EventFits(log, n - 1);
    }
  }

  // ---------------------------------------------------------------- one event more

  /** The numbers in a log are below a bound. */
  ghost predicate Below(e: Note, bound: nat) {
    && (e.ended.Some? ==> e.ended.value < bound)
    && (e.idle.Some? ==> e.idle.value < bound)
    && (forall c :: c in e.freed ==> c < bound)
  }

  ghost predicate AllBelow(log: Log, bound: nat) {
    forall p :: 0 <= p < |log| ==> Below(log[p], bound)
  }

  lemma {:induction false} LogGrows(log: Log, e: Note, n: nat, c: nat)
    requires n <= |log|
    ensures Pending(log + [e], n, c) == Pending(log, n, c)
    ensures Freed(log + [e], n, c) <==> Freed(log, n, c)
  {
    if n > 0 {
      LogGrows(log, e, n - 1, c);
    }
    assert forall q :: 0 <= q < n ==> (log + [e])[q] == log[q];
  }

  lemma LogStep(log: Log, e: Note, c: nat)
    ensures var all := log + [e];
      && Pending(all, |all|, c)
         == Pending(log, |log|, c) + (if Reports(e, c) then 1 else 0) - (if RunsIdle(e, c) then 1 else 0)
      && (Freed(all, |all|, c) <==> Freed(log, |log|, c) || c in e.freed)
  {
    var all := log + [e];
    LogGrows(log, e, |log|, c);
    assert all[|log|] == e;
    if c in e.freed {
      assert c in all[|log|].freed;
    }
    if q :| 0 <= q < |all| && c in all[q].freed && q < |log| {
      assert c in log[q].freed;
    }
    if q :| 0 <= q < |log| && c in log[q].freed {
      assert c in all[q].freed;
    }
  }

  lemma ConsistentGrows(log: Log, e: Note)
    requires Consistent(log)
    requires e.ended.Some? ==> !Freed(log, |log|, e.ended.value)
    requires e.idle.Some? ==> Pending(log, |log|, e.idle.value) > 0 && e.found == !Freed(log, |log|, e.idle.value)
    requires forall c :: c in e.freed ==> !Freed(log, |log|, c)
    ensures Consistent(log + [e])
  {
    var all := log + [e];
    forall p | 0 <= p < |all| ensures EventFits(all, p) {
      forall c ensures Pending(all, p, c) == Pending(log, p, c) && (Freed(all, p, c) <==> Freed(log, p, c)) {
        LogGrows(log, e, p, c);
      }
      assert p < |log| ==> EventFits(log, p);
    }
  }

  /** A connection that is not in the log yet has no idles and was not freed. */
  lemma {:induction false} Untouched(log: Log, n: nat, c: nat)
    requires AllBelow(log, c) && n <= |log|
    ensures Pending(log, n, c) == 0 && !Freed(log, n, c)
  {
    if n > 0 {
      Untouched(log, n - 1, c);
    }
  }
}
