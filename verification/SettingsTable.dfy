/** The settings tables of the open profiles, as remmina_file_get_string and remmina_file_set_string see
    them once they run on the main thread, and sequences of such operations. */
module SettingsTable {
  import opened Basics

  /** A setting of one of the open profiles. */
  datatype Key = Key(file: nat, setting: string)

  type Table = map<Key, string>

  datatype Op =
    | GetString(key: Key)
    | SetString(key: Key, value: Option<string>)
    | OtherCall  // any function of the protocol that leaves the settings alone

  /** An operation together with what it returned. */
  datatype Taken = Taken(op: Op, result: Option<string>)

  const DEPRECATED := "resolution"

  /** set_string does not take a value for the deprecated setting. */
  predicate Refused(setting: string, value: Option<string>) {
    value.Some? && setting == DEPRECATED
  }

  /** What get_string shows of what is stored: an empty value reads as NULL. */
  function Shown(setting: string, stored: Option<string>): Option<string> {
    if setting == DEPRECATED || stored == Some("") then None else stored
  }

  predicate Writes(op: Op, key: Key) {
    op.SetString? && op.key == key && !Refused(key.setting, op.value)
  }

  function Stored(value: Option<string>): string {
    if value.None? then "" else value.value
  }

  function Effect(op: Op, table: Table): Table {
    if op.SetString? && Writes(op, op.key) then table[op.key := Stored(op.value)] else table
  }

  function Lookup(table: Table, key: Key): Option<string> {
    Shown(key.setting, if key in table then Some(table[key]) else None)
  }

  function Result(op: Op, table: Table): Option<string> {
    if op.GetString? then Lookup(table, op.key) else None
  }

  function After(table: Table, ops: seq<Taken>): Table {
    if |ops| == 0 then table else Effect(ops[|ops| - 1].op, After(table, ops[..|ops| - 1]))
  }

  /** A sequential run: every operation returned what it returns when the ones before it ran one by one. */
  ghost predicate Sequential(table: Table, ops: seq<Taken>) {
    forall p :: 0 <= p < |ops| ==> ops[p].result == Result(ops[p].op, After(table, ops[..p]))
  }

  lemma AfterSnoc(table: Table, ops: seq<Taken>, last: Taken)
    ensures After(table, ops + [last]) == Effect(last.op, After(table, ops))
  {
    assert (ops + [last])[..|ops|] == ops;
  }

  /** Running one more operation after a sequential run. */
  lemma SequentialSnoc(table: Table, ops: seq<Taken>, last: Taken)
    requires Sequential(table, ops)
    requires last.result == Result(last.op, After(table, ops))
    ensures Sequential(table, ops + [last])
  {
    var all := ops + [last];
    forall p | 0 <= p < |all| ensures all[p].result == Result(all[p].op, After(table, all[..p])) {
      if p < |ops| {
        assert all[..p] == ops[..p];
      } else {
        assert all[..p] == ops;
      }
    }
  }

  ghost predicate LastWrite(ops: seq<Taken>, p: nat, key: Key, q: int)
    requires p <= |ops|
  {
    0 <= q < p && Writes(ops[q].op, key) && forall r :: q < r < p ==> !Writes(ops[r].op, key)
  }

  /** After a run, a key holds the value of its last write, or its first value if there was none. */
  lemma {:induction false} ValueOfLastWrite(table: Table, ops: seq<Taken>, key: Key)
    ensures
      (exists q :: LastWrite(ops, |ops|, key, q) && key in After(table, ops)
                   && After(table, ops)[key] == Stored(ops[q].op.value))
      || ((forall r :: 0 <= r < |ops| ==> !Writes(ops[r].op, key))
          && (key in After(table, ops) <==> key in table)
          && (key in table ==> After(table, ops)[key] == table[key]))
  {
    if |ops| == 0 {
    } else {
      var n := |ops| - 1;
      var before := ops[..n];
      ValueOfLastWrite(table, before, key);
      if Writes(ops[n].op, key) {
        assert LastWrite(ops, |ops|, key, n);
      } else if q :| LastWrite(before, |before|, key, q) {
        assert LastWrite(ops, |ops|, key, q);
      } else {
        assert forall r :: 0 <= r < n ==> before[r] == ops[r];
      }
    }
  }

  /** The last set of a key before position p, whatever value it had. */
  ghost predicate LastSet(ops: seq<Taken>, p: nat, key: Key, q: int)
    requires p <= |ops|
  {
    0 <= q < p && SetsKey(ops[q].op, key) && forall r :: q < r < p ==> !SetsKey(ops[r].op, key)
  }

  predicate SetsKey(op: Op, key: Key) {
    op.SetString? && op.key == key
  }

  /** In a sequential run each get returns the last earlier set of that key (NULL when that set was NULL or
      empty), or the key's first value when nothing was set before; "resolution" always reads as NULL. */
  lemma GetReturnsLastSet(table: Table, ops: seq<Taken>, p: nat)
    requires Sequential(table, ops)
    requires p < |ops| && ops[p].op.GetString?
    ensures var key := ops[p].op.key;
      if key.setting == "resolution" then ops[p].result == None
      else if exists q :: LastSet(ops, p, key, q) then
        exists q :: LastSet(ops, p, key, q)
          && ops[p].result == if ops[q].op.value == Some("") then None else ops[q].op.value
      else ops[p].result == if key in table && table[key] != "" then Some(table[key]) else None
  {
    var key := ops[p].op.key;
    var before := ops[..p];
    ValueOfLastWrite(table, before, key);
    LastWriteBefore(ops, p, key);
    if key.setting != DEPRECATED {
      assert forall r :: 0 <= r < p ==> (SetsKey(ops[r].op, key) <==> Writes(ops[r].op, key));
      if q :| LastWrite(before, |before|, key, q) && key in After(table, before)
              && After(table, before)[key] == Stored(ops[q].op.value) {
        assert LastWrite(ops, p, key, q);
        assert LastSet(ops, p, key, q);
      }
    }
  }

  lemma LastWriteBefore(ops: seq<Taken>, p: nat, key: Key)
    requires p <= |ops|
    ensures forall q :: LastWrite(ops[..p], p, key, q) <==> LastWrite(ops, p, key, q)
    ensures (forall r :: 0 <= r < p ==> !Writes(ops[..p][r].op, key))
            <==> (forall r :: 0 <= r < p ==> !Writes(ops[r].op, key))
  {
    assert forall r :: 0 <= r < p ==> ops[..p][r] == ops[r];
  }
}
