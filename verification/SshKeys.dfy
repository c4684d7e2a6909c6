/** The settings of a profile as a table, and the migration of SSH settings from before version 1.4. */
module SshKeys {
  import opened Basics
  import opened Numbers
  import SettingsTable

  type Table = map<string, string>

  /** remmina_file_get_string on the main thread. */
  function Get(t: Table, key: string): Option<string> {
    SettingsTable.Shown(key, if key in t then Some(t[key]) else None)
  }

  /** remmina_file_set_string on the main thread. */
  function Set(t: Table, key: string, value: Option<string>): Table {
    if SettingsTable.Refused(key, value) then t else t[key := SettingsTable.Stored(value)]
  }

  // ---------------------------------------------------------------- one profile among all

  /** The settings of one profile in the table of all. */
  function ProfileOf(all: SettingsTable.Table, file: nat): Table {
    map k: SettingsTable.Key | k in all && k.file == file :: k.setting := all[k]
  }

  /** The sets of one profile among the operations of a run, in order. */
  function SetAll(t: Table, ops: seq<SettingsTable.Taken>, file: nat): Table {
    if ops == [] then t
    else
      var before, op := SetAll(t, ops[..|ops| - 1], file), ops[|ops| - 1].op;
      if op.SetString? && op.key.file == file then Set(before, op.key.setting, op.value) else before
  }

  lemma GetIsLookup(all: SettingsTable.Table, file: nat, setting: string)
    ensures Get(ProfileOf(all, file), setting) == SettingsTable.Lookup(all, SettingsTable.Key(file, setting))
  {
    var k := SettingsTable.Key(file, setting);
    assert setting in ProfileOf(all, file) <==> k in all;
  }

  lemma SetIsEffect(all: SettingsTable.Table, op: SettingsTable.Op, file: nat)
    ensures var t := ProfileOf(all, file);
      ProfileOf(SettingsTable.Effect(op, all), file)
      == if op.SetString? && op.key.file == file then Set(t, op.key.setting, op.value) else t
  {
    var next := SettingsTable.Effect(op, all);
    assert forall k :: k in next <==> k in all || (op.SetString? && SettingsTable.Writes(op, op.key) && k == op.key);
    forall s: string ensures s in ProfileOf(next, file) <==> SettingsTable.Key(file, s) in next {
    }
    forall s: string ensures s in ProfileOf(all, file) <==> SettingsTable.Key(file, s) in all {
    }
  }

  /** What the threads left in a profile after any run is what its sets in main's order of execution leave: that
      is the table that migrations, saving and loading work on. */
  lemma {:induction false} ProfileAfterRun(all: SettingsTable.Table, ops: seq<SettingsTable.Taken>, file: nat)
    ensures ProfileOf(SettingsTable.After(all, ops), file) == SetAll(ProfileOf(all, file), ops, file)
  {
    if ops != [] {
      ProfileAfterRun(all, ops[..|ops| - 1], file);
      SetIsEffect(SettingsTable.After(all, ops[..|ops| - 1]), ops[|ops| - 1].op, file);
    }
  }

  /** remmina_file_get_int */
  function GetInt(t: Table, key: string, default_: int): int {
    if key !in t || t[key] == "" then default_ else if t[key][0] == 't' then 1 else Atoi(t[key])
  }

  /** A setting that moves: `common` ones only move when a tunnel was enabled, and stay in an SSH profile. */
  datatype Rule = Rule(suffix: string, common: bool)

  const RULES: seq<Rule> := [
    Rule("stricthostkeycheck", true), Rule("kex_algorithms", true), Rule("hostkeytypes", true),
    Rule("ciphers", true), Rule("proxycommand", true), Rule("passphrase", true), Rule("auth", true),
    Rule("privatekey", true),
    Rule("loopback", false), Rule("username", false), Rule("password", false), Rule("server", false)]

  function Src(r: Rule): string {
    "ssh_" + r.suffix
  }

  function Dst(r: Rule): string {
    "ssh_tunnel_" + r.suffix
  }

  /** The user name and password of an SSH profile also become those of the connection itself. */
  predicate AlsoPlain(r: Rule, ssh: bool) {
    ssh && MayBePlain(r)
  }

  predicate MayBePlain(r: Rule) {
    !r.common && (r.suffix == "username" || r.suffix == "password")
  }

  function Apply(t: Table, r: Rule, ssh: bool, on: bool): Table {
    var val := Get(t, Src(r));
    if val.None? then t
    else if r.common then
      var moved := if on then t[Dst(r) := val.value] else t;
      if ssh then moved else moved[Src(r) := ""]
    else
      var moved := t[Dst(r) := val.value];
      var plain := if AlsoPlain(r, ssh) then moved[r.suffix := val.value] else moved;
      plain[Src(r) := ""]
  }

  function ApplyAll(t: Table, rules: seq<Rule>, ssh: bool, on: bool): Table
    decreases |rules|, |t|
  {
    if rules == [] then t else ApplyAll(Apply(t, rules[0], ssh, on), rules[1..], ssh, on)
  }

  predicate IsSsh(t: Table) {
    Get(t, "protocol") == Some("SSH")
  }

  predicate TunnelOn(t: Table) {
    GetInt(t, "ssh_enabled", 0) != 0
  }

  /** upgrade_sshkeys_202001 */
  function Upgraded(t: Table): Table {
    if Get(t, "ssh_enabled").None? then t
    else ApplyAll(t, RULES, IsSsh(t), TunnelOn(t))["ssh_tunnel_enabled" := Print(GetInt(t, "ssh_enabled", 0))]
  }

  // ---------------------------------------------------------------- which rule touches which key

  predicate Touches(r: Rule, key: string) {
    key == Src(r) || key == Dst(r) || (!r.common && key == r.suffix && key in {"username", "password"})
  }

  /** No suffix starts with "t", so no setting moves onto the source of another; none is "enabled". */
  ghost predicate WellFormed(rules: seq<Rule>) {
    && (forall i :: 0 <= i < |rules| ==>
          rules[i].suffix != "" && rules[i].suffix[0] != 't' && rules[i].suffix != "enabled")
    && (forall i, j :: 0 <= i < j < |rules| ==> rules[i].suffix != rules[j].suffix)
  }

  lemma RulesAreWellFormed()
    ensures WellFormed(RULES)
  {
    SuffixesDiffer();
    SuffixesStart();
  }

  /** Lengths and second letters tell the suffixes apart. */
  lemma SuffixesDiffer()
    ensures forall i, j :: 0 <= i < j < |RULES| ==> RULES[i].suffix != RULES[j].suffix
  {
    var s := seq(|RULES|, i requires 0 <= i < |RULES| => RULES[i].suffix);
    assert |s[0]| == 18 && |s[1]| == 14 && |s[2]| == 12 && |s[3]| == 7 && |s[4]| == 12 && |s[5]| == 10;
    assert |s[6]| == 4 && |s[7]| == 10 && |s[8]| == 8 && |s[9]| == 8 && |s[10]| == 8 && |s[11]| == 6;
    assert s[2][1] == 'o' && s[4][1] == 'r' && s[5][1] == 'a' && s[7][1] == 'r';
    assert s[8][1] == 'o' && s[9][1] == 's' && s[10][1] == 'a';
    forall i, j | 0 <= i < j < |RULES| ensures RULES[i].suffix != RULES[j].suffix {
      assert s[i] == RULES[i].suffix && s[j] == RULES[j].suffix;
    }
  }

  lemma SuffixesStart()
    ensures forall i :: 0 <= i < |RULES| ==>
              RULES[i].suffix != "" && RULES[i].suffix[0] != 't' && RULES[i].suffix != "enabled"
  {
    forall i | 0 <= i < |RULES|
      ensures RULES[i].suffix != "" && RULES[i].suffix[0] != 't' && RULES[i].suffix[0] != 'e'
    {
      assert RULES[0].suffix[0] == 's' && RULES[1].suffix[0] == 'k' && RULES[2].suffix[0] == 'h';
      assert RULES[3].suffix[0] == 'c' && RULES[4].suffix[0] == 'p' && RULES[5].suffix[0] == 'p';
      assert RULES[6].suffix[0] == 'a' && RULES[7].suffix[0] == 'p' && RULES[8].suffix[0] == 'l';
      assert RULES[9].suffix[0] == 'u' && RULES[10].suffix[0] == 'p' && RULES[11].suffix[0] == 's';
    }
    assert "enabled"[0] == 'e';
  }

  lemma Keys(r: Rule, q: Rule)
    requires r.suffix != "" && r.suffix[0] != 't' && q.suffix != "" && q.suffix[0] != 't' && r.suffix != q.suffix
    ensures !Touches(q, Src(r)) && !Touches(q, Dst(r))
    ensures Src(r) != Dst(r) && (r.suffix in {"username", "password"} ==> !Touches(q, r.suffix))
  {
    assert Src(r)[4..] == r.suffix && Src(q)[4..] == q.suffix;
    assert Dst(r)[11..] == r.suffix && Dst(q)[11..] == q.suffix;
    assert Dst(r)[4] == 't' && Dst(q)[4] == 't';
    assert Src(r)[4] == r.suffix[0] && Src(q)[4] == q.suffix[0];
    assert Src(r)[0] == 's' && Dst(r)[0] == 's' && Src(q)[0] == 's' && Dst(q)[0] == 's';
  }

  lemma ApplyElsewhere(t: Table, r: Rule, ssh: bool, on: bool, key: string)
    requires !Touches(r, key)
    ensures var u := Apply(t, r, ssh, on); (key in u <==> key in t) && (key in t ==> u[key] == t[key])
  {
  }

  lemma {:induction false} UntouchedStays(t: Table, rules: seq<Rule>, ssh: bool, on: bool, key: string)
    requires forall i :: 0 <= i < |rules| ==> !Touches(rules[i], key)
    ensures var u := ApplyAll(t, rules, ssh, on); (key in u <==> key in t) && (key in t ==> u[key] == t[key])
    decreases |rules|
  {
    if rules != [] {
      ApplyElsewhere(t, rules[0], ssh, on, key);
      UntouchedStays(Apply(t, rules[0], ssh, on), rules[1..], ssh, on, key);
    }
  }

  /** What one rule leaves behind, and what applying it again would not change. */
  ghost predicate Settled(t: Table, r: Rule, ssh: bool, on: bool) {
    var val := Get(t, Src(r));
    val.Some? ==> r.common && ssh && (on ==> Dst(r) in t && t[Dst(r)] == val.value)
  }

  /** Each rule of a list sees the first value of its source, and its results survive the other rules. */
  lemma {:induction false} RuleTakesEffect(t: Table, rules: seq<Rule>, ssh: bool, on: bool, i: nat)
    requires WellFormed(rules) && i < |rules|
    ensures var r := rules[i]; var u := ApplyAll(t, rules, ssh, on); var v := Apply(t, r, ssh, on);
      && Get(u, Src(r)) == Get(v, Src(r))
      && (Dst(r) in u <==> Dst(r) in v) && (Dst(r) in u ==> u[Dst(r)] == v[Dst(r)])
      && (MayBePlain(r) ==> Get(u, r.suffix) == Get(v, r.suffix))
    decreases |rules|
  {
    var r := rules[i];
    var rest := rules[1..];
    if i == 0 {
      var v := Apply(t, r, ssh, on);
      forall j | 0 <= j < |rest|
        ensures !Touches(rest[j], Src(r)) && !Touches(rest[j], Dst(r))
        ensures MayBePlain(r) ==> !Touches(rest[j], r.suffix)
      {
        assert rest[j] == rules[j + 1];
        Keys(r, rest[j]);
      }
      UntouchedStays(v, rest, ssh, on, Src(r));
      UntouchedStays(v, rest, ssh, on, Dst(r));
      if MayBePlain(r) {
        UntouchedStays(v, rest, ssh, on, r.suffix);
      }
    } else {
      var q := rules[0];
      var t1 := Apply(t, q, ssh, on);
      assert rest[i - 1] == r;
      assert WellFormed(rest) by {
        assert forall j :: 0 <= j < |rest| ==> rest[j] == rules[j + 1];
      }
      RuleTakesEffect(t1, rest, ssh, on, i - 1);
      Keys(r, q);
      ApplyElsewhere(t, q, ssh, on, Src(r));
      ApplyElsewhere(t, q, ssh, on, Dst(r));
      if MayBePlain(r) {
        ApplyElsewhere(t, q, ssh, on, r.suffix);
      }
    }
  }

  lemma {:induction false} SettledIsFixed(t: Table, rules: seq<Rule>, ssh: bool, on: bool)
    requires forall i :: 0 <= i < |rules| ==> Settled(t, rules[i], ssh, on)
    ensures ApplyAll(t, rules, ssh, on) == t
  {
    if rules != [] {
      assert Apply(t, rules[0], ssh, on) == t;
      SettledIsFixed(t, rules[1..], ssh, on);
    }
  }

  lemma ApplyMoves(t: Table, r: Rule, ssh: bool, on: bool)
    requires r.suffix != "" && r.suffix[0] != 't'
    ensures var v := Apply(t, r, ssh, on); var val := Get(t, Src(r));
      && (val.Some? && (on || !r.common) ==> Dst(r) in v && v[Dst(r)] == val.value)
      && (val.None? || (r.common && !on) ==>
            (Dst(r) in v <==> Dst(r) in t) && (Dst(r) in v ==> v[Dst(r)] == t[Dst(r)]))
      && Get(v, Src(r)) == (if r.common && ssh then val else None)
      && (MayBePlain(r) ==> Get(v, r.suffix) == if ssh && val.Some? then val else Get(t, r.suffix))
  {
    assert Src(r)[4] == r.suffix[0] && Dst(r)[4] == 't' && Src(r)[0] == 's' && Dst(r)[0] == 's';
  }

  lemma ApplySettles(t: Table, r: Rule, ssh: bool, on: bool)
    requires r.suffix != "" && r.suffix[0] != 't'
    ensures Settled(Apply(t, r, ssh, on), r, ssh, on)
  {
    assert Src(r)[4] == r.suffix[0] && Dst(r)[4] == 't';
    assert Src(r)[0] == 's';
  }

  // ---------------------------------------------------------------- main results

  ghost predicate Named(key: string) {
    key == "ssh_tunnel_enabled" || exists i :: 0 <= i < |RULES| && Touches(RULES[i], key)
  }

  /** Settings outside the named keys are unchanged; in particular the protocol and `ssh_enabled` are. */
  lemma OtherSettingsStay(t: Table, key: string)
    requires !Named(key)
    ensures (key in Upgraded(t) <==> key in t) && (key in t ==> Upgraded(t)[key] == t[key])
  {
    UntouchedStays(t, RULES, IsSsh(t), TunnelOn(t), key);
  }

  lemma {:induction false} ControlKeysAreNotNamed()
    ensures !Named("protocol") && !Named("ssh_enabled")
  {
    RulesAreWellFormed();
    forall i | 0 <= i < |RULES| ensures !Touches(RULES[i], "protocol") && !Touches(RULES[i], "ssh_enabled") {
      var r := RULES[i];
      assert Src(r)[0] == 's' && Dst(r)[0] == 's' && Dst(r)[4] == 't';
      assert "protocol"[0] == 'p' && "ssh_enabled"[4] == 'e';
      assert Src(r)[4..] == r.suffix;
      assert "ssh_enabled"[4..] == "enabled";
    }
  }

  lemma TunnelEnabledIsNotTouched(i: nat)
    requires i < |RULES|
    ensures "ssh_tunnel_enabled" != Src(RULES[i]) && "ssh_tunnel_enabled" != Dst(RULES[i])
    ensures RULES[i].suffix in {"username", "password"} ==> RULES[i].suffix != "ssh_tunnel_enabled"
  {
    RulesAreWellFormed();
    var r := RULES[i];
    assert "ssh_tunnel_enabled"[4] == 't' && Src(r)[4] == r.suffix[0];
    assert "ssh_tunnel_enabled"[11..] == "enabled" && Dst(r)[11..] == r.suffix;
  }

  /** What the migration does to each setting it covers: with the tunnel on, a non-empty old setting ends up
      under its tunnel key (the last four do so in any case); the source reads as absent afterwards, except
      the common settings of an SSH profile, which keep their value. */
  lemma SettingsMove(t: Table, i: nat)
    requires Get(t, "ssh_enabled").Some? && Get(t, "protocol").Some? && i < |RULES|
    ensures var r := RULES[i]; var u := Upgraded(t); var val := Get(t, Src(r));
      && (val.Some? && (TunnelOn(t) || !r.common) ==> Dst(r) in u && u[Dst(r)] == val.value)
      && (val.None? || (r.common && !TunnelOn(t)) ==>
            (Dst(r) in u <==> Dst(r) in t) && (Dst(r) in u ==> u[Dst(r)] == t[Dst(r)]))
      && Get(u, Src(r)) == (if r.common && IsSsh(t) then val else None)
      && (MayBePlain(r) ==> Get(u, r.suffix) == if IsSsh(t) && val.Some? then val else Get(t, r.suffix))
  {
    RulesAreWellFormed();
    RuleTakesEffect(t, RULES, IsSsh(t), TunnelOn(t), i);
    ApplyMoves(t, RULES[i], IsSsh(t), TunnelOn(t));
    TunnelEnabledIsNotTouched(i);
  }

  /** The eight settings that only move while the tunnel is on, by name. */
  lemma CommonSettingsMove(t: Table, s: string)
    requires Get(t, "ssh_enabled").Some? && Get(t, "protocol").Some?
    requires s in {"stricthostkeycheck", "kex_algorithms", "hostkeytypes", "ciphers", "proxycommand", "passphrase",
                   "auth", "privatekey"}
    ensures var u := Upgraded(t); var val := Get(t, "ssh_" + s); var on := GetInt(t, "ssh_enabled", 0) != 0;
      && Get(u, "ssh_tunnel_" + s) == (if on && val.Some? then val else Get(t, "ssh_tunnel_" + s))
      && Get(u, "ssh_" + s) == if Get(t, "protocol") == Some("SSH") then val else None
  {
    var i := CommonRule(s);
    SettingsMove(t, i);
    NotDeprecated(s);
  }

  /** The four that always move, by name; in an SSH profile the user name and the password become those of the
      connection itself as well. */
  lemma OwnSettingsMove(t: Table, s: string)
    requires Get(t, "ssh_enabled").Some? && Get(t, "protocol").Some?
    requires s in {"loopback", "username", "password", "server"}
    ensures var u := Upgraded(t); var val := Get(t, "ssh_" + s);
      && Get(u, "ssh_tunnel_" + s) == (if val.Some? then val else Get(t, "ssh_tunnel_" + s))
      && Get(u, "ssh_" + s) == None
      && (s in {"username", "password"} ==>
            Get(u, s) == if Get(t, "protocol") == Some("SSH") && val.Some? then val else Get(t, s))
  {
    var i := OwnRule(s);
    SettingsMove(t, i);
    NotDeprecated(s);
  }

  lemma CommonRule(s: string) returns (i: nat)
    requires s in {"stricthostkeycheck", "kex_algorithms", "hostkeytypes", "ciphers", "proxycommand", "passphrase",
                   "auth", "privatekey"}
    ensures i < |RULES| && RULES[i] == Rule(s, true)
  {
    i := if s == "stricthostkeycheck" then 0 else if s == "kex_algorithms" then 1 else if s == "hostkeytypes" then 2
         else if s == "ciphers" then 3 else if s == "proxycommand" then 4 else if s == "passphrase" then 5
         else if s == "auth" then 6 else 7;
  }

  lemma OwnRule(s: string) returns (i: nat)
    requires s in {"loopback", "username", "password", "server"}
    ensures i < |RULES| && RULES[i] == Rule(s, false)
  {
    i := if s == "loopback" then 8 else if s == "username" then 9 else if s == "password" then 10 else 11;
  }

  lemma NotDeprecated(s: string)
    ensures "ssh_" + s != "resolution" && "ssh_tunnel_" + s != "resolution"
  {
    assert ("ssh_" + s)[0] == 's' && ("ssh_tunnel_" + s)[0] == 's' && "resolution"[0] == 'r';
  }

  /** The tunnel is on afterwards exactly when it was on before; a profile without old keys stays as it is. */
  lemma TunnelSwitchStays(t: Table)
    ensures Get(t, "ssh_enabled").None? ==> Upgraded(t) == t
    ensures Get(t, "ssh_enabled").Some? ==>
              && GetInt(Upgraded(t), "ssh_tunnel_enabled", 0) == GetInt(t, "ssh_enabled", 0)
              && Get(Upgraded(t), "ssh_enabled") == Get(t, "ssh_enabled")
              && Get(Upgraded(t), "protocol") == Get(t, "protocol")
  {
    AtoiReadsPrint(GetInt(t, "ssh_enabled", 0));
    ControlKeysAreNotNamed();
    OtherSettingsStay(t, "protocol");
    OtherSettingsStay(t, "ssh_enabled");
  }

  /** What get_int reads: the default for a missing or empty setting, 1 for "true", and any number printed. */
  lemma IntsAsRead(t: Table, key: string, v: int, default_: int)
    ensures key !in t || t[key] == "" ==> GetInt(t, key, default_) == default_
    ensures GetInt(t[key := "true"], key, default_) == 1
    ensures GetInt(t[key := Print(v)], key, default_) == v
  {
    AtoiReadsPrint(v);
  }

  /** The names of everything a migration may change. */
  predicate Covered(key: string) {
    || key in {"ssh_tunnel_enabled", "username", "password"}
    || exists s :: s in {"stricthostkeycheck", "kex_algorithms", "hostkeytypes", "ciphers", "proxycommand",
                         "passphrase", "auth", "privatekey", "loopback", "username", "password", "server"}
                   && (key == "ssh_" + s || key == "ssh_tunnel_" + s)
  }

  /** A setting under any other name is as it was. */
  lemma UncoveredStays(t: Table, key: string)
    requires !Covered(key)
    ensures (key in Upgraded(t) <==> key in t) && (key in t ==> Upgraded(t)[key] == t[key])
  {
    forall i | 0 <= i < |RULES| ensures !Touches(RULES[i], key) {
      var s := RULES[i].suffix;
      assert s in {"stricthostkeycheck", "kex_algorithms", "hostkeytypes", "ciphers", "proxycommand",
                   "passphrase", "auth", "privatekey", "loopback", "username", "password", "server"};
    }
    OtherSettingsStay(t, key);
  }

  /** Running the migration twice is the same as running it once. */
  lemma UpgradeIsIdempotent(t: Table)
    ensures Upgraded(Upgraded(t)) == Upgraded(t)
  {
    if Get(t, "ssh_enabled").Some? {
      ControlKeysAreNotNamed();
      OtherSettingsStay(t, "protocol");
      OtherSettingsStay(t, "ssh_enabled");
      forall i | 0 <= i < |RULES| ensures Settled(Upgraded(t), RULES[i], IsSsh(t), TunnelOn(t)) {
        RuleIsSettled(t, i);
      }
      SettledIsFixed(Upgraded(t), RULES, IsSsh(t), TunnelOn(t));
    }
  }

  lemma RuleIsSettled(t: Table, i: nat)
    requires Get(t, "ssh_enabled").Some? && i < |RULES|
    ensures Settled(Upgraded(t), RULES[i], IsSsh(t), TunnelOn(t))
  {
    RulesAreWellFormed();
    RuleTakesEffect(t, RULES, IsSsh(t), TunnelOn(t), i);
    ApplySettles(t, RULES[i], IsSsh(t), TunnelOn(t));
    TunnelEnabledIsNotTouched(i);
  }
}
