/** remmina_file.c: a profile whose settings are changed in place, saved to and loaded from the key file and
    the keyring. */
module RemminaFile {
  import opened Basics
  import opened Numbers
  import opened SshKeys
  import opened ProfileStore
  import Crypt

  /** How a call ends: Crashed stands for following a NULL pointer. */
  datatype Outcome = Completed | Crashed

  /** What outlives a profile: the key files and, for each file, its passwords in the keyring. */
  class Storage {
    var files: map<string, KeyFile>
    var secrets: map<string, Table>

    constructor ()
      ensures files == map[] && secrets == map[]
    {
      files, secrets := map[], map[];
    }

    ghost predicate Valid()
      reads this
    {
      forall n :: n in files ==> ValidFile(files[n])
    }

    function File(name: string): KeyFile
      reads this
    {
      if name in files then files[name] else KeyFile([], map[])
    }

    function Secrets(name: string): Table
      reads this
    {
      if name in secrets then secrets[name] else map[]
    }
  }

  /** g_key_file_set_string; a NULL string is refused. */
  function SetKey(f: KeyFile, key: string, value: Option<string>): (r: KeyFile)
    ensures ValidFile(f) ==> ValidFile(r)
  {
    if value.None? then f
    else KeyFile(if key in f.values then f.order else f.order + [key], f.values[key := value.value])
  }

  /** g_key_file_remove_key */
  function RemoveKey(f: KeyFile, key: string): (r: KeyFile)
    ensures r.values == f.values - {key}
    ensures ValidFile(f) ==> ValidFile(r)
  {
    var r := KeyFile(WithoutKey(f.order, key), f.values - {key});
    assert Distinct(f.order) ==> Distinct(r.order) by {
      WithoutKeyIsOrdered(f.order, key);
    }
    r
  }

  function WithoutKey(s: seq<string>, key: string): (r: seq<string>)
    ensures forall k :: k in r <==> k in s && k != key
  {
    if s == [] then [] else (if s[0] == key then [] else [s[0]]) + WithoutKey(s[1..], key)
  }

  lemma {:induction false} WithoutKeyIsOrdered(s: seq<string>, key: string)
    ensures Distinct(s) ==> Distinct(WithoutKey(s, key))
  {
    if s != [] && Distinct(s) {
      WithoutKeyIsOrdered(s[1..], key);
      assert s[0] !in s[1..];
      assert s[0] !in WithoutKey(s[1..], key);
    }
  }

  lemma MinusFour(t: Table, a: string, b: string, c: string, d: string)
    ensures t - {a} - {b} - {c} - {d} == t - {a, b, c, d}
  {
  }

  class RemminaFile {
    var settings: Table
    var spsettings: set<string>   // settings whose value came from the keyring
    var filename: Option<string>
    var statefile: Option<string>
    var preventSaving: bool

    constructor ()
      ensures settings == map[] && spsettings == {} && filename == None && statefile == None && !preventSaving
    {
      settings, spsettings, filename, statefile, preventSaving := map[], {}, None, None, false;
    }

    /** remmina_file_set_string on the main thread */
    method SetString(setting: string, value: Option<string>)
      modifies this`settings
      ensures settings == Set(old(settings), setting, value)
      ensures settings == if value.None? then old(settings)[setting := ""]
                          else if setting == "resolution" then old(settings)
                          else old(settings)[setting := value.value]
    {
      if value.Some? {
        if setting == "resolution" {
          return;
        }
        settings := settings[setting := value.value];
      } else {
        settings := settings[setting := ""];
      }
    }

    /** remmina_file_get_string on the main thread */
    method GetString(setting: string) returns (value: Option<string>)
      ensures value == Get(settings, setting)
      ensures value == if setting == "resolution" || setting !in settings || settings[setting] == "" then None
                       else Some(settings[setting])
    {
      if setting == "resolution" || setting !in settings {
        return None;
      }
      value := if settings[setting] != "" then Some(settings[setting]) else None;
    }

    /** remmina_file_set_int */
    method SetInt(setting: string, value: int)
      modifies this`settings
      ensures settings == old(settings)[setting := Print(value)]
      ensures GetInt(settings, setting, 0) == value
    {
      settings := settings[setting := Print(value)];
      AtoiReadsPrint(value);
    }

    /** upgrade_sshkeys_202001_mig_common_setting, and the blocks that move one setting each */
    method Migrate(r: Rule, ssh: bool, on: bool)
      modifies this`settings
      ensures settings == Apply(old(settings), r, ssh, on)
    {
      var val := GetString(Src(r));
      if val.None? {
        return;
      }
      if r.common {
        if on {
          settings := settings[Dst(r) := val.value];
        }
        if !ssh {
          settings := settings[Src(r) := ""];
        }
      } else {
        settings := settings[Dst(r) := val.value];
        if AlsoPlain(r, ssh) {
          settings := settings[r.suffix := val.value];
        }
        settings := settings[Src(r) := ""];
      }
    }

    /** upgrade_sshkeys_202001: the protocol of a profile with old keys is compared without a look at NULL. */
    method UpgradeSshKeys() returns (outcome: Outcome)
      modifies this`settings
      ensures outcome.Crashed? <==> Get(old(settings), "ssh_enabled").Some? && Get(old(settings), "protocol").None?
      ensures settings == if outcome.Crashed? then old(settings) else Upgraded(old(settings))
    {
      outcome := Completed;
      var enabled := GetString("ssh_enabled");
      if enabled.Some? {
        var sshEnabled := GetInt(settings, "ssh_enabled", 0);
        var protocol := GetString("protocol");
        if protocol.None? {
          return Crashed;
        }
        var ssh := protocol.value == "SSH";
        MigrateAll(RULES, ssh, sshEnabled != 0);
        SetInt("ssh_tunnel_enabled", sshEnabled);
      }
    }

    /** The migrations in the order of the code. */
    method MigrateAll(rules: seq<Rule>, ssh: bool, on: bool)
      modifies this`settings
      ensures settings == ApplyAll(old(settings), rules, ssh, on)
    {
      for i := 0 to |rules|
        invariant ApplyAll(old(settings), rules, ssh, on) == ApplyAll(settings, rules[i..], ssh, on)
      {
        Migrate(rules[i], ssh, on);
        assert rules[i..][1..] == rules[i + 1..];
      }
    }

    /** Saving looks up the plugin of the protocol, and asks it about each setting without a look at NULL. */
    predicate Crashes(env: Env)
      reads this
    {
      settings != map[] && env.registry != map[]
      && (ProtocolOf(settings).None? || ProtocolOf(settings).value !in env.registry)
    }

    /** remmina_file_save up to the writing of the profile file. The settings are visited in any order. */
    method Save(env: Env, store: Storage) returns (outcome: Outcome)
      requires store.Valid()
      requires forall k :: k in settings ==> Crypt.IsC(settings[k])
      modifies store
      ensures store.Valid()
      ensures outcome.Crashed? <==> !preventSaving && filename.Some? && statefile.Some? && Crashes(env)
      ensures preventSaving || filename.None? || statefile.None? || outcome.Crashed? ==>
                store.files == old(store.files) && store.secrets == old(store.secrets)
      ensures !preventSaving && filename.Some? && statefile.Some? && outcome.Completed? ==>
                var name := filename.value;
                && name in store.files && name in store.secrets
                && store.files == old(store.files)[name := store.files[name]]
                && store.secrets == old(store.secrets)[name := store.secrets[name]]
                && SavedFile(settings, name, env, old(store.File(name)).values, store.files[name].values)
                && SavedSecrets(settings, name, env, old(store.Secrets(name)), store.secrets[name])
      ensures (!preventSaving && filename.Some? && statefile.Some? && outcome.Completed? && env.keyring
               && filename.value != env.prefFile && GetInt(settings, "disablepasswordstoring", 0) == 0) ==>
                var secrets := store.secrets[filename.value];
                forall k :: IsSecret(settings, env, k) && settings[k] != "." ==>
                  if settings[k] == "" then k !in secrets else k in secrets && secrets[k] == settings[k]
    {
      if preventSaving || filename.None? || statefile.None? {
        return Completed;
      }
      var name := filename.value;
      var keyfile, secrets;
      outcome, keyfile, secrets := WriteSettings(env, name, store.File(name), store.Secrets(name));
      if outcome.Crashed? {
        return;
      }
      keyfile := RemoveDeleted(keyfile);
      forall k {
        KeyringAfterSave(settings, name, env, store.Secrets(name), secrets, k);
      }
      store.files := store.files[name := keyfile];
      store.secrets := store.secrets[name := secrets];
    }

    /** The state of the key file and of the keyring while some settings are still to be visited. */
    ghost predicate PartlySaved(env: Env, name: string, todo: set<string>, f0: Table, f: Table, s0: Table, s: Table)
      requires forall k :: k in settings ==> Crypt.IsC(settings[k])
      reads this
    {
      && (forall k :: k in f <==>
            k in f0 || (k in settings && k !in todo && Written(settings, name, env, k).Some?))
      && (forall k :: k in f ==>
            f[k] == if k in settings && k !in todo && Written(settings, name, env, k).Some?
                    then Written(settings, name, env, k).value else f0[k])
      && (forall k :: k in todo ==> (k in s <==> k in s0) && (k in s ==> s[k] == s0[k]))
      && (forall k :: k !in todo ==> SecretAfter(settings, name, env, s0, k) == if k in s then Some(s[k]) else None)
    }

    /** The loop over the settings, which are visited in any order. */
    method WriteSettings(env: Env, name: string, f: KeyFile, s: Table)
      returns (outcome: Outcome, keyfile: KeyFile, secrets: Table)
      requires ValidFile(f) && forall k :: k in settings ==> Crypt.IsC(settings[k])
      ensures outcome.Crashed? <==> Crashes(env)
      ensures outcome.Crashed? ==> keyfile == f && secrets == s
      ensures outcome.Completed? ==>
                ValidFile(keyfile) && PartlySaved(env, name, {}, f.values, keyfile.values, s, secrets)
    {
      keyfile, secrets := f, s;
      var plugin := ProtocolOf(settings).Some? && ProtocolOf(settings).value in env.registry;
      var todo := settings.Keys;
      while todo != {}
        invariant todo <= settings.Keys && ValidFile(keyfile)
        invariant todo == settings.Keys || !Crashes(env)
        invariant todo == settings.Keys ==> keyfile == f && secrets == s
        invariant PartlySaved(env, name, todo, f.values, keyfile.values, s, secrets)
        decreases todo
      {
        var key :| key in todo;
        if env.registry != map[] && !plugin {
          return Crashed, keyfile, secrets;
        }
        keyfile, secrets := SaveNext(env, name, key, keyfile, secrets, todo, f.values, s);
        todo := todo - {key};
      }
      outcome := Completed;
    }

    /** One round of that loop. */
    method SaveNext(env: Env, name: string, key: string, f: KeyFile, s: Table,
                    ghost todo: set<string>, ghost f0: Table, ghost s0: Table)
      returns (keyfile: KeyFile, secrets: Table)
      requires ValidFile(f) && (forall k :: k in settings ==> Crypt.IsC(settings[k]))
      requires key in todo && key in settings && PartlySaved(env, name, todo, f0, f.values, s0, s)
      ensures ValidFile(keyfile) && PartlySaved(env, name, todo - {key}, f0, keyfile.values, s0, secrets)
    {
      keyfile, secrets := SaveSetting(env, name, key, f, s);
      SavedOneMore(env, name, todo, key, f0, f.values, keyfile.values, s0, s, secrets);
    }

    lemma SavedOneMore(env: Env, name: string, todo: set<string>, key: string,
                       f0: Table, f1: Table, f2: Table, s0: Table, s1: Table, s2: Table)
      requires forall k :: k in settings ==> Crypt.IsC(settings[k])
      requires PartlySaved(env, name, todo, f0, f1, s0, s1) && key in todo && key in settings
      requires var w := Written(settings, name, env, key); f2 == if w.Some? then f1[key := w.value] else f1
      requires forall k :: k != key ==> (k in s2 <==> k in s1) && (k in s1 ==> s2[k] == s1[k])
      requires SecretAfter(settings, name, env, s1, key) == if key in s2 then Some(s2[key]) else None
      ensures PartlySaved(env, name, todo - {key}, f0, f2, s0, s2)
    {
      assert SecretAfter(settings, name, env, s1, key) == SecretAfter(settings, name, env, s0, key);
    }

    /** Avoids storing the deprecated settings. */
    method RemoveDeleted(f: KeyFile) returns (keyfile: KeyFile)
      requires ValidFile(f)
      ensures ValidFile(keyfile) && keyfile.values == f.values - DELETED
    {
      keyfile := RemoveKey(f, "resolution");
      keyfile := RemoveKey(keyfile, "ssh_enabled");
      keyfile := RemoveKey(keyfile, "save_ssh_server");
      keyfile := RemoveKey(keyfile, "save_ssh_username");
      MinusFour(f.values, "resolution", "ssh_enabled", "save_ssh_server", "save_ssh_username");
    }

    /** What saving does with one setting. */
    method SaveSetting(env: Env, name: string, key: string, f: KeyFile, s: Table)
      returns (keyfile: KeyFile, secrets: Table)
      requires key in settings && ValidFile(f)
      requires forall k :: k in settings ==> Crypt.IsC(settings[k])
      ensures ValidFile(keyfile) && keyfile.values == SetKey(f, key, Written(settings, name, env, key)).values
      ensures forall k :: k != key ==> (k in secrets <==> k in s) && (k in s ==> secrets[k] == s[k])
      ensures SecretAfter(settings, name, env, s, key) == if key in secrets then Some(secrets[key]) else None
      ensures (IsSecret(settings, env, key) && env.keyring && name != env.prefFile && settings[key] == ""
               && GetInt(settings, "disablepasswordstoring", 0) == 0) ==> key !in secrets
    {
      keyfile, secrets := f, s;
      if Encrypts(env, ProtocolOf(settings), key) {
        if name != env.prefFile {
          keyfile, secrets := SaveSecret(env, key, f, s);
        }
      } else {
        keyfile := SetKey(keyfile, key, Some(settings[key]));
      }
    }

    /** What saving does with a setting that its plugin wants encrypted. */
    method SaveSecret(env: Env, key: string, f: KeyFile, s: Table) returns (keyfile: KeyFile, secrets: Table)
      requires key in settings && ValidFile(f) && Crypt.IsC(settings[key])
      ensures var value, stored := settings[key], GetInt(settings, "disablepasswordstoring", 0);
        && ValidFile(keyfile)
        && keyfile.values == SetKey(f, key,
             if env.keyring && stored == 1 && value != "" && value != "." then Some(".")
             else if env.keyring && stored == 0 then Some(if value != "" then "." else "")
             else if value != "" && stored == 0 then Crypt.Encrypted(env.conf, value)
             else Some("")).values
        && secrets == if !env.keyring || value == "." || (value == "" && stored != 0) || stored !in {0, 1} then s
                      else if stored == 0 && value != "" then s[key := value]
                      else s - {key}
    {
      keyfile, secrets := f, s;
      var nopasswdsave := GetInt(settings, "disablepasswordstoring", 0);
      var value := settings[key];
      if env.keyring && nopasswdsave == 0 {
        if value != "" {
          if value != "." {
            secrets := secrets[key := value];
          }
          keyfile := SetKey(keyfile, key, Some("."));
        } else {
          keyfile := SetKey(keyfile, key, Some(""));
          secrets := secrets - {key};
        }
      } else {
        if value != "" && nopasswdsave == 0 {
          var sealed := Crypt.Encrypt(env.conf, value);
          keyfile := SetKey(keyfile, key, sealed);
        } else {
          keyfile := SetKey(keyfile, key, Some(""));
        }
      }
      if env.keyring && nopasswdsave == 1 {
        if value != "" {
          if value != "." {
            secrets := secrets - {key};
            keyfile := SetKey(keyfile, key, Some("."));
          }
        }
      }
    }
  }

  /** The keys whose value loading takes from the keyring. */
  function FromKeyring(f: Table, env: Env, keys: seq<string>): set<string>
    requires forall i :: 0 <= i < |keys| ==> keys[i] in f
  {
    set k | k in keys && Encrypts(env, ProtocolOf(f), k) && f[k] == "." && env.keyring
  }

  /** remmina_file_load: NULL for a file without a name. */
  method Load(name: string, env: Env, store: Storage) returns (outcome: Outcome, r: RemminaFile?)
    requires store.Valid()
    ensures outcome.Crashed? <==>
              "name" in store.File(name).values && LoadCrashes(store.File(name), env, store.Secrets(name))
    ensures r == null <==> outcome.Crashed? || "name" !in store.File(name).values
    ensures r != null ==> fresh(r) && r.settings == Loaded(store.File(name), env, store.Secrets(name))
    ensures r != null ==> r.filename == Some(name) && r.statefile.Some? && !r.preventSaving
    ensures r != null ==> r.spsettings == FromKeyring(store.File(name).values, env, store.File(name).order)
    ensures r != null ==> forall k :: k in r.spsettings <==>
              env.keyring && IsSecret(store.File(name).values, env, k) && store.File(name).values[k] == "."
  {
    outcome := Completed;
    var keyfile := store.File(name);
    if "name" !in keyfile.values {
      return outcome, null;
    }
    r := new RemminaFile();
    LoadSettings(r, keyfile, env, store.Secrets(name));
    outcome := r.UpgradeSshKeys();
    if outcome.Crashed? {
      return outcome, null;
    }
    r.filename := Some(name);
    r.statefile := Some(name + ".state");
  }

  /** The file holds keys from before version 1.4, and no protocol. */
  predicate LoadCrashes(f: KeyFile, env: Env, secrets: Table)
    requires forall i :: 0 <= i < |f.order| ==> f.order[i] in f.values
  {
    var t := LoadKeys(f.values, env, secrets, f.order);
    Get(t, "ssh_enabled").Some? && Get(t, "protocol").None?
  }

  lemma OneMoreKey(f: Table, env: Env, secrets: Table, keys: seq<string>, i: nat)
    requires i < |keys| && forall j :: 0 <= j < |keys| ==> keys[j] in f
    ensures LoadKeys(f, env, secrets, keys[..i + 1])
            == LoadKey(f, env, secrets, LoadKeys(f, env, secrets, keys[..i]), keys[i])
    ensures FromKeyring(f, env, keys[..i + 1]) == FromKeyring(f, env, keys[..i]) + FromKeyring(f, env, [keys[i]])
  {
    assert keys[..i + 1][..i] == keys[..i] && keys[..i + 1] == keys[..i] + [keys[i]];
  }

  /** The loop over the keys of the file. */
  method LoadSettings(r: RemminaFile, f: KeyFile, env: Env, secrets: Table)
    requires ValidFile(f) && r.settings == map[] && r.spsettings == {}
    modifies r`settings, r`spsettings
    ensures r.settings == LoadKeys(f.values, env, secrets, f.order)
    ensures r.spsettings == FromKeyring(f.values, env, f.order)
  {
    for i := 0 to |f.order|
      invariant forall j :: 0 <= j < |f.order| ==> f.order[j] in f.values
      invariant r.settings == LoadKeys(f.values, env, secrets, f.order[..i])
      invariant r.spsettings == FromKeyring(f.values, env, f.order[..i])
    {
      OneMoreKey(f.values, env, secrets, f.order, i);
      LoadSetting(r, f.values, env, secrets, f.order[i]);
    }
    assert f.order[..|f.order|] == f.order;
  }

  /** What loading does with one key of the file. */
  method LoadSetting(r: RemminaFile, f: Table, env: Env, secrets: Table, key: string)
    requires key in f
    modifies r`settings, r`spsettings
    ensures r.settings == LoadKey(f, env, secrets, old(r.settings), key)
    ensures r.spsettings == old(r.spsettings) + FromKeyring(f, env, [key])
  {
    if Encrypts(env, ProtocolOf(f), key) {
      if f[key] == "." && env.keyring {
        r.SetString(key, if key in secrets then Some(secrets[key]) else None);
        r.spsettings := r.spsettings + {key};
      } else {
        var decrypted := Crypt.Decrypt(env.conf, f[key]);
        r.SetString(key, decrypted);
      }
    } else if key == "resolution" {
      var d := Dimensions(f[key]);
      if d.Some? {
        r.SetString("resolution_width", Some(Print(d.value.0)));
        r.SetString("resolution_height", Some(Print(d.value.1)));
      } else {
        r.SetString("resolution_width", None);
        r.SetString("resolution_height", None);
      }
    } else {
      r.SetString(key, Some(f[key]));
    }
  }

  /** Saving a profile that has a name and loading its file back, whatever the file and the keyring held. */
  method SaveAndReload(profile: RemminaFile, name: string, env: Env, store: Storage) returns (again: RemminaFile?)
    requires store.Valid() && CanRoundTrip(profile.settings, name, env) && "name" in profile.settings
    requires !profile.preventSaving && profile.filename == Some(name) && profile.statefile.Some?
    modifies store
    ensures again != null && fresh(again)
    ensures forall k :: k in profile.settings && k !in DELETED ==>
              k in again.settings && again.settings[k] == Kept(profile.settings, env, k)
    ensures StoresPasswords(profile.settings) && old(store.File(name)).values.Keys <= profile.settings.Keys ==>
              again.settings == profile.settings - DELETED
  {
    ghost var t, f0, s0 := profile.settings, store.File(name).values, store.Secrets(name);
    var saved := profile.Save(env, store);
    ghost var f, s := store.File(name), store.Secrets(name);
    SaveThenLoad(t, name, env, f0, s0, f, s);
    KeyRoundTrip(t, name, env, f0, s0, f.values, s, "name");
    NoOldKeys(f, env, s);
    var loaded;
    loaded, again := Load(name, env, store);
    if StoresPasswords(t) && f0.Keys <= t.Keys {
      SaveThenLoadExactly(t, name, env, f0, s0, f, s);
    }
  }

  /** A saved file never triggers the migration. */
  lemma NoOldKeys(f: KeyFile, env: Env, secrets: Table)
    requires ValidFile(f) && forall k :: k in f.values ==> k !in DELETED
    ensures (forall i :: 0 <= i < |f.order| ==> f.order[i] in f.values)
            && Get(LoadKeys(f.values, env, secrets, f.order), "ssh_enabled").None?
  {
    assert forall i :: 0 <= i < |f.order| ==> f.order[i] in f.order;
    LoadKeysShows(f.values, env, secrets, f.order);
    assert "ssh_enabled" in DELETED;
  }
}
