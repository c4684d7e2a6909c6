/** What saving a profile writes to its key file and to the keyring, and what loading reads from them. */
module ProfileStore {
  import opened Basics
  import opened Numbers
  import opened SshKeys
  import Crypt
  import CipherCodec

  /** The [remmina] section of a key file: keys in file order, and their values. */
  datatype KeyFile = KeyFile(order: seq<string>, values: Table)

  ghost predicate ValidFile(f: KeyFile) {
    Distinct(f.order) && forall k :: k in f.order <==> k in f.values
  }

  /** The surroundings: which settings each protocol plugin encrypts, whether the keyring answers, the cipher
      and its secret, and the name of the preferences file. */
  datatype Env = Env(registry: map<string, set<string>>, keyring: bool, conf: Crypt.Config, prefFile: string)

  const DELETED: set<string> := {"resolution", "ssh_enabled", "save_ssh_server", "save_ssh_username"}

  predicate Encrypts(env: Env, protocol: Option<string>, key: string) {
    protocol.Some? && protocol.value in env.registry && key in env.registry[protocol.value]
  }

  function ProtocolOf(t: Table): Option<string> {
    if "protocol" in t then Some(t["protocol"]) else None
  }

  // ---------------------------------------------------------------- saving

  predicate StoresPasswords(t: Table) {
    GetInt(t, "disablepasswordstoring", 0) == 0
  }

  /** The value written for a setting; None when the key file is left as it is. */
  function Written(t: Table, name: string, env: Env, key: string): Option<string>
    requires key in t && (forall k :: k in t ==> Crypt.IsC(t[k]))
  {
    var value := t[key];
    if !Encrypts(env, ProtocolOf(t), key) then Some(value)
    else if name == env.prefFile then None
    else if env.keyring && GetInt(t, "disablepasswordstoring", 0) == 1 && value != "" && value != "." then Some(".")
    else if env.keyring && StoresPasswords(t) then Some(if value != "" then "." else "")
    else if value != "" && StoresPasswords(t) then Crypt.Encrypted(env.conf, value)
    else Some("")
  }

  /** The keyring's password for a key after saving. */
  function SecretAfter(t: Table, name: string, env: Env, secrets: Table, key: string): Option<string> {
    var before := if key in secrets then Some(secrets[key]) else None;
    if key !in t || !Encrypts(env, ProtocolOf(t), key) || name == env.prefFile || !env.keyring then before
    else if StoresPasswords(t) then
      if t[key] == "" then None else if t[key] == "." then before else Some(t[key])
    else if GetInt(t, "disablepasswordstoring", 0) == 1 && t[key] != "" && t[key] != "." then None
    else before
  }

  /** The key file after saving holds what was written, over what it held before, without the deleted keys. */
  ghost predicate SavedFile(t: Table, name: string, env: Env, old_: Table, now: Table)
    requires forall k :: k in t ==> Crypt.IsC(t[k])
  {
    && (forall k :: k in now <==> k !in DELETED && (k in old_ || (k in t && Written(t, name, env, k).Some?)))
    && (forall k :: k in now ==>
          now[k] == if k in t && Written(t, name, env, k).Some? then Written(t, name, env, k).value else old_[k])
  }

  ghost predicate SavedSecrets(t: Table, name: string, env: Env, old_: Table, now: Table) {
    forall k :: (k in now <==> SecretAfter(t, name, env, old_, k).Some?)
                && (k in now ==> SecretAfter(t, name, env, old_, k) == Some(now[k]))
  }

  /** The plugin of the profile's protocol wants this setting kept secret. */
  ghost predicate IsSecret(t: Table, env: Env, key: string) {
    key in t && "protocol" in t && t["protocol"] in env.registry && key in env.registry[t["protocol"]]
  }

  /** The keyring after saving. With passwords stored, an empty password is deleted from it and any other but "."
      is the one it holds; with passwords not stored, any but the empty one and "." is deleted. Nothing else in
      it changes, and nothing at all without a keyring or for the preferences file. */
  lemma KeyringAfterSave(t: Table, name: string, env: Env, old_: Table, now: Table, key: string)
    requires SavedSecrets(t, name, env, old_, now)
    ensures var stored := GetInt(t, "disablepasswordstoring", 0);
      if IsSecret(t, env, key) && env.keyring && name != env.prefFile && stored == 0 && t[key] == "" then key !in now
      else if IsSecret(t, env, key) && env.keyring && name != env.prefFile && stored == 0 && t[key] != "." then
        key in now && now[key] == t[key]
      else if IsSecret(t, env, key) && env.keyring && name != env.prefFile && stored == 1 && t[key] !in {"", "."} then
        key !in now
      else (key in now <==> key in old_) && (key in now ==> now[key] == old_[key])
  {
    assert IsSecret(t, env, key) <==> key in t && Encrypts(env, ProtocolOf(t), key);
    assert key in now <==> SecretAfter(t, name, env, old_, key).Some?;
  }

  /** The file after saving: the deprecated keys are gone, a setting that is no secret is there as it is, and keys
      that are no settings stay. */
  lemma FileAfterSave(t: Table, name: string, env: Env, old_: Table, now: Table, key: string)
    requires (forall k :: k in t ==> Crypt.IsC(t[k])) && SavedFile(t, name, env, old_, now)
    ensures key in {"resolution", "ssh_enabled", "save_ssh_server", "save_ssh_username"} ==> key !in now
    ensures key !in {"resolution", "ssh_enabled", "save_ssh_server", "save_ssh_username"} ==>
              && (key in t && !IsSecret(t, env, key) ==> key in now && now[key] == t[key])
              && (key !in t || (IsSecret(t, env, key) && name == env.prefFile) ==>
                    (key in now <==> key in old_) && (key in now ==> now[key] == old_[key]))
  {
    assert IsSecret(t, env, key) <==> key in t && Encrypts(env, ProtocolOf(t), key);
    assert DELETED == {"resolution", "ssh_enabled", "save_ssh_server", "save_ssh_username"};
  }

  /** A secret in the file: with a keyring only the mark "." or nothing, and without one its encrypted text, if
      there is one and it may be stored. */
  lemma SecretsInFile(t: Table, name: string, env: Env, old_: Table, now: Table, key: string)
    requires (forall k :: k in t ==> Crypt.IsC(t[k])) && SavedFile(t, name, env, old_, now)
    requires IsSecret(t, env, key) && name != env.prefFile
    requires key !in {"resolution", "ssh_enabled", "save_ssh_server", "save_ssh_username"}
    ensures var stored := GetInt(t, "disablepasswordstoring", 0);
      && (env.keyring && stored == 0 ==> key in now && now[key] == if t[key] == "" then "" else ".")
      && (env.keyring && stored == 1 ==> key in now && now[key] == if t[key] in {"", "."} then "" else ".")
      && (stored !in {0, 1} || (!env.keyring && (stored == 1 || t[key] == "")) ==> key in now && now[key] == "")
      && (!env.keyring && stored == 0 && t[key] != "" && Crypt.Encrypted(env.conf, t[key]).Some? ==>
            key in now && now[key] == Crypt.Encrypted(env.conf, t[key]).value)
      && (!env.keyring && stored == 0 && t[key] != "" && Crypt.Encrypted(env.conf, t[key]).None? ==>
            (key in now <==> key in old_) && (key in now ==> now[key] == old_[key]))
  {
    assert Encrypts(env, ProtocolOf(t), key);
    assert DELETED == {"resolution", "ssh_enabled", "save_ssh_server", "save_ssh_username"};
  }

  // ---------------------------------------------------------------- loading

  /** What one key of the file sets. */
  function LoadKey(f: Table, env: Env, secrets: Table, t: Table, key: string): Table
    requires key in f
  {
    if Encrypts(env, ProtocolOf(f), key) then
      if f[key] == "." && env.keyring then Set(t, key, if key in secrets then Some(secrets[key]) else None)
      else Set(t, key, Crypt.Decrypted(env.conf, f[key]))
    else if key == "resolution" then
      var d := Dimensions(f[key]);
      if d.Some? then t["resolution_width" := Print(d.value.0)]["resolution_height" := Print(d.value.1)]
      else t["resolution_width" := ""]["resolution_height" := ""]
    else Set(t, key, Some(f[key]))
  }

  function LoadKeys(f: Table, env: Env, secrets: Table, keys: seq<string>): Table
    requires forall i :: 0 <= i < |keys| ==> keys[i] in f
  {
    if keys == [] then map[]
    else LoadKey(f, env, secrets, LoadKeys(f, env, secrets, keys[..|keys| - 1]), keys[|keys| - 1])
  }

  function Loaded(f: KeyFile, env: Env, secrets: Table): Table
    requires forall i :: 0 <= i < |f.order| ==> f.order[i] in f.values
  {
    Upgraded(LoadKeys(f.values, env, secrets, f.order))
  }

  /** What an encrypted setting with this text in the file loads as. */
  function Unsealed(text: string, env: Env, secrets: Table, key: string): string {
    if text == "." && env.keyring then (if key in secrets then secrets[key] else "")
    else
      var d := Crypt.Decrypted(env.conf, text);
      if d.Some? then d.value else ""
  }

  /** Without a "resolution" key the order of the keys does not matter: each key sets its own value. */
  function Shown(f: Table, env: Env, secrets: Table, key: string): string
    requires key in f
  {
    if Encrypts(env, ProtocolOf(f), key) then Unsealed(f[key], env, secrets, key) else f[key]
  }

  lemma {:induction false} LoadKeysShows(f: Table, env: Env, secrets: Table, keys: seq<string>)
    requires forall i :: 0 <= i < |keys| ==> keys[i] in f && keys[i] != "resolution"
    ensures var t := LoadKeys(f, env, secrets, keys);
      forall k :: (k in t <==> k in keys) && (k in t ==> t[k] == Shown(f, env, secrets, k))
  {
    if keys != [] {
      var before := keys[..|keys| - 1];
      LoadKeysShows(f, env, secrets, before);
      forall k ensures k in keys <==> k in before || k == keys[|keys| - 1] {
        assert keys == before + [keys[|keys| - 1]];
      }
    }
  }

  /** The old "resolution" sets width and height at its place in the file, so only keys after it change them. */
  lemma {:induction false} ResolutionShows(f: Table, env: Env, secrets: Table, keys: seq<string>, i: nat)
    requires (forall j :: 0 <= j < |keys| ==> keys[j] in f) && i < |keys| && keys[i] == "resolution"
    requires !Encrypts(env, ProtocolOf(f), "resolution")
    requires forall j :: i < j < |keys| ==> keys[j] !in {"resolution", "resolution_width", "resolution_height"}
    ensures var t := LoadKeys(f, env, secrets, keys); var d := Dimensions(f["resolution"]);
      && "resolution_width" in t && t["resolution_width"] == (if d.Some? then Print(d.value.0) else "")
      && "resolution_height" in t && t["resolution_height"] == if d.Some? then Print(d.value.1) else ""
  {
    if i < |keys| - 1 {
      var before := keys[..|keys| - 1];
      ResolutionShows(f, env, secrets, before, i);
      assert keys[|keys| - 1] !in {"resolution", "resolution_width", "resolution_height"};
    }
  }

  /** A file from before width and height were settings of their own: "800x600" loads as width 800 and height
      600, and so does any other pair of numbers. */
  lemma ResolutionLoads(f: KeyFile, env: Env, secrets: Table, i: nat, w: int, h: int)
    requires ValidFile(f) && !Encrypts(env, ProtocolOf(f.values), "resolution")
    requires i < |f.order| && f.order[i] == "resolution" && f.values["resolution"] == Print(w) + "x" + Print(h)
    requires forall j :: i < j < |f.order| ==> f.order[j] !in {"resolution_width", "resolution_height"}
    ensures forall j :: 0 <= j < |f.order| ==> f.order[j] in f.values
    ensures var u := Loaded(f, env, secrets);
      GetInt(u, "resolution_width", 0) == w && GetInt(u, "resolution_height", 0) == h
  {
    InFile(f);
    ResolutionShows(f.values, env, secrets, f.order, i);
    DimensionsReadPrint(w, h);
    SizesStay(LoadKeys(f.values, env, secrets, f.order), w, h);
  }

  lemma InFile(f: KeyFile)
    requires ValidFile(f)
    ensures forall j :: 0 <= j < |f.order| ==> f.order[j] in f.values
    ensures forall i, j :: 0 <= i < j < |f.order| ==> f.order[i] != f.order[j]
  {
    assert forall j :: 0 <= j < |f.order| ==> f.order[j] in f.order;
  }

  /** The migration of SSH keys has nothing to do with sizes. */
  lemma SizesStay(t: Table, w: int, h: int)
    requires "resolution_width" in t && t["resolution_width"] == Print(w)
    requires "resolution_height" in t && t["resolution_height"] == Print(h)
    ensures GetInt(Upgraded(t), "resolution_width", 0) == w && GetInt(Upgraded(t), "resolution_height", 0) == h
  {
    SizeIsNotNamed("resolution_width");
    SizeIsNotNamed("resolution_height");
    OtherSettingsStay(t, "resolution_width");
    OtherSettingsStay(t, "resolution_height");
    AtoiReadsPrint(w);
    AtoiReadsPrint(h);
  }

  lemma SizeIsNotNamed(key: string)
    requires key != "" && key[0] == 'r'
    ensures !Named(key)
  {
    forall i | 0 <= i < |RULES| ensures !Touches(RULES[i], key) {
      assert Src(RULES[i])[0] == 's' && Dst(RULES[i])[0] == 's';
    }
  }

  // ---------------------------------------------------------------- round trip

  /** The conditions under which nothing is lost: a known protocol whose name is not itself encrypted, a file
      that is not the preferences file, a working cipher when there is no keyring, and no password "." when
      there is one. */
  ghost predicate CanRoundTrip(t: Table, name: string, env: Env) {
    && (forall k :: k in t ==> Crypt.IsC(t[k]))
    && ProtocolOf(t).Some? && ProtocolOf(t).value in env.registry
    && !Encrypts(env, ProtocolOf(t), "protocol")
    && name != env.prefFile
    && (env.keyring && StoresPasswords(t) ==> forall k :: k in t && Encrypts(env, ProtocolOf(t), k) ==> t[k] != ".")
    && (!env.keyring ==> Crypt.Usable(env.conf) && CipherCodec.Permutation(env.conf.cipher))
  }

  /** What survives saving and loading: everything, but passwords only when they may be stored. */
  function Kept(t: Table, env: Env, key: string): string
    requires key in t
  {
    if Encrypts(env, ProtocolOf(t), key) && !StoresPasswords(t) then "" else t[key]
  }

  lemma KeyRoundTrip(t: Table, name: string, env: Env, old_: Table, secrets: Table, f: Table, secrets': Table,
                     key: string)
    requires CanRoundTrip(t, name, env)
    requires SavedFile(t, name, env, old_, f) && SavedSecrets(t, name, env, secrets, secrets')
    requires key in t && key !in DELETED
    ensures key in f && Shown(f, env, secrets', key) == Kept(t, env, key)
  {
    assert "protocol" in t && Written(t, name, env, "protocol") == Some(t["protocol"]);
    assert "protocol" !in DELETED;
    assert ProtocolOf(f) == ProtocolOf(t);
    if Encrypts(env, ProtocolOf(t), key) {
      PasswordRoundTrip(t, name, env, secrets, key);
    }
  }

  /** Either password back-end gives back what was stored. */
  lemma PasswordRoundTrip(t: Table, name: string, env: Env, secrets: Table, key: string)
    requires CanRoundTrip(t, name, env) && key in t && Encrypts(env, ProtocolOf(t), key)
    ensures Written(t, name, env, key).Some?
    ensures var w := Written(t, name, env, key).value; var s := SecretAfter(t, name, env, secrets, key);
      if w == "." && env.keyring then (if s.Some? then s.value else "") == Kept(t, env, key)
      else var d := Crypt.Decrypted(env.conf, w); (if d.Some? then d.value else "") == Kept(t, env, key)
  {
    if !env.keyring && StoresPasswords(t) && t[key] != "" {
      Crypt.DecryptInvertsEncrypt(env.conf, t[key]);
    }
  }

  /** With a keyring the password "." is taken for the mark of a stored password: it comes back exactly when the
      keyring happens to hold "." already. */
  lemma DotPassword(t: Table, name: string, env: Env, old_: Table, secrets: Table, f: Table, secrets': Table,
                    key: string)
    requires (forall k :: k in t ==> Crypt.IsC(t[k])) && name != env.prefFile
    requires ProtocolOf(t).Some? && !Encrypts(env, ProtocolOf(t), "protocol") && env.keyring && StoresPasswords(t)
    requires SavedFile(t, name, env, old_, f) && SavedSecrets(t, name, env, secrets, secrets')
    requires key in t && key !in DELETED && Encrypts(env, ProtocolOf(t), key) && t[key] == "."
    ensures key in f && (Shown(f, env, secrets', key) == t[key] <==> key in secrets && secrets[key] == ".")
  {
    assert "protocol" in t && Written(t, name, env, "protocol") == Some(t["protocol"]);
    assert "protocol" !in DELETED;
    assert ProtocolOf(f) == ProtocolOf(t);
    assert Written(t, name, env, key) == Some(".");
    assert SecretAfter(t, name, env, secrets, key) == if key in secrets then Some(secrets[key]) else None;
  }

  /** Saving a profile and loading it back gives every setting its value again, through the keyring and
      through the cipher, except the four keys that saving deletes and passwords that may not be stored;
      a key the file held before and the profile does not have stays in the file. */
  lemma SaveThenLoad(t: Table, name: string, env: Env, old_: Table, secrets: Table, f: KeyFile, secrets': Table)
    requires CanRoundTrip(t, name, env) && ValidFile(f)
    requires SavedFile(t, name, env, old_, f.values) && SavedSecrets(t, name, env, secrets, secrets')
    ensures var u := Loaded(f, env, secrets');
      && (forall k :: k in t && k !in DELETED ==> k in u && u[k] == Kept(t, env, k))
      && (forall k :: k in u ==> k !in DELETED && (k in t || k in old_))
  {
    assert forall i :: 0 <= i < |f.order| ==> f.order[i] in f.order;
    LoadKeysShows(f.values, env, secrets', f.order);
    assert "ssh_enabled" in DELETED;
    assert Get(LoadKeys(f.values, env, secrets', f.order), "ssh_enabled").None?;
    forall k | k in t && k !in DELETED ensures k in f.values && Shown(f.values, env, secrets', k) == Kept(t, env, k) {
      KeyRoundTrip(t, name, env, old_, secrets, f.values, secrets', k);
    }
  }

  /** With every key on disk already in the profile and passwords stored, the profile comes back exactly. */
  lemma SaveThenLoadExactly(t: Table, name: string, env: Env, old_: Table, secrets: Table, f: KeyFile, secrets': Table)
    requires CanRoundTrip(t, name, env) && ValidFile(f) && StoresPasswords(t)
    requires SavedFile(t, name, env, old_, f.values) && SavedSecrets(t, name, env, secrets, secrets')
    requires forall k :: k in old_ ==> k in t
    ensures Loaded(f, env, secrets') == t - DELETED
  {
    SaveThenLoad(t, name, env, old_, secrets, f, secrets');
  }

  /** A number set on a profile is the number read after saving and loading. */
  lemma IntSurvives(t: Table, name: string, env: Env, old_: Table, secrets: Table, f: KeyFile, secrets': Table,
                    key: string, value: int, default_: int)
    requires key !in DELETED
    requires var u := t[key := Print(value)];
      && CanRoundTrip(u, name, env) && ValidFile(f) && StoresPasswords(u)
      && SavedFile(u, name, env, old_, f.values) && SavedSecrets(u, name, env, secrets, secrets')
    ensures GetInt(Loaded(f, env, secrets'), key, default_) == value
  {
    SaveThenLoad(t[key := Print(value)], name, env, old_, secrets, f, secrets');
    AtoiReadsPrint(value);
  }

  // ---------------------------------------------------------------- exactly when a setting comes back

  /** The condition under which a setting survives: it is not encrypted; or it goes to the preferences file and
      that already held it; or it is empty; or passwords may be stored, and the keyring takes it (which "." only
      seems to be taken) or the cipher works. */
  predicate Survives(t: Table, name: string, env: Env, old_: Table, secrets: Table, key: string)
    requires key in t
  {
    || !Encrypts(env, ProtocolOf(t), key)
    || (if name == env.prefFile then (if key in old_ then Unsealed(old_[key], env, secrets, key) else "") == t[key]
        else t[key] == "" || (StoresPasswords(t) && Stores(t[key], env, secrets, key)))
  }

  predicate Stores(value: string, env: Env, secrets: Table, key: string) {
    if env.keyring then value != "." || (key in secrets && secrets[key] == ".") else Crypt.Usable(env.conf)
  }

  /** Saving does not follow a NULL pointer, and the plugin does not encrypt the name of the protocol. */
  ghost predicate CanSave(t: Table, env: Env) {
    && (forall k :: k in t ==> Crypt.IsC(t[k]))
    && CipherCodec.Permutation(env.conf.cipher)
    && (env.registry == map[] || (ProtocolOf(t).Some? && ProtocolOf(t).value in env.registry))
    && !Encrypts(env, ProtocolOf(t), "protocol")
  }

  /** A saved setting comes back if and only if it survives, for any surroundings, file and keyring. */
  lemma ComesBackExactlyWhen(t: Table, name: string, env: Env, old_: Table, secrets: Table, f: KeyFile,
                             secrets': Table, key: string)
    requires CanSave(t, env) && ValidFile(f) && key in t && key !in DELETED
    requires SavedFile(t, name, env, old_, f.values) && SavedSecrets(t, name, env, secrets, secrets')
    ensures var u := Loaded(f, env, secrets');
      (if key in u then u[key] else "") == t[key] <==> Survives(t, name, env, old_, secrets, key)
  {
    LoadedShows(t, name, env, old_, f, secrets');
    SavedProtocol(t, name, env, old_, f.values);
    if Encrypts(env, ProtocolOf(t), key) {
      if name == env.prefFile {
        assert Written(t, name, env, key) == None;
      } else {
        SealedExactlyWhen(t, name, env, old_, secrets, f.values, secrets', key);
      }
    } else {
      assert Written(t, name, env, key) == Some(t[key]);
    }
  }

  /** A saved file has no keys to migrate and no "resolution", so loading shows each of its keys. */
  lemma LoadedShows(t: Table, name: string, env: Env, old_: Table, f: KeyFile, secrets: Table)
    requires (forall k :: k in t ==> Crypt.IsC(t[k])) && ValidFile(f) && SavedFile(t, name, env, old_, f.values)
    ensures forall i :: 0 <= i < |f.order| ==> f.order[i] in f.values
    ensures var u := Loaded(f, env, secrets);
      forall k :: (k in u <==> k in f.values) && (k in u ==> u[k] == Shown(f.values, env, secrets, k))
  {
    assert forall i :: 0 <= i < |f.order| ==> f.order[i] in f.order;
    assert "resolution" in DELETED && "ssh_enabled" in DELETED;
    LoadKeysShows(f.values, env, secrets, f.order);
    assert Get(LoadKeys(f.values, env, secrets, f.order), "ssh_enabled").None?;
  }

  /** Loading encrypts the same settings as saving did. */
  lemma SavedProtocol(t: Table, name: string, env: Env, old_: Table, f: Table)
    requires CanSave(t, env) && SavedFile(t, name, env, old_, f)
    ensures forall k :: Encrypts(env, ProtocolOf(f), k) <==> Encrypts(env, ProtocolOf(t), k)
  {
    if "protocol" in t {
      assert Written(t, name, env, "protocol") == Some(t["protocol"]);
      assert "protocol" !in DELETED;
      assert ProtocolOf(f) == ProtocolOf(t);
    }
  }

  lemma SealedExactlyWhen(t: Table, name: string, env: Env, old_: Table, secrets: Table, f: Table, secrets': Table,
                          key: string)
    requires CanSave(t, env) && key in t && key !in DELETED && Encrypts(env, ProtocolOf(t), key) && name != env.prefFile
    requires SavedFile(t, name, env, old_, f) && SavedSecrets(t, name, env, secrets, secrets')
    ensures (if key in f then Unsealed(f[key], env, secrets', key) else "") == t[key]
            <==> t[key] == "" || (StoresPasswords(t) && Stores(t[key], env, secrets, key))
  {
    var w := Written(t, name, env, key);
    assert key in f ==> f[key] == if w.Some? then w.value else old_[key];
    if env.keyring {
      assert w.Some? && (key in secrets' <==> SecretAfter(t, name, env, secrets, key).Some?);
    } else if t[key] != "" && StoresPasswords(t) {
      if Crypt.Usable(env.conf) {
        Crypt.DecryptInvertsEncrypt(env.conf, t[key]);
      }
    }
  }
}
