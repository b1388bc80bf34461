/** scripts/rotate_secrets.py: re-encrypting every stored secret under a new key, and surviving a crash on the way. */
module RotateSecrets {
  import opened PyText
  import opened EnvFiles

  datatype Cell = Cell(table: string, column: string, row: int)

  /** The cells of the database; `None` is NULL. */
  type Database = map<Cell, Option<string>>

  /** Fernet: encryption takes a nonce, decryption fails on foreign tokens. */
  datatype Cipher = Cipher(encrypt: (string, string, nat) -> string, decrypt: (string, string) -> Option<string>)

  ghost predicate Correct(c: Cipher) {
    forall key, plain, nonce :: c.decrypt(key, c.encrypt(key, plain, nonce)) == Some(plain)
  }

  const PREFIX := "fernet:"

  const KEY_NAME := "OPS_SECRET_KEY"

  predicate EndsWith(s: string, suffix: string) {
    |suffix| <= |s| && s[|s| - |suffix|..] == suffix
  }

  predicate IsSecretColumn(column: string) {
    EndsWith(column, "_encrypted") || column == "password" || column == "key_content"
  }

  predicate IsSecret(db: Database, c: Cell) {
    c in db && IsSecretColumn(c.column) && db[c].Some? && db[c].value != ""
  }

  /** The secret cells; a column whose query fails is silently skipped. */
  function Collected(db: Database, failing: set<(string, string)>): set<Cell> {
    set c | c in db && IsSecret(db, c) && (c.table, c.column) !in failing
  }

  /** A column that holds secrets, by its name. */
  ghost predicate NamesSecrets(column: string) {
    column == "password" || column == "key_content" || exists x: string :: column == x + "_encrypted"
  }

  lemma SecretColumnIff(column: string)
    ensures IsSecretColumn(column) <==> NamesSecrets(column)
  {
    if EndsWith(column, "_encrypted") {
      var x := column[..|column| - |"_encrypted"|];
      assert column == x + "_encrypted";
    }
    if exists x: string :: column == x + "_encrypted" {
      var x: string :| column == x + "_encrypted";
      assert column[|column| - |"_encrypted"|..] == "_encrypted";
    }
  }

  /** A nonempty value in such a column, and not in one whose query fails. */
  lemma CollectedIff(db: Database, failing: set<(string, string)>, c: Cell)
    ensures c in Collected(db, failing) <==>
      && c in db && NamesSecrets(c.column) && db[c].Some? && db[c].value != "" && (c.table, c.column) !in failing
  {
    SecretColumnIff(c.column);
    hide IsSecretColumn, NamesSecrets;
  }

  predicate IsEncrypted(value: string) { StartsWith(value, PREFIX) }

  function Token(body: string): string { PREFIX + body }

  /** The secret a stored value stands for under a key. */
  function Reading(cipher: Cipher, key: string, value: string): Option<string> {
    if IsEncrypted(value) then cipher.decrypt(key, value[|PREFIX|..]) else Some(value)
  }

  lemma TokenReads(cipher: Cipher, key: string, plain: string, nonce: nat)
    requires Correct(cipher)
    ensures var token := Token(cipher.encrypt(key, plain, nonce));
      token != "" && IsEncrypted(token) && Reading(cipher, key, token) == Some(plain)
  {
    var body := cipher.encrypt(key, plain, nonce);
    assert Token(body)[..|PREFIX|] == PREFIX && Token(body)[|PREFIX|..] == body;
  }

  /** The key a `.env` text yields; the empty string if it has none. */
  function KeyFrom(env: Option<string>): string {
    if env.None? then ""
    else
      var values := Load(SplitLines(env.value), CleanRotate);
      if KEY_NAME in values then values[KEY_NAME] else ""
  }

  /** `os.environ.setdefault`: a variable of the process shadows the file. */
  function EffectiveKey(process: Option<string>, env: Option<string>): string {
    if process.Some? then process.value else KeyFrom(env)
  }

  lemma ProcessShadowsFile(value: string, env: Option<string>)
    ensures EffectiveKey(Some(value), env) == value && EffectiveKey(None, env) == KeyFrom(env) && KeyFrom(None) == ""
  {
  }

  /** The key of a file is the value read for `OPS_SECRET_KEY`, and empty where there is none. */
  lemma KeyFromIs(env: string)
    ensures var values := Load(SplitLines(env), CleanRotate);
      KeyFrom(Some(env)) == if "OPS_SECRET_KEY" in values then values["OPS_SECRET_KEY"] else ""
  {
    hide Load, SplitLines, CleanRotate;
  }

  /** Some secrets cannot be read with the key. */
  predicate SomeUnreadable(cipher: Cipher, key: string, db: Database, failing: set<(string, string)>) {
    exists c :: c in Collected(db, failing) && Reading(cipher, key, db[c].value).None?
  }

  /** What is on disk: the database and `.env`, and the backups made of them. */
  datatype Disk = Disk(db: Database, dbBackup: Option<Database>, env: Option<string>, envBackup: Option<string>)

  datatype Outcome = Unreadable | DryRun | VerifyFailed | NoEnvFile | UndecodableEnv | Done

  datatype Written = Written | Missing | Undecodable

  /** Exactly the given cells were re-encrypted, each for the secret it stood for. */
  predicate Reencrypted(cipher: Cipher, before: Database, after: Database, cells: set<Cell>, oldKey: string,
                        newKey: string)
    requires forall c :: c in cells ==> c in before && before[c].Some?
  {
    && after.Keys == before.Keys
    && (forall c :: c in before && c !in cells ==> after[c] == before[c])
    && (forall c :: c in cells ==>
      && after[c].Some? && after[c].value != "" && IsEncrypted(after[c].value)
      && Reading(cipher, oldKey, before[c].value).Some?
      && Reading(cipher, newKey, after[c].value) == Reading(cipher, oldKey, before[c].value))
  }

  /** The original database and the original `.env` both still exist, in place or as a backup. */
  predicate Intact(d: Disk, db: Database, env: Option<string>) {
    (d.db == db || d.dbBackup == Some(db)) && (d.env == env || (env.Some? && d.envBackup == env))
  }

  predicate IsUpdate(cipher: Cipher, db: Database, update: (Cell, string), oldKey: string, newKey: string) {
    && update.0 in db && db[update.0].Some? && update.1 != "" && IsEncrypted(update.1)
    && Reading(cipher, oldKey, db[update.0].value).Some?
    && Reading(cipher, newKey, update.1) == Reading(cipher, oldKey, db[update.0].value)
  }

  /** Each cell once, with its secret encrypted under the new key. */
  ghost predicate AreUpdates(cipher: Cipher, db: Database, updates: seq<(Cell, string)>, cells: set<Cell>,
                             oldKey: string, newKey: string) {
    && (forall c :: c in cells <==> exists i :: 0 <= i < |updates| && updates[i].0 == c)
    && (forall i, j | 0 <= i < j < |updates| :: updates[i].0 != updates[j].0)
    && (forall i | 0 <= i < |updates| :: IsUpdate(cipher, db, updates[i], oldKey, newKey))
  }

  function Body(value: string): string {
    if |value| < |PREFIX| then "" else value[|PREFIX|..]
  }

  lemma RowsMakeUpdates(cipher: Cipher, db: Database, rows: seq<(Cell, string)>, plain: seq<(Cell, string)>,
                        updates: seq<(Cell, string)>, cells: set<Cell>, oldKey: string, newKey: string)
    requires |rows| == |plain| == |updates|
    requires forall c :: c in cells <==> exists i :: 0 <= i < |rows| && rows[i].0 == c
    requires forall i, j :: 0 <= i < j < |rows| ==> rows[i].0 != rows[j].0
    requires forall i :: 0 <= i < |rows| ==> rows[i].0 in db && db[rows[i].0] == Some(rows[i].1)
    requires forall i :: 0 <= i < |rows| ==>
      plain[i].0 == rows[i].0 && Some(plain[i].1) == Reading(cipher, oldKey, rows[i].1)
    requires forall i :: 0 <= i < |plain| ==>
      && updates[i].0 == plain[i].0 && updates[i].1 != "" && IsEncrypted(updates[i].1)
      && Reading(cipher, newKey, updates[i].1) == Some(plain[i].1)
    ensures AreUpdates(cipher, db, updates, cells, oldKey, newKey)
  {
    hide Reading, IsEncrypted;
    assert forall i | 0 <= i < |rows| :: updates[i].0 == plain[i].0 == rows[i].0;
  }

  lemma EncryptedHasBody(cipher: Cipher, key: string, value: string)
    requires IsEncrypted(value)
    ensures Reading(cipher, key, value) == cipher.decrypt(key, Body(value))
  {
  }

  /**
   Writing the updates re-encrypts exactly their cells, each for the secret it stood for, and all can be read back.
   */
  lemma UpdatesReencrypt(cipher: Cipher, before: Database, after: Database, updates: seq<(Cell, string)>,
                         cells: set<Cell>,
                         oldKey: string, newKey: string)
    requires AreUpdates(cipher, before, updates, cells, oldKey, newKey)
    requires after.Keys == before.Keys
    requires forall i :: 0 <= i < |updates| ==> after[updates[i].0] == Some(updates[i].1)
    requires forall c :: c in after && (forall i :: 0 <= i < |updates| ==> updates[i].0 != c) ==> after[c] == before[c]
    ensures forall c :: c in cells ==> c in before && before[c].Some?
    ensures Reencrypted(cipher, before, after, cells, oldKey, newKey)
    ensures forall i :: 0 <= i < |updates| ==> cipher.decrypt(newKey, Body(after[updates[i].0].value)).Some?
  {
    forall i | 0 <= i < |updates| ensures cipher.decrypt(newKey, Body(after[updates[i].0].value)).Some? {
      assert IsUpdate(cipher, before, updates[i], oldKey, newKey);
      EncryptedHasBody(cipher, newKey, updates[i].1);
    }
    hide Reading, IsEncrypted, Body;
    forall c | c in cells
      ensures c in before && before[c].Some?
      ensures after[c].Some? && after[c].value != "" && IsEncrypted(after[c].value)
      ensures Reading(cipher, oldKey, before[c].value).Some?
      ensures Reading(cipher, newKey, after[c].value) == Reading(cipher, oldKey, before[c].value)
    {
      var i :| 0 <= i < |updates| && updates[i].0 == c;
      assert IsUpdate(cipher, before, updates[i], oldKey, newKey);
    }
  }

  class Host {
    const cipher: Cipher
    var db: Database
    var dbBackup: Option<Database>
    var env: Option<string>
    var envBackup: Option<string>
    /** Every state a crash could have left behind so far. */
    ghost var crashes: iset<Disk>

    constructor (cipher: Cipher, db: Database, env: Option<string>)
      ensures this.cipher == cipher && State() == Disk(db, None, env, None)
    {
      this.cipher, this.db, this.env := cipher, db, env;
      dbBackup, envBackup := None, None;
      crashes := iset{Disk(db, None, env, None)};
    }

    function State(): Disk
      reads this
    {
      Disk(db, dbBackup, env, envBackup)
    }

    /** While the backup is being written, the backup file may hold anything. */
    method BackupDatabase()
      modifies this
      ensures State() == old(State()).(dbBackup := Some(db))
      ensures old(crashes) <= crashes && State() in crashes
      ensures forall b :: Disk(db, Some(b), env, envBackup) in crashes
      ensures forall d :: d in crashes ==> d in old(crashes) || (d.db == old(db) && d.env == old(env))
    {
      crashes := crashes + iset b: Database :: Disk(db, Some(b), env, envBackup);
      dbBackup := Some(db);
    }

    /**
     `write_env_value`: back the file up, then overwrite it; each write may be torn. Unlike the reader, it refuses a
     file that is not valid UTF-8.
     */
    method WriteEnv(value: string, utf8: bool) returns (r: Written)
      modifies this
      ensures r == if old(env).None? then Missing else if !utf8 then Undecodable else Written
      ensures !r.Written? ==> State() == old(State()) && crashes == old(crashes)
      ensures r.Written? ==>
        && env == Some(JoinLines(WriteLines(SplitLines(old(env).value), KEY_NAME, value)))
        && State() == Disk(old(db), old(dbBackup), env, old(env)) && old(crashes) <= crashes && State() in crashes
        && (forall t :: Disk(db, dbBackup, old(env), Some(t)) in crashes)
        && (forall t :: Disk(db, dbBackup, Some(t), old(env)) in crashes)
        && forall d :: d in crashes ==> (d in old(crashes)
             || (d.db == old(db) && d.dbBackup == old(dbBackup) && (d.env == old(env) || d.envBackup == old(env))))
    {
      hide WriteLines, SplitLines, JoinLines, KEY_NAME;
      if env.None? {
        return Missing;
      }
      if !utf8 {
        return Undecodable;
      }
      crashes := crashes + iset t: string :: Disk(db, dbBackup, env, Some(t));
      envBackup := env;
      crashes := crashes + iset t: string :: Disk(db, dbBackup, Some(t), envBackup);
      var lines := ComputeWriteLines(SplitLines(env.value), KEY_NAME, value);
      env := Some(JoinLines(lines));
      r := Written.Written;
    }

    /** The rows in some order. */
    method CollectSecretRows(failing: set<(string, string)>) returns (rows: seq<(Cell, string)>)
      ensures forall i :: 0 <= i < |rows| ==> rows[i].0 in Collected(db, failing) && Some(rows[i].1) == db[rows[i].0]
      ensures forall c :: c in Collected(db, failing) ==> exists i :: 0 <= i < |rows| && rows[i].0 == c
      ensures forall i, j :: 0 <= i < j < |rows| ==> rows[i].0 != rows[j].0
    {
      hide IsSecretColumn;
      rows := [];
      var unseen := db.Keys;
      while unseen != {}
        invariant unseen <= db.Keys
        invariant forall i :: 0 <= i < |rows| ==>
          rows[i].0 in Collected(db, failing) && rows[i].0 !in unseen && Some(rows[i].1) == db[rows[i].0]
        invariant forall c | c in Collected(db, failing) && c !in unseen :: exists i ::
          0 <= i < |rows| && rows[i].0 == c
        invariant forall i, j :: 0 <= i < j < |rows| ==> rows[i].0 != rows[j].0
        decreases unseen
      {
        var c :| c in unseen;
        ghost var before := rows;
        if (c.table, c.column) !in failing && IsSecretColumn(c.column) && db[c].Some? && db[c].value != "" {
          rows := rows + [(c, db[c].value)];
          assert rows[|before|].0 == c;
        }
        assert forall i :: 0 <= i < |before| ==> rows[i] == before[i];
        unseen := unseen - {c};
      }
    }

    /** Decrypts every row, collecting the failures instead of stopping at the first. */
    method DecryptAll(rows: seq<(Cell, string)>,
                      oldKey: string) returns (plain: seq<(Cell, string)>, failures: seq<Cell>)
      ensures failures == [] <==> forall i :: 0 <= i < |rows| ==> Reading(cipher, oldKey, rows[i].1).Some?
      ensures failures == [] ==> |plain| == |rows| && forall i :: 0 <= i < |rows| ==>
        plain[i].0 == rows[i].0 && Some(plain[i].1) == Reading(cipher, oldKey, rows[i].1)
    {
      hide PREFIX;
      plain, failures := [], [];
      for i := 0 to |rows|
        invariant failures == [] <==> forall j :: 0 <= j < i ==> Reading(cipher, oldKey, rows[j].1).Some?
        invariant failures == [] ==> |plain| == i && forall j :: 0 <= j < i ==>
          plain[j].0 == rows[j].0 && Some(plain[j].1) == Reading(cipher, oldKey, rows[j].1)
      {
        var (cell, value) := rows[i];
        if IsEncrypted(value) {
          var secret := cipher.decrypt(oldKey, value[|PREFIX|..]);
          if secret.None? {
            failures := failures + [cell];
          } else {
            plain := plain + [(cell, secret.value)];
          }
        } else {
          plain := plain + [(cell, value)];
        }
      }
    }

    method EncryptAll(plain: seq<(Cell, string)>, newKey: string) returns (updates: seq<(Cell, string)>)
      requires Correct(cipher)
      ensures |updates| == |plain|
      ensures forall i :: 0 <= i < |plain| ==>
        && updates[i].0 == plain[i].0 && updates[i].1 != "" && IsEncrypted(updates[i].1)
        && Reading(cipher, newKey, updates[i].1) == Some(plain[i].1)
    {
      updates := [];
      for i := 0 to |plain|
        invariant |updates| == i
        invariant forall j :: 0 <= j < i ==>
          && updates[j].0 == plain[j].0 && updates[j].1 != "" && IsEncrypted(updates[j].1)
          && Reading(cipher, newKey, updates[j].1) == Some(plain[j].1)
      {
        hide IsEncrypted, PREFIX, Reading, Token, Correct;
        TokenReads(cipher, newKey, plain[i].1, i);
        updates := updates + [(plain[i].0, Token(cipher.encrypt(newKey, plain[i].1, i)))];
      }
    }

    /** One transaction: either all the updates are there or none. */
    method Commit(updates: seq<(Cell, string)>)
      requires forall i :: 0 <= i < |updates| ==> updates[i].0 in db
      requires forall i, j :: 0 <= i < j < |updates| ==> updates[i].0 != updates[j].0
      modifies this
      ensures State() == old(State()).(db := db)
      ensures crashes == old(crashes) + iset{State()}
      ensures db.Keys == old(db).Keys
      ensures forall i :: 0 <= i < |updates| ==> db[updates[i].0] == Some(updates[i].1)
      ensures forall c :: c in db && (forall i :: 0 <= i < |updates| ==> updates[i].0 != c) ==> db[c] == old(db)[c]
    {
      var staged := db;
      for i := 0 to |updates|
        invariant staged.Keys == db.Keys
        invariant forall j :: 0 <= j < i ==> staged[updates[j].0] == Some(updates[j].1)
        invariant forall c :: c in staged && (forall j :: 0 <= j < i ==> updates[j].0 != c) ==> staged[c] == db[c]
      {
        staged := staged[updates[i].0 := Some(updates[i].1)];
      }
      db := staged;
      crashes := crashes + iset{State()};
    }

    /** Reads the written values back: each must decrypt. */
    method Verify(updates: seq<(Cell, string)>, key: string) returns (ok: bool)
      requires forall i :: 0 <= i < |updates| ==> updates[i].0 in db && db[updates[i].0].Some?
      ensures ok <==> forall i :: 0 <= i < |updates| ==>
        cipher.decrypt(key, Body(db[updates[i].0].value)).Some?
    {
      ok := true;
      for i := 0 to |updates|
        invariant ok <==> forall j :: 0 <= j < i ==> cipher.decrypt(key, Body(db[updates[j].0].value)).Some?
      {
        if cipher.decrypt(key, Body(db[updates[i].0].value)).None? {
          ok := false;
        }
      }
    }

    /** The rows to be rotated; without an old key there are none. */
    ghost function Scope(oldKey: string, failing: set<(string, string)>): set<Cell>
      reads this
    {
      if oldKey == "" then {} else Collected(db, failing)
    }

    /** Reads, decrypts and re-encrypts in memory; no updates when a row cannot be decrypted. */
    method PrepareUpdates(oldKey: string, newKey: string, failing: set<(string, string)>)
      returns (updates: Option<seq<(Cell, string)>>)
      requires Correct(cipher)
      ensures updates.None? <==> oldKey != "" && SomeUnreadable(cipher, oldKey, db, failing)
      ensures updates.Some? ==> AreUpdates(cipher, db, updates.value, Scope(oldKey, failing), oldKey, newKey)
    {
      hide Correct, Reading, IsEncrypted, Token, PREFIX, IsSecretColumn, IsSecret;
      var rows: seq<(Cell, string)> := [];
      if oldKey != "" {
        rows := CollectSecretRows(failing);
      }
      var plain, failures := DecryptAll(rows, oldKey);
      assert forall c :: c in Scope(oldKey, failing) <==> exists i :: 0 <= i < |rows| && rows[i].0 == c;
      if failures != [] {
        return None;
      }
      var list := EncryptAll(plain, newKey);
      RowsMakeUpdates(cipher, db, rows, plain, list, Scope(oldKey, failing), oldKey, newKey);
      updates := Some(list);
    }

    /** Backup, one transaction, read-back. */
    method ApplyUpdates(updates: seq<(Cell, string)>, ghost cells: set<Cell>, ghost oldKey: string, newKey: string)
      returns (verified: bool)
      requires AreUpdates(cipher, db, updates, cells, oldKey, newKey)
      modifies this
      ensures verified && Reencrypted(cipher, old(db), db, cells, oldKey, newKey)
      ensures State() == Disk(db, Some(old(db)), old(env), old(envBackup))
      ensures old(crashes) <= crashes && State() in crashes
      ensures forall b :: Disk(old(db), Some(b), env, envBackup) in crashes
      ensures forall d | d in crashes ::
        d in old(crashes) || (d.env == env && (d.db == old(db) || d.dbBackup == Some(old(db))))
    {
      hide Reading, IsEncrypted, Body;
      BackupDatabase();
      ghost var before := db;
      Commit(updates);
      UpdatesReencrypt(cipher, before, db, updates, cells, oldKey, newKey);
      verified := Verify(updates, newKey);
    }

    method RotateOpsKey(process: Option<string>, newKey: string, failing: set<(string, string)>, apply: bool,
                        utf8: bool)
      returns (r: Outcome)
      requires Correct(cipher)
      modifies this
      ensures var oldKey := EffectiveKey(process, old(env));
        && (r.Unreadable? <==> oldKey != "" && SomeUnreadable(cipher, oldKey, old(db), failing))
        && (r.DryRun? <==> !r.Unreadable? && !apply)
        && (r.NoEnvFile? <==> !r.Unreadable? && apply && old(env).None?)
        && (r.UndecodableEnv? <==> !r.Unreadable? && apply && old(env).Some? && !utf8)
        && !r.VerifyFailed?
        && (r.Unreadable? || r.DryRun? ==> State() == old(State()) && crashes == iset{old(State())})
        && (!r.Unreadable? && !r.DryRun? ==>
          && Reencrypted(cipher, old(db), db, old(Scope(oldKey, failing)), oldKey, newKey)
          && dbBackup == Some(old(db)))
        && (r.Done? ==> env == Some(JoinLines(WriteLines(SplitLines(old(env).value), KEY_NAME, newKey))))
        && (!r.Done? ==> env == old(env))
      ensures old(State()) in crashes && State() in crashes
      ensures forall d :: d in crashes ==> Intact(d, old(db), old(env))
      ensures r.Done? ==>
        && (forall b :: Disk(old(db), Some(b), old(env), old(envBackup)) in crashes)
        && Disk(db, Some(old(db)), old(env), old(envBackup)) in crashes
        && (forall t :: Disk(db, Some(old(db)), Some(t), old(env)) in crashes)
    {
      hide Correct, WriteLines, SplitLines, JoinLines, KEY_NAME, KeyFrom;
      hide EffectiveKey, SomeUnreadable, AreUpdates, Reencrypted;
      crashes := iset{State()};
      var oldKey := EffectiveKey(process, env);
      var updates := PrepareUpdates(oldKey, newKey, failing);
      if updates.None? {
        return Unreadable;
      }
      if !apply {
        return DryRun;
      }
      var verified := ApplyUpdates(updates.value, Scope(oldKey, failing), oldKey, newKey);
      if !verified {
        return VerifyFailed;
      }
      var written := WriteEnv(newKey, utf8);
      match written
      case Missing => r := NoEnvFile;
      case Undecodable => r := UndecodableEnv;
      case Written => r := Done;
    }
  }

  // -------------------------------------------------------- surviving a crash

  /** The database and the `.env` together still give every secret. */
  predicate Yields(cipher: Cipher, db: Database, env: Option<string>, secrets: map<Cell, string>) {
    forall c :: c in secrets ==>
      c in db && db[c].Some? && Reading(cipher, KeyFrom(env), db[c].value) == Some(secrets[c])
  }

  /** Some pair of a database and a `.env`, each in place or as a backup, still gives every secret. */
  predicate Recoverable(cipher: Cipher, d: Disk, secrets: map<Cell, string>) {
    || Yields(cipher, d.db, d.env, secrets)
    || (d.envBackup.Some? && Yields(cipher, d.db, d.envBackup, secrets))
    || (d.dbBackup.Some? && Yields(cipher, d.dbBackup.value, d.env, secrets))
    || (d.dbBackup.Some? && d.envBackup.Some? && Yields(cipher, d.dbBackup.value, d.envBackup, secrets))
  }

  /** All secrets of a database, as the old key reads them. */
  function Secrets(cipher: Cipher, db: Database, key: string): map<Cell, string> {
    map c | c in Collected(db, {}) && Reading(cipher, key, db[c].value).Some? :: Reading(cipher, key, db[c].value).value
  }

  /**
   A run started without backups is recoverable at every point it may crash exactly when the `.env` it
   started with gives the secrets: when its key is not shadowed by a different variable of the process.
   */
  lemma CrashesAreRecoverableIff(cipher: Cipher, crashes: iset<Disk>, db: Database, env: Option<string>,
                                 secrets: map<Cell, string>)
    requires Disk(db, None, env, None) in crashes && forall d :: d in crashes ==> Intact(d, db, env)
    ensures (forall d :: d in crashes ==> Recoverable(cipher, d, secrets)) <==> Yields(cipher, db, env, secrets)
  {
    hide Yields;
    if Yields(cipher, db, env, secrets) {
      forall d | d in crashes ensures Recoverable(cipher, d, secrets) {
        assert Intact(d, db, env);
      }
    } else {
      assert !Recoverable(cipher, Disk(db, None, env, None), secrets);
    }
  }

  lemma UnshadowedKeyYields(cipher: Cipher, db: Database, process: Option<string>, env: Option<string>)
    requires EffectiveKey(process, env) == KeyFrom(env)
    ensures Yields(cipher, db, env, Secrets(cipher, db, EffectiveKey(process, env)))
  {
    hide KeyFrom, Reading, IsSecretColumn;
  }

  // ------------------------------------------------------- what success means

  predicate UrlSafeChar(c: char) {
    'a' <= c <= 'z' || 'A' <= c <= 'Z' || '0' <= c <= '9' || c == '-' || c == '_'
  }

  /** The alphabet of `secrets.token_urlsafe`. */
  predicate UrlSafe(key: string) { key != "" && forall i :: 0 <= i < |key| ==> UrlSafeChar(key[i]) }

  lemma UrlSafeCharIsOrdinary(c: char)
    requires UrlSafeChar(c)
    ensures !IsSpace(c) && !IsBreak(c) && !IsDoubleQuote(c) && !IsSingleQuote(c)
  {
  }

  lemma UrlSafeIsKept(key: string)
    requires UrlSafe(key)
    ensures NoBreaks(key) && CleanRotate(key) == key
  {
    hide UrlSafeChar, IsSpace, IsBreak, IsDoubleQuote, IsSingleQuote, CleanRotate, CleanMatrix;
    forall i | 0 <= i < |key|
      ensures !IsSpace(key[i]) && !IsBreak(key[i]) && !IsDoubleQuote(key[i]) && !IsSingleQuote(key[i])
    {
      UrlSafeCharIsOrdinary(key[i]);
    }
    CleanValueIsKept(key);
  }

  lemma KeyNameIsKey()
    ensures IsKey(KEY_NAME) && NoBreaks(KEY_NAME)
  {
  }

  lemma WrittenLinesUnbroken(lines: seq<string>, key: string, value: string)
    requires AllUnbroken(lines) && NoBreaks(Render(key, value))
    ensures AllUnbroken(WriteLines(lines, key, value))
  {
    hide NoBreaks, Render, Target;
  }

  lemma RewrittenFileSplits(env: string, newKey: string)
    requires UrlSafe(newKey)
    ensures var lines := WriteLines(SplitLines(env), KEY_NAME, newKey); SplitLines(JoinLines(lines)) == lines
  {
    KeyNameIsKey();
    UrlSafeIsKept(newKey);
    hide KEY_NAME, UrlSafe, NoBreaks, SplitLines, JoinLines, WriteLines, CleanRotate, IsKey;
    RenderedHasNoBreaks(KEY_NAME, newKey);
    WrittenLinesUnbroken(SplitLines(env), KEY_NAME, newKey);
    SplitJoin(WriteLines(SplitLines(env), KEY_NAME, newKey));
  }

  lemma KeyFromText(text: string)
    ensures var values := Load(SplitLines(text), CleanRotate);
      KeyFrom(Some(text)) == if KEY_NAME in values then values[KEY_NAME] else ""
  {
    hide Load, SplitLines, CleanRotate, KEY_NAME;
  }

  /** At most one line of the file binds the key. */
  predicate BoundOnceIn(env: string) { BoundAtMostOnce(SplitLines(env), KEY_NAME, CleanRotate) }

  /** The key the rewritten `.env` yields: the new one, unless a later line binds it again. */
  lemma RewrittenEnvYields(env: string, newKey: string)
    requires UrlSafe(newKey)
    ensures var lines := SplitLines(env);
      var later := Rebound(lines, KEY_NAME, CleanRotate);
      KeyFrom(Some(JoinLines(WriteLines(lines, KEY_NAME, newKey))))
        == if KEY_NAME in later then later[KEY_NAME] else newKey
    ensures BoundOnceIn(env) ==>
      KeyFrom(Some(JoinLines(WriteLines(SplitLines(env), KEY_NAME, newKey)))) == newKey
  {
    assert BoundOnceIn(env) ==> BoundAtMostOnce(SplitLines(env), KEY_NAME, CleanRotate);
    hide *;
    KeyNameIsKey();
    UrlSafeIsKept(newKey);
    CleanersDependOnStrip();
    RewrittenFileSplits(env, newKey);
    var lines := SplitLines(env);
    KeyFromText(JoinLines(WriteLines(lines, KEY_NAME, newKey)));
    WrittenValueIsRead(lines, KEY_NAME, newKey, CleanRotate);
    if BoundAtMostOnce(lines, KEY_NAME, CleanRotate) {
      SingleBindingIsReplaced(lines, KEY_NAME, newKey, CleanRotate);
    }
  }

  /** Every secret is stored encrypted, and the new key reads what the old key read. */
  predicate Migrated(cipher: Cipher, before: Database, after: Database, oldKey: string, newKey: string) {
    forall c :: c in Collected(before, {}) ==>
      && c in after && after[c].Some? && IsEncrypted(after[c].value)
      && Reading(cipher, oldKey, before[c].value).Some?
      && Reading(cipher, newKey, after[c].value) == Reading(cipher, oldKey, before[c].value)
  }

  /** No value stored before the run decrypts under the new key. */
  predicate FreshKey(cipher: Cipher, db: Database, newKey: string) {
    forall c :: c in Collected(db, {}) && IsEncrypted(db[c].value) ==> Reading(cipher, newKey, db[c].value).None?
  }

  /**
   A completed rotation has migrated every secret exactly when the old key was not empty and no column
   holding a secret was skipped.
   */
  lemma CompletedRotationMigratesIff(cipher: Cipher, before: Database, after: Database, oldKey: string, newKey: string,
                                     failing: set<(string, string)>)
    requires FreshKey(cipher, before, newKey)
    requires Reencrypted(cipher, before, after, if oldKey == "" then {} else Collected(before, failing), oldKey, newKey)
    ensures Migrated(cipher, before, after, oldKey, newKey) <==>
      forall c :: c in Collected(before, {}) ==> oldKey != "" && (c.table, c.column) !in failing
  {
    hide Reading, IsEncrypted, IsSecretColumn;
    var cells := if oldKey == "" then {} else Collected(before, failing);
    assert forall c :: c in Collected(before, {}) && c !in cells ==> after[c] == before[c];
  }

  /**
   After a completed rotation with a nonempty old key, no skipped column and at most one binding of the key in `.env`,
   the rewritten database and the rewritten `.env` give exactly the secrets the old pair gave.
   */
  lemma CompletedRotationYieldsSecrets(cipher: Cipher, before: Database, after: Database, env: string, oldKey: string,
                                       newKey: string)
    requires oldKey != "" && UrlSafe(newKey) && BoundOnceIn(env)
    requires !SomeUnreadable(cipher, oldKey, before, {})
    requires Reencrypted(cipher, before, after, Collected(before, {}), oldKey, newKey)
    ensures var env' := Some(JoinLines(WriteLines(SplitLines(env), KEY_NAME, newKey)));
            var secrets := Secrets(cipher, before, oldKey);
            Yields(cipher, after, env', secrets) && secrets.Keys == Collected(before, {})
  {
    RewrittenEnvYields(env, newKey);
    hide KeyFrom, UrlSafe, BoundOnceIn, SplitLines, JoinLines, WriteLines;
    hide KEY_NAME, Reading, IsEncrypted, IsSecretColumn;
  }

  lemma ReencryptedIsMigrated(cipher: Cipher, before: Database, after: Database, oldKey: string, newKey: string)
    requires Reencrypted(cipher, before, after, Collected(before, {}), oldKey, newKey)
    ensures Migrated(cipher, before, after, oldKey, newKey)
  {
    hide Reading, IsEncrypted, IsSecretColumn;
  }

  lemma AllSecretsRead(cipher: Cipher, db: Database, key: string)
    requires !SomeUnreadable(cipher, key, db, {})
    ensures Secrets(cipher, db, key).Keys == Collected(db, {})
  {
    hide Reading, IsSecretColumn;
  }

  /** The secret of a stored value: what its token decrypts to, or the value itself if it is none. */
  lemma ReadingIs(cipher: Cipher, key: string, body: string, value: string)
    ensures Reading(cipher, key, "fernet:" + body) == cipher.decrypt(key, body)
    ensures !StartsWith(value, "fernet:") ==> Reading(cipher, key, value) == Some(value)
  {
    var token := PREFIX + body;
    assert token[..|PREFIX|] == PREFIX && token[|PREFIX|..] == body;
  }

  /** The cell holds a token, which the new key decrypts to what the old key read. */
  predicate IsRotated(cipher: Cipher, before: string, after: string, oldKey: string, newKey: string) {
    && StartsWith(after, "fernet:") && Reading(cipher, oldKey, before).Some?
    && cipher.decrypt(newKey, after[7..]) == Reading(cipher, oldKey, before)
  }

  /** Every nonempty cell of a column named for secrets is rotated, and every other cell is as it was. */
  ghost predicate AllRotated(cipher: Cipher, before: Database, after: Database, oldKey: string, newKey: string) {
    && after.Keys == before.Keys
    && forall c :: c in before ==>
         if NamesSecrets(c.column) && before[c].Some? && before[c].value != "" then
           after[c].Some? && IsRotated(cipher, before[c].value, after[c].value, oldKey, newKey)
         else after[c] == before[c]
  }

  lemma ReencryptedRotatesAll(cipher: Cipher, before: Database, after: Database, oldKey: string, newKey: string)
    requires Reencrypted(cipher, before, after, Collected(before, {}), oldKey, newKey)
    ensures AllRotated(cipher, before, after, oldKey, newKey)
  {
    hide NamesSecrets, Collected;
    forall c | c in before
      ensures if NamesSecrets(c.column) && before[c].Some? && before[c].value != "" then
                after[c].Some? && IsRotated(cipher, before[c].value, after[c].value, oldKey, newKey)
              else after[c] == before[c]
    {
      CollectedIff(before, {}, c);
    }
  }

  /**
   A whole run in which every column can be queried. Done, it has left every secret encrypted, and a database and a
   `.env` that give every secret; and wherever it may have crashed, some pair gives them, unless already the initial
   one did not.
   */
  method RotateEverything(host: Host, process: Option<string>, newKey: string, apply: bool,
                          utf8: bool) returns (r: Outcome)
    requires Correct(host.cipher) && host.dbBackup.None? && host.envBackup.None?
    modifies host
    ensures var oldKey := EffectiveKey(process, old(host.env));
      var secrets := Secrets(host.cipher, old(host.db), oldKey);
      && (r.Done? ==> old(host.env).Some?)
      && (r.Done? && oldKey != "" ==> secrets.Keys == Collected(old(host.db), {}))
      && (r.Unreadable? || r.DryRun? ==> host.db == old(host.db) && host.env == old(host.env))
      && (!r.Unreadable? && !r.DryRun? && oldKey != ""
          ==> Migrated(host.cipher, old(host.db), host.db, oldKey, newKey)
              && AllRotated(host.cipher, old(host.db), host.db, oldKey, newKey))
      && (r.Done? && oldKey != "" && UrlSafe(newKey) && BoundOnceIn(old(host.env).value)
          ==> Yields(host.cipher, host.db, host.env, secrets))
      && ((forall d :: d in host.crashes ==> Recoverable(host.cipher, d, secrets))
          <==> Yields(host.cipher, old(host.db), old(host.env), secrets))
      && (oldKey == KeyFrom(old(host.env)) ==> forall d :: d in host.crashes ==> Recoverable(host.cipher, d, secrets))
  {
    hide Correct, KeyFrom, EffectiveKey, Reencrypted, Yields, Recoverable, UrlSafe, BoundOnceIn, SplitLines, JoinLines;
    hide WriteLines, KEY_NAME, Secrets, SomeUnreadable, IsSecretColumn, Migrated, AllRotated;
    ghost var before, env, oldKey := host.db, host.env, EffectiveKey(process, host.env);
    ghost var secrets := Secrets(host.cipher, before, oldKey);
    r := host.RotateOpsKey(process, newKey, {}, apply, utf8);
    CrashesAreRecoverableIff(host.cipher, host.crashes, before, env, secrets);
    if oldKey == KeyFrom(env) {
      UnshadowedKeyYields(host.cipher, before, process, env);
    }
    if !r.Unreadable? && !r.DryRun? && oldKey != "" {
      ReencryptedIsMigrated(host.cipher, before, host.db, oldKey, newKey);
      ReencryptedRotatesAll(host.cipher, before, host.db, oldKey, newKey);
    }
    if r.Done? && oldKey != "" {
      AllSecretsRead(host.cipher, before, oldKey);
      if UrlSafe(newKey) && BoundOnceIn(env.value) {
        CompletedRotationYieldsSecrets(host.cipher, before, host.db, env.value, oldKey, newKey);
      }
    }
  }

  /** With an empty old key, a stored plaintext password stays as it is. */
  lemma EmptyOldKeyLeavesPlaintext(cipher: Cipher, newKey: string)
    ensures var db: Database := map[Cell("servers", "password", 1) := Some("pw")];
            Reencrypted(cipher, db, db, {}, "", newKey) && !Migrated(cipher, db, db, "", newKey)
  {
    var c := Cell("servers", "password", 1);
    var db: Database := map[c := Some("pw")];
    assert c in Collected(db, {});
    assert !IsEncrypted("pw") by { assert |PREFIX| > 2; }
  }

  // ------------------------------------------------------ encrypting plaintext

  function Plaintext(db: Database, failing: set<(string, string)>): set<Cell> {
    set c | c in Collected(db, failing) && !IsEncrypted(db[c].value)
  }

  datatype Encryption = NoKey | NothingToEncrypt | NotApplied | ReadBackFailed | Encrypted

  lemma PlainReadsAsItself(cipher: Cipher, key: string, value: string)
    requires !IsEncrypted(value)
    ensures Reading(cipher, key, value) == Some(value)
  {
  }

  /** Every nonempty value of a column named for secrets that was no token is one now; every other cell is as it was. */
  ghost predicate AllEncrypted(cipher: Cipher, before: Database, after: Database, key: string) {
    && after.Keys == before.Keys
    && forall c :: c in before ==>
         if NamesSecrets(c.column) && before[c].Some? && before[c].value != "" && !StartsWith(before[c].value, PREFIX)
         then
           && after[c].Some? && StartsWith(after[c].value, PREFIX)
           && cipher.decrypt(key, after[c].value[|PREFIX|..]) == before[c]
         else after[c] == before[c]
  }

  lemma PlaintextIsEncrypted(cipher: Cipher, before: Database, after: Database, key: string)
    requires Reencrypted(cipher, before, after, Plaintext(before, {}), key, key)
    ensures AllEncrypted(cipher, before, after, key)
  {
    hide NamesSecrets, Collected;
    forall c | c in before
      ensures if NamesSecrets(c.column) && before[c].Some? && before[c].value != ""
                 && !StartsWith(before[c].value, PREFIX) then
                && after[c].Some? && StartsWith(after[c].value, PREFIX)
                && cipher.decrypt(key, after[c].value[|PREFIX|..]) == before[c]
              else after[c] == before[c]
    {
      CollectedIff(before, {}, c);
    }
  }

  /** `cmd_encrypt_plaintext`: what a reader with the same key gets is unchanged. */
  method EncryptPlaintext(host: Host, process: Option<string>, failing: set<(string, string)>,
                          apply: bool) returns (r: Encryption)
    requires Correct(host.cipher)
    modifies host
    ensures var key, cells := EffectiveKey(process, old(host.env)), Plaintext(old(host.db), failing);
      && (r.NoKey? <==> key == "")
      && (r.NothingToEncrypt? <==> key != "" && cells == {})
      && (r.NotApplied? <==> key != "" && cells != {} && !apply)
      && !r.ReadBackFailed?
      && (!r.Encrypted? ==> host.State() == old(host.State()))
      && (r.Encrypted? ==>
        && Reencrypted(host.cipher, old(host.db), host.db, cells, key, key)
        && host.dbBackup == Some(old(host.db)) && host.env == old(host.env) && host.envBackup == old(host.envBackup)
        && (failing == {} ==> AllEncrypted(host.cipher, old(host.db), host.db, key)))
  {
    hide Correct, Token, PREFIX, IsSecretColumn, KeyFrom, EffectiveKey;
    var key := EffectiveKey(process, host.env);
    if key == "" {
      return NoKey;
    }
    var rows := host.CollectSecretRows(failing);
    var targets: seq<(Cell, string)> := [];
    for i := 0 to |rows|
      invariant forall j :: 0 <= j < |targets| ==> targets[j] in rows[..i] && !IsEncrypted(targets[j].1)
      invariant forall j :: 0 <= j < i && !IsEncrypted(rows[j].1) ==> rows[j] in targets
      invariant forall j, k :: 0 <= j < k < |targets| ==> targets[j].0 != targets[k].0
    {
      ghost var before := targets;
      if !IsEncrypted(rows[i].1) {
        targets := targets + [rows[i]];
        assert targets[|before|] == rows[i];
      }
      assert forall j :: 0 <= j < |before| ==> before[j] in targets by {
        assert forall j :: 0 <= j < |before| ==> targets[j] == before[j];
      }
    }
    assert rows[..|rows|] == rows;
    hide IsEncrypted, Reading, AreUpdates, Reencrypted, AllEncrypted;
    ghost var cells := Plaintext(host.db, failing);
    assert forall c :: c in cells <==> exists i :: 0 <= i < |targets| && targets[i].0 == c;
    if targets == [] {
      return NothingToEncrypt;
    }
    assert targets[0].0 in cells;
    if !apply {
      return NotApplied;
    }
    forall i | 0 <= i < |targets| ensures Some(targets[i].1) == Reading(host.cipher, key, targets[i].1) {
      PlainReadsAsItself(host.cipher, key, targets[i].1);
    }
    var updates := host.EncryptAll(targets, key);
    RowsMakeUpdates(host.cipher, host.db, targets, targets, updates, cells, key, key);
    ghost var before := host.db;
    var verified := host.ApplyUpdates(updates, cells, key, key);
    if failing == {} {
      PlaintextIsEncrypted(host.cipher, before, host.db, key);
    }
    r := if verified then Encrypted else ReadBackFailed;
  }

  /** Encrypting plaintext changes no secret a reader with the key gets, and leaves nothing to encrypt. */
  lemma EncryptingKeepsMeaning(cipher: Cipher, before: Database, after: Database, key: string)
    requires Reencrypted(cipher, before, after, Plaintext(before, {}), key, key)
    ensures Secrets(cipher, after, key) == Secrets(cipher, before, key)
    ensures forall c :: c in Collected(after, {}) ==> IsEncrypted(after[c].value)
  {
    hide Reading, IsEncrypted, IsSecretColumn;
    var cells := Plaintext(before, {});
    assert Collected(after, {}) == Collected(before, {}) by {
      forall c | c in before ensures IsSecret(after, c) <==> IsSecret(before, c) {
        if c in cells {} else { assert after[c] == before[c]; }
      }
    }
    forall c | c in Collected(before, {})
      ensures Reading(cipher, key, after[c].value) == Reading(cipher, key, before[c].value)
      ensures IsEncrypted(after[c].value)
    {
      if c !in cells { assert after[c] == before[c]; }
    }
  }
}
