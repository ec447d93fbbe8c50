/** Updating and rolling back one managed binary: files, sidecar signatures and tables, step by step, with every
    file or database step allowed to fail (crates/deltaship-client/src/patcher.rs, daemon.rs). */
module Updater {
  import opened Text
  import opened Bytes
  import opened Versions
  import opened Signing
  import Db = ClientDb
  import Patch

  const SIGNATURE_SIZE: nat := 64
  const KEY_SIZE: nat := 32

  type Data = seq<u8>

  datatype Place = Install | Kept(path: string)

  /** Foreign code: BLAKE3, Ed25519 verification under a key, and zstd decompression. */
  datatype Crypto = Crypto(hash: Data -> Data, verify: (Data, Data, Data) -> bool, unpack: Data -> Option<Data>)

  /** `whole` are the places whose contents come from a completed copy or an atomic replacement; `verified` logs each
      (hash, version) whose signature has been verified. Neither is ever read by the program. */
  datatype Machine = Machine(files: map<Place, Data>, sidecars: map<Place, Data>, tables: Db.Tables, whole: set<Place>,
                             verified: set<(Data, string)>)

  datatype Update = Update(versionId: string, version: Version, checksum: Option<Data>, hasDiff: bool,
                           diffChecksum: Option<Data>)

  /** A copy completes, or fails leaving its destination untouched or holding some bytes. */
  datatype Copy = Done | Torn(left: Option<Data>)

  /** What one update attempt meets outside the program: failures before the backup, the copies, the downloaded files,
      failures between verification and the final rename, the bytes that rename really installs, failures after it,
      and the first database step that fails. */
  datatype Env = Env(startFails: bool, backup: Copy, backupSig: Copy, diffFile: Option<Data>, fullFile: Option<Data>,
                     signature: Option<Data>, stageFails: bool, landed: Data, rehashFails: bool, sidecarFails: bool,
                     restore: Copy, sha256: Option<Data>, dbStops: nat)

  datatype RollbackEnv = RollbackEnv(copy: Copy, sigCopy: Copy, permsFail: bool, dbFails: bool)

  /** The state at registration. */
  function Registered(files: map<Place, Data>, sidecars: map<Place, Data>, tables: Db.Tables): Machine {
    Machine(files, sidecars, tables, if Install in files then {Install} else {}, {})
  }

  /* Specification of the steps */

  predicate Accepts(c: Crypto, key: Data, hash: Data, text: string, sig: Data) {
    |sig| == SIGNATURE_SIZE && |key| == KEY_SIZE && c.verify(key, Payload(hash, text), sig)
  }

  function Diffed(c: Crypto, base: Data, up: Update, env: Env): Option<Data> {
    if env.diffFile.None? || up.diffChecksum != Some(c.hash(env.diffFile.value)) then None
    else
      var raw := env.diffFile.value;
      var patch := if Patch.ZSTD_MAGIC <= raw then c.unpack(raw) else Some(raw);
      if patch.None? then None
      else
        var r := Patch.Bounded(base, patch.value, Patch.MAX_OUTPUT_SIZE);
        if r.Patched? then Some(r.out) else None
  }

  /** The new binary: from the diff, or the full download when there is no diff or it fails. */
  function Fetched(c: Crypto, files: map<Place, Data>, up: Update, env: Env): Option<Data> {
    if up.hasDiff && Install in files && Diffed(c, files[Install], up, env).Some?
    then Diffed(c, files[Install], up, env) else env.fullFile
  }

  /** Checksum and signature of the fetched bytes are good. */
  predicate Passes(c: Crypto, key: Data, up: Update, env: Env, data: Data) {
    && up.checksum == Some(c.hash(data))
    && env.signature.Some? && Accepts(c, key, c.hash(data), Show(up.version), env.signature.value)
  }

  /** The attempt gets as far as replacing the installed file. */
  predicate Persists(c: Crypto, files: map<Place, Data>, key: Data, up: Update, env: Env) {
    var data := Fetched(c, files, up, env);
    data.Some? && Passes(c, key, up, env, data.value) && !env.stageFails
  }

  function Executed(c: Crypto, m: Machine, key: Data, up: Update, env: Env): (bool, Machine) {
    var data := Fetched(c, m.files, up, env);
    if data.None? || !Passes(c, key, up, env, data.value) then (false, m)
    else
      var m1 := m.(verified := m.verified + {(c.hash(data.value), Show(up.version))});
      if env.stageFails then (false, m1)
      else
        var m2 := m1.(files := m1.files[Install := env.landed], whole := m1.whole + {Install});
        if env.rehashFails || up.checksum != Some(c.hash(env.landed)) || env.sidecarFails then (false, m2)
        else (true, m2.(sidecars := m2.sidecars[Install := env.signature.value]))
  }

  function Copied(files: map<Place, Data>, from: Place, to: Place, copy: Copy): map<Place, Data>
    requires from in files
  {
    match copy
    case Done => files[to := files[from]]
    case Torn(left) => if left.Some? then files[to := left.value] else files
  }

  function WholeAfter(whole: set<Place>, from: Place, to: Place, copy: Copy): set<Place> {
    if copy.Done? && from in whole then whole + {to} else whole - {to}
  }

  function BackedUp(m: Machine, path: string, env: Env): (bool, Machine) {
    if Install !in m.files then (true, m)
    else
      var m1 := m.(files := Copied(m.files, Install, Kept(path), env.backup),
                   whole := WholeAfter(m.whole, Install, Kept(path), env.backup));
      if !env.backup.Done? then (false, m1)
      else if Install !in m.sidecars then (true, m1)
      else (env.backupSig.Done?, m1.(sidecars := Copied(m.sidecars, Install, Kept(path), env.backupSig)))
  }

  function Restored(m: Machine, path: string, env: Env): Machine
    requires Kept(path) in m.files
  {
    m.(files := Copied(m.files, Kept(path), Install, env.restore),
       whole := WholeAfter(m.whole, Kept(path), Install, env.restore))
  }

  /** The database work after the files are in place; `row` is the binary's record from before the update. */
  function Recorded(c: Crypto, m: Machine, b: Db.BinaryId, row: Db.Binary, up: Update, path: Option<string>, env: Env)
    : (bool, Machine)
    requires Install in m.files && up.checksum.Some?
    requires path.Some? ==> Kept(path.value) in m.files
  {
    if env.dbStops == 0 || env.sha256.None? then (false, m)
    else
      var (ok, t) := Db.RecordInstalled(m.tables, b, up.versionId, Show(up.version), up.checksum.value,
                                        env.sha256.value, |m.files[Install]|);
      if !ok || env.dbStops == 1 then (false, m)
      else
        var (done, t') := MadeCurrent(c, m.files, t, b, row, up, path, env.dbStops);
        (done, m.(tables := t'))
  }

  function MadeCurrent(c: Crypto, files: map<Place, Data>, t: Db.Tables, b: Db.BinaryId, row: Db.Binary, up: Update,
                       path: Option<string>, stops: nat): (bool, Db.Tables)
    requires path.Some? ==> Kept(path.value) in files
  {
    var (ok, t') := Db.UpdateCurrent(t, b, up.versionId, Show(up.version));
    if !ok || stops == 2 then (false, t) else NotedBackup(c, files, t', b, row, path, stops)
  }

  /** The backup is recorded only if the version it holds is known. */
  function NotedBackup(c: Crypto, files: map<Place, Data>, t: Db.Tables, b: Db.BinaryId, row: Db.Binary,
                       path: Option<string>, stops: nat): (bool, Db.Tables)
    requires path.Some? ==> Kept(path.value) in files
  {
    if path.None? || row.currentId.None? || row.currentText.None? then (true, t)
    else
      var kept := files[Kept(path.value)];
      var (ok, t') := Db.CreateBackup(t, b, row.currentId.value, row.currentText.value, path.value, c.hash(kept),
                                      |kept|, None);
      if !ok || stops == 3 then (false, t) else (true, t')
  }

  function BackupPath(row: Db.Binary): string {
    row.name + "_" + (if row.currentText.Some? then row.currentText.value else "unknown") + ".backup"
  }

  function Applied(c: Crypto, m: Machine, b: Db.BinaryId, up: Update, env: Env): (bool, Machine)
    requires b in m.tables.binaries
  {
    var row := m.tables.binaries[b];
    var path := BackupPath(row);
    var (backed, m1) := BackedUp(m, path, env);
    if env.startFails then (false, m)
    else if !backed then (false, m1)
    else
      var (ok, m2) := Executed(c, m1, row.publicKey, up, env);
      if ok then Recorded(c, m2, b, row, up, if Install in m.files then Some(path) else None, env)
      else if Install in m.files then (false, Restored(m2, path, env))
      else (false, m2)
  }

  predicate BackupAccepted(c: Crypto, m: Machine, key: Data, backup: Db.Backup) {
    var place := Kept(backup.path);
    && place in m.files && c.hash(m.files[place]) == backup.hash
    && place in m.sidecars && Accepts(c, key, c.hash(m.files[place]), backup.text, m.sidecars[place])
  }

  function RolledBack(c: Crypto, m: Machine, b: Db.BinaryId, id: Db.RowId, env: RollbackEnv): (bool, Machine)
    requires b in m.tables.binaries
  {
    if id !in m.tables.backups || !BackupAccepted(c, m, m.tables.binaries[b].publicKey, m.tables.backups[id])
    then (false, m)
    else
      var backup := m.tables.backups[id];
      var place := Kept(backup.path);
      var m1 := m.(verified := m.verified + {(c.hash(m.files[place]), backup.text)},
                   files := Copied(m.files, place, Install, env.copy),
                   whole := if env.copy.Done? then m.whole + {Install} else m.whole - {Install});
      if !env.copy.Done? then (false, m1)
      else
        var m2 := m1.(sidecars := Copied(m1.sidecars, place, Install, env.sigCopy));
        if !env.sigCopy.Done? || env.permsFail || env.dbFails then (false, m2)
        else
          var (ok, t) := Db.UpdateCurrent(m2.tables, b, backup.versionId, backup.text);
          (ok, m2.(tables := t))
  }

  /* The steps as the program runs them */

  class Client {
    const crypto: Crypto
    var files: map<Place, Data>
    var sidecars: map<Place, Data>
    var tables: Db.Tables
    ghost var whole: set<Place>
    ghost var verified: set<(Data, string)>

    ghost function Now(): Machine
      reads this
    {
      Machine(files, sidecars, tables, whole, verified)
    }

    constructor (crypto: Crypto, files: map<Place, Data>, sidecars: map<Place, Data>, tables: Db.Tables)
      ensures Now() == Registered(files, sidecars, tables)
    {
      this.crypto, this.files, this.sidecars, this.tables := crypto, files, sidecars, tables;
      whole, verified := if Install in files then {Install} else {}, {};
    }

    method BackUp(path: string, env: Env) returns (ok: bool)
      modifies this
      ensures (ok, Now()) == BackedUp(old(Now()), path, env)
    {
      if Install !in files {
        return true;
      }
      whole := WholeAfter(whole, Install, Kept(path), env.backup);
      files := Copied(files, Install, Kept(path), env.backup);
      if env.backup.Torn? {
        return false;
      }
      if Install in sidecars {
        sidecars := Copied(sidecars, Install, Kept(path), env.backupSig);
        return env.backupSig.Done?;
      }
      return true;
    }

    method ApplyDiffUpdate(up: Update, env: Env) returns (r: Option<Data>)
      requires Install in files
      ensures r == Diffed(crypto, files[Install], up, env)
    {
      if env.diffFile.None? || up.diffChecksum.None? {
        return None;
      }
      var diff := env.diffFile.value;
      if up.diffChecksum.value != crypto.hash(diff) {
        return None;
      }
      if Patch.ZSTD_MAGIC <= diff {
        var unpacked := crypto.unpack(diff);
        if unpacked.None? {
          return None;
        }
        diff := unpacked.value;
      }
      var patched := Patch.Bounded(files[Install], diff, Patch.MAX_OUTPUT_SIZE);
      return if patched.Patched? then Some(patched.out) else None;
    }

    method ExecuteUpdate(key: Data, up: Update, env: Env) returns (ok: bool)
      modifies this
      ensures (ok, Now()) == Executed(crypto, old(Now()), key, up, env)
    {
      var source: Option<Data> := None;
      if up.hasDiff && Install in files {
        source := ApplyDiffUpdate(up, env);
      }
      if source.None? {
        source := env.fullFile;
      }
      assert source == Fetched(crypto, files, up, env);
      if source.None? {
        return false;
      }
      var good := VerifyNewBinary(key, up, env, source.value);
      if !good {
        return false;
      }
      verified := verified + {(crypto.hash(source.value), Show(up.version))};
      if env.stageFails {
        return false;
      }
      files, whole := files[Install := env.landed], whole + {Install};
      if env.rehashFails || crypto.hash(files[Install]) != up.checksum.value || env.sidecarFails {
        return false;
      }
      sidecars := sidecars[Install := env.signature.value];
      return true;
    }

    /** Checksum first, then the signature over the payload for the version about to be installed. */
    method VerifyNewBinary(key: Data, up: Update, env: Env, data: Data) returns (good: bool)
      ensures good <==> Passes(crypto, key, up, env, data)
      ensures var tag: Data := [68, 69, 76, 84, 65, 83, 72, 73, 80, 45, 115, 105, 103, 45, 118, 49, 0];
              good <==> && up.checksum == Some(crypto.hash(data))
                        && env.signature.Some? && |env.signature.value| == 64 && |key| == 32
                        && crypto.verify(key, tag + crypto.hash(data) + Utf8(Show(up.version)), env.signature.value)
    {
      var hash := crypto.hash(data);
      if up.checksum.None? || hash != up.checksum.value || env.signature.None? {
        return false;
      }
      if |env.signature.value| != SIGNATURE_SIZE || |key| != KEY_SIZE {
        return false;
      }
      var payload := SigningPayload(hash, Show(up.version));
      return crypto.verify(key, payload, env.signature.value);
    }

    method RecordSuccess(b: Db.BinaryId, row: Db.Binary, up: Update, path: Option<string>, env: Env) returns (ok: bool)
      requires Install in files && up.checksum.Some?
      requires path.Some? ==> Kept(path.value) in files
      modifies this`tables
      ensures (ok, Now()) == Recorded(crypto, old(Now()), b, row, up, path, env)
    {
      if env.dbStops == 0 || env.sha256.None? {
        return false;
      }
      var text := Show(up.version);
      var (ok1, t1) := Db.RecordInstalled(tables, b, up.versionId, text, up.checksum.value, env.sha256.value,
                                          |files[Install]|);
      if !ok1 || env.dbStops == 1 {
        return false;
      }
      tables := t1;
      var (ok2, t2) := Db.UpdateCurrent(tables, b, up.versionId, text);
      if !ok2 || env.dbStops == 2 {
        return false;
      }
      tables := t2;
      if path.Some? && row.currentId.Some? && row.currentText.Some? {
        var kept := files[Kept(path.value)];
        var (ok3, t3) := Db.CreateBackup(tables, b, row.currentId.value, row.currentText.value, path.value,
                                         crypto.hash(kept), |kept|, None);
        if !ok3 || env.dbStops == 3 {
          return false;
        }
        tables := t3;
      }
      return true;
    }

    method ApplyUpdate(b: Db.BinaryId, up: Update, env: Env) returns (ok: bool)
      requires b in tables.binaries
      modifies this
      ensures (ok, Now()) == Applied(crypto, old(Now()), b, up, env)
    {
      if env.startFails {
        return false;
      }
      var row := tables.binaries[b];
      var path, existed := BackupPath(row), Install in files;
      var backed := BackUp(path, env);
      if !backed {
        return false;
      }
      var updated := ExecuteUpdate(row.publicKey, up, env);
      if updated {
        ok := RecordSuccess(b, row, up, if existed then Some(path) else None, env);
        return;
      }
      if existed {
        whole := WholeAfter(whole, Kept(path), Install, env.restore);
        files := Copied(files, Kept(path), Install, env.restore);
      }
      return false;
    }

    method RollbackToBackup(b: Db.BinaryId, id: Db.RowId, env: RollbackEnv) returns (ok: bool)
      requires b in tables.binaries
      modifies this
      ensures (ok, Now()) == RolledBack(crypto, old(Now()), b, id, env)
    {
      if id !in tables.backups {
        return false;
      }
      var backup := tables.backups[id];
      var place := Kept(backup.path);
      if place !in files || crypto.hash(files[place]) != backup.hash {
        return false;
      }
      var verified := VerifyBackup(place, tables.binaries[b].publicKey, backup.text);
      if !verified {
        return false;
      }
      this.verified := this.verified + {(crypto.hash(files[place]), backup.text)};
      whole := if env.copy.Done? then whole + {Install} else whole - {Install};
      files := Copied(files, place, Install, env.copy);
      if env.copy.Torn? {
        return false;
      }
      sidecars := Copied(sidecars, place, Install, env.sigCopy);
      if env.sigCopy.Torn? || env.permsFail || env.dbFails {
        return false;
      }
      var (updated, t) := Db.UpdateCurrent(tables, b, backup.versionId, backup.text);
      tables := t;
      return updated;
    }

    method VerifyBackup(place: Place, key: Data, text: string) returns (ok: bool)
      requires place in files
      ensures ok <==> place in sidecars && Accepts(crypto, key, crypto.hash(files[place]), text, sidecars[place])
      ensures var tag: Data := [68, 69, 76, 84, 65, 83, 72, 73, 80, 45, 115, 105, 103, 45, 118, 49, 0];
              ok <==> && place in sidecars && |sidecars[place]| == 64 && |key| == 32
                      && crypto.verify(key, tag + crypto.hash(files[place]) + Utf8(text), sidecars[place])
    {
      if place !in sidecars || |sidecars[place]| != SIGNATURE_SIZE || |key| != KEY_SIZE {
        return false;
      }
      var payload := SigningPayload(crypto.hash(files[place]), text);
      return crypto.verify(key, payload, sidecars[place]);
    }
  }

  /* Authenticity */

  /** Some signature under `key` is good for this hash and version. */
  ghost predicate Vouched(c: Crypto, key: Data, hash: Data, text: string) {
    exists sig :: Accepts(c, key, hash, text, sig)
  }

  ghost predicate LogSound(c: Crypto, key: Data, verified: set<(Data, string)>) {
    forall v | v in verified :: Vouched(c, key, v.0, v.1)
  }

  /** The bytes present at registration, or bytes whose hash was verified for some version. */
  ghost predicate Authentic(c: Crypto, first: Option<Data>, verified: set<(Data, string)>, data: Data) {
    first == Some(data) || exists text :: (c.hash(data), text) in verified
  }

  ghost predicate AllAuthentic(c: Crypto, first: Option<Data>, verified: set<(Data, string)>, files: map<Place, Data>,
                               whole: set<Place>) {
    forall p | p in whole :: p in files && Authentic(c, first, verified, files[p])
  }

  ghost predicate Trustworthy(c: Crypto, first: Option<Data>, key: Data, m: Machine) {
    AllAuthentic(c, first, m.verified, m.files, m.whole) && LogSound(c, key, m.verified)
  }

  lemma CopyKeepsAuthentic(c: Crypto, first: Option<Data>, verified: set<(Data, string)>, files: map<Place, Data>,
                           whole: set<Place>, from: Place, to: Place, copy: Copy)
    requires from in files && from != to && AllAuthentic(c, first, verified, files, whole - {to})
    ensures AllAuthentic(c, first, verified, Copied(files, from, to, copy), WholeAfter(whole, from, to, copy))
  {
    var files', whole' := Copied(files, from, to, copy), WholeAfter(whole, from, to, copy);
    forall p | p in whole' ensures p in files' && Authentic(c, first, verified, files'[p]) {
      if p == to {
        assert from in whole - {to};
      } else {
        assert p in whole - {to};
      }
    }
  }

  lemma LogGrows(c: Crypto, first: Option<Data>, key: Data, m: Machine, hash: Data, text: string, sig: Data)
    requires Trustworthy(c, first, key, m) && Accepts(c, key, hash, text, sig)
    ensures Trustworthy(c, first, key, m.(verified := m.verified + {(hash, text)}))
  {
    var verified' := m.verified + {(hash, text)};
    assert Vouched(c, key, hash, text);
    forall p | p in m.whole ensures Authentic(c, first, verified', m.files[p]) {
      assert Authentic(c, first, m.verified, m.files[p]);
      if t :| (c.hash(m.files[p]), t) in m.verified {
        assert (c.hash(m.files[p]), t) in verified';
      }
    }
  }

  /** Until the installed file is restored or checked, everything else stays trustworthy. */
  lemma ExecuteKeepsOthers(c: Crypto, first: Option<Data>, key: Data, m: Machine, up: Update, env: Env)
    requires Trustworthy(c, first, key, m)
    ensures var m' := Executed(c, m, key, up, env).1;
            && LogSound(c, key, m'.verified)
            && AllAuthentic(c, first, m'.verified, m'.files, m'.whole - {Install})
            && ((Persists(c, m.files, key, up, env) ==> up.checksum == Some(c.hash(env.landed))) ==>
                  Trustworthy(c, first, key, m'))
  {
    var data := Fetched(c, m.files, up, env);
    if data.Some? && Passes(c, key, up, env, data.value) {
      var hash, text := c.hash(data.value), Show(up.version);
      LogGrows(c, first, key, m, hash, text, env.signature.value);
      var verified' := m.verified + {(hash, text)};
      assert (hash, text) in verified';
    }
  }

  /** A first install puts in place what was verified. */
  ghost predicate FirstInstallLands(c: Crypto, m: Machine, key: Data, up: Update, env: Env) {
    Install !in m.files && !env.startFails && Persists(c, m.files, key, up, env) ==>
      up.checksum == Some(c.hash(env.landed))
  }

  lemma BackUpKeeps(c: Crypto, first: Option<Data>, key: Data, m: Machine, path: string, env: Env)
    requires Trustworthy(c, first, key, m)
    ensures var m' := BackedUp(m, path, env).1;
            && Trustworthy(c, first, key, m') && m'.tables == m.tables
            && (Install in m'.files <==> Install in m.files)
            && (Install in m.files ==> m'.files[Install] == m.files[Install])
  {
    if Install in m.files {
      CopyKeepsAuthentic(c, first, m.verified, m.files, m.whole, Install, Kept(path), env.backup);
    }
  }

  lemma RecordOnlyTables(c: Crypto, m: Machine, b: Db.BinaryId, row: Db.Binary, up: Update, path: Option<string>,
                         env: Env)
    requires Install in m.files && up.checksum.Some?
    requires path.Some? ==> Kept(path.value) in m.files
    ensures Recorded(c, m, b, row, up, path, env).1.(tables := m.tables) == m
  {
  }

  /** What a successful execution has checked and changed. */
  lemma ExecuteSucceeds(c: Crypto, m: Machine, key: Data, up: Update, env: Env)
    ensures var (ok, m') := Executed(c, m, key, up, env);
            ok ==>
              && up.checksum == Some(c.hash(env.landed))
              && env.signature.Some? && Accepts(c, key, c.hash(env.landed), Show(up.version), env.signature.value)
              && m'.files == m.files[Install := env.landed] && m'.sidecars == m.sidecars[Install := env.signature.value]
              && m'.tables == m.tables
  {
  }

  /** A failed execution leaves the sidecars and tables alone, and of the files at most the installed one changed. */
  lemma ExecuteFails(c: Crypto, m: Machine, key: Data, up: Update, env: Env)
    ensures var (ok, m') := Executed(c, m, key, up, env);
            !ok ==>
              && m'.sidecars == m.sidecars && m'.tables == m.tables
              && m'.files == if Persists(c, m.files, key, up, env) then m.files[Install := env.landed] else m.files
  {
  }

  lemma RestoreKeepsTrust(c: Crypto, first: Option<Data>, key: Data, m: Machine, path: string, env: Env)
    requires Kept(path) in m.files && LogSound(c, key, m.verified)
    requires AllAuthentic(c, first, m.verified, m.files, m.whole - {Install})
    ensures Trustworthy(c, first, key, Restored(m, path, env))
  {
    CopyKeepsAuthentic(c, first, m.verified, m.files, m.whole, Kept(path), Install, env.restore);
  }

  /** `Applied` by its outcomes: not begun, executed and recorded, or failed with or without a backup to restore. */
  lemma ApplyCases(c: Crypto, m: Machine, b: Db.BinaryId, up: Update, env: Env)
    requires b in m.tables.binaries
    ensures var row := m.tables.binaries[b];
            var path := BackupPath(row);
            var (backed, m1) := BackedUp(m, path, env);
            var (ok, m2) := Executed(c, m1, row.publicKey, up, env);
            var (done, m') := Applied(c, m, b, up, env);
            && (env.startFails ==> m' == m)
            && (!env.startFails && !backed ==> m' == m1)
            && (!env.startFails && backed && !ok && Install !in m.files ==> m1 == m && m' == m2)
            && (!env.startFails && backed && !ok && Install in m.files ==>
                  Kept(path) in m2.files && m' == Restored(m2, path, env))
            && (!env.startFails && backed && ok ==> m'.(tables := m2.tables) == m2)
            && (done ==> !env.startFails && backed && ok)
  {
    var row := m.tables.binaries[b];
    var path := BackupPath(row);
    var (backed, m1) := BackedUp(m, path, env);
    var (ok, m2) := Executed(c, m1, row.publicKey, up, env);
    if !env.startFails && backed && ok {
      RecordOnlyTables(c, m2, b, row, up, if Install in m.files then Some(path) else None, env);
    }
  }

  lemma ApplyKeepsTrust(c: Crypto, first: Option<Data>, m: Machine, b: Db.BinaryId, up: Update, env: Env)
    requires b in m.tables.binaries
    requires Trustworthy(c, first, m.tables.binaries[b].publicKey, m)
    requires FirstInstallLands(c, m, m.tables.binaries[b].publicKey, up, env)
    ensures Trustworthy(c, first, m.tables.binaries[b].publicKey, Applied(c, m, b, up, env).1)
  {
    var row := m.tables.binaries[b];
    var key, path := row.publicKey, BackupPath(row);
    BackUpKeeps(c, first, key, m, path, env);
    var (backed, m1) := BackedUp(m, path, env);
    var (ok, m2) := Executed(c, m1, key, up, env);
    ApplyCases(c, m, b, up, env);
    ExecuteKeepsOthers(c, first, key, m1, up, env);
    ExecuteSucceeds(c, m1, key, up, env);
    if !env.startFails && backed && !ok && Install in m.files {
      RestoreKeepsTrust(c, first, key, m2, path, env);
    }
  }

  /** The update keeps the trust if and only if a first install puts in place what was verified, or bytes that are
      authentic anyway. */
  lemma ApplyKeepsTrustIff(c: Crypto, first: Option<Data>, m: Machine, b: Db.BinaryId, up: Update, env: Env)
    requires b in m.tables.binaries
    requires Trustworthy(c, first, m.tables.binaries[b].publicKey, m)
    ensures var key, m' := m.tables.binaries[b].publicKey, Applied(c, m, b, up, env).1;
            Trustworthy(c, first, key, m')
            <==> FirstInstallLands(c, m, key, up, env) || Authentic(c, first, m'.verified, env.landed)
  {
    var key, m' := m.tables.binaries[b].publicKey, Applied(c, m, b, up, env).1;
    if FirstInstallLands(c, m, key, up, env) {
      ApplyKeepsTrust(c, first, m, b, up, env);
    } else {
      ApplyCases(c, m, b, up, env);
      ExecuteKeepsOthers(c, first, key, m, up, env);
      ExecuteSucceeds(c, m, key, up, env);
      ExecuteFails(c, m, key, up, env);
      PersistIsWhole(c, m, key, up, env);
    }
  }

  lemma PersistIsWhole(c: Crypto, m: Machine, key: Data, up: Update, env: Env)
    requires Persists(c, m.files, key, up, env)
    ensures var m' := Executed(c, m, key, up, env).1;
            Install in m'.whole && Install in m'.files && m'.files[Install] == env.landed
  {
  }

  lemma RollbackKeepsTrust(c: Crypto, first: Option<Data>, m: Machine, b: Db.BinaryId, id: Db.RowId, env: RollbackEnv)
    requires b in m.tables.binaries
    requires Trustworthy(c, first, m.tables.binaries[b].publicKey, m)
    ensures Trustworthy(c, first, m.tables.binaries[b].publicKey, RolledBack(c, m, b, id, env).1)
  {
    var key := m.tables.binaries[b].publicKey;
    if id in m.tables.backups && BackupAccepted(c, m, key, m.tables.backups[id]) {
      var backup := m.tables.backups[id];
      var place := Kept(backup.path);
      var hash := c.hash(m.files[place]);
      LogGrows(c, first, key, m, hash, backup.text, m.sidecars[place]);
      assert (hash, backup.text) in m.verified + {(hash, backup.text)};
    }
  }
}
