/** What signature verification guarantees over whole runs of the client, in terms of the verifier and of the bytes it
    is given (crates/deltaship-client/src/patcher.rs, crates/deltaship-crypto/src/signing.rs). */
module Signatures {
  import opened Text
  import opened Bytes
  import opened Versions
  import opened Updater
  import opened UpdateRuns
  import Db = ClientDb
  import Patch

  /** The bytes of `DELTASHIP-sig-v1` and a zero, the hash, and the version in UTF-8. */
  function Message(hash: Data, text: string): Data {
    [68, 69, 76, 84, 65, 83, 72, 73, 80, 45, 115, 105, 103, 45, 118, 49, 0] + hash + Utf8(text)
  }

  /** The verifier accepts some 64-byte signature of this hash and version. */
  ghost predicate Signed(c: Crypto, key: Data, hash: Data, text: string) {
    exists sig: Data :: |sig| == 64 && c.verify(key, Message(hash, text), sig)
  }

  ghost predicate AllSigned(c: Crypto, key: Data, verified: set<(Data, string)>) {
    forall v | v in verified :: Signed(c, key, v.0, v.1)
  }

  lemma ExecuteLogsSigned(c: Crypto, m: Machine, key: Data, up: Update, env: Env)
    requires AllSigned(c, key, m.verified)
    ensures AllSigned(c, key, Executed(c, m, key, up, env).1.verified)
  {
    var data := Fetched(c, m.files, up, env);
    if data.Some? && Passes(c, key, up, env, data.value) {
      var sig, hash := env.signature.value, c.hash(data.value);
      assert |sig| == 64 && c.verify(key, Message(hash, Show(up.version)), sig);
    }
  }

  lemma UpdateLogsSigned(c: Crypto, m: Machine, b: Db.BinaryId, up: Update, env: Env)
    requires b in m.tables.binaries && AllSigned(c, m.tables.binaries[b].publicKey, m.verified)
    ensures AllSigned(c, m.tables.binaries[b].publicKey, Applied(c, m, b, up, env).1.verified)
  {
    var row := m.tables.binaries[b];
    ApplyCases(c, m, b, up, env);
    ExecuteLogsSigned(c, BackedUp(m, BackupPath(row), env).1, row.publicKey, up, env);
  }

  lemma RollbackLogsSigned(c: Crypto, m: Machine, b: Db.BinaryId, id: Db.RowId, env: RollbackEnv)
    requires b in m.tables.binaries && AllSigned(c, m.tables.binaries[b].publicKey, m.verified)
    ensures AllSigned(c, m.tables.binaries[b].publicKey, RolledBack(c, m, b, id, env).1.verified)
  {
    var key := m.tables.binaries[b].publicKey;
    if id in m.tables.backups && BackupAccepted(c, m, key, m.tables.backups[id]) {
      var backup := m.tables.backups[id];
      var sig := m.sidecars[Kept(backup.path)];
      assert |sig| == 64 && c.verify(key, Message(c.hash(m.files[Kept(backup.path)]), backup.text), sig);
    }
  }

  lemma {:induction false} RunLogsSigned(c: Crypto, m: Machine, b: Db.BinaryId, events: seq<Event>)
    requires b in m.tables.binaries && Db.Consistent(m.tables)
    requires AllSigned(c, m.tables.binaries[b].publicKey, m.verified)
    ensures AllSigned(c, m.tables.binaries[b].publicKey, Run(c, m, b, events).verified)
    decreases |events|
  {
    if events != [] {
      AfterKeepsTables(c, m, b, events[0]);
      match events[0] {
        case Updating(up, env) => UpdateLogsSigned(c, m, b, up, env);
        case RollingBack(id, env) => RollbackLogsSigned(c, m, b, id, env);
      }
      RunLogsSigned(c, AfterEvent(c, m, b, events[0]), b, events[1..]);
    }
  }

  /** Over every run from registration, the verifier has accepted a signature, under the key pinned at registration, of
      each hash and version the run counts as verified. */
  lemma VerifiedIsSigned(c: Crypto, files: map<Place, Data>, sidecars: map<Place, Data>, tables: Db.Tables,
                         b: Db.BinaryId, events: seq<Event>)
    requires b in tables.binaries && Db.Consistent(tables)
    ensures var tag: Data := [68, 69, 76, 84, 65, 83, 72, 73, 80, 45, 115, 105, 103, 45, 118, 49, 0];
            forall v | v in Run(c, Registered(files, sidecars, tables), b, events).verified ::
              exists sig: Data ::
                |sig| == 64 && c.verify(tables.binaries[b].publicKey, tag + v.0 + Utf8(v.1), sig)
  {
    var m := Registered(files, sidecars, tables);
    RunLogsSigned(c, m, b, events);
    forall v | v in Run(c, m, b, events).verified
      ensures var tag: Data := [68, 69, 76, 84, 65, 83, 72, 73, 80, 45, 115, 105, 103, 45, 118, 49, 0];
              exists sig: Data :: |sig| == 64 && c.verify(tables.binaries[b].publicKey, tag + v.0 + Utf8(v.1), sig)
    {
      assert Signed(c, tables.binaries[b].publicKey, v.0, v.1);
      var sig: Data :| |sig| == 64 && c.verify(tables.binaries[b].publicKey, Message(v.0, v.1), sig);
    }
  }

  /** Installed bytes of a run whose restores complete, and of every whole backup, are those of registration or have a
      hash that the verifier accepted a signature of. */
  lemma InstalledIsSigned(c: Crypto, files: map<Place, Data>, sidecars: map<Place, Data>, tables: Db.Tables,
                          b: Db.BinaryId, events: seq<Event>)
    requires b in tables.binaries && Db.Consistent(tables)
    requires FirstInstallsLand(c, Registered(files, sidecars, tables), b, events)
    requires forall i | 0 <= i < |events| :: RestoresComplete(events[i])
    ensures var r := Run(c, Registered(files, sidecars, tables), b, events);
            forall p | p in r.files && (p == Install || p in r.whole) ::
              || (Install in files && r.files[p] == files[Install])
              || exists text :: Signed(c, tables.binaries[b].publicKey, c.hash(r.files[p]), text)
  {
    var m := Registered(files, sidecars, tables);
    var r, key := Run(c, m, b, events), tables.binaries[b].publicKey;
    var first := if Install in files then Some(files[Install]) else None;
    RegisteredRunIsAuthentic(c, files, sidecars, tables, b, events);
    RunLogsSigned(c, m, b, events);
    forall p | p in r.files && (p == Install || p in r.whole) && first != Some(r.files[p])
      ensures exists text :: Signed(c, key, c.hash(r.files[p]), text)
    {
      assert Authentic(c, first, r.verified, r.files[p]);
      var text :| (c.hash(r.files[p]), text) in r.verified;
      var v := (c.hash(r.files[p]), text);
      assert v in r.verified && Signed(c, key, v.0, v.1);
    }
  }

  lemma SignedMeans(c: Crypto, key: Data, hash: Data, text: string)
    ensures var tag: Data := [68, 69, 76, 84, 65, 83, 72, 73, 80, 45, 115, 105, 103, 45, 118, 49, 0];
            Signed(c, key, hash, text)
            <==> exists sig: Data :: |sig| == 64 && c.verify(key, tag + hash + Utf8(text), sig)
  {
    var tag: Data := [68, 69, 76, 84, 65, 83, 72, 73, 80, 45, 115, 105, 103, 45, 118, 49, 0];
    assert Message(hash, text) == tag + hash + Utf8(text);
    if sig: Data :| |sig| == 64 && c.verify(key, tag + hash + Utf8(text), sig) {
      assert |sig| == 64 && c.verify(key, Message(hash, text), sig);
    }
  }

  /** The offered signature is missing, has another length, or is not accepted for the announced hash and version. */
  predicate NotSigned(c: Crypto, key: Data, up: Update, env: Env) {
    up.checksum.Some? && env.signature.Some? && |env.signature.value| == 64 ==>
      !c.verify(key, Message(up.checksum.value, Show(up.version)), env.signature.value)
  }

  /** Such an update fails and leaves the tables; once its restore copy completes the binary and sidecar are as before,
      and a first install puts nothing in place. */
  lemma UnsignedIsRefused(c: Crypto, m: Machine, b: Db.BinaryId, up: Update, env: Env)
    requires b in m.tables.binaries
    requires var tag: Data := [68, 69, 76, 84, 65, 83, 72, 73, 80, 45, 115, 105, 103, 45, 118, 49, 0];
             up.checksum.Some? && env.signature.Some? && |env.signature.value| == 64 ==>
               !c.verify(m.tables.binaries[b].publicKey, tag + up.checksum.value + Utf8(Show(up.version)),
                         env.signature.value)
    ensures var (ok, m') := Applied(c, m, b, up, env);
            && !ok && m'.tables == m.tables && m'.verified == m.verified
            && (env.restore.Done? || Install !in m.files ==> InstallState(m') == InstallState(m))
  {
    var row := m.tables.binaries[b];
    var path := BackupPath(row);
    var (backed, m1) := BackedUp(m, path, env);
    assert NotSigned(c, row.publicKey, up, env);
    NothingPasses(c, m1, row.publicKey, up, env);
    BackUpLeavesInstall(m, path, env);
    ApplyCases(c, m, b, up, env);
  }

  lemma NothingPasses(c: Crypto, m: Machine, key: Data, up: Update, env: Env)
    requires NotSigned(c, key, up, env)
    ensures Executed(c, m, key, up, env) == (false, m)
  {
  }

  /** A backup whose sidecar is missing, has another length, or is not accepted for its hash and version is not
      restored: the rollback fails and changes nothing. */
  lemma ForgedBackupIsRefused(c: Crypto, m: Machine, b: Db.BinaryId, id: Db.RowId, env: RollbackEnv)
    requires b in m.tables.binaries && id in m.tables.backups
    requires var tag: Data := [68, 69, 76, 84, 65, 83, 72, 73, 80, 45, 115, 105, 103, 45, 118, 49, 0];
             var backup := m.tables.backups[id];
             var place := Kept(backup.path);
             place in m.sidecars && |m.sidecars[place]| == 64 ==>
               !c.verify(m.tables.binaries[b].publicKey, tag + backup.hash + Utf8(backup.text), m.sidecars[place])
    ensures RolledBack(c, m, b, id, env) == (false, m)
  {
    var backup := m.tables.backups[id];
    assert Message(backup.hash, backup.text)
        == [68, 69, 76, 84, 65, 83, 72, 73, 80, 45, 115, 105, 103, 45, 118, 49, 0] + backup.hash + Utf8(backup.text);
  }

  /** A backup that is missing or does not have the recorded hash is not restored either. */
  lemma CorruptBackupIsRefused(c: Crypto, m: Machine, b: Db.BinaryId, id: Db.RowId, env: RollbackEnv)
    requires b in m.tables.binaries
    requires id in m.tables.backups && Kept(m.tables.backups[id].path) in m.files ==>
               c.hash(m.files[Kept(m.tables.backups[id].path)]) != m.tables.backups[id].hash
    ensures RolledBack(c, m, b, id, env) == (false, m)
  {
  }

  /** Backups lie at the binary's name, the version on record or `unknown`, and `.backup`. */
  lemma BackupPathIs(row: Db.Binary)
    ensures BackupPath(row)
            == match row.currentText
               case Some(text) => row.name + "_" + text + ".backup"
               case None => row.name + "_unknown.backup"
  {
    assert "_" + "unknown" == "_unknown" && "unknown" + ".backup" == "unknown.backup";
    assert row.currentText.None? ==> BackupPath(row) == row.name + "_unknown.backup";
  }

  /** An execution succeeds exactly if there is a file, its hash is the announced one, the verifier accepts the 64-byte
      signature of hash and version under the 32-byte key, and staging, re-hashing and writing the sidecar go well. */
  lemma InstallsExactlyWhen(c: Crypto, m: Machine, key: Data, up: Update, env: Env)
    ensures var tag: Data := [68, 69, 76, 84, 65, 83, 72, 73, 80, 45, 115, 105, 103, 45, 118, 49, 0];
            var data := Fetched(c, m.files, up, env);
            Executed(c, m, key, up, env).0
            <==> && data.Some? && up.checksum == Some(c.hash(data.value)) && env.signature.Some?
                 && |env.signature.value| == 64 && |key| == 32
                 && c.verify(key, tag + c.hash(data.value) + Utf8(Show(up.version)), env.signature.value)
                 && !env.stageFails && !env.rehashFails && c.hash(env.landed) == up.checksum.value && !env.sidecarFails
  {
  }

  /** A rollback in which a step fails reports failure and leaves the tables; the sidecar changes only once the file is
      restored, and the file only once the backup is accepted. */
  lemma RollbackStopsIs(c: Crypto, m: Machine, b: Db.BinaryId, id: Db.RowId, env: RollbackEnv)
    requires b in m.tables.binaries && (env.copy.Torn? || env.sigCopy.Torn? || env.permsFail || env.dbFails)
    ensures var (ok, m') := RolledBack(c, m, b, id, env);
            && !ok && m'.tables == m.tables
            && (env.copy.Torn? ==> m'.sidecars == m.sidecars)
            && (env.copy == Torn(None) ==> m'.files == m.files)
  {
  }

  /** What the tables hold when the database work stops: nothing before the version is recorded, then the version that
      is not current yet, then the current version without its backup row. */
  lemma RecordingStopsIs(c: Crypto, m: Machine, b: Db.BinaryId, row: Db.Binary, up: Update, path: Option<string>,
                         env: Env)
    requires Install in m.files && up.checksum.Some? && (path.Some? ==> Kept(path.value) in m.files)
    ensures env.dbStops <= 1 || env.sha256.None? ==> Recorded(c, m, b, row, up, path, env) == (false, m)
    ensures env.dbStops == 2 && env.sha256.Some? ==>
              Recorded(c, m, b, row, up, path, env)
              == (false, m.(tables := Db.RecordInstalled(m.tables, b, up.versionId, Show(up.version), up.checksum.value,
                                                         env.sha256.value, |m.files[Install]|).1))
    ensures env.dbStops == 3 && path.Some? && row.currentId.Some? && row.currentText.Some? ==>
              var (ok, m') := Recorded(c, m, b, row, up, path, env);
              !ok && m'.tables.backups == m.tables.backups
  {
    RecordingStopsLate(c, m, b, row, up, path, env);
  }

  lemma RecordingStopsLate(c: Crypto, m: Machine, b: Db.BinaryId, row: Db.Binary, up: Update, path: Option<string>,
                           env: Env)
    requires Install in m.files && up.checksum.Some? && (path.Some? ==> Kept(path.value) in m.files)
    ensures env.dbStops == 3 && path.Some? && row.currentId.Some? && row.currentText.Some? ==>
              var (ok, m') := Recorded(c, m, b, row, up, path, env);
              !ok && m'.tables.backups == m.tables.backups
  {
  }

  /* The two routes */

  /** A failed diff falls back to the full download; so does an update without a diff, and a first install. */
  lemma FallsBack(c: Crypto, files: map<Place, Data>, up: Update, env: Env)
    requires || !up.hasDiff || Install !in files || env.diffFile == None || up.diffChecksum == None
             || up.diffChecksum.value != c.hash(env.diffFile.value)
             || ([0x28, 0xB5, 0x2F, 0xFD] <= env.diffFile.value && c.unpack(env.diffFile.value) == None)
             || (var raw := env.diffFile.value;
                 var patch := if [0x28, 0xB5, 0x2F, 0xFD] <= raw then c.unpack(raw).value else raw;
                 !Patch.Bounded(files[Install], patch, 0x4000_0000).Patched?)
    ensures Fetched(c, files, up, env) == env.fullFile
  {
  }

  /** Otherwise the patched file is used, whatever the full download would give. */
  lemma DiffIsUsed(c: Crypto, files: map<Place, Data>, up: Update, env: Env)
    requires up.hasDiff && Install in files && env.diffFile.Some?
    requires up.diffChecksum == Some(c.hash(env.diffFile.value))
    requires [0x28, 0xB5, 0x2F, 0xFD] <= env.diffFile.value ==> c.unpack(env.diffFile.value).Some?
    ensures var raw := env.diffFile.value;
            var patch := if [0x28, 0xB5, 0x2F, 0xFD] <= raw then c.unpack(raw).value else raw;
            var r := Patch.Bounded(files[Install], patch, 0x4000_0000);
            r.Patched? ==> Fetched(c, files, up, env) == Some(r.out)
  {
  }
}
