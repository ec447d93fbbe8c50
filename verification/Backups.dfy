/** How long a recorded backup stays good for a rollback (crates/deltaship-client/src/patcher.rs). */
module Backups {
  import opened Text
  import opened Bytes
  import opened Versions
  import opened Signing
  import opened Updater
  import opened UpdateRuns
  import Db = ClientDb

  /** A rollback to this row would pass its checks. */
  ghost predicate Acceptable(c: Crypto, m: Machine, b: Db.BinaryId, id: Db.RowId) {
    b in m.tables.binaries && id in m.tables.backups
    && BackupAccepted(c, m, m.tables.binaries[b].publicKey, m.tables.backups[id])
  }

  /* One step */

  /** The event begins by copying the installed file over the place at `path`. */
  predicate Overwrites(m: Machine, b: Db.BinaryId, path: string, e: Event)
    requires b in m.tables.binaries
  {
    e.Updating? && !e.env.startFails && Install in m.files && BackupPath(m.tables.binaries[b]) == path
  }

  /** What a copy leaves at its destination. */
  function Left(before: Data, source: Data, copy: Copy): Data {
    match copy
    case Done => source
    case Torn(left) => if left.Some? then left.value else before
  }

  /** The event leaves the row's place alone, or what it copies there has the recorded hash and a sidecar that is good
      for the recorded version. */
  ghost predicate KeepsBackup(c: Crypto, m: Machine, b: Db.BinaryId, id: Db.RowId, e: Event)
    requires Acceptable(c, m, b, id)
  {
    var backup := m.tables.backups[id];
    var place := Kept(backup.path);
    Overwrites(m, b, backup.path, e) ==>
      && c.hash(Left(m.files[place], m.files[Install], e.env.backup)) == backup.hash
      && Accepts(c, m.tables.binaries[b].publicKey, backup.hash, backup.text,
                 if e.env.backup.Done? && Install in m.sidecars
                 then Left(m.sidecars[place], m.sidecars[Install], e.env.backupSig) else m.sidecars[place])
  }

  /** Other places than the installed one and the backup's keep their contents. */
  lemma UpdateTouches(c: Crypto, m: Machine, b: Db.BinaryId, up: Update, env: Env, path: string)
    requires b in m.tables.binaries
    ensures var own := BackupPath(m.tables.binaries[b]);
            var m1 := if env.startFails then m else BackedUp(m, own, env).1;
            var m' := Applied(c, m, b, up, env).1;
            && (Kept(path) in m'.files <==> Kept(path) in m1.files)
            && (Kept(path) in m1.files ==> m'.files[Kept(path)] == m1.files[Kept(path)])
            && (Kept(path) in m'.sidecars <==> Kept(path) in m1.sidecars)
            && (Kept(path) in m1.sidecars ==> m'.sidecars[Kept(path)] == m1.sidecars[Kept(path)])
  {
    var row := m.tables.binaries[b];
    var m1 := BackedUp(m, BackupPath(row), env).1;
    ApplyCases(c, m, b, up, env);
    ExecuteSucceeds(c, m1, row.publicKey, up, env);
    ExecuteFails(c, m1, row.publicKey, up, env);
  }

  /** What a place holds after the copies of a backup. */
  lemma BackUpLeaves(m: Machine, own: string, env: Env, path: string)
    requires Kept(path) in m.files && Kept(path) in m.sidecars
    ensures var m1 := BackedUp(m, own, env).1;
            var hit := Install in m.files && own == path;
            && Kept(path) in m1.files && Kept(path) in m1.sidecars
            && m1.files[Kept(path)]
               == (if hit then Left(m.files[Kept(path)], m.files[Install], env.backup) else m.files[Kept(path)])
            && m1.sidecars[Kept(path)]
               == (if hit && env.backup.Done? && Install in m.sidecars
                   then Left(m.sidecars[Kept(path)], m.sidecars[Install], env.backupSig) else m.sidecars[Kept(path)])
  {
  }

  lemma NotedBackupAdds(c: Crypto, files: map<Place, Data>, t: Db.Tables, b: Db.BinaryId, row: Db.Binary,
                        path: Option<string>, stops: nat)
    requires path.Some? ==> Kept(path.value) in files
    ensures var t' := NotedBackup(c, files, t, b, row, path, stops).1;
            t'.backups == t.backups || t'.backups - {t.nextBackup} == t.backups - {t.nextBackup}
  {
  }

  /** An update changes no backup row; it may add one. */
  lemma RecordedAdds(c: Crypto, m: Machine, b: Db.BinaryId, row: Db.Binary, up: Update, path: Option<string>, env: Env)
    requires Install in m.files && up.checksum.Some? && (path.Some? ==> Kept(path.value) in m.files)
    ensures var t' := Recorded(c, m, b, row, up, path, env).1.tables;
            t'.backups - {m.tables.nextBackup} == m.tables.backups - {m.tables.nextBackup}
  {
    if env.sha256.Some? {
      var t := Db.RecordInstalled(m.tables, b, up.versionId, Show(up.version), up.checksum.value, env.sha256.value,
                                  |m.files[Install]|).1;
      var t2 := Db.UpdateCurrent(t, b, up.versionId, Show(up.version)).1;
      assert t2.backups == m.tables.backups && t2.nextBackup == m.tables.nextBackup;
      NotedBackupAdds(c, m.files, t2, b, row, path, env.dbStops);
    }
  }

  lemma RowsStay(c: Crypto, m: Machine, b: Db.BinaryId, e: Event, id: Db.RowId)
    requires b in m.tables.binaries && Db.Consistent(m.tables) && id in m.tables.backups
    ensures id in AfterEvent(c, m, b, e).tables.backups
            && AfterEvent(c, m, b, e).tables.backups[id] == m.tables.backups[id]
  {
    if e.RollingBack? {
      RolledBackIs(c, m, b, e.id, e.back);
    } else {
      AppliedAdds(c, m, b, e.up, e.env);
      var t' := Applied(c, m, b, e.up, e.env).1.tables;
      assert id in m.tables.backups - {m.tables.nextBackup};
      assert id in t'.backups - {m.tables.nextBackup};
    }
  }

  lemma AppliedAdds(c: Crypto, m: Machine, b: Db.BinaryId, up: Update, env: Env)
    requires b in m.tables.binaries
    ensures Applied(c, m, b, up, env).1.tables.backups - {m.tables.nextBackup}
            == m.tables.backups - {m.tables.nextBackup}
  {
    var row := m.tables.binaries[b];
    var path := BackupPath(row);
    var (backed, m1) := BackedUp(m, path, env);
    BackUpLeavesInstall(m, path, env);
    ApplyCases(c, m, b, up, env);
    var (ok, m2) := Executed(c, m1, row.publicKey, up, env);
    ExecuteSucceeds(c, m1, row.publicKey, up, env);
    ExecuteFails(c, m1, row.publicKey, up, env);
    if !env.startFails && backed && ok {
      RecordedAdds(c, m2, b, row, up, if Install in m.files then Some(path) else None, env);
    }
  }

  lemma RollbackTouches(c: Crypto, m: Machine, b: Db.BinaryId, id: Db.RowId, env: RollbackEnv, path: string)
    requires b in m.tables.binaries && Kept(path) in m.files && Kept(path) in m.sidecars
    ensures var m' := RolledBack(c, m, b, id, env).1;
            && Kept(path) in m'.files && m'.files[Kept(path)] == m.files[Kept(path)]
            && Kept(path) in m'.sidecars && m'.sidecars[Kept(path)] == m.sidecars[Kept(path)]
  {
  }

  /** A recorded backup that is acceptable stays so over an event if and only if the event keeps it. */
  lemma BackupStays(c: Crypto, m: Machine, b: Db.BinaryId, id: Db.RowId, e: Event)
    requires Db.Consistent(m.tables) && Acceptable(c, m, b, id)
    ensures Acceptable(c, AfterEvent(c, m, b, e), b, id) <==> KeepsBackup(c, m, b, id, e)
  {
    var backup := m.tables.backups[id];
    RowsStay(c, m, b, e, id);
    AfterKeepsTables(c, m, b, e);
    if e.RollingBack? {
      RollbackTouches(c, m, b, e.id, e.back, backup.path);
    } else {
      UpdateTouches(c, m, b, e.up, e.env, backup.path);
      BackUpLeaves(m, BackupPath(m.tables.binaries[b]), e.env, backup.path);
    }
  }

  /* Whole runs */

  ghost predicate AcceptableThroughout(c: Crypto, m: Machine, b: Db.BinaryId, id: Db.RowId, events: seq<Event>)
    requires b in m.tables.binaries && Db.Consistent(m.tables)
    decreases |events|
  {
    Acceptable(c, m, b, id)
    && (events != [] ==>
          (AfterKeepsTables(c, m, b, events[0]);
           AcceptableThroughout(c, AfterEvent(c, m, b, events[0]), b, id, events[1..])))
  }

  ghost predicate KeptThroughout(c: Crypto, m: Machine, b: Db.BinaryId, id: Db.RowId, events: seq<Event>)
    requires Db.Consistent(m.tables) && Acceptable(c, m, b, id)
    decreases |events|
  {
    events != [] ==>
      && KeepsBackup(c, m, b, id, events[0])
      && (AfterKeepsTables(c, m, b, events[0]);
          BackupStays(c, m, b, id, events[0]);
          KeptThroughout(c, AfterEvent(c, m, b, events[0]), b, id, events[1..]))
  }

  /** Over a whole run a recorded backup is acceptable all along if and only if every event keeps it. */
  lemma {:induction false} BackupStaysThroughout(c: Crypto, m: Machine, b: Db.BinaryId, id: Db.RowId,
                                                 events: seq<Event>)
    requires Db.Consistent(m.tables) && Acceptable(c, m, b, id)
    ensures AcceptableThroughout(c, m, b, id, events) <==> KeptThroughout(c, m, b, id, events)
    decreases |events|
  {
    if events != [] {
      AfterKeepsTables(c, m, b, events[0]);
      BackupStays(c, m, b, id, events[0]);
      if KeepsBackup(c, m, b, id, events[0]) {
        BackupStaysThroughout(c, AfterEvent(c, m, b, events[0]), b, id, events[1..]);
      }
    }
  }

  /* Orderly runs never lose a backup */

  /** The publisher signs no two different files for one version. */
  ghost predicate OneFilePerVersion(c: Crypto, key: Data) {
    forall h, h', text | Vouched(c, key, h, text) && Vouched(c, key, h', text) :: h == h'
  }

  function PathFor(name: string, text: string): string {
    name + "_" + text + ".backup"
  }

  lemma PathsDiffer(name: string, text: string, text': string)
    requires PathFor(name, text) == PathFor(name, text')
    ensures text == text'
  {
    var p, n := PathFor(name, text), |name| + 1;
    assert p[n..|p| - 7] == text;
    assert PathFor(name, text')[n..|p| - 7] == text';
  }

  /** The row can be rolled back to, and lies where backups of its version are put. */
  ghost predicate GoodRow(c: Crypto, m: Machine, b: Db.BinaryId, id: Db.RowId) {
    && Acceptable(c, m, b, id)
    && var backup := m.tables.backups[id];
       && backup.path == PathFor(m.tables.binaries[b].name, backup.text)
       && Db.Normalize(backup.text) == Some(backup.text) && Db.HasVersion(m.tables, b, backup.versionId)
  }

  /** Every row of this binary is good. */
  ghost predicate GoodRows(c: Crypto, m: Machine, b: Db.BinaryId) {
    forall id | id in m.tables.backups && m.tables.backups[id].binary == b :: GoodRow(c, m, b, id)
  }

  /** An update that copies its backup and either succeeds or is undone, or a rollback that succeeds or is refused. */
  ghost predicate Orderly(c: Crypto, m: Machine, b: Db.BinaryId, e: Event)
    requires b in m.tables.binaries
  {
    match e
    case Updating(up, env) =>
      || env.startFails
      || (&& env.backup.Done? && env.backupSig.Done? && IsValid(up.version)
          && var row := m.tables.binaries[b];
             || Applied(c, m, b, up, env).0
             || (env.restore.Done? && !Executed(c, BackedUp(m, BackupPath(row), env).1, row.publicKey, up, env).0))
    case RollingBack(id, env) =>
      && id in m.tables.backups && m.tables.backups[id].binary == b
      && (RolledBack(c, m, b, id, env).0 || RolledBack(c, m, b, id, env).1 == m)
  }

  /** From a settled state the copies of an update leave every good row acceptable. */
  lemma SettledKeepsBackup(c: Crypto, m: Machine, b: Db.BinaryId, id: Db.RowId, e: Event)
    requires Settled(c, m, b) && GoodRow(c, m, b, id) && OneFilePerVersion(c, m.tables.binaries[b].publicKey)
    requires e.Updating? && !e.env.startFails ==> e.env.backup.Done? && e.env.backupSig.Done?
    ensures KeepsBackup(c, m, b, id, e)
  {
    var row, backup := m.tables.binaries[b], m.tables.backups[id];
    if Overwrites(m, b, backup.path, e) {
      PathsDiffer(row.name, row.currentText.value, backup.text);
      assert Vouched(c, row.publicKey, c.hash(m.files[Install]), backup.text);
      assert Vouched(c, row.publicKey, backup.hash, backup.text);
    }
  }

  lemma UndoneIsSettled(c: Crypto, m: Machine, m': Machine, b: Db.BinaryId)
    requires Settled(c, m, b) && m'.tables == m.tables && InstallState(m') == InstallState(m)
    ensures Settled(c, m', b)
  {
  }

  lemma RollbackSettles(c: Crypto, m: Machine, b: Db.BinaryId, id: Db.RowId, env: RollbackEnv)
    requires b in m.tables.binaries && GoodRow(c, m, b, id) && RolledBack(c, m, b, id, env).0
    ensures Settled(c, RolledBack(c, m, b, id, env).1, b)
  {
    var backup := m.tables.backups[id];
    HasVersionAfterMark(m.tables, b, backup.versionId, backup.text, backup.versionId);
  }

  lemma OrderlySettles(c: Crypto, m: Machine, b: Db.BinaryId, e: Event)
    requires Settled(c, m, b) && Db.Consistent(m.tables) && GoodRows(c, m, b) && Orderly(c, m, b, e)
    ensures Settled(c, AfterEvent(c, m, b, e), b)
  {
    match e
    case Updating(up, env) =>
      if !env.startFails && Applied(c, m, b, up, env).0 {
        UpdateSettles(c, m, b, up, env);
      } else if !env.startFails {
        FailedUpdateIsUndone(c, m, b, up, env);
        UndoneIsSettled(c, m, Applied(c, m, b, up, env).1, b);
      }
    case RollingBack(id, env) =>
      if RolledBack(c, m, b, id, env).0 {
        RollbackSettles(c, m, b, id, env);
      }
  }

  /** Versions stay on record, and the name of the binary stays. */
  lemma RecordStays(c: Crypto, m: Machine, b: Db.BinaryId, e: Event, versionId: string)
    requires b in m.tables.binaries && Db.Consistent(m.tables) && Db.HasVersion(m.tables, b, versionId)
    requires Orderly(c, m, b, e)
    ensures var t := AfterEvent(c, m, b, e).tables;
            b in t.binaries && t.binaries[b].name == m.tables.binaries[b].name && Db.HasVersion(t, b, versionId)
  {
    match e
    case Updating(up, env) =>
      AppliedTables(c, m, b, up, env);
      if !env.startFails && Applied(c, m, b, up, env).0 {
        AppliedOk(c, m, b, up, env);
        var row := m.tables.binaries[b];
        var m2 := Executed(c, BackedUp(m, BackupPath(row), env).1, row.publicKey, up, env).1;
        RecordedOk(c, m2, b, row, up, if Install in m.files then Some(BackupPath(row)) else None, env);
      } else if !env.startFails {
        FailedTables(c, m, b, up, env);
      }
    case RollingBack(id, env) =>
      RolledBackIs(c, m, b, id, env);
      var backup := m.tables.backups[id];
      HasVersionAfterMark(m.tables, b, backup.versionId, backup.text, versionId);
  }

  lemma FailedTables(c: Crypto, m: Machine, b: Db.BinaryId, up: Update, env: Env)
    requires b in m.tables.binaries
    requires var row := m.tables.binaries[b];
             !Executed(c, BackedUp(m, BackupPath(row), env).1, row.publicKey, up, env).0
    ensures Applied(c, m, b, up, env).1.tables == m.tables
  {
    var row := m.tables.binaries[b];
    BackUpLeavesInstall(m, BackupPath(row), env);
    ApplyCases(c, m, b, up, env);
    ExecuteFails(c, BackedUp(m, BackupPath(row), env).1, row.publicKey, up, env);
  }

  lemma OldRowStaysGood(c: Crypto, m: Machine, b: Db.BinaryId, e: Event, id: Db.RowId)
    requires Settled(c, m, b) && Db.Consistent(m.tables) && Orderly(c, m, b, e)
    requires OneFilePerVersion(c, m.tables.binaries[b].publicKey) && GoodRow(c, m, b, id)
    ensures GoodRow(c, AfterEvent(c, m, b, e), b, id)
  {
    SettledKeepsBackup(c, m, b, id, e);
    BackupStays(c, m, b, id, e);
    RowsStay(c, m, b, e, id);
    RecordStays(c, m, b, e, m.tables.backups[id].versionId);
  }

  /** The row a successful update adds is good. */
  lemma NewRowIsGood(c: Crypto, m: Machine, b: Db.BinaryId, up: Update, env: Env)
    requires Settled(c, m, b) && Db.Consistent(m.tables) && Applied(c, m, b, up, env).0
    ensures GoodRow(c, Applied(c, m, b, up, env).1, b, m.tables.nextBackup)
  {
    UpdateKeepsWayBack(c, m, b, up, env);
    AppliedTables(c, m, b, up, env);
    var row := m.tables.binaries[b];
    AppliedOk(c, m, b, up, env);
    var m2 := Executed(c, BackedUp(m, BackupPath(row), env).1, row.publicKey, up, env).1;
    RecordedOk(c, m2, b, row, up, Some(BackupPath(row)), env);
  }

  lemma OrderlyKeepsRows(c: Crypto, m: Machine, b: Db.BinaryId, e: Event)
    requires Settled(c, m, b) && Db.Consistent(m.tables) && Orderly(c, m, b, e)
    requires OneFilePerVersion(c, m.tables.binaries[b].publicKey) && GoodRows(c, m, b)
    ensures GoodRows(c, AfterEvent(c, m, b, e), b)
  {
    var m' := AfterEvent(c, m, b, e);
    forall id | id in m'.tables.backups && m'.tables.backups[id].binary == b ensures GoodRow(c, m', b, id) {
      if id in m.tables.backups {
        RowsStay(c, m, b, e, id);
        OldRowStaysGood(c, m, b, e, id);
      } else {
        OnlyUpdatesAdd(c, m, b, e, id);
        NewRowIsGood(c, m, b, e.up, e.env);
      }
    }
  }

  lemma OnlyUpdatesAdd(c: Crypto, m: Machine, b: Db.BinaryId, e: Event, id: Db.RowId)
    requires b in m.tables.binaries && Orderly(c, m, b, e)
    requires id in AfterEvent(c, m, b, e).tables.backups && id !in m.tables.backups
    ensures e.Updating? && Applied(c, m, b, e.up, e.env).0 && id == m.tables.nextBackup
  {
    match e
    case Updating(up, env) =>
      AppliedAdds(c, m, b, up, env);
      var t' := Applied(c, m, b, up, env).1.tables;
      assert id != m.tables.nextBackup ==> id in t'.backups - {m.tables.nextBackup};
      if !env.startFails && !Applied(c, m, b, up, env).0 {
        FailedTables(c, m, b, up, env);
      }
    case RollingBack(other, env) =>
      RolledBackIs(c, m, b, other, env);
  }

  ghost predicate OrderlyRun(c: Crypto, m: Machine, b: Db.BinaryId, events: seq<Event>)
    requires b in m.tables.binaries && Db.Consistent(m.tables)
    decreases |events|
  {
    events != [] ==>
      && Orderly(c, m, b, events[0])
      && (AfterKeepsTables(c, m, b, events[0]);
          OrderlyRun(c, AfterEvent(c, m, b, events[0]), b, events[1..]))
  }

  /** After every orderly run from a settled state, every backup ever recorded for the binary can be rolled back to. */
  lemma {:induction false} EveryBackupStaysGood(c: Crypto, m: Machine, b: Db.BinaryId, events: seq<Event>)
    requires Settled(c, m, b) && Db.Consistent(m.tables) && GoodRows(c, m, b) && OrderlyRun(c, m, b, events)
    requires OneFilePerVersion(c, m.tables.binaries[b].publicKey)
    ensures var r := Run(c, m, b, events);
            && Settled(c, r, b) && GoodRows(c, r, b)
            && forall id, env | id in r.tables.backups && r.tables.backups[id].binary == b && Smooth(env) ::
                 RolledBack(c, r, b, id, env).0
    decreases |events|
  {
    if events == [] {
      forall id, env | id in m.tables.backups && m.tables.backups[id].binary == b && Smooth(env)
        ensures RolledBack(c, m, b, id, env).0
      {
        assert GoodRow(c, m, b, id);
        RollbackSucceeds(c, m, b, id, env);
      }
    } else {
      AfterKeepsTables(c, m, b, events[0]);
      OrderlySettles(c, m, b, events[0]);
      OrderlyKeepsRows(c, m, b, events[0]);
      EveryBackupStaysGood(c, AfterEvent(c, m, b, events[0]), b, events[1..]);
    }
  }

  /* A run that loses a backup */

  /** After update and rollback the version is still on record, so updating to it again replaces the files and leaves
      the record at the earlier version. */
  lemma SecondUpdateParts(c: Crypto, m: Machine, b: Db.BinaryId, up: Update, env: Env, back: RollbackEnv, again: Env)
    requires Settled(c, m, b) && Db.Consistent(m.tables) && Applied(c, m, b, up, env).0 && Smooth(back)
    ensures var m1 := Applied(c, m, b, up, env).1;
            && b in m1.tables.binaries
            && var m2 := RolledBack(c, m1, b, m.tables.nextBackup, back).1;
               && Settled(c, m2, b) && Db.Consistent(m2.tables) && m2.tables.binaries[b] == m.tables.binaries[b]
               && var (ok, m3) := Applied(c, m2, b, up, again);
                  var (backed, copied) := BackedUp(m2, BackupPath(m.tables.binaries[b]), again);
                  && !ok && m3.tables == m2.tables
                  && (!again.startFails && backed
                      && Executed(c, copied, m.tables.binaries[b].publicKey, up, again).0 ==>
                        InstallState(m3) == (Some(again.landed), again.signature))
  {
    var m1 := Applied(c, m, b, up, env).1;
    UpdateThenRollback(c, m, b, up, env, back);
    UpdateKeepsWayBack(c, m, b, up, env);
    AppliedTables(c, m, b, up, env);
    RolledBackTables(c, m1, b, m.tables.nextBackup, back);
    StillOnRecord(c, m, b, up, env, back);
    ReinstallIsNotRecorded(c, RolledBack(c, m1, b, m.tables.nextBackup, back).1, b, up, again);
  }

  lemma StillOnRecord(c: Crypto, m: Machine, b: Db.BinaryId, up: Update, env: Env, back: RollbackEnv)
    requires Settled(c, m, b) && Db.Consistent(m.tables) && Applied(c, m, b, up, env).0
    ensures var m1 := Applied(c, m, b, up, env).1;
            b in m1.tables.binaries && m.tables.nextBackup in m1.tables.backups
            && Db.HasVersion(RolledBack(c, m1, b, m.tables.nextBackup, back).1.tables, b, up.versionId)
  {
    var m1, row := Applied(c, m, b, up, env).1, m.tables.binaries[b];
    UpdateKeepsWayBack(c, m, b, up, env);
    AppliedOk(c, m, b, up, env);
    var m2 := Executed(c, BackedUp(m, BackupPath(row), env).1, row.publicKey, up, env).1;
    RecordedOk(c, m2, b, row, up, Some(BackupPath(row)), env);
    RolledBackIs(c, m1, b, m.tables.nextBackup, back);
    var backup := m1.tables.backups[m.tables.nextBackup];
    HasVersionAfterMark(m1.tables, b, backup.versionId, backup.text, up.versionId);
  }

  /** From then on the next update, if its backup copy completes, puts the newer bytes over the earlier version's
      backup, and the row recorded for it can no longer be rolled back to. */
  lemma BackupIsLost(c: Crypto, m: Machine, b: Db.BinaryId, id: Db.RowId, up: Update, env: Env)
    requires b in m.tables.binaries && Db.Consistent(m.tables) && id in m.tables.backups && Install in m.files
    requires m.tables.backups[id].path == BackupPath(m.tables.binaries[b])
    requires c.hash(m.files[Install]) != m.tables.backups[id].hash && !env.startFails && env.backup.Done?
    ensures !Acceptable(c, Applied(c, m, b, up, env).1, b, id)
  {
    var path := m.tables.backups[id].path;
    UpdateTouches(c, m, b, up, env, path);
    RowsStay(c, m, b, Updating(up, env), id);
    assert BackedUp(m, path, env).1.files[Kept(path)] == m.files[Install];
  }

  /* The same on concrete data */

  /** Version 1.0.0, the file [1], installed with its sidecar and on record. */
  function ToySettled(): Machine {
    var text := Show(Version(1, 0, 0, "", ""));
    Machine(map[Install := [1]], map[Install := Filled(64, 0)],
            Db.Tables(map["b" := Db.Binary("name", "platform", "path", Filled(32, 0), Some("u"), Some(text))],
                      map[1 := Db.Installed("b", "u", text, Filled(32, 1), Filled(32, 0), 1, true)], 2, map[], 1),
            {Install}, {})
  }

  lemma ShortText(d: nat)
    requires 0 < d < 10
    ensures IsValid(Version(d, 0, 0, "", ""))
    ensures var text := Show(Version(d, 0, 0, "", "")); |text| == 5 && Db.Normalize(text) == Some(text)
  {
    var v := Version(d, 0, 0, "", "");
    var a, z := Numeral(d), Numeral(0);
    assert [a, z, z] == [a, z] + [z] && [a, z] == [a] + [z];
    JoinConcat([a, z], [z], '.');
    JoinConcat([a], [z], '.');
    assert |CoreText(v)| == 5;
    Db.NormalizeAccepts(v, "");
    assert "" + Show(v) == Show(v);
  }

  lemma ToyIsConsistent()
    ensures Db.Consistent(ToySettled().tables)
    ensures Db.HasVersion(ToySettled().tables, "b", "u") && !Db.HasVersion(ToySettled().tables, "b", "v")
  {
    var t := ToySettled().tables;
    assert t.installed[1].binary == "b" && t.installed[1].versionId == "u";
    assert Db.IsCurrent(t.installed, "b", 1);
  }

  lemma ToyIsSettled()
    ensures Settled(Toy(), ToySettled(), "b")
  {
    ToyIsConsistent();
    ShortText(1);
  }

  const CALM: RollbackEnv := RollbackEnv(Done, Done, false, false)

  lemma ToyUpdates()
    ensures "b" in ToySettled().tables.binaries
    ensures Applied(Toy(), ToySettled(), "b", ToyUpdate(2), ToyEnv([2], [2])).0
  {
    ToyIsConsistent();
    ToyIsSettled();
    ShortText(2);
    ToyExecutes(ToySettled());
    ToyHashes();
    UpdateSucceeds(Toy(), ToySettled(), "b", ToyUpdate(2), ToyEnv([2], [2]));
  }

  lemma ToyHashes()
    ensures forall data :: |Toy().hash(data)| == 32
  {
  }

  /** Version 2.0.0 is installed, rolled back, and installed again: the first time it succeeds; the second time its file
      is put in place, failure is reported, and 1.0.0 stays on record. */
  lemma ReinstallExample()
    ensures "b" in ToySettled().tables.binaries
    ensures var env := ToyEnv([2], [2]);
            var (first, m1) := Applied(Toy(), ToySettled(), "b", ToyUpdate(2), env);
            && first && "b" in m1.tables.binaries
            && var (back, m2) := RolledBack(Toy(), m1, "b", 1, CALM);
               && back && "b" in m2.tables.binaries
               && var (second, m3) := Applied(Toy(), m2, "b", ToyUpdate(2), env);
                  && !second && InstallState(m3) == (Some([2]), Some(Filled(64, 0)))
                  && m3.tables == m2.tables && m3.tables.binaries["b"] == ToySettled().tables.binaries["b"]
  {
    var c, m, up, env := Toy(), ToySettled(), ToyUpdate(2), ToyEnv([2], [2]);
    ToyIsConsistent();
    ToyIsSettled();
    ToyUpdates();
    UpdateThenRollback(c, m, "b", up, env, CALM);
    SecondUpdateParts(c, m, "b", up, env, CALM, env);
    var m2 := RolledBack(c, Applied(c, m, "b", up, env).1, "b", 1, CALM).1;
    ToyExecutes(m2);
  }

  lemma ToyExecutes(m: Machine)
    requires "b" in m.tables.binaries && m.tables.binaries["b"] == ToySettled().tables.binaries["b"]
    ensures var row := m.tables.binaries["b"];
            var (backed, copied) := BackedUp(m, BackupPath(row), ToyEnv([2], [2]));
            backed && Executed(Toy(), copied, row.publicKey, ToyUpdate(2), ToyEnv([2], [2])).0
  {
    var copied := BackedUp(m, BackupPath(m.tables.binaries["b"]), ToyEnv([2], [2])).1;
    assert Fetched(Toy(), copied.files, ToyUpdate(2), ToyEnv([2], [2])) == Some([2]);
  }
}
