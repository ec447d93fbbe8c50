/** What whole runs of updates, failed updates and rollbacks keep (crates/deltaship-client/src/patcher.rs), and what the
    daemon's downgrade check adds (crates/deltaship-client/src/daemon.rs). */
module UpdateRuns {
  import opened Text
  import opened Bytes
  import opened Versions
  import opened Signing
  import opened Updater
  import Db = ClientDb
  import Patch

  /* A failed execution is undone */

  /** The installed binary and its sidecar. */
  function InstallState(m: Machine): (Option<Data>, Option<Data>) {
    (if Install in m.files then Some(m.files[Install]) else None,
     if Install in m.sidecars then Some(m.sidecars[Install]) else None)
  }

  lemma BackUpLeavesInstall(m: Machine, path: string, env: Env)
    ensures var m1 := BackedUp(m, path, env).1; InstallState(m1) == InstallState(m) && m1.tables == m.tables
    ensures var (backed, m1) := BackedUp(m, path, env);
            backed && Install in m.files ==>
              && Kept(path) in m1.files && m1.files[Kept(path)] == m.files[Install]
              && (Install in m.sidecars ==> Kept(path) in m1.sidecars && m1.sidecars[Kept(path)] == m.sidecars[Install])
  {
  }

  /** When the execution fails and the restore copy completes, binary and sidecar are as before, except after a first
      install that failed once its file was already in place: there is no backup to put back. */
  lemma FailedUpdateIsUndone(c: Crypto, m: Machine, b: Db.BinaryId, up: Update, env: Env)
    requires b in m.tables.binaries && !env.startFails && env.restore.Done?
    requires var row := m.tables.binaries[b];
             var (backed, m1) := BackedUp(m, BackupPath(row), env);
             backed && !Executed(c, m1, row.publicKey, up, env).0
    ensures !Applied(c, m, b, up, env).0 && Applied(c, m, b, up, env).1.tables == m.tables
    ensures InstallState(Applied(c, m, b, up, env).1) == InstallState(m)
            <==> Install in m.files || !Persists(c, m.files, m.tables.binaries[b].publicKey, up, env)
  {
    var row := m.tables.binaries[b];
    var path := BackupPath(row);
    var m1 := BackedUp(m, path, env).1;
    BackUpLeavesInstall(m, path, env);
    ApplyCases(c, m, b, up, env);
    ExecuteFails(c, m1, row.publicKey, up, env);
  }

  /** The failing family in full: a first install whose file does not hash as announced stays in place, unverified. */
  lemma FirstInstallIsNotUndone(c: Crypto, m: Machine, b: Db.BinaryId, up: Update, env: Env)
    requires b in m.tables.binaries && !env.startFails && Install !in m.files
    requires Persists(c, m.files, m.tables.binaries[b].publicKey, up, env) && up.checksum != Some(c.hash(env.landed))
    ensures var (ok, m') := Applied(c, m, b, up, env); !ok && Install in m'.files && m'.files[Install] == env.landed
  {
    ApplyCases(c, m, b, up, env);
    ExecuteSucceeds(c, m, m.tables.binaries[b].publicKey, up, env);
    ExecuteFails(c, m, m.tables.binaries[b].publicKey, up, env);
  }

  /* The two routes agree */

  ghost predicate Injective(hash: Data -> Data) {
    forall x, y | hash(x) == hash(y) :: x == y
  }

  /** Two successful executions of one update install the same bytes, whatever each started from and downloaded. */
  lemma RoutesAgree(c: Crypto, m: Machine, n: Machine, key: Data, up: Update, env: Env, env': Env)
    requires Injective(c.hash) && Executed(c, m, key, up, env).0 && Executed(c, n, key, up, env').0
    ensures Executed(c, m, key, up, env).1.files[Install] == Executed(c, n, key, up, env').1.files[Install]
    ensures Some(Executed(c, m, key, up, env).1.files[Install]) == Fetched(c, m.files, up, env)
  {
    ExecuteSucceeds(c, m, key, up, env);
    ExecuteSucceeds(c, n, key, up, env');
  }

  /** The diff route delivers the published binary for every encoded segmentation of it, sent raw or compressed: telling
      the two apart by the zstd magic number never goes wrong. */
  lemma PublishedDiffIsFetched(c: Crypto, files: map<Place, Data>, up: Update, env: Env, target: Data,
                               segs: seq<Patch.Segment>)
    requires Install in files && up.hasDiff && Patch.Segments(files[Install], 0, target, segs)
    requires |target| <= Patch.MAX_OUTPUT_SIZE && Patch.IsSlice(target)
    requires var patch := Patch.Encode(Patch.DiffScript(files[Install], 0, target, segs));
             && Patch.IsSlice(patch) && env.diffFile.Some? && up.diffChecksum == Some(c.hash(env.diffFile.value))
             && (env.diffFile.value == patch
                 || (Patch.ZSTD_MAGIC <= env.diffFile.value && c.unpack(env.diffFile.value) == Some(patch)))
    ensures Fetched(c, files, up, env) == Some(target)
  {
    var patch := Patch.Encode(Patch.DiffScript(files[Install], 0, target, segs));
    Patch.DiffRoundTrip(files[Install], target, segs, Patch.MAX_OUTPUT_SIZE);
    if Patch.ZSTD_MAGIC <= env.diffFile.value && env.diffFile.value == patch {
      Patch.NoRawPatchLooksCompressed(files[Install], patch);
    }
  }

  /* What the tables hold after an update */

  /** The record of a binary now current at the update's version. */
  function Pointed(row: Db.Binary, up: Update): Db.Binary {
    row.(currentId := Some(up.versionId), currentText := Some(Show(up.version)))
  }

  /** After `ok` the record is at the new version; otherwise it is there or where it was. */
  ghost predicate RowMoves(t: Db.Tables, t': Db.Tables, b: Db.BinaryId, up: Update, ok: bool) {
    && b in t.binaries && b in t'.binaries
    && (t'.binaries[b] == Pointed(t.binaries[b], up) || (!ok && t'.binaries[b] == t.binaries[b]))
  }

  lemma NotedBackupTables(c: Crypto, files: map<Place, Data>, t: Db.Tables, b: Db.BinaryId, row: Db.Binary,
                          path: Option<string>, stops: nat)
    requires path.Some? ==> Kept(path.value) in files
    ensures var t' := NotedBackup(c, files, t, b, row, path, stops).1;
            t'.binaries == t.binaries && (Db.Consistent(t) ==> Db.Consistent(t'))
  {
    if Db.Consistent(t) && path.Some? && row.currentId.Some? && row.currentText.Some? {
      var kept := files[Kept(path.value)];
      Db.CreateBackupKeeps(t, b, row.currentId.value, row.currentText.value, path.value, c.hash(kept), |kept|, None);
    }
  }

  lemma MadeCurrentTables(c: Crypto, files: map<Place, Data>, t: Db.Tables, b: Db.BinaryId, row: Db.Binary, up: Update,
                          path: Option<string>, stops: nat)
    requires (path.Some? ==> Kept(path.value) in files) && b in t.binaries && Db.Consistent(t)
    ensures var (ok, t') := MadeCurrent(c, files, t, b, row, up, path, stops);
            RowMoves(t, t', b, up, ok) && Db.Consistent(t')
  {
    Db.UpdateCurrentKeeps(t, b, up.versionId, Show(up.version));
    var (ok, t1) := Db.UpdateCurrent(t, b, up.versionId, Show(up.version));
    NotedBackupTables(c, files, t1, b, row, path, stops);
  }

  lemma RecordedTables(c: Crypto, m: Machine, b: Db.BinaryId, row: Db.Binary, up: Update, path: Option<string>,
                       env: Env)
    requires Install in m.files && up.checksum.Some? && (path.Some? ==> Kept(path.value) in m.files)
    requires b in m.tables.binaries && Db.Consistent(m.tables)
    ensures var (ok, m') := Recorded(c, m, b, row, up, path, env);
            RowMoves(m.tables, m'.tables, b, up, ok) && Db.Consistent(m'.tables)
  {
    if env.sha256.Some? {
      var t := RowAdded(m.tables, b, up, env.sha256.value, |m.files[Install]|);
      MadeCurrentTables(c, m.files, t, b, row, up, path, env.dbStops);
    }
  }

  /** The tables once the new version is recorded. */
  ghost function RowAdded(t: Db.Tables, b: Db.BinaryId, up: Update, sha: Data, size: nat): (t': Db.Tables)
    requires up.checksum.Some? && b in t.binaries && Db.Consistent(t)
    ensures t' == Db.RecordInstalled(t, b, up.versionId, Show(up.version), up.checksum.value, sha, size).1
    ensures t'.binaries == t.binaries && Db.Consistent(t')
  {
    Db.RecordInstalledKeeps(t, b, up.versionId, Show(up.version), up.checksum.value, sha, size);
    Db.RecordInstalled(t, b, up.versionId, Show(up.version), up.checksum.value, sha, size).1
  }

  /** An update changes of its binary's record at most the current version, to the target's; it keeps the tables
      consistent and the key pinned. */
  lemma AppliedTables(c: Crypto, m: Machine, b: Db.BinaryId, up: Update, env: Env)
    requires b in m.tables.binaries && Db.Consistent(m.tables)
    ensures var (ok, m') := Applied(c, m, b, up, env);
            Db.Consistent(m'.tables) && RowMoves(m.tables, m'.tables, b, up, ok)
  {
    var row := m.tables.binaries[b];
    var path := BackupPath(row);
    var (backed, m1) := BackedUp(m, path, env);
    BackUpLeavesInstall(m, path, env);
    ApplyCases(c, m, b, up, env);
    var (ok, m2) := Executed(c, m1, row.publicKey, up, env);
    ExecuteSucceeds(c, m1, row.publicKey, up, env);
    ExecuteFails(c, m1, row.publicKey, up, env);
    if !env.startFails && backed && ok {
      RecordedTables(c, m2, b, row, up, if Install in m.files then Some(path) else None, env);
    }
  }

  lemma RolledBackTables(c: Crypto, m: Machine, b: Db.BinaryId, id: Db.RowId, env: RollbackEnv)
    requires b in m.tables.binaries && Db.Consistent(m.tables)
    ensures var m' := RolledBack(c, m, b, id, env).1;
            && Db.Consistent(m'.tables) && b in m'.tables.binaries
            && m'.tables.binaries[b].publicKey == m.tables.binaries[b].publicKey
  {
    RolledBackIs(c, m, b, id, env);
    if id in m.tables.backups {
      Db.UpdateCurrentKeeps(m.tables, b, m.tables.backups[id].versionId, m.tables.backups[id].text);
    }
  }

  lemma RolledBackIs(c: Crypto, m: Machine, b: Db.BinaryId, id: Db.RowId, env: RollbackEnv)
    requires b in m.tables.binaries
    ensures var t := RolledBack(c, m, b, id, env).1.tables;
            && b in t.binaries && t.binaries[b].publicKey == m.tables.binaries[b].publicKey
            && (t == m.tables || (id in m.tables.backups
                                  && t == Db.UpdateCurrent(m.tables, b, m.tables.backups[id].versionId,
                                                           m.tables.backups[id].text).1))
  {
  }

  /* Whole runs */

  datatype Event = Updating(up: Update, env: Env) | RollingBack(id: Db.RowId, back: RollbackEnv)

  function AfterEvent(c: Crypto, m: Machine, b: Db.BinaryId, e: Event): Machine
    requires b in m.tables.binaries
  {
    match e
    case Updating(up, env) => Applied(c, m, b, up, env).1
    case RollingBack(id, env) => RolledBack(c, m, b, id, env).1
  }

  lemma AfterKeepsTables(c: Crypto, m: Machine, b: Db.BinaryId, e: Event)
    requires b in m.tables.binaries && Db.Consistent(m.tables)
    ensures var m' := AfterEvent(c, m, b, e);
            && Db.Consistent(m'.tables) && b in m'.tables.binaries
            && m'.tables.binaries[b].publicKey == m.tables.binaries[b].publicKey
  {
    match e
    case Updating(up, env) => AppliedTables(c, m, b, up, env);
    case RollingBack(id, env) => RolledBackTables(c, m, b, id, env);
  }

  /** Every first install in the run puts in place what was verified. */
  ghost predicate FirstInstallsLand(c: Crypto, m: Machine, b: Db.BinaryId, events: seq<Event>)
    requires b in m.tables.binaries && Db.Consistent(m.tables)
    decreases |events|
  {
    events != [] ==>
      && (events[0].Updating? ==>
            FirstInstallLands(c, m, m.tables.binaries[b].publicKey, events[0].up, events[0].env))
      && (AfterKeepsTables(c, m, b, events[0]);
          FirstInstallsLand(c, AfterEvent(c, m, b, events[0]), b, events[1..]))
  }

  ghost function Run(c: Crypto, m: Machine, b: Db.BinaryId, events: seq<Event>): Machine
    requires b in m.tables.binaries && Db.Consistent(m.tables)
    decreases |events|
  {
    if events == [] then m
    else
      AfterKeepsTables(c, m, b, events[0]);
      Run(c, AfterEvent(c, m, b, events[0]), b, events[1..])
  }

  /** The copies onto the installed path complete. */
  predicate RestoresComplete(e: Event) {
    if e.Updating? then e.env.restore.Done? else e.back.copy.Done?
  }

  ghost predicate InstallIsWhole(m: Machine) {
    Install in m.files ==> Install in m.whole
  }

  lemma AfterKeepsTrust(c: Crypto, first: Option<Data>, m: Machine, b: Db.BinaryId, e: Event)
    requires b in m.tables.binaries && Trustworthy(c, first, m.tables.binaries[b].publicKey, m)
    requires e.Updating? ==> FirstInstallLands(c, m, m.tables.binaries[b].publicKey, e.up, e.env)
    ensures Trustworthy(c, first, m.tables.binaries[b].publicKey, AfterEvent(c, m, b, e))
  {
    match e
    case Updating(up, env) => ApplyKeepsTrust(c, first, m, b, up, env);
    case RollingBack(id, env) => RollbackKeepsTrust(c, first, m, b, id, env);
  }

  lemma BackUpKeepsWhole(m: Machine, path: string, env: Env)
    requires InstallIsWhole(m)
    ensures var (backed, m1) := BackedUp(m, path, env);
            InstallIsWhole(m1) && (backed && Install in m.files ==> Kept(path) in m1.whole)
  {
  }

  lemma ExecuteKeepsWhole(c: Crypto, m: Machine, key: Data, up: Update, env: Env)
    requires InstallIsWhole(m)
    ensures InstallIsWhole(Executed(c, m, key, up, env).1)
    ensures m.whole <= Executed(c, m, key, up, env).1.whole
  {
  }

  lemma AfterKeepsWhole(c: Crypto, m: Machine, b: Db.BinaryId, e: Event)
    requires b in m.tables.binaries && InstallIsWhole(m) && RestoresComplete(e)
    ensures InstallIsWhole(AfterEvent(c, m, b, e))
  {
    if e.Updating? {
      var row := m.tables.binaries[b];
      BackUpKeepsWhole(m, BackupPath(row), e.env);
      ExecuteKeepsWhole(c, BackedUp(m, BackupPath(row), e.env).1, row.publicKey, e.up, e.env);
      ApplyCases(c, m, b, e.up, e.env);
    }
  }

  /** In every run, whatever fails, each completed copy and atomic replacement holds the bytes present at registration
      or bytes whose hash and version were verified under the pinned key. If moreover the copies onto the installed
      path complete, this holds of the installed bytes. */
  lemma {:induction false} RunIsAuthentic(c: Crypto, first: Option<Data>, m: Machine, b: Db.BinaryId,
                                          events: seq<Event>)
    requires b in m.tables.binaries && Db.Consistent(m.tables)
    requires Trustworthy(c, first, m.tables.binaries[b].publicKey, m)
    requires FirstInstallsLand(c, m, b, events)
    ensures var r := Run(c, m, b, events);
            && Db.Consistent(r.tables) && b in r.tables.binaries
            && Trustworthy(c, first, m.tables.binaries[b].publicKey, r)
            && (InstallIsWhole(m) && Install in r.files
                && (forall i | 0 <= i < |events| :: RestoresComplete(events[i])) ==>
                  Authentic(c, first, r.verified, r.files[Install]))
    decreases |events|
  {
    if events != [] {
      AfterKeepsTables(c, m, b, events[0]);
      AfterKeepsTrust(c, first, m, b, events[0]);
      if InstallIsWhole(m) && RestoresComplete(events[0]) {
        AfterKeepsWhole(c, m, b, events[0]);
      }
      RunIsAuthentic(c, first, AfterEvent(c, m, b, events[0]), b, events[1..]);
    }
  }

  /** Every run from the registration state, where only the installed file, if there is one, counts as whole and nothing
      has been verified yet. */
  lemma RegisteredRunIsAuthentic(c: Crypto, files: map<Place, Data>, sidecars: map<Place, Data>, tables: Db.Tables,
                                 b: Db.BinaryId, events: seq<Event>)
    requires b in tables.binaries && Db.Consistent(tables)
    requires FirstInstallsLand(c, Registered(files, sidecars, tables), b, events)
    ensures var r := Run(c, Registered(files, sidecars, tables), b, events);
            var first := if Install in files then Some(files[Install]) else None;
            && Db.Consistent(r.tables) && Trustworthy(c, first, tables.binaries[b].publicKey, r)
            && ((forall i | 0 <= i < |events| :: RestoresComplete(events[i])) && Install in r.files ==>
                  Authentic(c, first, r.verified, r.files[Install]))
  {
    var first := if Install in files then Some(files[Install]) else None;
    RunIsAuthentic(c, first, Registered(files, sidecars, tables), b, events);
  }

  /** A run of the client's own operations. */
  method Serve(client: Client, b: Db.BinaryId, events: seq<Event>)
    requires b in client.tables.binaries && Db.Consistent(client.tables)
    modifies client
    ensures client.Now() == Run(client.crypto, old(client.Now()), b, events)
  {
    for n := 0 to |events|
      invariant b in client.tables.binaries && Db.Consistent(client.tables)
      invariant Run(client.crypto, client.Now(), b, events[n..]) == Run(client.crypto, old(client.Now()), b, events)
    {
      assert events[n..][0] == events[n] && events[n..][1..] == events[n + 1..];
      AfterKeepsTables(client.crypto, client.Now(), b, events[n]);
      match events[n]
      case Updating(up, env) => var _ := client.ApplyUpdate(b, up, env);
      case RollingBack(id, env) => var _ := client.RollbackToBackup(b, id, env);
    }
  }

  /* Update and rollback undo each other */

  /** The state a successful update or rollback leaves: the installed bytes carry a sidecar that is good for the
      recorded version, and that version is among the installed ones. */
  ghost predicate Settled(c: Crypto, m: Machine, b: Db.BinaryId) {
    && b in m.tables.binaries && Install in m.files && Install in m.sidecars
    && var row := m.tables.binaries[b];
       && row.currentId.Some? && row.currentText.Some?
       && Db.HasVersion(m.tables, b, row.currentId.value)
       && Db.Normalize(row.currentText.value) == row.currentText
       && Accepts(c, row.publicKey, c.hash(m.files[Install]), row.currentText.value, m.sidecars[Install])
  }

  lemma {:induction false} ShowIsNormal(v: Version)
    requires IsValid(v) && Db.Normalize(Show(v)).Some?
    ensures Db.Normalize(Show(v)) == Some(Show(v))
  {
    ShowEnds(v);
    TrimFixed(Show(v));
  }

  /** What the rollback will find after a successful update from a settled state: the new backup row. */
  lemma BackupRow(c: Crypto, files: map<Place, Data>, t: Db.Tables, b: Db.BinaryId, row: Db.Binary, path: string,
                  stops: nat)
    requires Kept(path) in files && row.currentId.Some? && row.currentText.Some?
    requires NotedBackup(c, files, t, b, row, Some(path), stops).0
    ensures var t' := NotedBackup(c, files, t, b, row, Some(path), stops).1;
            && t'.installed == t.installed && t.nextBackup in t'.backups
            && var backup := t'.backups[t.nextBackup];
               && backup.path == path && backup.hash == c.hash(files[Kept(path)])
               && backup.versionId == row.currentId.value && Some(backup.text) == Db.Normalize(row.currentText.value)
  {
  }

  lemma HasVersionAfterMark(t: Db.Tables, b: Db.BinaryId, versionId: string, text: string, other: string)
    ensures var t' := Db.UpdateCurrent(t, b, versionId, text).1;
            Db.HasVersion(t, b, other) <==> Db.HasVersion(t', b, other)
  {
    var t' := Db.UpdateCurrent(t, b, versionId, text).1;
    if b in t.binaries && Db.HasVersion(t, b, versionId) {
      assert forall r | r in t.installed :: r in t'.installed && t'.installed[r].binary == t.installed[r].binary
                                            && t'.installed[r].versionId == t.installed[r].versionId;
      assert forall r | r in t'.installed :: r in t.installed;
    }
  }

  /** Recording adds exactly the new version to those installed, and leaves the backups alone. */
  lemma InstalledAfterRecord(t: Db.Tables, b: Db.BinaryId, versionId: string, text: string, sum: Data, sha: Data,
                             size: int, other: string)
    requires Db.Consistent(t)
    ensures var (ok, t') := Db.RecordInstalled(t, b, versionId, text, sum, sha, size);
            ok ==>
              && (Db.HasVersion(t', b, other) <==> Db.HasVersion(t, b, other) || other == versionId)
              && t'.nextBackup == t.nextBackup && t'.binaries == t.binaries && Db.Normalize(text).Some?
              && !Db.HasVersion(t, b, versionId)
  {
    var (ok, t') := Db.RecordInstalled(t, b, versionId, text, sum, sha, size);
    if ok {
      assert t.nextInstalled !in t.installed;
      assert forall r | r in t.installed :: r in t'.installed && t'.installed[r] == t.installed[r];
      assert t'.installed[t.nextInstalled].versionId == versionId;
    }
  }

  lemma RecordedChain(c: Crypto, m: Machine, b: Db.BinaryId, row: Db.Binary, up: Update, path: Option<string>, env: Env)
    requires Install in m.files && up.checksum.Some? && (path.Some? ==> Kept(path.value) in m.files)
    requires Recorded(c, m, b, row, up, path, env).0
    ensures env.sha256.Some?
    ensures var (ok1, t1) := Db.RecordInstalled(m.tables, b, up.versionId, Show(up.version), up.checksum.value,
                                                env.sha256.value, |m.files[Install]|);
            var (ok2, t2) := Db.UpdateCurrent(t1, b, up.versionId, Show(up.version));
            var t' := Recorded(c, m, b, row, up, path, env).1.tables;
            ok1 && ok2 && NotedBackup(c, m.files, t2, b, row, path, env.dbStops) == (true, t')
  {
  }

  lemma NotedBackupLeaves(c: Crypto, files: map<Place, Data>, t: Db.Tables, b: Db.BinaryId, row: Db.Binary,
                          path: Option<string>, stops: nat)
    requires path.Some? ==> Kept(path.value) in files
    ensures NotedBackup(c, files, t, b, row, path, stops).1.installed == t.installed
  {
  }

  /** What a successful recording has written. */
  lemma RecordedOk(c: Crypto, m: Machine, b: Db.BinaryId, row: Db.Binary, up: Update, path: Option<string>, env: Env)
    requires Install in m.files && up.checksum.Some? && (path.Some? ==> Kept(path.value) in m.files)
    requires b in m.tables.binaries && Db.Consistent(m.tables) && Recorded(c, m, b, row, up, path, env).0
    ensures var t' := Recorded(c, m, b, row, up, path, env).1.tables;
            && Db.Normalize(Show(up.version)).Some? && Db.HasVersion(t', b, up.versionId)
            && !Db.HasVersion(m.tables, b, up.versionId)
            && (forall other | Db.HasVersion(m.tables, b, other) :: Db.HasVersion(t', b, other))
            && (path.Some? && row.currentId.Some? && row.currentText.Some? ==>
                  && m.tables.nextBackup in t'.backups
                  && var backup := t'.backups[m.tables.nextBackup];
                     && backup.path == path.value && backup.hash == c.hash(m.files[Kept(path.value)])
                     && backup.versionId == row.currentId.value
                     && Some(backup.text) == Db.Normalize(row.currentText.value))
  {
    var text, sum, sha, size := Show(up.version), up.checksum.value, env.sha256.value, |m.files[Install]|;
    var t1 := Db.RecordInstalled(m.tables, b, up.versionId, text, sum, sha, size).1;
    var t2 := Db.UpdateCurrent(t1, b, up.versionId, text).1;
    var t' := Recorded(c, m, b, row, up, path, env).1.tables;
    RecordedChain(c, m, b, row, up, path, env);
    NotedBackupLeaves(c, m.files, t2, b, row, path, env.dbStops);
    forall other ensures Db.HasVersion(t', b, other) <==> Db.HasVersion(m.tables, b, other) || other == up.versionId {
      InstalledAfterRecord(m.tables, b, up.versionId, text, sum, sha, size, other);
      HasVersionAfterMark(t1, b, up.versionId, text, other);
      assert Db.HasVersion(t', b, other) <==> Db.HasVersion(t2, b, other);
    }
    if path.Some? && row.currentId.Some? && row.currentText.Some? {
      BackupRow(c, m.files, t2, b, row, path.value, env.dbStops);
    }
  }

  /** The stages of a successful update. */
  lemma AppliedOk(c: Crypto, m: Machine, b: Db.BinaryId, up: Update, env: Env)
    requires b in m.tables.binaries && Db.Consistent(m.tables) && Applied(c, m, b, up, env).0
    ensures var row := m.tables.binaries[b];
            var path := BackupPath(row);
            var m1 := BackedUp(m, path, env).1;
            var m2 := Executed(c, m1, row.publicKey, up, env).1;
            var m' := Applied(c, m, b, up, env).1;
            var kept := if Install in m.files then Some(path) else None;
            && BackedUp(m, path, env).0 && Executed(c, m1, row.publicKey, up, env).0
            && up.checksum.Some? && Install in m2.files && (Install in m.files ==> Kept(path) in m2.files)
            && Recorded(c, m2, b, row, up, kept, env) == (true, m')
            && m2.tables == m.tables && m'.files == m2.files && m'.sidecars == m2.sidecars
  {
    var row := m.tables.binaries[b];
    var path := BackupPath(row);
    var m1 := BackedUp(m, path, env).1;
    ApplyCases(c, m, b, up, env);
    BackUpLeavesInstall(m, path, env);
    ExecuteSucceeds(c, m1, row.publicKey, up, env);
  }

  /** A successful update leaves a settled state at the target version. */
  lemma UpdateSettles(c: Crypto, m: Machine, b: Db.BinaryId, up: Update, env: Env)
    requires b in m.tables.binaries && Db.Consistent(m.tables) && IsValid(up.version) && Applied(c, m, b, up, env).0
    ensures var m' := Applied(c, m, b, up, env).1;
            Settled(c, m', b) && m'.tables.binaries[b] == Pointed(m.tables.binaries[b], up)
  {
    var row := m.tables.binaries[b];
    var path := BackupPath(row);
    var m1 := BackedUp(m, path, env).1;
    var m2 := Executed(c, m1, row.publicKey, up, env).1;
    AppliedOk(c, m, b, up, env);
    AppliedTables(c, m, b, up, env);
    ExecuteSucceeds(c, m1, row.publicKey, up, env);
    RecordedOk(c, m2, b, row, up, if Install in m.files then Some(path) else None, env);
    ShowIsNormal(up.version);
  }

  /** What an update from a settled state leaves behind for the rollback. */
  lemma UpdateKeepsWayBack(c: Crypto, m: Machine, b: Db.BinaryId, up: Update, env: Env)
    requires Settled(c, m, b) && Db.Consistent(m.tables) && Applied(c, m, b, up, env).0
    ensures var row := m.tables.binaries[b];
            var m' := Applied(c, m, b, up, env).1;
            && b in m'.tables.binaries && m'.tables.binaries[b].publicKey == row.publicKey
            && m.tables.nextBackup in m'.tables.backups
            && var backup := m'.tables.backups[m.tables.nextBackup];
               var place := Kept(backup.path);
               && place in m'.files && m'.files[place] == m.files[Install] && backup.hash == c.hash(m.files[Install])
               && place in m'.sidecars && m'.sidecars[place] == m.sidecars[Install]
               && backup.versionId == row.currentId.value && backup.text == row.currentText.value
               && Db.HasVersion(m'.tables, b, backup.versionId)
  {
    var row := m.tables.binaries[b];
    var path := BackupPath(row);
    var m1 := BackedUp(m, path, env).1;
    AppliedOk(c, m, b, up, env);
    AppliedTables(c, m, b, up, env);
    BackUpLeavesInstall(m, path, env);
    ExecuteSucceeds(c, m1, row.publicKey, up, env);
    RecordedOk(c, Executed(c, m1, row.publicKey, up, env).1, b, row, up, Some(path), env);
  }

  /** All steps of a rollback complete. */
  predicate Smooth(env: RollbackEnv) {
    env.copy.Done? && env.sigCopy.Done? && !env.permsFail && !env.dbFails
  }

  lemma RollbackSucceeds(c: Crypto, m: Machine, b: Db.BinaryId, id: Db.RowId, env: RollbackEnv)
    requires b in m.tables.binaries && Smooth(env)
    ensures var (ok, m') := RolledBack(c, m, b, id, env);
            ok <==> && id in m.tables.backups
                    && BackupAccepted(c, m, m.tables.binaries[b].publicKey, m.tables.backups[id])
                    && Db.HasVersion(m.tables, b, m.tables.backups[id].versionId)
    ensures var (ok, m') := RolledBack(c, m, b, id, env);
            ok ==>
              && var backup := m.tables.backups[id];
                 var row := m.tables.binaries[b];
                 && Install in m'.files && m'.files[Install] == m.files[Kept(backup.path)]
                 && Install in m'.sidecars && m'.sidecars[Install] == m.sidecars[Kept(backup.path)]
                 && b in m'.tables.binaries
                 && m'.tables.binaries[b] == row.(currentId := Some(backup.versionId), currentText := Some(backup.text))
  {
  }

  /** From a settled state, an update that succeeds can be rolled back through the backup it recorded, and the rollback
      restores the bytes, the sidecar and the recorded version. */
  lemma UpdateThenRollback(c: Crypto, m: Machine, b: Db.BinaryId, up: Update, env: Env, back: RollbackEnv)
    requires Settled(c, m, b) && Db.Consistent(m.tables)
    requires Applied(c, m, b, up, env).0 && Smooth(back)
    ensures var m1 := Applied(c, m, b, up, env).1;
            && b in m1.tables.binaries
            && var (ok, m2) := RolledBack(c, m1, b, m.tables.nextBackup, back);
               ok && InstallState(m2) == InstallState(m) && b in m2.tables.binaries
               && m2.tables.binaries[b] == m.tables.binaries[b] && Settled(c, m2, b)
  {
    var m1 := Applied(c, m, b, up, env).1;
    UpdateKeepsWayBack(c, m, b, up, env);
    AppliedTables(c, m, b, up, env);
    RollbackSucceeds(c, m1, b, m.tables.nextBackup, back);
    var backup := m1.tables.backups[m.tables.nextBackup];
    HasVersionAfterMark(m1.tables, b, backup.versionId, backup.text, backup.versionId);
    assert RolledBack(c, m1, b, m.tables.nextBackup, back).1.tables
        == Db.UpdateCurrent(m1.tables, b, backup.versionId, backup.text).1;
  }

  /** Whether the database work succeeds, when no statement fails and the version before is known. */
  lemma RecordingSucceeds(c: Crypto, m: Machine, b: Db.BinaryId, row: Db.Binary, up: Update, path: string, env: Env)
    requires Install in m.files && up.checksum.Some? && Kept(path) in m.files
    requires b in m.tables.binaries && Db.Consistent(m.tables) && env.dbStops > 3
    requires |up.checksum.value| == Db.HASH_SIZE && |c.hash(m.files[Kept(path)])| == Db.HASH_SIZE
    requires env.sha256.Some? && |env.sha256.value| == Db.HASH_SIZE
    requires row.currentId.Some? && row.currentText.Some? && Db.Normalize(row.currentText.value).Some?
    ensures Recorded(c, m, b, row, up, Some(path), env).0
            <==> !Db.HasVersion(m.tables, b, up.versionId) && Db.Normalize(Show(up.version)).Some?
                 && |m.files[Install]| > 0
  {
    var text, sum, sha, size := Show(up.version), up.checksum.value, env.sha256.value, |m.files[Install]|;
    InstalledAfterRecord(m.tables, b, up.versionId, text, sum, sha, size, up.versionId);
    var (ok, t) := Db.RecordInstalled(m.tables, b, up.versionId, text, sum, sha, size);
    if ok {
      MadeCurrentSucceeds(c, m.files, t, b, row, up, path, env.dbStops);
    }
  }

  lemma MadeCurrentSucceeds(c: Crypto, files: map<Place, Data>, t: Db.Tables, b: Db.BinaryId, row: Db.Binary,
                            up: Update, path: string, stops: nat)
    requires Kept(path) in files && b in t.binaries && stops > 3 && |c.hash(files[Kept(path)])| == Db.HASH_SIZE
    requires row.currentId.Some? && row.currentText.Some? && Db.Normalize(row.currentText.value).Some?
    requires Db.HasVersion(t, b, up.versionId)
    ensures MadeCurrent(c, files, t, b, row, up, Some(path), stops).0
  {
    var t' := Db.UpdateCurrent(t, b, up.versionId, Show(up.version)).1;
    NotedBackupSucceeds(c, files, t', b, row, path, stops);
  }

  lemma NotedBackupSucceeds(c: Crypto, files: map<Place, Data>, t: Db.Tables, b: Db.BinaryId, row: Db.Binary,
                            path: string, stops: nat)
    requires Kept(path) in files && b in t.binaries && stops > 3 && |c.hash(files[Kept(path)])| == Db.HASH_SIZE
    requires row.currentId.Some? && row.currentText.Some? && Db.Normalize(row.currentText.value).Some?
    ensures NotedBackup(c, files, t, b, row, Some(path), stops).0
  {
  }

  /** From a settled state, an update whose copies, checks and statements all succeed is successful exactly if its
      version was never recorded, has an acceptable text, and the new file is not empty. */
  lemma UpdateSucceeds(c: Crypto, m: Machine, b: Db.BinaryId, up: Update, env: Env)
    requires Settled(c, m, b) && Db.Consistent(m.tables) && !env.startFails && env.dbStops > 3
    requires var row := m.tables.binaries[b];
             var (backed, m1) := BackedUp(m, BackupPath(row), env);
             backed && Executed(c, m1, row.publicKey, up, env).0
    requires |c.hash(m.files[Install])| == |c.hash(env.landed)| == Db.HASH_SIZE
    requires env.sha256.Some? && |env.sha256.value| == Db.HASH_SIZE
    ensures Applied(c, m, b, up, env).0
            <==> !Db.HasVersion(m.tables, b, up.versionId) && Db.Normalize(Show(up.version)).Some? && |env.landed| > 0
  {
    var row := m.tables.binaries[b];
    var path := BackupPath(row);
    var m1 := BackedUp(m, path, env).1;
    BackUpLeavesInstall(m, path, env);
    ExecuteSucceeds(c, m1, row.publicKey, up, env);
    RecordingSucceeds(c, Executed(c, m1, row.publicKey, up, env).1, b, row, up, path, env);
  }

  /* Installing a version a second time */

  /** A version recorded once, rolled back or not, is never recorded again: the files are replaced, the update reports
      failure and the record stays where it was. */
  lemma ReinstallIsNotRecorded(c: Crypto, m: Machine, b: Db.BinaryId, up: Update, env: Env)
    requires b in m.tables.binaries && Db.Consistent(m.tables) && Db.HasVersion(m.tables, b, up.versionId)
    ensures !Applied(c, m, b, up, env).0 && Applied(c, m, b, up, env).1.tables == m.tables
    ensures var row := m.tables.binaries[b];
            var (backed, m1) := BackedUp(m, BackupPath(row), env);
            !env.startFails && backed && Executed(c, m1, row.publicKey, up, env).0 ==>
              InstallState(Applied(c, m, b, up, env).1) == (Some(env.landed), env.signature)
  {
    var row := m.tables.binaries[b];
    var path := BackupPath(row);
    var m1 := BackedUp(m, path, env).1;
    ApplyCases(c, m, b, up, env);
    BackUpLeavesInstall(m, path, env);
    ExecuteSucceeds(c, m1, row.publicKey, up, env);
    ExecuteFails(c, m1, row.publicKey, up, env);
  }

  /* A first install that goes wrong, on concrete data */

  function Filled(n: nat, x: u8): Data {
    seq(n, _ => x)
  }

  /** A hash that tells files apart by their first byte, and a verifier that accepts everything. */
  function Toy(): Crypto {
    Crypto((data: Data) => Filled(32, if data == [] then 0 else data[0]), (k: Data, p: Data, s: Data) => true,
           (data: Data) => None)
  }

  /** An update to version `major`.0.0, which is the file [`major`]. */
  function ToyUpdate(major: u8): Update {
    Update("v", Version(major, 0, 0, "", ""), Some(Filled(32, major)), false, None)
  }

  /** Everything succeeds, except that the rename may put other bytes in place than were downloaded. */
  function ToyEnv(full: Data, landed: Data): Env {
    Env(false, Done, Done, None, Some(full), Some(Filled(64, 0)), false, landed, false, false, Done,
        Some(Filled(32, 0)), 4)
  }

  /** One registered binary with nothing installed. */
  function ToyFresh(): Machine {
    Registered(map[], map[],
               Db.Tables(map["b" := Db.Binary("name", "platform", "path", Filled(32, 0), None, None)],
                         map[], 1, map[], 1))
  }

  /** A first install ends with bytes in place that no signature covers, and reports failure. */
  lemma FirstInstallStaysExample()
    ensures "b" in ToyFresh().tables.binaries
    ensures var (ok, m) := Applied(Toy(), ToyFresh(), "b", ToyUpdate(2), ToyEnv([2], [9]));
            && !ok && InstallState(m) == (Some([9]), None) && m.tables == ToyFresh().tables
            && !Authentic(Toy(), None, m.verified, [9])
  {
    var m, env := ToyFresh(), ToyEnv([2], [9]);
    assert Filled(32, 2)[0] != Filled(32, 9)[0];
    assert Fetched(Toy(), m.files, ToyUpdate(2), env) == Some([2]);
    FirstInstallIsNotUndone(Toy(), m, "b", ToyUpdate(2), env);
  }

  /* The daemon */

  /** The version a binary's record names, if it names one that parses. */
  function RecordedVersion(m: Machine, b: Db.BinaryId): Option<Version>
    requires b in m.tables.binaries
  {
    var text := m.tables.binaries[b].currentText;
    if text.Some? then Parse(text.value) else None
  }

  /** The daemon applies an offer unless something is recorded that it does not exceed, or that does not parse. */
  predicate WouldApply(m: Machine, b: Db.BinaryId, up: Update)
    requires b in m.tables.binaries
  {
    m.tables.binaries[b].currentText.Some? ==>
      RecordedVersion(m, b).Some? && Compare(up.version, RecordedVersion(m, b).value) == Greater
  }

  method CheckAndApply(client: Client, b: Db.BinaryId, autoUpdate: bool, offer: Option<Update>, env: Env)
    requires b in client.tables.binaries
    modifies client
    ensures client.Now()
            == if autoUpdate then AfterOffer(client.crypto, old(client.Now()), b, offer, env) else old(client.Now())
  {
    if !autoUpdate || offer.None? {
      return;
    }
    var current := client.tables.binaries[b].currentText;
    if current.Some? {
      var version := Parse(current.value);
      if version.None? {
        return;
      }
      if Compare(offer.value.version, version.value) != Greater {
        return;
      }
    }
    var _ := client.ApplyUpdate(b, offer.value, env);
  }

  function AfterOffer(c: Crypto, m: Machine, b: Db.BinaryId, offer: Option<Update>, env: Env): Machine
    requires b in m.tables.binaries
  {
    if offer.Some? && WouldApply(m, b, offer.value) then Applied(c, m, b, offer.value, env).1 else m
  }

  /** A step of the daemon leaves the recorded version alone or raises it strictly, even when the update fails part way;
      a successful update of a recorded binary always raises it. */
  lemma OfferRaises(c: Crypto, m: Machine, b: Db.BinaryId, offer: Option<Update>, env: Env)
    requires b in m.tables.binaries && Db.Consistent(m.tables) && RecordedVersion(m, b).Some?
    requires offer.Some? ==> IsValid(offer.value.version)
    ensures var m' := AfterOffer(c, m, b, offer, env);
            && b in m'.tables.binaries && Db.Consistent(m'.tables) && RecordedVersion(m', b).Some?
            && (m'.tables.binaries[b] == m.tables.binaries[b]
                || Newer(RecordedVersion(m', b).value, RecordedVersion(m, b).value))
            && (offer.Some? && WouldApply(m, b, offer.value) && Applied(c, m, b, offer.value, env).0 ==>
                  Newer(RecordedVersion(m', b).value, RecordedVersion(m, b).value))
  {
    if offer.Some? && WouldApply(m, b, offer.value) {
      AppliedTables(c, m, b, offer.value, env);
      ParseShow(offer.value.version);
    }
  }

  /** The daemon applies an offer exactly if nothing is on record, or what is on record is a version and the offer is
      newer in precedence; otherwise it changes nothing. */
  lemma OfferIsApplied(c: Crypto, m: Machine, b: Db.BinaryId, up: Update, env: Env)
    requires b in m.tables.binaries
    ensures var text := m.tables.binaries[b].currentText;
            AfterOffer(c, m, b, Some(up), env)
            == if || text == None
                  || (Parse(text.value).Some? && Compare(up.version, Parse(text.value).value) == Greater)
               then Applied(c, m, b, up, env).1 else m
    ensures AfterOffer(c, m, b, None, env) == m
  {
  }

  datatype Cycle = Cycle(offer: Option<Update>, env: Env)

  ghost function RunDaemon(c: Crypto, m: Machine, b: Db.BinaryId, cycles: seq<Cycle>): Machine
    requires b in m.tables.binaries && Db.Consistent(m.tables) && RecordedVersion(m, b).Some?
    requires forall i | 0 <= i < |cycles| && cycles[i].offer.Some? :: IsValid(cycles[i].offer.value.version)
    decreases |cycles|
  {
    if cycles == [] then m
    else
      OfferRaises(c, m, b, cycles[0].offer, cycles[0].env);
      RunDaemon(c, AfterOffer(c, m, b, cycles[0].offer, cycles[0].env), b, cycles[1..])
  }

  /** In every daemon run the recorded version never goes down: at the end it is the same or strictly newer. */
  lemma {:induction false} DaemonNeverDowngrades(c: Crypto, m: Machine, b: Db.BinaryId, cycles: seq<Cycle>)
    requires b in m.tables.binaries && Db.Consistent(m.tables) && RecordedVersion(m, b).Some?
    requires forall i | 0 <= i < |cycles| && cycles[i].offer.Some? :: IsValid(cycles[i].offer.value.version)
    ensures var r := RunDaemon(c, m, b, cycles);
            && b in r.tables.binaries && RecordedVersion(r, b).Some?
            && (r.tables.binaries[b] == m.tables.binaries[b]
                || Newer(RecordedVersion(r, b).value, RecordedVersion(m, b).value))
    decreases |cycles|
  {
    if cycles != [] {
      OfferRaises(c, m, b, cycles[0].offer, cycles[0].env);
      var m1 := AfterOffer(c, m, b, cycles[0].offer, cycles[0].env);
      DaemonNeverDowngrades(c, m1, b, cycles[1..]);
      var r := RunDaemon(c, m1, b, cycles[1..]);
      var v0, v1, v2 := RecordedVersion(m, b).value, RecordedVersion(m1, b).value, RecordedVersion(r, b).value;
      CompareTotalOrder(v0, v1, v2);
      CompareTotalOrder(v1, v2, v0);
      CompareTotalOrder(v0, v2, v1);
    }
  }
}
