/** Concurrent catalogue and manifest updates: per-app mutexes, temp files and renames
    (crates/deltaship-server/src/storage.rs), as a machine of interleaved steps. */
module Server {
  import opened Text
  import opened Versions
  import opened Catalogs

  const MAX_CATALOG_MUTEXES: nat := 4096

  type App = string
  type TaskId = nat
  type MutexId = nat

  /* Documents and requests */

  datatype DiffInfo = DiffInfo(fromVersion: Version, checksum: string, size: nat, algorithm: string)

  datatype Artifact = Artifact(checksum: string, size: nat, diffs: seq<DiffInfo>)

  datatype Manifest = Manifest(version: Version, platforms: map<Platform, Artifact>)

  datatype Doc = CatalogDoc(catalog: Catalog) | ManifestDoc(manifest: Manifest)

  datatype FileName = CatalogJson | ManifestJson(version: string)

  datatype Path = Path(app: App, name: FileName)

  datatype Content = Missing | Garbled | Holds(doc: Doc)

  datatype Request =
    | UpdateCatalog(info: Info)
    | SetLatestVersion(text: string)
    | UpdateManifest(version: string, platform: Platform, checksum: string, size: nat)
    | AddDiff(version: string, platform: Platform, diff: DiffInfo)

  function Target(req: Request): FileName {
    match req
    case UpdateCatalog(_) => CatalogJson
    case SetLatestVersion(_) => CatalogJson
    case UpdateManifest(version, _, _, _) => ManifestJson(version)
    case AddDiff(version, _, _) => ManifestJson(version)
  }

  /** Requests that open their file with `create` and fall back to a default document. */
  predicate Creates(req: Request) {
    req.UpdateCatalog? || req.UpdateManifest?
  }

  function AddDiffTo(diffs: seq<DiffInfo>, diff: DiffInfo): seq<DiffInfo> {
    if diffs == [] then [diff]
    else if Same(diffs[0].fromVersion, diff.fromVersion) then [diff] + diffs[1..]
    else [diffs[0]] + AddDiffTo(diffs[1..], diff)
  }

  ghost predicate OnePerBase(diffs: seq<DiffInfo>) {
    forall i, j | 0 <= i < j < |diffs| :: !Same(diffs[i].fromVersion, diffs[j].fromVersion)
  }

  /** Adding a diff replaces the one from the same version and keeps every other; no version gets two. */
  lemma {:induction false} AddDiffReplaces(diffs: seq<DiffInfo>, diff: DiffInfo)
    requires OnePerBase(diffs)
    ensures OnePerBase(AddDiffTo(diffs, diff))
    ensures forall d :: d in AddDiffTo(diffs, diff)
                        <==> d == diff || (d in diffs && !Same(d.fromVersion, diff.fromVersion))
    decreases |diffs|
  {
    if diffs != [] {
      var head, rest := diffs[0], diffs[1..];
      assert diffs == [head] + rest;
      assert OnePerBase(rest);
      assert forall d | d in rest :: !Same(head.fromVersion, d.fromVersion);
      if !Same(head.fromVersion, diff.fromVersion) {
        AddDiffReplaces(rest, diff);
        var r := AddDiffTo(rest, diff);
        forall j | 0 <= j < |r| ensures !Same(head.fromVersion, r[j].fromVersion) {
          assert r[j] in r;
        }
      }
    }
  }

  /** What a request makes of the document it sees; `None` refuses. */
  function Apply(req: Request, seen: Option<Doc>): (r: Option<Doc>) {
    match req
    case UpdateCatalog(info) =>
      var f := if seen.Some? && seen.value.CatalogDoc? then Stored(seen.value.catalog) else Unreadable;
      Some(CatalogDoc(Publish(Readable(f, info.version), info)))
    case SetLatestVersion(text) =>
      if seen.None? || !seen.value.CatalogDoc? then None
      else
        var r := SetLatest(Stored(seen.value.catalog), text);
        if r.0 == Ok then Some(CatalogDoc(r.1.catalog)) else None
    case UpdateManifest(version, platform, checksum, size) =>
      if seen.Some? && seen.value.ManifestDoc? then
        var m := seen.value.manifest;
        Some(ManifestDoc(m.(platforms := m.platforms[platform := Artifact(checksum, size, [])])))
      else
        var v := Parse(version);
        if v.None? then None
        else Some(ManifestDoc(Manifest(v.value, map[platform := Artifact(checksum, size, [])])))
    case AddDiff(_, platform, diff) =>
      if seen.None? || !seen.value.ManifestDoc? || platform !in seen.value.manifest.platforms then None
      else
        var m := seen.value.manifest;
        var a := m.platforms[platform];
        Some(ManifestDoc(m.(platforms := m.platforms[platform := a.(diffs := AddDiffTo(a.diffs, diff))])))
  }

  /* State */

  /** `blind`: the file could not be read and the request started from its default document. */
  datatype Outcome = Committed(blind: bool) | Refused | IoFailed

  datatype Phase =
    | Start
    | Sweeping(todo: set<App>)
    | Waiting(m: MutexId)
    | Locked(m: MutexId)
    | Opened(m: MutexId)
    | Loaded(m: MutexId, next: Doc, blind: bool)
    | Written(m: MutexId, next: Doc, blind: bool)
    | Decided(m: MutexId, outcome: Outcome)
    | Unlocked(m: MutexId, outcome: Outcome)
    | Finished(outcome: Outcome)

  predicate HasHandle(p: Phase) {
    !(p.Start? || p.Sweeping? || p.Finished?)
  }

  predicate InCritical(p: Phase) {
    Undecided(p) || p.Decided?
  }

  predicate Undecided(p: Phase) {
    p.Locked? || p.Opened? || p.Loaded? || p.Written?
  }

  /** The outcome the task's caller is told. */
  function Reported(p: Phase): Option<Outcome> {
    if p.Decided? || p.Unlocked? || p.Finished? then Some(p.outcome) else None
  }

  datatype Task = Task(app: App, req: Request, phase: Phase)

  datatype Entry = Entry(task: TaskId, req: Request, outcome: Outcome)

  /** `acquired` and `history` only record: who took each app's mutex, and what each request came to. */
  datatype State = State(
    table: map<App, MutexId>,
    tableLock: Option<TaskId>,
    nextMutex: MutexId,
    owner: map<MutexId, TaskId>,
    tasks: map<TaskId, Task>,
    files: map<Path, Content>,
    temps: map<Path, Content>,
    acquired: map<App, seq<TaskId>>,
    history: map<App, seq<Entry>>)

  function At(files: map<Path, Content>, p: Path): Content {
    if p in files then files[p] else Missing
  }

  function Seen(c: Content): Option<Doc> {
    if c.Holds? then Some(c.doc) else None
  }

  function Listed<T>(m: map<App, seq<T>>, app: App): seq<T> {
    if app in m then m[app] else []
  }

  /** `Arc::strong_count(m) > 1`: somebody besides the table holds the mutex. */
  ghost predicate Shared(s: State, m: MutexId) {
    exists t | t in s.tasks :: HasHandle(s.tasks[t].phase) && s.tasks[t].phase.m == m
  }

  function Move(s: State, t: TaskId, p: Phase): State
    requires t in s.tasks
  {
    s.(tasks := s.tasks[t := s.tasks[t].(phase := p)])
  }

  function Decide(s: State, t: TaskId, outcome: Outcome): State
    requires t in s.tasks && InCritical(s.tasks[t].phase)
  {
    var task := s.tasks[t];
    var app := task.app;
    Move(s, t, Decided(task.phase.m, outcome)).(
      history := s.history[app := Listed(s.history, app) + [Entry(t, task.req, outcome)]])
  }

  /* Steps */

  datatype Step =
    | Arrive(t: TaskId, app: App, req: Request)
    | LockTable(t: TaskId)
    | BeginSweep(t: TaskId)
    | Visit(t: TaskId, a: App)
    | Lookup(t: TaskId)
    | Acquire(t: TaskId)
    | Open(t: TaskId, ok: bool)
    | Load(t: TaskId, ok: bool)
    | WriteTemp(t: TaskId, ok: bool)
    | Rename(t: TaskId, ok: bool)
    | Unlock(t: TaskId)
    | DropHandle(t: TaskId)

  predicate NeedsSweep(s: State, app: App) {
    |s.table| >= MAX_CATALOG_MUTEXES && app !in s.table
  }

  ghost predicate Enabled(s: State, step: Step) {
    if step.Arrive? then step.t !in s.tasks
    else
      && step.t in s.tasks
      && var p := s.tasks[step.t].phase;
         var app := s.tasks[step.t].app;
         match step
         case Arrive(_, _, _) => true
         case LockTable(t) => p.Start? && s.tableLock.None?
         case BeginSweep(t) => p.Start? && s.tableLock == Some(t) && NeedsSweep(s, app)
         case Visit(t, a) => p.Sweeping? && a in p.todo
         case Lookup(t) =>
           s.tableLock == Some(t) && ((p.Start? && !NeedsSweep(s, app)) || (p.Sweeping? && p.todo == {}))
         case Acquire(t) => p.Waiting? && p.m !in s.owner
         case Open(t, _) => p.Locked?
         case Load(t, _) => p.Opened?
         case WriteTemp(t, _) => p.Loaded?
         case Rename(t, _) => p.Written?
         case Unlock(t) => p.Decided?
         case DropHandle(t) => p.Unlocked?
  }

  ghost function DoVisit(s: State, t: TaskId, a: App): State
    requires Enabled(s, Visit(t, a))
  {
    var s1 := Move(s, t, Sweeping(s.tasks[t].phase.todo - {a}));
    if a in s.table && !Shared(s, s.table[a]) then s1.(table := s.table - {a}) else s1
  }

  function DoLookup(s: State, t: TaskId): State
    requires t in s.tasks
  {
    var app := s.tasks[t].app;
    if app in s.table then Move(s, t, Waiting(s.table[app])).(tableLock := None)
    else
      Move(s, t, Waiting(s.nextMutex)).(table := s.table[app := s.nextMutex], nextMutex := s.nextMutex + 1,
                                        tableLock := None)
  }

  function DoAcquire(s: State, t: TaskId): State
    requires t in s.tasks && s.tasks[t].phase.Waiting?
  {
    var app, m := s.tasks[t].app, s.tasks[t].phase.m;
    Move(s, t, Locked(m)).(owner := s.owner[m := t], acquired := s.acquired[app := Listed(s.acquired, app) + [t]])
  }

  function DoOpen(s: State, t: TaskId, ok: bool): State
    requires t in s.tasks && s.tasks[t].phase.Locked?
  {
    var task := s.tasks[t];
    var path := Path(task.app, Target(task.req));
    if !ok then Decide(s, t, IoFailed)
    else if At(s.files, path).Missing? then
      if Creates(task.req) then Move(s, t, Opened(task.phase.m)).(files := s.files[path := Garbled])
      else Decide(s, t, Refused)
    else Move(s, t, Opened(task.phase.m))
  }

  function DoLoad(s: State, t: TaskId, ok: bool): State
    requires t in s.tasks && s.tasks[t].phase.Opened?
  {
    var task := s.tasks[t];
    var seen := if ok then Seen(At(s.files, Path(task.app, Target(task.req)))) else None;
    if !ok && !Creates(task.req) then Decide(s, t, IoFailed)
    else AfterRead(s, t, ok, Apply(task.req, seen))
  }

  function AfterRead(s: State, t: TaskId, ok: bool, applied: Option<Doc>): State
    requires t in s.tasks && s.tasks[t].phase.Opened?
  {
    match applied
    case None => Decide(s, t, if ok then Refused else IoFailed)
    case Some(next) => Move(s, t, Loaded(s.tasks[t].phase.m, next, !ok))
  }

  function DoWriteTemp(s: State, t: TaskId, ok: bool): State
    requires t in s.tasks && s.tasks[t].phase.Loaded?
  {
    var task := s.tasks[t];
    var path, p := Path(task.app, Target(task.req)), task.phase;
    if ok then Move(s, t, Written(p.m, p.next, p.blind)).(temps := s.temps[path := Holds(p.next)])
    else Decide(s, t, IoFailed).(temps := s.temps[path := Garbled])
  }

  /** The rename installs whatever the temp file holds at that moment. */
  function DoRename(s: State, t: TaskId, ok: bool): State
    requires t in s.tasks && s.tasks[t].phase.Written?
  {
    var task := s.tasks[t];
    var path := Path(task.app, Target(task.req));
    if ok then
      Decide(s, t, Committed(task.phase.blind)).(files := s.files[path := At(s.temps, path)], temps := s.temps - {path})
    else Decide(s, t, IoFailed)
  }

  ghost function Do(s: State, step: Step): State
    requires Enabled(s, step)
  {
    match step
    case Arrive(t, app, req) => s.(tasks := s.tasks[t := Task(app, req, Start)])
    case LockTable(t) => s.(tableLock := Some(t))
    case BeginSweep(t) => Move(s, t, Sweeping(s.table.Keys))
    case Visit(t, a) => DoVisit(s, t, a)
    case Lookup(t) => DoLookup(s, t)
    case Acquire(t) => DoAcquire(s, t)
    case Open(t, ok) => DoOpen(s, t, ok)
    case Load(t, ok) => DoLoad(s, t, ok)
    case WriteTemp(t, ok) => DoWriteTemp(s, t, ok)
    case Rename(t, ok) => DoRename(s, t, ok)
    case Unlock(t) =>
      var p := s.tasks[t].phase;
      Move(s, t, Unlocked(p.m, p.outcome)).(owner := s.owner - {p.m})
    case DropHandle(t) => Move(s, t, Finished(s.tasks[t].phase.outcome))
  }

  /** No task yet, an empty table, and any documents on disk. */
  ghost predicate Initial(s: State) {
    s.table == map[] && s.tableLock == None && s.owner == map[] && s.tasks == map[]
    && s.acquired == map[] && s.history == map[]
  }

  ghost predicate Legal(s: State, steps: seq<Step>)
    decreases |steps|
  {
    steps == [] || (Enabled(s, steps[0]) && Legal(Do(s, steps[0]), steps[1..]))
  }

  ghost function Run(s: State, steps: seq<Step>): State
    requires Legal(s, steps)
    decreases |steps|
  {
    if steps == [] then s else Run(Do(s, steps[0]), steps[1..])
  }

  /* The table and the mutexes */

  type Tasks = map<TaskId, Task>

  /** A live handle for an app is the mutex the table lists for that app. */
  ghost predicate HandlesInTable(table: map<App, MutexId>, tasks: Tasks) {
    forall t | t in tasks && HasHandle(tasks[t].phase) ::
      tasks[t].app in table && table[tasks[t].app] == tasks[t].phase.m
  }

  ghost predicate TableInjective(table: map<App, MutexId>, nextMutex: MutexId) {
    && (forall a | a in table :: table[a] < nextMutex)
    && forall a, b | a in table && b in table && table[a] == table[b] :: a == b
  }

  ghost predicate TableLocking(tableLock: Option<TaskId>, tasks: Tasks) {
    && (forall t | t in tasks && tasks[t].phase.Sweeping? :: tableLock == Some(t))
    && (tableLock.Some? ==> tableLock.value in tasks && !HasHandle(tasks[tableLock.value].phase)
                            && !tasks[tableLock.value].phase.Finished?)
  }

  ghost predicate OwnersInside(owner: map<MutexId, TaskId>, tasks: Tasks) {
    && (forall t | t in tasks && InCritical(tasks[t].phase) ::
          tasks[t].phase.m in owner && owner[tasks[t].phase.m] == t)
    && forall m | m in owner :: owner[m] in tasks && InCritical(tasks[owner[m]].phase) && tasks[owner[m]].phase.m == m
  }

  ghost predicate MutexInv(s: State) {
    && HandlesInTable(s.table, s.tasks) && TableInjective(s.table, s.nextMutex)
    && TableLocking(s.tableLock, s.tasks) && OwnersInside(s.owner, s.tasks)
  }

  /** A task that keeps its handle and stays on the same side of the lock disturbs no mutex fact. */
  lemma StayKeeps(s: State, s': State, t: TaskId, p: Phase)
    requires MutexInv(s) && t in s.tasks
    requires HasHandle(p) && HasHandle(s.tasks[t].phase) && p.m == s.tasks[t].phase.m
    requires InCritical(p) <==> InCritical(s.tasks[t].phase)
    requires s'.tasks == Move(s, t, p).tasks
    requires s'.table == s.table && s'.tableLock == s.tableLock && s'.nextMutex == s.nextMutex && s'.owner == s.owner
    ensures MutexInv(s')
  {
  }

  lemma VisitKeeps(table: map<App, MutexId>, tasks: Tasks, a: App)
    requires HandlesInTable(table, tasks) && a in table
    requires forall t | t in tasks && HasHandle(tasks[t].phase) :: tasks[t].phase.m != table[a]
    ensures HandlesInTable(table - {a}, tasks)
  {
  }

  lemma SweepMoveKeeps(s: State, t: TaskId, todo: set<App>)
    requires MutexInv(s) && t in s.tasks && s.tableLock == Some(t)
    ensures MutexInv(Move(s, t, Sweeping(todo)))
  {
  }

  lemma DoVisitKeeps(s: State, t: TaskId, a: App)
    requires MutexInv(s) && Enabled(s, Visit(t, a))
    ensures MutexInv(DoVisit(s, t, a))
  {
    var s1 := Move(s, t, Sweeping(s.tasks[t].phase.todo - {a}));
    SweepMoveKeeps(s, t, s.tasks[t].phase.todo - {a});
    if a in s.table && !Shared(s, s.table[a]) {
      forall u | u in s1.tasks && HasHandle(s1.tasks[u].phase) ensures s1.tasks[u].phase.m != s.table[a] {
        assert s1.tasks[u] == s.tasks[u];
      }
      VisitKeeps(s.table, s1.tasks, a);
    }
  }

  lemma TakeHandleKeeps(s: State, t: TaskId)
    requires MutexInv(s) && t in s.tasks && s.tableLock == Some(t) && s.tasks[t].app in s.table
    ensures MutexInv(DoLookup(s, t))
  {
  }

  lemma ExtendTable(s: State, app: App)
    requires MutexInv(s) && app !in s.table
    ensures MutexInv(s.(table := s.table[app := s.nextMutex], nextMutex := s.nextMutex + 1))
  {
  }

  lemma DoLookupKeeps(s: State, t: TaskId)
    requires MutexInv(s) && t in s.tasks && s.tableLock == Some(t)
    ensures MutexInv(DoLookup(s, t))
  {
    var app := s.tasks[t].app;
    if app in s.table {
      TakeHandleKeeps(s, t);
    } else {
      var s1 := s.(table := s.table[app := s.nextMutex], nextMutex := s.nextMutex + 1);
      ExtendTable(s, app);
      TakeHandleKeeps(s1, t);
      assert DoLookup(s1, t) == DoLookup(s, t);
    }
  }

  lemma DoAcquireKeeps(s: State, t: TaskId)
    requires MutexInv(s) && t in s.tasks && s.tasks[t].phase.Waiting? && s.tasks[t].phase.m !in s.owner
    ensures MutexInv(DoAcquire(s, t))
  {
  }

  lemma UnlockKeeps(s: State, t: TaskId)
    requires MutexInv(s) && t in s.tasks && s.tasks[t].phase.Decided?
    ensures var p := s.tasks[t].phase;
            MutexInv(Move(s, t, Unlocked(p.m, p.outcome)).(owner := s.owner - {p.m}))
  {
  }

  lemma OutsideMoveKeeps(s: State, s': State, t: TaskId, task: Task)
    requires MutexInv(s) && s.tableLock != Some(t)
    requires !InCritical(task.phase) && !HasHandle(task.phase) && !task.phase.Sweeping?
    requires t in s.tasks ==> !InCritical(s.tasks[t].phase) && !s.tasks[t].phase.Sweeping?
    requires s' == s.(tasks := s.tasks[t := task])
    ensures MutexInv(s')
  {
  }

  /** The file steps touch no lock, table entry or other task. */
  ghost predicate FileStep(s: State, s': State, t: TaskId) {
    && t in s.tasks && t in s'.tasks && Undecided(s.tasks[t].phase)
    && InCritical(s'.tasks[t].phase) && s'.tasks[t].phase.m == s.tasks[t].phase.m
    && s'.tasks == s.tasks[t := s.tasks[t].(phase := s'.tasks[t].phase)]
    && s'.table == s.table && s'.tableLock == s.tableLock && s'.nextMutex == s.nextMutex && s'.owner == s.owner
    && s'.acquired == s.acquired
  }

  lemma MoveIsFileStep(s: State, t: TaskId, p: Phase)
    requires t in s.tasks && Undecided(s.tasks[t].phase) && InCritical(p) && p.m == s.tasks[t].phase.m
    ensures FileStep(s, Move(s, t, p), t)
  {
  }

  lemma DecideIsFileStep(s: State, t: TaskId, outcome: Outcome)
    requires t in s.tasks && Undecided(s.tasks[t].phase)
    ensures FileStep(s, Decide(s, t, outcome), t)
  {
    MoveIsFileStep(s, t, Decided(s.tasks[t].phase.m, outcome));
  }

  lemma OpenIsFileStep(s: State, t: TaskId, ok: bool)
    requires t in s.tasks && s.tasks[t].phase.Locked?
    ensures FileStep(s, DoOpen(s, t, ok), t)
  {
    DecideIsFileStep(s, t, IoFailed);
    DecideIsFileStep(s, t, Refused);
    MoveIsFileStep(s, t, Opened(s.tasks[t].phase.m));
  }

  lemma AfterReadIsFileStep(s: State, t: TaskId, ok: bool, applied: Option<Doc>)
    requires t in s.tasks && s.tasks[t].phase.Opened?
    ensures FileStep(s, AfterRead(s, t, ok, applied), t)
  {
    if applied.None? {
      DecideIsFileStep(s, t, if ok then Refused else IoFailed);
    } else {
      MoveIsFileStep(s, t, Loaded(s.tasks[t].phase.m, applied.value, !ok));
    }
  }

  lemma LoadIsFileStep(s: State, t: TaskId, ok: bool)
    requires t in s.tasks && s.tasks[t].phase.Opened?
    ensures FileStep(s, DoLoad(s, t, ok), t)
  {
    var task := s.tasks[t];
    var seen := if ok then Seen(At(s.files, Path(task.app, Target(task.req)))) else None;
    DecideIsFileStep(s, t, IoFailed);
    AfterReadIsFileStep(s, t, ok, Apply(task.req, seen));
  }

  lemma WriteTempIsFileStep(s: State, t: TaskId, ok: bool)
    requires t in s.tasks && s.tasks[t].phase.Loaded?
    ensures FileStep(s, DoWriteTemp(s, t, ok), t)
  {
    var p := s.tasks[t].phase;
    DecideIsFileStep(s, t, IoFailed);
    MoveIsFileStep(s, t, Written(p.m, p.next, p.blind));
  }

  lemma RenameIsFileStep(s: State, t: TaskId, ok: bool)
    requires t in s.tasks && s.tasks[t].phase.Written?
    ensures FileStep(s, DoRename(s, t, ok), t)
  {
    DecideIsFileStep(s, t, IoFailed);
    DecideIsFileStep(s, t, Committed(s.tasks[t].phase.blind));
  }

  lemma StepIsFileStep(s: State, step: Step)
    requires Enabled(s, step) && IsFileStep(step)
    ensures FileStep(s, Do(s, step), step.t)
  {
    match step
    case Open(t, ok) => OpenIsFileStep(s, t, ok);
    case Load(t, ok) => LoadIsFileStep(s, t, ok);
    case WriteTemp(t, ok) => WriteTempIsFileStep(s, t, ok);
    case Rename(t, ok) => RenameIsFileStep(s, t, ok);
  }

  predicate IsFileStep(step: Step) {
    step.Open? || step.Load? || step.WriteTemp? || step.Rename?
  }

  lemma LockStepKeeps(s: State, step: Step)
    requires MutexInv(s) && Enabled(s, step) && !IsFileStep(step)
    ensures MutexInv(Do(s, step))
  {
    var t := step.t;
    match step
    case Arrive(_, app, req) => OutsideMoveKeeps(s, Do(s, step), t, Task(app, req, Start));
    case LockTable(_) =>
    case BeginSweep(_) => SweepMoveKeeps(s, t, s.table.Keys);
    case Visit(_, a) => DoVisitKeeps(s, t, a);
    case Lookup(_) => DoLookupKeeps(s, t);
    case Acquire(_) => DoAcquireKeeps(s, t);
    case Unlock(_) => UnlockKeeps(s, t);
    case DropHandle(_) => OutsideMoveKeeps(s, Do(s, step), t, s.tasks[t].(phase := Finished(s.tasks[t].phase.outcome)));
    case _ =>
  }

  lemma StepKeepsMutexInv(s: State, step: Step)
    requires MutexInv(s) && Enabled(s, step)
    ensures MutexInv(Do(s, step))
  {
    if IsFileStep(step) {
      StepIsFileStep(s, step);
      StayKeeps(s, Do(s, step), step.t, Do(s, step).tasks[step.t].phase);
    } else {
      LockStepKeeps(s, step);
    }
  }

  /** No two tasks are ever inside the critical section of one app. */
  ghost predicate MutualExclusion(s: State) {
    forall t, u | t in s.tasks && u in s.tasks && InCritical(s.tasks[t].phase) && InCritical(s.tasks[u].phase)
                  && s.tasks[t].app == s.tasks[u].app :: t == u
  }

  lemma {:induction false} RunKeepsMutexInv(s: State, steps: seq<Step>)
    requires MutexInv(s) && Legal(s, steps)
    ensures MutexInv(Run(s, steps))
    decreases |steps|
  {
    if steps != [] {
      StepKeepsMutexInv(s, steps[0]);
      RunKeepsMutexInv(Do(s, steps[0]), steps[1..]);
    }
  }

  /** Under every interleaving, all live handles of an app are one mutex and its critical section has one task. */
  lemma MutexSafety(s: State, steps: seq<Step>)
    requires Initial(s) && Legal(s, steps)
    ensures MutualExclusion(Run(s, steps))
    ensures var r := Run(s, steps);
            forall t, u | t in r.tasks && u in r.tasks && HasHandle(r.tasks[t].phase) && HasHandle(r.tasks[u].phase)
                          && r.tasks[t].app == r.tasks[u].app :: r.tasks[t].phase.m == r.tasks[u].phase.m
  {
    RunKeepsMutexInv(s, steps);
  }

  /* One after another: the sequential meaning of a history */

  /** The document a file holds after the committed requests of `h`, run one after another. */
  function Replay(start: Option<Doc>, h: seq<Entry>, name: FileName): Option<Doc>
    decreases |h|
  {
    if h == [] then start
    else
      var before, e := Replay(start, h[..|h| - 1], name), h[|h| - 1];
      if Target(e.req) == name && e.outcome.Committed? then Apply(e.req, if e.outcome.blind then None else before)
      else before
  }

  /** Each recorded outcome is the one the request has when run alone at its turn. */
  ghost predicate Faithful(base: map<Path, Content>, app: App, h: seq<Entry>)
    decreases |h|
  {
    h != [] ==>
      && Faithful(base, app, h[..|h| - 1])
      && var e := h[|h| - 1];
         var before := Replay(Seen(At(base, Path(app, Target(e.req)))), h[..|h| - 1], Target(e.req));
         && (e.outcome.Committed? ==> Apply(e.req, if e.outcome.blind then None else before).Some?)
         && (e.outcome.Refused? ==> Apply(e.req, before) == None)
  }

  function TaskIds(h: seq<Entry>): seq<TaskId> {
    seq(|h|, i requires 0 <= i < |h| => h[i].task)
  }

  function PathOf(task: Task): Path { Path(task.app, Target(task.req)) }

  /** A document in hand is what the request makes of the file as it is now. */
  ghost predicate DraftCurrent(files: map<Path, Content>, temps: map<Path, Content>, task: Task) {
    task.phase.Loaded? || task.phase.Written? ==>
      && Apply(task.req, if task.phase.blind then None else Seen(At(files, PathOf(task)))) == Some(task.phase.next)
      && (task.phase.Written? ==> At(temps, PathOf(task)) == Holds(task.phase.next))
  }

  ghost predicate Drafts(files: map<Path, Content>, temps: map<Path, Content>, tasks: Tasks) {
    forall t | t in tasks :: DraftCurrent(files, temps, tasks[t])
  }

  ghost predicate FilesReplay(base: map<Path, Content>, files: map<Path, Content>, history: map<App, seq<Entry>>) {
    forall p: Path :: Seen(At(files, p)) == Replay(Seen(At(base, p)), Listed(history, p.app), p.name)
  }

  ghost predicate HistoriesFaithful(base: map<Path, Content>, history: map<App, seq<Entry>>) {
    forall app: App :: Faithful(base, app, Listed(history, app))
  }

  ghost predicate Idle(tasks: Tasks, app: App) {
    forall t | t in tasks && tasks[t].app == app :: !Undecided(tasks[t].phase)
  }

  /** The history follows the order in which the mutex was taken; only the holder can be missing from it. */
  ghost predicate LockOrder(tasks: Tasks, acquired: map<App, seq<TaskId>>, history: map<App, seq<Entry>>) {
    && (forall t | t in tasks && Undecided(tasks[t].phase) ::
          Listed(acquired, tasks[t].app) == TaskIds(Listed(history, tasks[t].app)) + [t])
    && forall app: App | Idle(tasks, app) :: Listed(acquired, app) == TaskIds(Listed(history, app))
  }

  ghost predicate StoreInv(base: map<Path, Content>, s: State) {
    StoreHolds(base, s.files, s.temps, s.tasks, s.acquired, s.history)
  }

  ghost predicate StoreHolds(base: map<Path, Content>, files: map<Path, Content>, temps: map<Path, Content>,
                             tasks: Tasks, acquired: map<App, seq<TaskId>>, history: map<App, seq<Entry>>) {
    && Drafts(files, temps, tasks) && FilesReplay(base, files, history)
    && HistoriesFaithful(base, history) && LockOrder(tasks, acquired, history)
  }

  /** The lock steps other than `Acquire` touch no file or record, and move a task that is not at work on its file. */
  ghost predicate OutsideStep(s: State, s': State, t: TaskId) {
    && s'.files == s.files && s'.temps == s.temps && s'.acquired == s.acquired && s'.history == s.history
    && t in s'.tasks && s'.tasks == s.tasks[t := s'.tasks[t]] && !Undecided(s'.tasks[t].phase)
    && if t in s.tasks then !Undecided(s.tasks[t].phase) && Continues(s.tasks[t], s'.tasks[t])
       else Reported(s'.tasks[t].phase) == None
  }

  /** The same request, with the same report so far. */
  predicate Continues(before: Task, now: Task) {
    now.app == before.app && now.req == before.req && Reported(now.phase) == Reported(before.phase)
  }

  lemma MoveIsOutsideStep(s: State, s': State, t: TaskId, p: Phase)
    requires t in s.tasks && !Undecided(s.tasks[t].phase) && !Undecided(p) && Reported(p) == Reported(s.tasks[t].phase)
    requires s'.tasks == Move(s, t, p).tasks
    requires s'.files == s.files && s'.temps == s.temps && s'.acquired == s.acquired && s'.history == s.history
    ensures OutsideStep(s, s', t)
  {
  }

  lemma VisitIsOutsideStep(s: State, t: TaskId, a: App)
    requires Enabled(s, Visit(t, a))
    ensures OutsideStep(s, DoVisit(s, t, a), t)
  {
    MoveIsOutsideStep(s, DoVisit(s, t, a), t, Sweeping(s.tasks[t].phase.todo - {a}));
  }

  lemma LookupIsOutsideStep(s: State, t: TaskId)
    requires t in s.tasks && (s.tasks[t].phase.Start? || s.tasks[t].phase.Sweeping?)
    ensures OutsideStep(s, DoLookup(s, t), t)
  {
    if s.tasks[t].app in s.table {
      MoveIsOutsideStep(s, DoLookup(s, t), t, Waiting(s.table[s.tasks[t].app]));
    } else {
      MoveIsOutsideStep(s, DoLookup(s, t), t, Waiting(s.nextMutex));
    }
  }

  lemma StepIsOutsideStep(s: State, step: Step)
    requires Enabled(s, step) && !IsFileStep(step) && !step.Acquire?
    ensures OutsideStep(s, Do(s, step), step.t)
  {
    match step
    case Visit(t, a) => VisitIsOutsideStep(s, t, a);
    case Lookup(t) => LookupIsOutsideStep(s, t);
    case BeginSweep(t) => MoveIsOutsideStep(s, Do(s, step), t, Sweeping(s.table.Keys));
    case Unlock(t) => MoveIsOutsideStep(s, Do(s, step), t, Unlocked(s.tasks[t].phase.m, s.tasks[t].phase.outcome));
    case DropHandle(t) => MoveIsOutsideStep(s, Do(s, step), t, Finished(s.tasks[t].phase.outcome));
    case _ =>
  }

  /** A task outside its critical section changes nothing the store depends on. */
  lemma OutsideStepKeepsStore(base: map<Path, Content>, s: State, s': State, t: TaskId)
    requires StoreInv(base, s) && OutsideStep(s, s', t)
    ensures StoreInv(base, s')
  {
    forall u | u in s'.tasks ensures DraftCurrent(s'.files, s'.temps, s'.tasks[u]) {
      assert u != t ==> s'.tasks[u] == s.tasks[u];
    }
    forall app: App | Idle(s'.tasks, app) ensures Idle(s.tasks, app) {
      forall u | u in s.tasks && s.tasks[u].app == app ensures !Undecided(s.tasks[u].phase) {
        assert u != t ==> s'.tasks[u] == s.tasks[u];
      }
    }
  }

  lemma NobodyInside(s: State, t: TaskId)
    requires MutexInv(s) && t in s.tasks && s.tasks[t].phase.Waiting? && s.tasks[t].phase.m !in s.owner
    ensures Idle(s.tasks, s.tasks[t].app)
  {
  }

  lemma AcquireKeepsOrder(tasks: Tasks, acquired: map<App, seq<TaskId>>, history: map<App, seq<Entry>>, t: TaskId,
                          p: Phase)
    requires LockOrder(tasks, acquired, history) && t in tasks && Idle(tasks, tasks[t].app) && Undecided(p)
    ensures LockOrder(tasks[t := tasks[t].(phase := p)],
                      acquired[tasks[t].app := Listed(acquired, tasks[t].app) + [t]], history)
  {
    var tasks' := tasks[t := tasks[t].(phase := p)];
    assert forall u | u in tasks' && u != t :: tasks'[u] == tasks[u];
    forall a: App | Idle(tasks', a) ensures a != tasks[t].app && Idle(tasks, a) {
      assert Undecided(tasks'[t].phase);
      forall u | u in tasks && tasks[u].app == a ensures !Undecided(tasks[u].phase) {
        assert u != t ==> tasks'[u] == tasks[u];
      }
    }
  }

  lemma AcquireKeepsStore(base: map<Path, Content>, s: State, t: TaskId)
    requires StoreInv(base, s) && MutexInv(s)
    requires t in s.tasks && s.tasks[t].phase.Waiting? && s.tasks[t].phase.m !in s.owner
    ensures StoreInv(base, DoAcquire(s, t))
  {
    NobodyInside(s, t);
    AcquireKeepsOrder(s.tasks, s.acquired, s.history, t, Locked(s.tasks[t].phase.m));
  }

  /* Steps inside the critical section */

  ghost predicate Alone(tasks: Tasks, t: TaskId)
    requires t in tasks
  {
    forall u | u in tasks && u != t && Undecided(tasks[u].phase) :: tasks[u].app != tasks[t].app
  }

  lemma InsideIsAlone(s: State, t: TaskId)
    requires MutexInv(s) && t in s.tasks && Undecided(s.tasks[t].phase)
    ensures Alone(s.tasks, t)
  {
  }

  lemma OthersKeepDrafts(files: map<Path, Content>, temps: map<Path, Content>, files': map<Path, Content>,
                         temps': map<Path, Content>, tasks: Tasks, t: TaskId, task: Task)
    requires Drafts(files, temps, tasks) && t in tasks && Alone(tasks, t)
    requires forall p: Path | p != PathOf(tasks[t]) ::
               Seen(At(files', p)) == Seen(At(files, p)) && At(temps', p) == At(temps, p)
    requires DraftCurrent(files', temps', task)
    ensures Drafts(files', temps', tasks[t := task])
  {
    forall u | u in tasks && u != t ensures DraftCurrent(files', temps', tasks[u]) {
      assert DraftCurrent(files, temps, tasks[u]);
      assert Undecided(tasks[u].phase) ==> PathOf(tasks[u]) != PathOf(tasks[t]);
    }
  }

  lemma ProgressKeepsOrder(tasks: Tasks, acquired: map<App, seq<TaskId>>, history: map<App, seq<Entry>>, t: TaskId,
                           p: Phase)
    requires LockOrder(tasks, acquired, history) && t in tasks && Undecided(tasks[t].phase) && Undecided(p)
    ensures LockOrder(tasks[t := tasks[t].(phase := p)], acquired, history)
  {
    var tasks' := tasks[t := tasks[t].(phase := p)];
    assert forall u | u in tasks' && u != t :: tasks'[u] == tasks[u];
    forall a: App | Idle(tasks', a) ensures Idle(tasks, a) {
      assert Undecided(tasks'[t].phase);
      forall u | u in tasks && tasks[u].app == a ensures !Undecided(tasks[u].phase) {
        assert u != t ==> tasks'[u] == tasks[u];
      }
    }
  }

  lemma DecideKeepsOrder(tasks: Tasks, acquired: map<App, seq<TaskId>>, history: map<App, seq<Entry>>, t: TaskId,
                         p: Phase, outcome: Outcome)
    requires LockOrder(tasks, acquired, history) && t in tasks && Undecided(tasks[t].phase) && Alone(tasks, t)
    requires !Undecided(p)
    ensures LockOrder(tasks[t := tasks[t].(phase := p)], acquired,
                      history[tasks[t].app := Listed(history, tasks[t].app) + [Entry(t, tasks[t].req, outcome)]])
  {
    var tasks', app := tasks[t := tasks[t].(phase := p)], tasks[t].app;
    var h, e := Listed(history, app), Entry(t, tasks[t].req, outcome);
    assert TaskIds(h + [e]) == TaskIds(h) + [t];
    assert forall u | u in tasks' && u != t :: tasks'[u] == tasks[u];
    forall a: App | a != app && Idle(tasks', a) ensures Idle(tasks, a) {
      forall u | u in tasks && tasks[u].app == a ensures !Undecided(tasks[u].phase) {
        assert u != t ==> tasks'[u] == tasks[u];
      }
    }
  }

  lemma AppendEntry(start: Option<Doc>, h: seq<Entry>, e: Entry, name: FileName)
    ensures Replay(start, h + [e], name)
            == if Target(e.req) == name && e.outcome.Committed?
               then Apply(e.req, if e.outcome.blind then None else Replay(start, h, name))
               else Replay(start, h, name)
  {
    assert (h + [e])[..|h|] == h;
  }

  lemma AppendFaithful(base: map<Path, Content>, app: App, h: seq<Entry>, e: Entry)
    requires Faithful(base, app, h)
    requires var before := Replay(Seen(At(base, Path(app, Target(e.req)))), h, Target(e.req));
             && (e.outcome.Committed? ==> Apply(e.req, if e.outcome.blind then None else before).Some?)
             && (e.outcome.Refused? ==> Apply(e.req, before) == None)
    ensures Faithful(base, app, h + [e])
  {
    assert (h + [e])[..|h|] == h;
  }

  /** What must hold of the files for an outcome to be recorded. */
  ghost predicate Justified(files: map<Path, Content>, files': map<Path, Content>, task: Task, outcome: Outcome) {
    var path := PathOf(task);
    match outcome
    case Committed(blind) =>
      && At(files', path).Holds?
      && Apply(task.req, if blind then None else Seen(At(files, path))) == Some(At(files', path).doc)
      && forall p: Path | p != path :: At(files', p) == At(files, p)
    case Refused => files' == files && Apply(task.req, Seen(At(files, path))) == None
    case IoFailed => files' == files
  }

  lemma DecideKeepsHistories(base: map<Path, Content>, files: map<Path, Content>, files': map<Path, Content>,
                             history: map<App, seq<Entry>>, t: TaskId, task: Task, outcome: Outcome)
    requires FilesReplay(base, files, history) && HistoriesFaithful(base, history)
    requires Justified(files, files', task, outcome)
    ensures var history' := history[task.app := Listed(history, task.app) + [Entry(t, task.req, outcome)]];
            FilesReplay(base, files', history') && HistoriesFaithful(base, history')
  {
    var h, e := Listed(history, task.app), Entry(t, task.req, outcome);
    var history' := history[task.app := h + [e]];
    assert Faithful(base, task.app, h);
    assert Seen(At(files, PathOf(task))) == Replay(Seen(At(base, PathOf(task))), h, Target(task.req));
    AppendFaithful(base, task.app, h, e);
    forall p: Path ensures Seen(At(files', p)) == Replay(Seen(At(base, p)), Listed(history', p.app), p.name) {
      assert Seen(At(files, p)) == Replay(Seen(At(base, p)), Listed(history, p.app), p.name);
      if p.app == task.app {
        AppendEntry(Seen(At(base, p)), h, e, p.name);
        assert p == Path(p.app, p.name);
      }
    }
    forall app: App ensures Faithful(base, app, Listed(history', app)) {
      assert Faithful(base, app, Listed(history, app));
    }
  }

  lemma JustifiedLeavesOthers(files: map<Path, Content>, files': map<Path, Content>, task: Task, outcome: Outcome)
    requires Justified(files, files', task, outcome)
    ensures forall p: Path | p != PathOf(task) :: At(files', p) == At(files, p)
  {
  }

  lemma DecideKeepsAll(base: map<Path, Content>, files: map<Path, Content>, temps: map<Path, Content>, tasks: Tasks,
                       acquired: map<App, seq<TaskId>>, history: map<App, seq<Entry>>, t: TaskId, outcome: Outcome,
                       files': map<Path, Content>, temps': map<Path, Content>, p: Phase)
    requires StoreHolds(base, files, temps, tasks, acquired, history)
    requires t in tasks && Undecided(tasks[t].phase) && Alone(tasks, t) && p.Decided?
    requires Justified(files, files', tasks[t], outcome)
    requires forall p: Path | p != PathOf(tasks[t]) :: At(temps', p) == At(temps, p)
    ensures StoreHolds(base, files', temps', tasks[t := tasks[t].(phase := p)], acquired,
                       history[tasks[t].app := Listed(history, tasks[t].app) + [Entry(t, tasks[t].req, outcome)]])
  {
    DecideKeepsOrder(tasks, acquired, history, t, p, outcome);
    DecideKeepsHistories(base, files, files', history, t, tasks[t], outcome);
    JustifiedLeavesOthers(files, files', tasks[t], outcome);
    OthersKeepDrafts(files, temps, files', temps', tasks, t, tasks[t].(phase := p));
  }

  lemma DecideKeepsStore(base: map<Path, Content>, s: State, t: TaskId, outcome: Outcome, files': map<Path, Content>,
                         temps': map<Path, Content>)
    requires StoreInv(base, s) && MutexInv(s) && t in s.tasks && Undecided(s.tasks[t].phase)
    requires Justified(s.files, files', s.tasks[t], outcome)
    requires forall p: Path | p != PathOf(s.tasks[t]) :: At(temps', p) == At(s.temps, p)
    ensures StoreInv(base, Decide(s, t, outcome).(files := files', temps := temps'))
  {
    InsideIsAlone(s, t);
    DecideKeepsAll(base, s.files, s.temps, s.tasks, s.acquired, s.history, t, outcome, files', temps',
                   Decided(s.tasks[t].phase.m, outcome));
  }

  lemma GiveUpKeepsStore(base: map<Path, Content>, s: State, t: TaskId, outcome: Outcome)
    requires StoreInv(base, s) && MutexInv(s) && t in s.tasks && Undecided(s.tasks[t].phase)
    requires || outcome.IoFailed?
             || (outcome.Refused? && Apply(s.tasks[t].req, Seen(At(s.files, PathOf(s.tasks[t])))) == None)
    ensures StoreInv(base, Decide(s, t, outcome))
  {
    DecideKeepsStore(base, s, t, outcome, s.files, s.temps);
  }

  lemma ProgressKeepsStore(base: map<Path, Content>, s: State, t: TaskId, p: Phase, files': map<Path, Content>,
                           temps': map<Path, Content>)
    requires StoreInv(base, s) && MutexInv(s) && t in s.tasks && Undecided(s.tasks[t].phase) && Undecided(p)
    requires forall q: Path :: Seen(At(files', q)) == Seen(At(s.files, q))
    requires forall q: Path | q != PathOf(s.tasks[t]) :: At(temps', q) == At(s.temps, q)
    requires DraftCurrent(files', temps', s.tasks[t].(phase := p))
    ensures StoreInv(base, Move(s, t, p).(files := files', temps := temps'))
  {
    InsideIsAlone(s, t);
    ProgressKeepsOrder(s.tasks, s.acquired, s.history, t, p);
    OthersKeepDrafts(s.files, s.temps, files', temps', s.tasks, t, s.tasks[t].(phase := p));
    assert FilesReplay(base, files', s.history) by {
      forall q: Path ensures Seen(At(files', q)) == Replay(Seen(At(base, q)), Listed(s.history, q.app), q.name) {
        assert Seen(At(s.files, q)) == Replay(Seen(At(base, q)), Listed(s.history, q.app), q.name);
      }
    }
  }

  lemma CreateKeepsStore(base: map<Path, Content>, s: State, t: TaskId)
    requires StoreInv(base, s) && MutexInv(s) && t in s.tasks && s.tasks[t].phase.Locked?
    requires At(s.files, PathOf(s.tasks[t])).Missing?
    ensures StoreInv(base, Move(s, t, Opened(s.tasks[t].phase.m)).(files := s.files[PathOf(s.tasks[t]) := Garbled]))
  {
    ProgressKeepsStore(base, s, t, Opened(s.tasks[t].phase.m), s.files[PathOf(s.tasks[t]) := Garbled], s.temps);
  }

  lemma OpenKeepsStore(base: map<Path, Content>, s: State, t: TaskId, ok: bool)
    requires StoreInv(base, s) && MutexInv(s) && t in s.tasks && s.tasks[t].phase.Locked?
    ensures StoreInv(base, DoOpen(s, t, ok))
  {
    var task := s.tasks[t];
    var path := PathOf(task);
    if !ok {
      GiveUpKeepsStore(base, s, t, IoFailed);
    } else if At(s.files, path).Missing? && !Creates(task.req) {
      GiveUpKeepsStore(base, s, t, Refused);
    } else if At(s.files, path).Missing? {
      CreateKeepsStore(base, s, t);
    } else {
      ProgressKeepsStore(base, s, t, Opened(task.phase.m), s.files, s.temps);
    }
  }

  lemma LoadKeepsStore(base: map<Path, Content>, s: State, t: TaskId, ok: bool)
    requires StoreInv(base, s) && MutexInv(s) && t in s.tasks && s.tasks[t].phase.Opened?
    ensures StoreInv(base, DoLoad(s, t, ok))
  {
    var task := s.tasks[t];
    var seen := if ok then Seen(At(s.files, PathOf(task))) else None;
    var applied := Apply(task.req, seen);
    if !ok && (!Creates(task.req) || applied.None?) {
      GiveUpKeepsStore(base, s, t, IoFailed);
    } else if applied.None? {
      GiveUpKeepsStore(base, s, t, Refused);
    } else {
      ProgressKeepsStore(base, s, t, Loaded(task.phase.m, applied.value, !ok), s.files, s.temps);
    }
  }

  lemma WriteTempKeepsStore(base: map<Path, Content>, s: State, t: TaskId, ok: bool)
    requires StoreInv(base, s) && MutexInv(s) && t in s.tasks && s.tasks[t].phase.Loaded?
    ensures StoreInv(base, DoWriteTemp(s, t, ok))
  {
    var task := s.tasks[t];
    var path, p := PathOf(task), task.phase;
    assert DraftCurrent(s.files, s.temps, task);
    if ok {
      ProgressKeepsStore(base, s, t, Written(p.m, p.next, p.blind), s.files, s.temps[path := Holds(p.next)]);
    } else {
      DecideKeepsStore(base, s, t, IoFailed, s.files, s.temps[path := Garbled]);
    }
  }

  lemma RenameKeepsStore(base: map<Path, Content>, s: State, t: TaskId, ok: bool)
    requires StoreInv(base, s) && MutexInv(s) && t in s.tasks && s.tasks[t].phase.Written?
    ensures StoreInv(base, DoRename(s, t, ok))
  {
    var task := s.tasks[t];
    var path := PathOf(task);
    assert DraftCurrent(s.files, s.temps, task);
    if ok {
      DecideKeepsStore(base, s, t, Committed(task.phase.blind), s.files[path := At(s.temps, path)], s.temps - {path});
    } else {
      GiveUpKeepsStore(base, s, t, IoFailed);
    }
  }

  lemma FileStepKeepsStore(base: map<Path, Content>, s: State, step: Step)
    requires StoreInv(base, s) && MutexInv(s) && Enabled(s, step) && IsFileStep(step)
    ensures StoreInv(base, Do(s, step))
  {
    match step
    case Open(t, ok) => OpenKeepsStore(base, s, t, ok);
    case Load(t, ok) => LoadKeepsStore(base, s, t, ok);
    case WriteTemp(t, ok) => WriteTempKeepsStore(base, s, t, ok);
    case Rename(t, ok) => RenameKeepsStore(base, s, t, ok);
  }

  lemma StepKeepsStore(base: map<Path, Content>, s: State, step: Step)
    requires StoreInv(base, s) && MutexInv(s) && Enabled(s, step)
    ensures StoreInv(base, Do(s, step))
  {
    if IsFileStep(step) {
      FileStepKeepsStore(base, s, step);
    } else if step.Acquire? {
      AcquireKeepsStore(base, s, step.t);
    } else {
      StepIsOutsideStep(s, step);
      OutsideStepKeepsStore(base, s, Do(s, step), step.t);
    }
  }

  lemma {:induction false} RunKeepsStore(base: map<Path, Content>, s: State, steps: seq<Step>)
    requires StoreInv(base, s) && MutexInv(s) && Legal(s, steps)
    ensures StoreInv(base, Run(s, steps))
    decreases |steps|
  {
    if steps != [] {
      StepKeepsMutexInv(s, steps[0]);
      StepKeepsStore(base, s, steps[0]);
      RunKeepsStore(base, Do(s, steps[0]), steps[1..]);
    }
  }
}
