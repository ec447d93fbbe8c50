/** What every interleaving of catalogue and manifest requests ends in
    (crates/deltaship-server/src/storage.rs). */
module ServerRuns {
  import opened Text
  import opened Versions
  import opened Catalogs
  import opened Server

  /* A step inside the critical section goes on, or decides */

  ghost predicate GoesOn(s: State, s': State, t: TaskId, p: Phase) {
    t in s.tasks && Undecided(s.tasks[t].phase) && Undecided(p) && s'.tasks == Move(s, t, p).tasks
    && s'.history == s.history
  }

  ghost predicate Decides(s: State, s': State, t: TaskId, outcome: Outcome) {
    t in s.tasks && Undecided(s.tasks[t].phase)
    && s'.tasks == Decide(s, t, outcome).tasks && s'.history == Decide(s, t, outcome).history
  }

  ghost predicate GoesOnOrDecides(s: State, s': State, t: TaskId) {
    (exists p :: GoesOn(s, s', t, p)) || exists outcome :: Decides(s, s', t, outcome)
  }

  lemma OpenKind(s: State, t: TaskId, ok: bool)
    requires t in s.tasks && s.tasks[t].phase.Locked?
    ensures GoesOnOrDecides(s, DoOpen(s, t, ok), t)
  {
    var s', task := DoOpen(s, t, ok), s.tasks[t];
    if !ok {
      assert Decides(s, s', t, IoFailed);
    } else if At(s.files, PathOf(task)).Missing? && !Creates(task.req) {
      assert Decides(s, s', t, Refused);
    } else {
      assert GoesOn(s, s', t, Opened(task.phase.m));
    }
  }

  lemma AfterReadKind(s: State, t: TaskId, ok: bool, applied: Option<Doc>)
    requires t in s.tasks && s.tasks[t].phase.Opened?
    ensures GoesOnOrDecides(s, AfterRead(s, t, ok, applied), t)
  {
    var s' := AfterRead(s, t, ok, applied);
    if applied.None? {
      assert Decides(s, s', t, if ok then Refused else IoFailed);
    } else {
      assert GoesOn(s, s', t, Loaded(s.tasks[t].phase.m, applied.value, !ok));
    }
  }

  lemma LoadKind(s: State, t: TaskId, ok: bool)
    requires t in s.tasks && s.tasks[t].phase.Opened?
    ensures GoesOnOrDecides(s, DoLoad(s, t, ok), t)
  {
    var task := s.tasks[t];
    if !ok && !Creates(task.req) {
      assert Decides(s, DoLoad(s, t, ok), t, IoFailed);
    } else {
      AfterReadKind(s, t, ok, Apply(task.req, if ok then Seen(At(s.files, PathOf(task))) else None));
    }
  }

  lemma WriteTempKind(s: State, t: TaskId, ok: bool)
    requires t in s.tasks && s.tasks[t].phase.Loaded?
    ensures GoesOnOrDecides(s, DoWriteTemp(s, t, ok), t)
  {
    var s', p := DoWriteTemp(s, t, ok), s.tasks[t].phase;
    if ok {
      assert GoesOn(s, s', t, Written(p.m, p.next, p.blind));
    } else {
      assert Decides(s, s', t, IoFailed);
    }
  }

  lemma RenameKind(s: State, t: TaskId, ok: bool)
    requires t in s.tasks && s.tasks[t].phase.Written?
    ensures GoesOnOrDecides(s, DoRename(s, t, ok), t)
  {
    assert Decides(s, DoRename(s, t, ok), t, if ok then Committed(s.tasks[t].phase.blind) else IoFailed);
  }

  lemma FileStepKind(s: State, step: Step)
    requires Enabled(s, step) && IsFileStep(step)
    ensures GoesOnOrDecides(s, Do(s, step), step.t)
  {
    match step
    case Open(t, ok) => OpenKind(s, t, ok);
    case Load(t, ok) => LoadKind(s, t, ok);
    case WriteTemp(t, ok) => WriteTempKind(s, t, ok);
    case Rename(t, ok) => RenameKind(s, t, ok);
  }

  /* The history is what the tasks asked for and reported */

  /** An entry carries its task's own request and the outcome that task reports. */
  ghost predicate EntryTrue(tasks: Tasks, app: App, e: Entry) {
    && e.task in tasks && tasks[e.task].app == app && tasks[e.task].req == e.req
    && Reported(tasks[e.task].phase) == Some(e.outcome)
  }

  ghost predicate EntriesTrue(tasks: Tasks, app: App, h: seq<Entry>) {
    forall i | 0 <= i < |h| :: EntryTrue(tasks, app, h[i])
  }

  ghost predicate NoTaskTwice(h: seq<Entry>) {
    forall i, j | 0 <= i < j < |h| :: h[i].task != h[j].task
  }

  ghost predicate HasEntry(h: seq<Entry>, t: TaskId) {
    exists i | 0 <= i < |h| :: h[i].task == t
  }

  /** Entries are true, no task has two, and every task that reports has one. */
  ghost predicate Truthful(tasks: Tasks, history: map<App, seq<Entry>>) {
    && (forall app: App :: EntriesTrue(tasks, app, Listed(history, app)) && NoTaskTwice(Listed(history, app)))
    && forall t | t in tasks && Reported(tasks[t].phase).Some? :: HasEntry(Listed(history, tasks[t].app), t)
  }

  lemma ContinuingIsTruthful(tasks: Tasks, history: map<App, seq<Entry>>, t: TaskId, task: Task)
    requires Truthful(tasks, history)
    requires if t in tasks then Continues(tasks[t], task) else Reported(task.phase) == None
    ensures Truthful(tasks[t := task], history)
  {
    forall app: App ensures EntriesTrue(tasks[t := task], app, Listed(history, app)) {
      assert EntriesTrue(tasks, app, Listed(history, app));
    }
    forall app: App ensures NoTaskTwice(Listed(history, app)) {
      assert EntriesTrue(tasks, app, Listed(history, app));
    }
  }

  lemma DecidingIsTruthful(tasks: Tasks, history: map<App, seq<Entry>>, t: TaskId, p: Phase, outcome: Outcome)
    requires Truthful(tasks, history)
    requires t in tasks && Reported(tasks[t].phase) == None && Reported(p) == Some(outcome)
    ensures var app := tasks[t].app;
            Truthful(tasks[t := tasks[t].(phase := p)],
                     history[app := Listed(history, app) + [Entry(t, tasks[t].req, outcome)]])
  {
    var app, tasks' := tasks[t].app, tasks[t := tasks[t].(phase := p)];
    var h, e := Listed(history, app), Entry(t, tasks[t].req, outcome);
    var history' := history[app := h + [e]];
    forall a: App ensures EntriesTrue(tasks', a, Listed(history', a)) && NoTaskTwice(Listed(history', a)) {
      assert EntriesTrue(tasks, a, Listed(history, a)) && NoTaskTwice(Listed(history, a));
      DecidedEntries(tasks, t, p, outcome, a, Listed(history, a));
    }
    forall u | u in tasks' && Reported(tasks'[u].phase).Some? ensures HasEntry(Listed(history', tasks'[u].app), u) {
      if u == t {
        assert (h + [e])[|h|].task == t;
      } else {
        EntryStays(Listed(history, tasks[u].app), e, u);
      }
    }
  }

  lemma DecidedEntries(tasks: Tasks, t: TaskId, p: Phase, outcome: Outcome, a: App, h: seq<Entry>)
    requires t in tasks && Reported(tasks[t].phase) == None && Reported(p) == Some(outcome)
    requires EntriesTrue(tasks, a, h) && NoTaskTwice(h)
    ensures var tasks', e := tasks[t := tasks[t].(phase := p)], Entry(t, tasks[t].req, outcome);
            && EntriesTrue(tasks', a, h)
            && (a == tasks[t].app ==> EntriesTrue(tasks', a, h + [e]) && NoTaskTwice(h + [e]))
  {
    forall i | 0 <= i < |h| ensures h[i].task != t && EntryTrue(tasks[t := tasks[t].(phase := p)], a, h[i]) {
      assert EntryTrue(tasks, a, h[i]);
    }
  }

  lemma EntryStays(h: seq<Entry>, e: Entry, u: TaskId)
    requires HasEntry(h, u)
    ensures HasEntry(h + [e], u)
  {
    var i :| 0 <= i < |h| && h[i].task == u;
    assert (h + [e])[i].task == u;
  }

  lemma FileStepIsTruthful(s: State, s': State, t: TaskId)
    requires Truthful(s.tasks, s.history) && GoesOnOrDecides(s, s', t)
    ensures Truthful(s'.tasks, s'.history)
  {
    if p :| GoesOn(s, s', t, p) {
      ContinuingIsTruthful(s.tasks, s.history, t, s.tasks[t].(phase := p));
    } else {
      var outcome :| Decides(s, s', t, outcome);
      DecidingIsTruthful(s.tasks, s.history, t, Decided(s.tasks[t].phase.m, outcome), outcome);
    }
  }

  lemma StepIsTruthful(s: State, step: Step)
    requires Truthful(s.tasks, s.history) && Enabled(s, step)
    ensures Truthful(Do(s, step).tasks, Do(s, step).history)
  {
    var t, s' := step.t, Do(s, step);
    if IsFileStep(step) {
      FileStepKind(s, step);
      FileStepIsTruthful(s, s', t);
    } else if step.Acquire? {
      ContinuingIsTruthful(s.tasks, s.history, t, s.tasks[t].(phase := Locked(s.tasks[t].phase.m)));
    } else {
      StepIsOutsideStep(s, step);
      ContinuingIsTruthful(s.tasks, s.history, t, s'.tasks[t]);
    }
  }

  lemma {:induction false} RunIsTruthful(s: State, steps: seq<Step>)
    requires Truthful(s.tasks, s.history) && Legal(s, steps)
    ensures Truthful(Run(s, steps).tasks, Run(s, steps).history)
    decreases |steps|
  {
    if steps != [] {
      StepIsTruthful(s, steps[0]);
      RunIsTruthful(Do(s, steps[0]), steps[1..]);
    }
  }

  /* The order of the lock */

  /** The tasks of `app` in the order in which the schedule lets them take the mutex. */
  ghost function LockingOrder(s: State, steps: seq<Step>, app: App): seq<TaskId>
    requires Legal(s, steps)
    decreases |steps|
  {
    if steps == [] then []
    else
      var rest := LockingOrder(Do(s, steps[0]), steps[1..], app);
      if steps[0].Acquire? && s.tasks[steps[0].t].app == app then [steps[0].t] + rest else rest
  }

  lemma StepAcquires(s: State, step: Step, app: App)
    requires Enabled(s, step)
    ensures Listed(Do(s, step).acquired, app)
            == Listed(s.acquired, app) + if step.Acquire? && s.tasks[step.t].app == app then [step.t] else []
  {
    if IsFileStep(step) {
      StepIsFileStep(s, step);
    } else if !step.Acquire? {
      StepIsOutsideStep(s, step);
    }
  }

  lemma {:induction false} AcquiredIsLockingOrder(s: State, steps: seq<Step>, app: App)
    requires Legal(s, steps)
    ensures Listed(Run(s, steps).acquired, app) == Listed(s.acquired, app) + LockingOrder(s, steps, app)
    decreases |steps|
  {
    if steps != [] {
      StepAcquires(s, steps[0], app);
      AcquiredIsLockingOrder(Do(s, steps[0]), steps[1..], app);
    }
  }

  /** Every interleaving ends in the documents obtained by running requests one after another. These are exactly the
      requests of the tasks that report an outcome, each once, with that outcome; and once nobody is at work their order
      is that in which the schedule gave them the mutex. */
  lemma Serializable(s: State, steps: seq<Step>, app: App)
    requires Initial(s) && Legal(s, steps)
    ensures var r := Run(s, steps);
            var h := Listed(r.history, app);
            && Faithful(s.files, app, h)
            && (forall name ::
                  Seen(At(r.files, Path(app, name))) == Replay(Seen(At(s.files, Path(app, name))), h, name))
            && EntriesTrue(r.tasks, app, h) && NoTaskTwice(h)
            && (forall t | t in r.tasks && r.tasks[t].app == app && Reported(r.tasks[t].phase).Some? :: HasEntry(h, t))
            && (Idle(r.tasks, app) ==> TaskIds(h) == LockingOrder(s, steps, app))
  {
    RunKeepsStore(s.files, s, steps);
    RunIsTruthful(s, steps);
    AcquiredIsLockingOrder(s, steps, app);
    var r := Run(s, steps);
    var h := Listed(r.history, app);
    assert EntriesTrue(r.tasks, app, h) && NoTaskTwice(h);
    forall name ensures Seen(At(r.files, Path(app, name))) == Replay(Seen(At(s.files, Path(app, name))), h, name) {
      assert Path(app, name).app == app;
    }
  }

  /* No update is lost */

  ghost function ListedKeys(doc: Option<Doc>): set<Version> {
    if doc.Some? && doc.value.CatalogDoc? then Keys(doc.value.catalog.versions) else {}
  }

  ghost predicate Publishes(e: Entry, k: Version) {
    e.req.UpdateCatalog? && e.outcome.Committed? && Key(e.req.info.version) == k
  }

  /** Nothing after position `j` replaced a catalogue it could not read. */
  ghost predicate NoBlindAfter(h: seq<Entry>, j: int) {
    forall m | j < m < |h| && 0 <= m :: !(h[m].req.UpdateCatalog? && h[m].outcome == Committed(true))
  }

  ghost predicate Published(h: seq<Entry>, k: Version) {
    exists j | 0 <= j < |h| :: Publishes(h[j], k) && NoBlindAfter(h, j)
  }

  lemma PublishedStep(h: seq<Entry>, e: Entry, k: Version)
    ensures Published(h + [e], k)
            <==> Publishes(e, k) || (Published(h, k) && !(e.req.UpdateCatalog? && e.outcome == Committed(true)))
    ensures NoBlindAfter(h + [e], -1)
            <==> NoBlindAfter(h, -1) && !(e.req.UpdateCatalog? && e.outcome == Committed(true))
  {
    var g := h + [e];
    assert forall m | 0 <= m < |h| :: g[m] == h[m];
    assert g[|h|] == e && NoBlindAfter(g, |h|);
    if Published(h, k) && !(e.req.UpdateCatalog? && e.outcome == Committed(true)) {
      var j :| 0 <= j < |h| && Publishes(h[j], k) && NoBlindAfter(h, j);
      assert Publishes(g[j], k) && NoBlindAfter(g, j);
    }
    if Published(g, k) && !Publishes(e, k) {
      var j :| 0 <= j < |g| && Publishes(g[j], k) && NoBlindAfter(g, j);
      assert Publishes(h[j], k) && NoBlindAfter(h, j);
    }
  }

  lemma ApplyKeys(req: Request, seen: Option<Doc>)
    requires Target(req) == CatalogJson && Apply(req, seen).Some?
    ensures ListedKeys(Apply(req, seen))
            == ListedKeys(seen) + if req.UpdateCatalog? then {Key(req.info.version)} else {}
  {
    if req.UpdateCatalog? {
      var f := if seen.Some? && seen.value.CatalogDoc? then Stored(seen.value.catalog) else Unreadable;
      PlaceKeys(Readable(f, req.info.version).versions, req.info);
    }
  }

  /** A version is listed after a history exactly when a committed update published it, or the first catalogue
      held it, and no later update started from a catalogue it could not read. */
  lemma {:induction false} ReplayLists(base: map<Path, Content>, app: App, h: seq<Entry>, k: Version)
    requires Faithful(base, app, h)
    ensures var start := Seen(At(base, Path(app, CatalogJson)));
            k in ListedKeys(Replay(start, h, CatalogJson))
            <==> Published(h, k) || (k in ListedKeys(start) && NoBlindAfter(h, -1))
    decreases |h|
  {
    if h != [] {
      var start := Seen(At(base, Path(app, CatalogJson)));
      var front, e := h[..|h| - 1], h[|h| - 1];
      assert h == front + [e];
      ReplayLists(base, app, front, k);
      PublishedStep(front, e, k);
      EntryKeys(start, front, e);
    }
  }

  /** What one more entry does to the listed versions. */
  lemma EntryKeys(start: Option<Doc>, h: seq<Entry>, e: Entry)
    requires Target(e.req) == CatalogJson && e.outcome.Committed? ==>
               Apply(e.req, if e.outcome.blind then None else Replay(start, h, CatalogJson)).Some?
    ensures ListedKeys(Replay(start, h + [e], CatalogJson))
            == if !e.req.UpdateCatalog? || !e.outcome.Committed? then ListedKeys(Replay(start, h, CatalogJson))
               else if e.outcome.blind then {Key(e.req.info.version)}
               else ListedKeys(Replay(start, h, CatalogJson)) + {Key(e.req.info.version)}
  {
    AppendEntry(start, h, e, CatalogJson);
    if Target(e.req) == CatalogJson && e.outcome.Committed? {
      ApplyKeys(e.req, if e.outcome.blind then None else Replay(start, h, CatalogJson));
    }
  }

  /** Reads of existing files succeed. */
  ghost predicate ReadsSucceed(steps: seq<Step>) {
    forall i | 0 <= i < |steps| :: !(steps[i].Load? && !steps[i].ok)
  }

  predicate Sighted(p: Phase) {
    p.Loaded? || p.Written? ==> !p.blind
  }

  ghost predicate SightedTasks(tasks: Tasks) {
    forall t | t in tasks :: Sighted(tasks[t].phase)
  }

  /** Nothing was committed from a document that could not be read. */
  ghost predicate NoBlind(h: seq<Entry>) {
    forall i | 0 <= i < |h| :: h[i].outcome != Committed(true)
  }

  ghost predicate SightedHistory(history: map<App, seq<Entry>>) {
    forall app: App :: NoBlind(Listed(history, app))
  }

  lemma SightedEntry(history: map<App, seq<Entry>>, app: App, e: Entry)
    requires SightedHistory(history) && e.outcome != Committed(true)
    ensures SightedHistory(history[app := Listed(history, app) + [e]])
  {
    var history' := history[app := Listed(history, app) + [e]];
    forall a: App ensures NoBlind(Listed(history', a)) {
      assert NoBlind(Listed(history, a));
    }
  }

  lemma SightedMove(tasks: Tasks, t: TaskId, task: Task)
    requires SightedTasks(tasks) && Sighted(task.phase)
    ensures SightedTasks(tasks[t := task])
  {
  }

  lemma DecideSighted(s: State, t: TaskId, outcome: Outcome)
    requires SightedTasks(s.tasks) && SightedHistory(s.history)
    requires t in s.tasks && InCritical(s.tasks[t].phase) && outcome != Committed(true)
    ensures SightedTasks(Decide(s, t, outcome).tasks) && SightedHistory(Decide(s, t, outcome).history)
  {
    SightedEntry(s.history, s.tasks[t].app, Entry(t, s.tasks[t].req, outcome));
    SightedMove(s.tasks, t, s.tasks[t].(phase := Decided(s.tasks[t].phase.m, outcome)));
  }

  lemma OpenSighted(s: State, t: TaskId, ok: bool)
    requires SightedTasks(s.tasks) && SightedHistory(s.history) && t in s.tasks && s.tasks[t].phase.Locked?
    ensures SightedTasks(DoOpen(s, t, ok).tasks) && SightedHistory(DoOpen(s, t, ok).history)
  {
    DecideSighted(s, t, IoFailed);
    DecideSighted(s, t, Refused);
    SightedMove(s.tasks, t, s.tasks[t].(phase := Opened(s.tasks[t].phase.m)));
  }

  lemma AfterReadSighted(s: State, t: TaskId, applied: Option<Doc>)
    requires SightedTasks(s.tasks) && SightedHistory(s.history) && t in s.tasks && s.tasks[t].phase.Opened?
    ensures SightedTasks(AfterRead(s, t, true, applied).tasks) && SightedHistory(AfterRead(s, t, true, applied).history)
  {
    if applied.None? {
      DecideSighted(s, t, Refused);
    } else {
      SightedMove(s.tasks, t, s.tasks[t].(phase := Loaded(s.tasks[t].phase.m, applied.value, false)));
    }
  }

  lemma WriteTempSighted(s: State, t: TaskId, ok: bool)
    requires SightedTasks(s.tasks) && SightedHistory(s.history) && t in s.tasks && s.tasks[t].phase.Loaded?
    ensures SightedTasks(DoWriteTemp(s, t, ok).tasks) && SightedHistory(DoWriteTemp(s, t, ok).history)
  {
    var p := s.tasks[t].phase;
    DecideSighted(s, t, IoFailed);
    SightedMove(s.tasks, t, s.tasks[t].(phase := Written(p.m, p.next, p.blind)));
  }

  lemma RenameSighted(s: State, t: TaskId, ok: bool)
    requires SightedTasks(s.tasks) && SightedHistory(s.history) && t in s.tasks && s.tasks[t].phase.Written?
    ensures SightedTasks(DoRename(s, t, ok).tasks) && SightedHistory(DoRename(s, t, ok).history)
  {
    DecideSighted(s, t, if ok then Committed(s.tasks[t].phase.blind) else IoFailed);
  }

  lemma StepSighted(s: State, step: Step)
    requires SightedTasks(s.tasks) && SightedHistory(s.history) && Enabled(s, step) && !(step.Load? && !step.ok)
    ensures SightedTasks(Do(s, step).tasks) && SightedHistory(Do(s, step).history)
  {
    if step.Open? {
      OpenSighted(s, step.t, step.ok);
    } else if step.Load? {
      AfterReadSighted(s, step.t, Apply(s.tasks[step.t].req, Seen(At(s.files, PathOf(s.tasks[step.t])))));
    } else if step.WriteTemp? {
      WriteTempSighted(s, step.t, step.ok);
    } else if step.Rename? {
      RenameSighted(s, step.t, step.ok);
    } else if step.Acquire? {
      SightedMove(s.tasks, step.t, s.tasks[step.t].(phase := Locked(s.tasks[step.t].phase.m)));
    } else {
      StepIsOutsideStep(s, step);
      SightedMove(s.tasks, step.t, Do(s, step).tasks[step.t]);
    }
  }

  lemma {:induction false} RunSighted(s: State, steps: seq<Step>)
    requires SightedTasks(s.tasks) && SightedHistory(s.history) && Legal(s, steps) && ReadsSucceed(steps)
    ensures SightedHistory(Run(s, steps).history)
    decreases |steps|
  {
    if steps != [] {
      StepSighted(s, steps[0]);
      RunSighted(Do(s, steps[0]), steps[1..]);
    }
  }

  /** The task reports that it published version `k`. */
  ghost predicate ReportsPublished(task: Task, k: Version) {
    && task.req.UpdateCatalog? && Key(task.req.info.version) == k
    && Reported(task.phase).Some? && Reported(task.phase).value.Committed?
  }

  /** When reads succeed, an app's catalogue lists exactly what it listed at first and the version of every catalogue
      update that reports success. */
  lemma NoUpdateLost(s: State, steps: seq<Step>, app: App, k: Version)
    requires Initial(s) && Legal(s, steps) && ReadsSucceed(steps)
    ensures var r := Run(s, steps);
            k in ListedKeys(Seen(At(r.files, Path(app, CatalogJson))))
            <==> || k in ListedKeys(Seen(At(s.files, Path(app, CatalogJson))))
                 || exists t | t in r.tasks :: r.tasks[t].app == app && ReportsPublished(r.tasks[t], k)
  {
    RunSighted(s, steps);
    Serializable(s, steps, app);
    var r := Run(s, steps);
    var h := Listed(r.history, app);
    ReplayLists(s.files, app, h, k);
    assert NoBlind(h);
    assert NoBlindAfter(h, -1);
    if t :| t in r.tasks && r.tasks[t].app == app && ReportsPublished(r.tasks[t], k) {
      var j :| 0 <= j < |h| && h[j].task == t;
      assert EntryTrue(r.tasks, app, h[j]);
      assert Publishes(h[j], k) && NoBlindAfter(h, j);
    }
    if Published(h, k) {
      var j :| 0 <= j < |h| && Publishes(h[j], k) && NoBlindAfter(h, j);
      assert EntryTrue(r.tasks, app, h[j]);
      assert ReportsPublished(r.tasks[h[j].task], k);
    }
  }

  /* What each request does, and to which file */

  /** Publishing works on the catalogue it sees, or on an empty one; setting the latest version needs a catalogue that
      lists the text and changes nothing else. */
  lemma CatalogRequestsAre(info: Info, text: string, seen: Option<Doc>)
    ensures var known := seen.Some? && seen.value.CatalogDoc?;
            Apply(UpdateCatalog(info), seen)
            == Some(CatalogDoc(Publish(if known then seen.value.catalog else Catalog([], info.version), info)))
    ensures var r := Apply(SetLatestVersion(text), seen);
            && (r.Some? <==> && seen.Some? && seen.value.CatalogDoc? && Parse(text).Some?
                             && exists i | 0 <= i < |seen.value.catalog.versions| ::
                                  Show(seen.value.catalog.versions[i].version) == text)
            && (r.Some? ==> r.value == CatalogDoc(Catalog(seen.value.catalog.versions, Parse(text).value)))
  {
  }

  /** Where a file is missing, publications and uploads create it and go on, the other two requests are refused;
      catalogue requests work on the app's catalogue, the others on the manifest of their version. */
  lemma MissingFileIs(s: State, t: TaskId)
    requires t in s.tasks && s.tasks[t].phase.Locked?
    requires var task := s.tasks[t];
             var name := match task.req
                         case UpdateCatalog(_) => CatalogJson
                         case SetLatestVersion(_) => CatalogJson
                         case UpdateManifest(version, _, _, _) => ManifestJson(version)
                         case AddDiff(version, _, _) => ManifestJson(version);
             At(s.files, Path(task.app, name)).Missing?
    ensures var r, task := DoOpen(s, t, true), s.tasks[t];
            if task.req.UpdateCatalog? || task.req.UpdateManifest? then
              r.tasks[t].phase == Opened(task.phase.m) && r.history == s.history
            else Reported(r.tasks[t].phase) == Some(Refused) && r.files == s.files
  {
  }

  /** What a caller is told when opening fails: an I/O failure. */
  lemma OpenReports(s: State, t: TaskId)
    requires t in s.tasks && s.tasks[t].phase.Locked?
    ensures Reported(DoOpen(s, t, false).tasks[t].phase) == Some(IoFailed)
  {
  }

  /** A publication or upload whose read fails goes on from its default, the other requests report an I/O failure; after
      a good read a request is refused exactly when it does not fit the document. */
  lemma LoadReports(s: State, t: TaskId, ok: bool)
    requires t in s.tasks && s.tasks[t].phase.Opened?
    ensures var task, p := s.tasks[t], DoLoad(s, t, ok).tasks[t].phase;
            var applied := Apply(task.req, if ok then Seen(At(s.files, PathOf(task))) else None);
            if !ok && (task.req.SetLatestVersion? || task.req.AddDiff?) then Reported(p) == Some(IoFailed)
            else if applied.None? then Reported(p) == Some(if ok then Refused else IoFailed)
            else p == Loaded(task.phase.m, applied.value, !ok)
  {
    var task := s.tasks[t];
    var applied := Apply(task.req, if ok then Seen(At(s.files, PathOf(task))) else None);
    AfterReadReports(s, t, ok, applied);
  }

  lemma AfterReadReports(s: State, t: TaskId, ok: bool, applied: Option<Doc>)
    requires t in s.tasks && s.tasks[t].phase.Opened?
    ensures var p := AfterRead(s, t, ok, applied).tasks[t].phase;
            if applied.None? then Reported(p) == Some(if ok then Refused else IoFailed)
            else p == Loaded(s.tasks[t].phase.m, applied.value, !ok)
  {
  }

  /** A write or rename that fails is an I/O failure, and success is reported exactly when the rename is done. */
  lemma WriteReports(s: State, t: TaskId, ok: bool)
    requires t in s.tasks && s.tasks[t].phase.Loaded?
    ensures Reported(DoWriteTemp(s, t, ok).tasks[t].phase) == if ok then None else Some(IoFailed)
  {
  }

  lemma RenameReports(s: State, t: TaskId, ok: bool)
    requires t in s.tasks && s.tasks[t].phase.Written?
    ensures Reported(DoRename(s, t, ok).tasks[t].phase)
            == Some(if ok then Committed(s.tasks[t].phase.blind) else IoFailed)
  {
  }

  /** A sweep begins exactly before a new app is added to a table of 4096 or more. */
  lemma SweepBeginsWhen(s: State, t: TaskId)
    requires t in s.tasks && s.tasks[t].phase.Start? && s.tableLock == Some(t)
    ensures Enabled(s, BeginSweep(t)) <==> |s.table| >= 4096 && s.tasks[t].app !in s.table
    ensures Enabled(s, Lookup(t)) <==> !Enabled(s, BeginSweep(t))
  {
  }

  /** A sweep's visit drops the mutex of the visited app exactly if no task holds it, and no other. */
  lemma VisitIs(s: State, t: TaskId, a: App)
    requires Enabled(s, Visit(t, a))
    ensures var r := Do(s, Visit(t, a));
            && (forall b :: b in r.table
                            <==> b in s.table && (b == a ==> exists u | u in s.tasks ::
                                                     HasHandle(s.tasks[u].phase) && s.tasks[u].phase.m == s.table[a]))
            && forall b | b in r.table :: r.table[b] == s.table[b]
  {
  }

  /* Documents stay well-formed */

  ghost predicate GoodDoc(doc: Doc) {
    match doc
    case CatalogDoc(c) => Good(c)
    case ManifestDoc(m) => forall p | p in m.platforms :: OnePerBase(m.platforms[p].diffs)
  }

  ghost predicate GoodIfAny(doc: Option<Doc>) {
    doc.Some? ==> GoodDoc(doc.value)
  }

  ghost predicate ValidRequest(req: Request) {
    req.UpdateCatalog? ==> IsValid(req.info.version)
  }

  lemma ApplyKeepsGood(req: Request, seen: Option<Doc>)
    requires GoodIfAny(seen) && ValidRequest(req)
    ensures GoodIfAny(Apply(req, seen))
  {
    match req
    case UpdateCatalog(info) =>
      PublishKeepsGood(if seen.Some? && seen.value.CatalogDoc? then Stored(seen.value.catalog) else Unreadable, info);
    case SetLatestVersion(text) =>
      if seen.Some? && seen.value.CatalogDoc? {
        SetLatestKeepsGood(Stored(seen.value.catalog), text);
      }
    case UpdateManifest(_, _, _, _) =>
    case AddDiff(_, platform, diff) =>
      if seen.Some? && seen.value.ManifestDoc? && platform in seen.value.manifest.platforms {
        AddDiffReplaces(seen.value.manifest.platforms[platform].diffs, diff);
      }
  }

  lemma {:induction false} ReplayKeepsGood(start: Option<Doc>, h: seq<Entry>, name: FileName)
    requires GoodIfAny(start) && forall i | 0 <= i < |h| :: ValidRequest(h[i].req)
    ensures GoodIfAny(Replay(start, h, name))
    decreases |h|
  {
    if h != [] {
      var front, e := h[..|h| - 1], h[|h| - 1];
      ReplayKeepsGood(start, front, name);
      ApplyKeepsGood(e.req, if e.outcome.Committed? && e.outcome.blind then None else Replay(start, front, name));
    }
  }

  ghost predicate AskValid(tasks: Tasks) {
    forall t | t in tasks :: ValidRequest(tasks[t].req)
  }

  lemma StepAsksValid(s: State, step: Step)
    requires AskValid(s.tasks) && Enabled(s, step) && (step.Arrive? ==> ValidRequest(step.req))
    ensures AskValid(Do(s, step).tasks)
  {
    if IsFileStep(step) {
      StepIsFileStep(s, step);
    } else if !step.Acquire? && !step.Arrive? {
      StepIsOutsideStep(s, step);
    }
  }

  lemma {:induction false} RunAsksValid(s: State, steps: seq<Step>)
    requires AskValid(s.tasks) && Legal(s, steps)
    requires forall i | 0 <= i < |steps| && steps[i].Arrive? :: ValidRequest(steps[i].req)
    ensures AskValid(Run(s, steps).tasks)
    decreases |steps|
  {
    if steps != [] {
      StepAsksValid(s, steps[0]);
      RunAsksValid(Do(s, steps[0]), steps[1..]);
    }
  }

  /** Every interleaving of valid requests, from well-formed documents, leaves every catalogue newest first with a
      listed latest version, and every manifest with at most one diff per base version, whatever reads and writes
      fail. */
  lemma DocumentsStayGood(s: State, steps: seq<Step>, path: Path)
    requires Initial(s) && Legal(s, steps) && GoodIfAny(Seen(At(s.files, path)))
    requires forall i | 0 <= i < |steps| && steps[i].Arrive? :: ValidRequest(steps[i].req)
    ensures GoodIfAny(Seen(At(Run(s, steps).files, path)))
  {
    Serializable(s, steps, path.app);
    RunAsksValid(s, steps);
    var r := Run(s, steps);
    var h := Listed(r.history, path.app);
    forall i | 0 <= i < |h| ensures ValidRequest(h[i].req) {
      assert EntryTrue(r.tasks, path.app, h[i]);
    }
    assert path == Path(path.app, path.name);
    ReplayKeepsGood(Seen(At(s.files, path)), h, path.name);
  }

  /* A run that does lose an update */

  ghost predicate Leads(s: State, steps: seq<Step>, r: State) {
    Legal(s, steps) && Run(s, steps) == r
  }

  lemma LeadsCons(s: State, step: Step, steps: seq<Step>, r: State)
    requires Enabled(s, step) && Leads(Do(s, step), steps, r)
    ensures Leads(s, [step] + steps, r)
  {
    assert ([step] + steps)[1..] == steps;
  }

  lemma LeadsUncons(s: State, steps: seq<Step>, r: State)
    requires Leads(s, steps, r) && steps != []
    ensures Enabled(s, steps[0]) && Leads(Do(s, steps[0]), steps[1..], r)
  {
  }

  lemma {:induction false} LeadsConcat(s: State, a: seq<Step>, m: State, b: seq<Step>, r: State)
    requires Leads(s, a, m) && Leads(m, b, r)
    ensures Leads(s, a + b, r)
    decreases |a|
  {
    if a == [] {
      assert a + b == b;
    } else {
      LeadsUncons(s, a, m);
      LeadsConcat(Do(s, a[0]), a[1..], m, b, r);
      LeadsCons(s, a[0], a[1..] + b, r);
      assert a + b == [a[0]] + (a[1..] + b);
    }
  }

  /** One more step; the caller need not know the whole schedule. */
  lemma OneMore(s: State, steps: seq<Step>, m: State, step: Step) returns (longer: seq<Step>)
    requires Leads(s, steps, m) && Enabled(m, step)
    ensures Leads(s, longer, Do(m, step))
  {
    var r := Do(m, step);
    assert Leads(r, [], r);
    LeadsCons(m, step, [], r);
    longer := steps + ([step] + []);
    LeadsConcat(s, steps, m, [step] + [], r);
  }

  /** Nobody holds a lock, and a lookup for `app` needs no sweep. */
  ghost predicate Quiet(s: State, app: App) {
    s.tableLock == None && s.owner == map[] && (app in s.table || |s.table| < MAX_CATALOG_MUTEXES)
  }

  /** Task `t` is in phase `p`, the other tasks are as in `tasks`, and only `t` may hold locks. */
  ghost predicate AloneIn(s: State, tasks: Tasks, t: TaskId, task: Task, owner: map<MutexId, TaskId>,
                          tableLock: Option<TaskId>) {
    s.tasks == tasks[t := task] && s.owner == owner && s.tableLock == tableLock
  }

  lemma ArriveAlone(s: State, t: TaskId, app: App, req: Request) returns (steps: seq<Step>, r: State)
    requires Quiet(s, app) && t !in s.tasks
    ensures Leads(s, steps, r) && AloneIn(r, s.tasks, t, Task(app, req, Start), map[], Some(t))
    ensures r.files == s.files && r.table == s.table
  {
    var s1 := Do(s, Arrive(t, app, req));
    assert Leads(s, [], s);
    steps := OneMore(s, [], s, Arrive(t, app, req));
    steps := OneMore(s, steps, s1, LockTable(t));
    r := Do(s1, LockTable(t));
  }

  lemma LookupAlone(s: State, tasks: Tasks, t: TaskId, app: App, req: Request) returns (r: State, m: MutexId)
    requires AloneIn(s, tasks, t, Task(app, req, Start), map[], Some(t)) && !NeedsSweep(s, app)
    ensures Enabled(s, Lookup(t)) && r == Do(s, Lookup(t))
    ensures AloneIn(r, tasks, t, Task(app, req, Waiting(m)), map[], None)
    ensures r.files == s.files && app in r.table
  {
    if app in s.table {
      m := s.table[app];
      r := Move(s, t, Waiting(m)).(tableLock := None);
    } else {
      m := s.nextMutex;
      r := Move(s, t, Waiting(m)).(table := s.table[app := m], nextMutex := m + 1, tableLock := None);
    }
    assert DoLookup(s, t) == r;
  }

  lemma AcquireAlone(s: State, tasks: Tasks, t: TaskId, app: App, req: Request, m: MutexId) returns (r: State)
    requires AloneIn(s, tasks, t, Task(app, req, Waiting(m)), map[], None)
    ensures Enabled(s, Acquire(t)) && r == Do(s, Acquire(t))
    ensures AloneIn(r, tasks, t, Task(app, req, Locked(m)), map[m := t], None)
    ensures r.files == s.files && r.table == s.table
  {
    r := Do(s, Acquire(t));
  }

  lemma OpenAlone(s: State, tasks: Tasks, t: TaskId, app: App, info: Info, m: MutexId) returns (r: State)
    requires AloneIn(s, tasks, t, Task(app, UpdateCatalog(info), Locked(m)), map[m := t], None)
    ensures Enabled(s, Open(t, true)) && r == Do(s, Open(t, true))
    ensures AloneIn(r, tasks, t, Task(app, UpdateCatalog(info), Opened(m)), map[m := t], None)
    ensures Seen(At(r.files, Path(app, CatalogJson))) == Seen(At(s.files, Path(app, CatalogJson))) && r.table == s.table
  {
    var path := Path(app, CatalogJson);
    r := Move(s, t, Opened(m)).(files := if At(s.files, path).Missing? then s.files[path := Garbled] else s.files);
    assert DoOpen(s, t, true) == r;
  }

  /** The document a catalogue update starts from. */
  function Starting(files: map<Path, Content>, app: App, readOk: bool): Option<Doc> {
    if readOk then Seen(At(files, Path(app, CatalogJson))) else None
  }

  lemma LoadAlone(s: State, tasks: Tasks, t: TaskId, app: App, info: Info, m: MutexId, readOk: bool)
    returns (r: State, next: Doc)
    requires AloneIn(s, tasks, t, Task(app, UpdateCatalog(info), Opened(m)), map[m := t], None)
    ensures Enabled(s, Load(t, readOk)) && r == Do(s, Load(t, readOk))
    ensures Apply(UpdateCatalog(info), Starting(s.files, app, readOk)) == Some(next)
    ensures AloneIn(r, tasks, t, Task(app, UpdateCatalog(info), Loaded(m, next, !readOk)), map[m := t], None)
    ensures r.files == s.files && r.table == s.table
  {
    var applied := Apply(UpdateCatalog(info), Starting(s.files, app, readOk));
    next := applied.value;
    r := AfterRead(s, t, readOk, applied);
    assert DoLoad(s, t, readOk) == r;
  }

  lemma WriteAlone(s: State, tasks: Tasks, t: TaskId, app: App, info: Info, m: MutexId, next: Doc, blind: bool)
    returns (r: State)
    requires AloneIn(s, tasks, t, Task(app, UpdateCatalog(info), Loaded(m, next, blind)), map[m := t], None)
    ensures Enabled(s, WriteTemp(t, true)) && r == Do(s, WriteTemp(t, true))
    ensures AloneIn(r, tasks, t, Task(app, UpdateCatalog(info), Written(m, next, blind)), map[m := t], None)
    ensures At(r.temps, Path(app, CatalogJson)) == Holds(next) && r.table == s.table
  {
    r := Do(s, WriteTemp(t, true));
  }

  lemma RenameAlone(s: State, tasks: Tasks, t: TaskId, app: App, info: Info, m: MutexId, next: Doc, blind: bool)
    returns (r: State)
    requires AloneIn(s, tasks, t, Task(app, UpdateCatalog(info), Written(m, next, blind)), map[m := t], None)
    requires At(s.temps, Path(app, CatalogJson)) == Holds(next)
    ensures Enabled(s, Rename(t, true)) && r == Do(s, Rename(t, true))
    ensures AloneIn(r, tasks, t, Task(app, UpdateCatalog(info), Decided(m, Committed(blind))), map[m := t], None)
    ensures Seen(At(r.files, Path(app, CatalogJson))) == Some(next) && r.table == s.table
  {
    r := Do(s, Rename(t, true));
  }

  lemma UnlockAlone(s: State, tasks: Tasks, t: TaskId, app: App, req: Request, m: MutexId, outcome: Outcome)
    returns (r: State)
    requires AloneIn(s, tasks, t, Task(app, req, Decided(m, outcome)), map[m := t], None)
    ensures Enabled(s, Unlock(t)) && r == Do(s, Unlock(t))
    ensures AloneIn(r, tasks, t, Task(app, req, Unlocked(m, outcome)), map[], None)
    ensures r.files == s.files && r.table == s.table
  {
    r := Do(s, Unlock(t));
  }

  /** One catalogue update taken from its arrival to the mutex. */
  lemma EnterAlone(s: State, t: TaskId, app: App, req: Request) returns (steps: seq<Step>, r: State, m: MutexId)
    requires Quiet(s, app) && t !in s.tasks
    ensures Leads(s, steps, r) && AloneIn(r, s.tasks, t, Task(app, req, Locked(m)), map[m := t], None)
    ensures r.files == s.files && app in r.table
  {
    var s2, s3;
    steps, s2 := ArriveAlone(s, t, app, req);
    s3, m := LookupAlone(s2, s.tasks, t, app, req);
    steps := OneMore(s, steps, s2, Lookup(t));
    r := AcquireAlone(s3, s.tasks, t, app, req, m);
    steps := OneMore(s, steps, s3, Acquire(t));
  }

  /** One catalogue update from its arrival to its end, with nobody else about. */
  lemma UpdateAlone(s: State, t: TaskId, app: App, info: Info, readOk: bool)
    returns (steps: seq<Step>, r: State, m: MutexId)
    requires Quiet(s, app) && t !in s.tasks
    ensures Leads(s, steps, r) && Quiet(r, app)
    ensures r.tasks == s.tasks[t := Task(app, UpdateCatalog(info), Unlocked(m, Committed(!readOk)))]
    ensures Seen(At(r.files, Path(app, CatalogJson))) == Apply(UpdateCatalog(info), Starting(s.files, app, readOk))
  {
    var tasks, req := s.tasks, UpdateCatalog(info);
    var s1, next;
    steps, s1, m := EnterAlone(s, t, app, req);
    var s2 := OpenAlone(s1, tasks, t, app, info, m);
    steps := OneMore(s, steps, s1, Open(t, true));
    var s3;
    s3, next := LoadAlone(s2, tasks, t, app, info, m, readOk);
    steps := OneMore(s, steps, s2, Load(t, readOk));
    var s4 := WriteAlone(s3, tasks, t, app, info, m, next, !readOk);
    steps := OneMore(s, steps, s3, WriteTemp(t, true));
    var s5 := RenameAlone(s4, tasks, t, app, info, m, next, !readOk);
    steps := OneMore(s, steps, s4, Rename(t, true));
    r := UnlockAlone(s5, tasks, t, app, req, m, Committed(!readOk));
    steps := OneMore(s, steps, s5, Unlock(t));
  }

  /** An update is lost: from an empty store there is a run in which one task publishes a version and then a second
      task, whose read fails, publishes another. Both report success, and only the second version is listed. */
  lemma BlindCommitLosesUpdate(s: State, app: App, one: Info, two: Info)
    requires Initial(s) && s.files == map[] && Key(one.version) != Key(two.version)
    ensures exists steps :: Legal(s, steps) && LosesFirst(Run(s, steps), app, Key(one.version), Key(two.version))
  {
    var a, s1, _ := UpdateAlone(s, 0, app, one, true);
    var b, r, _ := UpdateAlone(s1, 1, app, two, false);
    LeadsConcat(s, a, s1, b, r);
    ApplyKeys(UpdateCatalog(two), None);
    assert Legal(s, a + b) && LosesFirst(Run(s, a + b), app, Key(one.version), Key(two.version));
  }

  ghost predicate LosesFirst(r: State, app: App, one: Version, two: Version) {
    && 0 in r.tasks && r.tasks[0].app == app && ReportsPublished(r.tasks[0], one)
    && 1 in r.tasks && r.tasks[1].app == app && ReportsPublished(r.tasks[1], two)
    && one != two && ListedKeys(Seen(At(r.files, Path(app, CatalogJson)))) == {two}
  }
}
