/** What the manifests hold after every interleaving of uploads and diff registrations
    (crates/deltaship-server/src/storage.rs). */
module Manifests {
  import opened Text
  import opened Versions
  import opened Catalogs
  import opened Server
  import opened ServerRuns

  /** The artifacts a document lists, by platform. */
  function Shown(doc: Option<Doc>): map<Platform, Artifact> {
    if doc.Some? && doc.value.ManifestDoc? then doc.value.manifest.platforms else map[]
  }

  /* One request */

  /** An upload lists exactly the given checksum and size without diffs for its platform, keeps every other platform's
      artifact and the manifest's version; without a manifest it starts one, if the version text parses. */
  lemma UploadIs(version: string, platform: Platform, checksum: string, size: nat, seen: Option<Doc>)
    ensures var r := Apply(UpdateManifest(version, platform, checksum, size), seen);
            var known := seen.Some? && seen.value.ManifestDoc?;
            && (r.None? <==> !known && Parse(version).None?)
            && (r.Some? ==>
                  && r.value.ManifestDoc? && Shown(r).Keys == Shown(seen).Keys + {platform}
                  && Shown(r)[platform] == Artifact(checksum, size, [])
                  && (forall p | p in Shown(seen) && p != platform :: Shown(r)[p] == Shown(seen)[p])
                  && Some(r.value.manifest.version)
                     == if known then Some(seen.value.manifest.version) else Parse(version))
  {
  }

  /** Registering a diff needs a manifest that lists the platform. It keeps the platforms, their checksums and sizes and
      the diffs of the others; of its own platform it replaces the diff from the same version. */
  lemma AddDiffIs(version: string, platform: Platform, diff: DiffInfo, seen: Option<Doc>)
    requires platform in Shown(seen) ==> OnePerBase(Shown(seen)[platform].diffs)
    ensures var r := Apply(AddDiff(version, platform, diff), seen);
            && (r.Some? <==> platform in Shown(seen))
            && (r.Some? ==>
                  && r.value.ManifestDoc? && Shown(r).Keys == Shown(seen).Keys
                  && r.value.manifest.version == seen.value.manifest.version
                  && (forall p | p in Shown(seen) && p != platform :: Shown(r)[p] == Shown(seen)[p])
                  && var a, a' := Shown(seen)[platform], Shown(r)[platform];
                     && a'.checksum == a.checksum && a'.size == a.size && OnePerBase(a'.diffs)
                     && forall d :: d in a'.diffs
                                    <==> d == diff || (d in a.diffs && !Same(d.fromVersion, diff.fromVersion)))
  {
    if platform in Shown(seen) {
      AddDiffReplaces(Shown(seen)[platform].diffs, diff);
    }
  }

  /* A history */

  ghost predicate Uploads(e: Entry, version: string, p: Platform) {
    e.req.UpdateManifest? && e.req.version == version && e.req.platform == p && e.outcome.Committed?
  }

  ghost predicate AddsDiff(e: Entry, version: string, p: Platform) {
    e.req.AddDiff? && e.req.version == version && e.req.platform == p && e.outcome.Committed?
  }

  ghost predicate SomeUpload(h: seq<Entry>, version: string, p: Platform) {
    exists i | 0 <= i < |h| :: Uploads(h[i], version, p)
  }

  ghost predicate LastUpload(h: seq<Entry>, version: string, p: Platform, i: int) {
    0 <= i < |h| && Uploads(h[i], version, p) && forall j | i < j < |h| :: !Uploads(h[j], version, p)
  }

  lemma UploadStep(h: seq<Entry>, e: Entry, version: string, p: Platform)
    ensures SomeUpload(h + [e], version, p) <==> SomeUpload(h, version, p) || Uploads(e, version, p)
    ensures forall i :: LastUpload(h + [e], version, p, i)
                        <==> if Uploads(e, version, p) then i == |h| else LastUpload(h, version, p, i)
  {
    var g := h + [e];
    assert forall i | 0 <= i < |h| :: g[i] == h[i];
    assert g[|h|] == e;
    if Uploads(e, version, p) {
      assert Uploads(g[|h|], version, p);
    }
    if i :| 0 <= i < |h| && Uploads(h[i], version, p) {
      assert Uploads(g[i], version, p);
    }
  }

  /** What one more entry does to the artifact of platform `p`. */
  lemma EntryArtifact(start: Option<Doc>, h: seq<Entry>, e: Entry, version: string, p: Platform)
    requires e.outcome != Committed(true)
    requires Target(e.req) == ManifestJson(version) && e.outcome.Committed? ==>
               Apply(e.req, Replay(start, h, ManifestJson(version))).Some?
    ensures var a := Shown(Replay(start, h, ManifestJson(version)));
            var a' := Shown(Replay(start, h + [e], ManifestJson(version)));
            if Uploads(e, version, p) then p in a' && a'[p] == Artifact(e.req.checksum, e.req.size, [])
            else if AddsDiff(e, version, p) then
              p in a && p in a' && a'[p] == a[p].(diffs := AddDiffTo(a[p].diffs, e.req.diff))
            else (p in a' <==> p in a) && (p in a ==> a'[p] == a[p])
  {
    AppendEntry(start, h, e, ManifestJson(version));
  }

  /** The listed platforms are those listed at first and those uploaded; each has the checksum and size of the last
      upload for it. */
  lemma {:induction false} ArtifactIs(base: map<Path, Content>, app: App, h: seq<Entry>, version: string, p: Platform)
    requires Faithful(base, app, h) && NoBlind(h)
    ensures var start := Seen(At(base, Path(app, ManifestJson(version))));
            var a := Shown(Replay(start, h, ManifestJson(version)));
            && (p in a <==> p in Shown(start) || SomeUpload(h, version, p))
            && (forall i | LastUpload(h, version, p, i) ::
                  p in a && a[p].checksum == h[i].req.checksum && a[p].size == h[i].req.size)
            && (p in Shown(start) && !SomeUpload(h, version, p) ==>
                  a[p].checksum == Shown(start)[p].checksum && a[p].size == Shown(start)[p].size)
    decreases |h|
  {
    if h != [] {
      var front, e := h[..|h| - 1], h[|h| - 1];
      assert h == front + [e];
      ArtifactIs(base, app, front, version, p);
      UploadStep(front, e, version, p);
      EntryArtifact(Seen(At(base, Path(app, ManifestJson(version)))), front, e, version, p);
      if i :| LastUpload(h, version, p, i) && i < |front| {
        assert h[i] == front[i];
      }
    }
  }

  /* Diffs of a history */

  /** After position `j` nothing replaced the diff from `from` or the whole artifact. */
  ghost predicate Untouched(h: seq<Entry>, version: string, p: Platform, from: Version, j: int) {
    forall k | j < k < |h| && 0 <= k ::
      !Uploads(h[k], version, p) && !(AddsDiff(h[k], version, p) && Same(from, h[k].req.diff.fromVersion))
  }

  /** The diff was registered and not replaced since. */
  ghost predicate Stands(h: seq<Entry>, version: string, p: Platform, d: DiffInfo) {
    exists j | 0 <= j < |h| ::
      AddsDiff(h[j], version, p) && h[j].req.diff == d && Untouched(h, version, p, d.fromVersion, j)
  }

  ghost predicate Touches(e: Entry, version: string, p: Platform, from: Version) {
    Uploads(e, version, p) || (AddsDiff(e, version, p) && Same(from, e.req.diff.fromVersion))
  }

  lemma UntouchedStep(h: seq<Entry>, e: Entry, version: string, p: Platform, from: Version, j: int)
    requires j < |h|
    ensures Untouched(h + [e], version, p, from, j)
            <==> Untouched(h, version, p, from, j) && !Touches(e, version, p, from)
  {
    var g := h + [e];
    assert forall i | 0 <= i < |h| :: g[i] == h[i];
    assert g[|h|] == e;
  }

  lemma StandsStep(h: seq<Entry>, e: Entry, version: string, p: Platform, d: DiffInfo)
    ensures Stands(h + [e], version, p, d)
            <==> || (AddsDiff(e, version, p) && e.req.diff == d)
                 || (Stands(h, version, p, d) && !Touches(e, version, p, d.fromVersion))
  {
    var g := h + [e];
    assert forall i | 0 <= i < |h| :: g[i] == h[i];
    assert g[|h|] == e && Untouched(g, version, p, d.fromVersion, |h|);
    if Stands(h, version, p, d) && !Touches(e, version, p, d.fromVersion) {
      var j :| 0 <= j < |h| && AddsDiff(h[j], version, p) && h[j].req.diff == d
               && Untouched(h, version, p, d.fromVersion, j);
      UntouchedStep(h, e, version, p, d.fromVersion, j);
      assert AddsDiff(g[j], version, p) && g[j].req.diff == d;
    }
    if Stands(g, version, p, d) && !(AddsDiff(e, version, p) && e.req.diff == d) {
      var j :| 0 <= j < |g| && AddsDiff(g[j], version, p) && g[j].req.diff == d
               && Untouched(g, version, p, d.fromVersion, j);
      UntouchedStep(h, e, version, p, d.fromVersion, j);
      assert AddsDiff(h[j], version, p) && h[j].req.diff == d;
    }
  }

  /** A diff listed at first, still. */
  ghost predicate Remains(start: Option<Doc>, h: seq<Entry>, version: string, p: Platform, d: DiffInfo) {
    p in Shown(start) && d in Shown(start)[p].diffs && Untouched(h, version, p, d.fromVersion, -1)
  }

  ghost predicate OnePerBaseAt(a: map<Platform, Artifact>, p: Platform) {
    p in a ==> OnePerBase(a[p].diffs)
  }

  /** The diffs of a platform are those registered, or there at first, that no later upload or registration replaced. */
  lemma {:induction false} DiffsAre(base: map<Path, Content>, app: App, h: seq<Entry>, version: string, p: Platform,
                                    d: DiffInfo)
    requires Faithful(base, app, h) && NoBlind(h)
    requires OnePerBaseAt(Shown(Seen(At(base, Path(app, ManifestJson(version))))), p)
    ensures var start := Seen(At(base, Path(app, ManifestJson(version))));
            var a := Shown(Replay(start, h, ManifestJson(version)));
            && OnePerBaseAt(a, p)
            && (p in a && d in a[p].diffs <==> Stands(h, version, p, d) || Remains(start, h, version, p, d))
    decreases |h|
  {
    if h != [] {
      var start := Seen(At(base, Path(app, ManifestJson(version))));
      var front, e := h[..|h| - 1], h[|h| - 1];
      assert h == front + [e];
      DiffsAre(base, app, front, version, p, d);
      StandsStep(front, e, version, p, d);
      UntouchedStep(front, e, version, p, d.fromVersion, -1);
      EntryArtifact(start, front, e, version, p);
      if AddsDiff(e, version, p) {
        AddDiffReplaces(Shown(Replay(start, front, ManifestJson(version)))[p].diffs, e.req.diff);
        CompareTotalOrder(d.fromVersion, e.req.diff.fromVersion, d.fromVersion);
      }
    }
  }

  /* Every interleaving */

  /** The task reports that it uploaded an artifact of this version for platform `p`. */
  ghost predicate ReportsUpload(task: Task, version: string, p: Platform) {
    && task.req.UpdateManifest? && task.req.version == version && task.req.platform == p
    && Reported(task.phase).Some? && Reported(task.phase).value.Committed?
  }

  /** In `order`, `u` is `t` or comes before it. */
  ghost predicate NotAfter(order: seq<TaskId>, u: TaskId, t: TaskId) {
    exists i, j | 0 <= i <= j < |order| :: order[i] == u && order[j] == t
  }

  /** `t` reports an upload, and every other task that does took the mutex before it. */
  ghost predicate LastToUpload(r: State, app: App, order: seq<TaskId>, version: string, p: Platform, t: TaskId) {
    && t in r.tasks && r.tasks[t].app == app && ReportsUpload(r.tasks[t], version, p)
    && forall u | u in r.tasks && r.tasks[u].app == app && ReportsUpload(r.tasks[u], version, p) ::
         NotAfter(order, u, t)
  }

  /** When reads succeed, a manifest lists exactly the platforms it listed at first and those of the uploads that report
      success; and once nobody is at work each has the artifact of the last such upload in the order of the mutex. */
  lemma NoUploadLost(s: State, steps: seq<Step>, app: App, version: string, p: Platform)
    requires Initial(s) && Legal(s, steps) && ReadsSucceed(steps)
    ensures var r := Run(s, steps);
            var first := Shown(Seen(At(s.files, Path(app, ManifestJson(version)))));
            var last := Shown(Seen(At(r.files, Path(app, ManifestJson(version)))));
            && (p in last <==> || p in first
                               || exists t | t in r.tasks ::
                                    r.tasks[t].app == app && ReportsUpload(r.tasks[t], version, p))
            && (Idle(r.tasks, app) ==>
                  forall t | LastToUpload(r, app, LockingOrder(s, steps, app), version, p, t) ::
                    && p in last && last[p].checksum == r.tasks[t].req.checksum
                    && last[p].size == r.tasks[t].req.size)
  {
    RunSighted(s, steps);
    Serializable(s, steps, app);
    var r := Run(s, steps);
    var h := Listed(r.history, app);
    assert NoBlind(h);
    ArtifactIs(s.files, app, h, version, p);
    UploadersAre(r, app, h, version, p);
    if Idle(r.tasks, app) {
      forall t | LastToUpload(r, app, LockingOrder(s, steps, app), version, p, t)
        ensures exists j :: LastUpload(h, version, p, j) && h[j].task == t && h[j].req == r.tasks[t].req
      {
        LastIsLast(r, app, h, version, p, t);
      }
    }
  }

  lemma UploadersAre(r: State, app: App, h: seq<Entry>, version: string, p: Platform)
    requires EntriesTrue(r.tasks, app, h)
    requires forall t | t in r.tasks && r.tasks[t].app == app && Reported(r.tasks[t].phase).Some? :: HasEntry(h, t)
    ensures SomeUpload(h, version, p)
            <==> exists t | t in r.tasks :: r.tasks[t].app == app && ReportsUpload(r.tasks[t], version, p)
  {
    if i :| 0 <= i < |h| && Uploads(h[i], version, p) {
      assert EntryTrue(r.tasks, app, h[i]);
      assert ReportsUpload(r.tasks[h[i].task], version, p);
    }
    if t :| t in r.tasks && r.tasks[t].app == app && ReportsUpload(r.tasks[t], version, p) {
      var i :| 0 <= i < |h| && h[i].task == t;
      assert EntryTrue(r.tasks, app, h[i]);
      assert Uploads(h[i], version, p);
    }
  }

  lemma LastIsLast(r: State, app: App, h: seq<Entry>, version: string, p: Platform, t: TaskId)
    requires EntriesTrue(r.tasks, app, h) && NoTaskTwice(h) && LastToUpload(r, app, TaskIds(h), version, p, t)
    requires HasEntry(h, t)
    ensures exists j :: LastUpload(h, version, p, j) && h[j].task == t && h[j].req == r.tasks[t].req
  {
    var j :| 0 <= j < |h| && h[j].task == t;
    assert EntryTrue(r.tasks, app, h[j]);
    forall k | j < k < |h| ensures !Uploads(h[k], version, p) {
      assert EntryTrue(r.tasks, app, h[k]);
    }
    assert LastUpload(h, version, p, j);
  }
}
