/** The catalogue of one application, as a sequential machine (crates/deltaship-server/src/storage.rs). */
module Catalogs {
  import opened Text
  import opened Versions

  datatype Platform = LinuxX86_64 | LinuxAarch64 | WindowsX86_64 | MacosX86_64 | MacosAarch64

  datatype Rollout = Rollout(percentage: nat, enabled: bool)

  datatype Info = Info(version: Version, platforms: seq<Platform>, notes: Option<string>, forced: bool,
                       rollout: Option<Rollout>)

  datatype Catalog = Catalog(versions: seq<Info>, latest: Version)

  /** What reading `catalog.json` can find: nothing, text that is not a catalogue, or a catalogue. */
  datatype File = Absent | Unreadable | Stored(catalog: Catalog)

  datatype Result = Ok | NotFound | BadJson

  /* Publishing */

  function MergePlatforms(have: seq<Platform>, extra: seq<Platform>): (r: seq<Platform>)
    decreases |extra|
  {
    if extra == [] then have
    else MergePlatforms(if extra[0] in have then have else have + [extra[0]], extra[1..])
  }

  function Merge(existing: Info, info: Info): Info {
    existing.(platforms := MergePlatforms(existing.platforms, info.platforms),
              notes := if info.notes.Some? then info.notes else existing.notes)
  }

  /** Index of the first entry equal in precedence to `v`, or the length. */
  function Find(vs: seq<Info>, v: Version): (i: nat)
    ensures i <= |vs|
    ensures i < |vs| ==> Same(vs[i].version, v)
    ensures forall j | 0 <= j < i :: !Same(vs[j].version, v)
  {
    if vs == [] || Same(vs[0].version, v) then 0 else 1 + Find(vs[1..], v)
  }

  /** Number of leading entries newer than `v`. */
  function Position(vs: seq<Info>, v: Version): (i: nat)
    ensures i <= |vs|
    ensures i < |vs| ==> !Newer(vs[i].version, v)
    ensures forall j | 0 <= j < i :: Newer(vs[j].version, v)
  {
    if vs == [] || !Newer(vs[0].version, v) then 0 else 1 + Position(vs[1..], v)
  }

  function Place(vs: seq<Info>, info: Info): (r: seq<Info>) {
    var i := Find(vs, info.version);
    if i < |vs| then vs[i := Merge(vs[i], info)]
    else
      Insert(vs, Position(vs, info.version), info)
  }

  function Insert(vs: seq<Info>, p: nat, info: Info): (r: seq<Info>)
    requires p <= |vs|
    ensures |r| == |vs| + 1 && r[p] == info
    ensures forall i | 0 <= i < p :: r[i] == vs[i]
    ensures forall i | p < i < |r| :: r[i] == vs[i - 1]
  {
    vs[..p] + [info] + vs[p..]
  }

  function Publish(c: Catalog, info: Info): Catalog {
    Catalog(Place(c.versions, info), if Newer(info.version, c.latest) then info.version else c.latest)
  }

  function Readable(f: File, first: Version): Catalog {
    if f.Stored? then f.catalog else Catalog([], first)
  }

  /* The stored order */

  ghost predicate NewestFirst(vs: seq<Info>) {
    forall i, j | 0 <= i < j < |vs| :: Newer(vs[i].version, vs[j].version)
  }

  ghost predicate AllValid(vs: seq<Info>) {
    forall i | 0 <= i < |vs| :: IsValid(vs[i].version)
  }

  /** `latest` names an entry, up to build metadata. */
  ghost predicate LatestListed(c: Catalog) {
    exists i | 0 <= i < |c.versions| :: Same(c.versions[i].version, c.latest)
  }

  ghost predicate Good(c: Catalog) {
    NewestFirst(c.versions) && AllValid(c.versions) && IsValid(c.latest) && LatestListed(c)
  }

  ghost predicate GoodFile(f: File) {
    f.Stored? ==> Good(f.catalog)
  }

  class CatalogFile {
    var file: File
    var versionDirs: set<string>
    var deleted: set<string>

    ghost predicate Valid()
      reads this
    {
      GoodFile(file)
    }

    constructor ()
      ensures file == Absent && versionDirs == {} && deleted == {}
      ensures Valid()
    {
      file, versionDirs, deleted := Absent, {}, {};
    }

    /** `update_catalog_atomic` with the locks already held. */
    method UpdateCatalog(info: Info)
      requires Valid() && IsValid(info.version)
      modifies this`file
      ensures Valid()
      ensures file == Stored(Publish(Readable(old(file), info.version), info))
    {
      var catalog := if file.Stored? then file.catalog else Catalog([], info.version);
      var versions := catalog.versions;
      var i := 0;
      while i < |versions| && !Same(versions[i].version, info.version)
        invariant i <= Find(versions, info.version)
      {
        i := i + 1;
      }
      if i < |versions| {
        var existing := versions[i];
        var platforms := MergeLoop(existing.platforms, info.platforms);
        versions := versions[i := existing.(platforms := platforms,
                                            notes := if info.notes.Some? then info.notes else existing.notes)];
      } else {
        var at := BinarySearch(versions, info.version);
        versions := Insert(versions, at, info);
      }
      var latest := catalog.latest;
      if Compare(info.version, latest) == Greater {
        latest := info.version;
      }
      PublishKeepsGood(file, info);
      file := Stored(Catalog(versions, latest));
    }

    /** `set_latest_version` with the locks already held. */
    method SetLatestVersion(text: string) returns (r: Result)
      requires Valid()
      modifies this`file
      ensures Valid()
      ensures (r, file) == SetLatest(old(file), text)
    {
      if file.Absent? {
        return NotFound;
      }
      if file.Unreadable? {
        return BadJson;
      }
      var catalog := file.catalog;
      var found := HasText(catalog.versions, text);
      if !found {
        return NotFound;
      }
      var parsed := Parse(text);
      if parsed.None? {
        return NotFound;
      }
      SetLatestKeepsGood(file, text);
      file := Stored(catalog.(latest := parsed.value));
      return Ok;
    }

    method EnsureVersionDir(text: string)
      requires Valid()
      modifies this`versionDirs
      ensures Valid() && versionDirs == old(versionDirs) + {text}
    {
      versionDirs := versionDirs + {text};
    }

    /** `delete_version`: marks the directory and moves `latest_version` off the deleted text. */
    method DeleteVersion(text: string) returns (r: Result)
      requires Valid()
      modifies this`file, this`deleted
      ensures Valid()
      ensures deleted == if text in versionDirs then old(deleted) + {text} else old(deleted)
      ensures file == if text in versionDirs then AfterDelete(old(file), text, deleted) else old(file)
      ensures r == if text !in versionDirs then NotFound else if old(file).Unreadable? then BadJson else Ok
    {
      if text !in versionDirs {
        return NotFound;
      }
      deleted := deleted + {text};
      if file.Absent? {
        return Ok;
      }
      if file.Unreadable? {
        return BadJson;
      }
      var catalog := file.catalog;
      AfterDeleteKeepsGood(file, text, deleted);
      if Show(catalog.latest) == text {
        var best := PickGreatest(catalog.versions, text, deleted);
        if best.Some? && Parse(best.value).Some? {
          catalog := catalog.(latest := Parse(best.value).value);
        }
      }
      file := Stored(catalog);
      return Ok;
    }
  }

  /** Whether some entry shows this text. */
  method HasText(vs: seq<Info>, text: string) returns (found: bool)
    ensures found <==> exists k | 0 <= k < |vs| :: Show(vs[k].version) == text
  {
    found := false;
    var i := 0;
    while i < |vs|
      invariant 0 <= i <= |vs|
      invariant found <==> exists k | 0 <= k < i :: Show(vs[k].version) == text
    {
      found := found || Show(vs[i].version) == text;
      i := i + 1;
    }
  }

  /** Adds the platforms that are not listed yet. */
  method MergeLoop(have: seq<Platform>, extra: seq<Platform>) returns (platforms: seq<Platform>)
    ensures platforms == MergePlatforms(have, extra)
  {
    platforms := have;
    var k := 0;
    while k < |extra|
      invariant 0 <= k <= |extra|
      invariant MergePlatforms(platforms, extra[k..]) == MergePlatforms(have, extra)
    {
      if extra[k] !in platforms {
        platforms := platforms + [extra[k]];
      }
      k := k + 1;
    }
  }

  method PickGreatest(vs: seq<Info>, text: string, deleted: set<string>) returns (best: Option<string>)
    ensures best == GreatestLive(vs, text, deleted) && IsGreatestLive(vs, text, deleted, best)
  {
    best := None;
    var i := 0;
    while i < |vs|
      invariant 0 <= i <= |vs|
      invariant best == GreatestLive(vs[..i], text, deleted)
    {
      assert vs[..i + 1][..i] == vs[..i];
      var candidate := Show(vs[i].version);
      if candidate != text && candidate !in deleted
         && (best.None? || CompareText(candidate, best.value) == Greater) {
        best := Some(candidate);
      }
      i := i + 1;
    }
    assert vs[..i] == vs;
    GreatestLiveIs(vs, text, deleted);
  }

  /** Where a version belongs in a newest-first list that does not hold it yet. */
  method BinarySearch(vs: seq<Info>, v: Version) returns (at: nat)
    requires NewestFirst(vs)
    requires forall i | 0 <= i < |vs| :: !Same(vs[i].version, v)
    ensures at == Position(vs, v)
  {
    var lo: nat, hi: nat := 0, |vs|;
    while lo < hi
      invariant lo <= hi <= |vs|
      invariant forall i | 0 <= i < lo :: Newer(vs[i].version, v)
      invariant forall i | hi <= i < |vs| :: !Newer(vs[i].version, v)
    {
      var mid := (lo + hi) / 2;
      SplitByOrder(vs, v, mid);
      if Compare(v, vs[mid].version) == Less {
        lo := mid + 1;
      } else {
        hi := mid;
      }
    }
    at := lo;
    PositionUnique(vs, v, at);
  }

  lemma PositionUnique(vs: seq<Info>, v: Version, at: nat)
    requires at <= |vs|
    requires forall i | 0 <= i < at :: Newer(vs[i].version, v)
    requires forall i | at <= i < |vs| :: !Newer(vs[i].version, v)
    ensures at == Position(vs, v)
  {
    var p := Position(vs, v);
    assert at < |vs| ==> !Newer(vs[at].version, v);
    assert p < |vs| ==> !Newer(vs[p].version, v);
  }

  lemma SplitByOrder(vs: seq<Info>, v: Version, mid: nat)
    requires NewestFirst(vs) && mid < |vs|
    ensures Compare(v, vs[mid].version) == Less ==> forall i | 0 <= i <= mid :: Newer(vs[i].version, v)
    ensures Compare(v, vs[mid].version) != Less ==> forall i | mid <= i < |vs| :: !Newer(vs[i].version, v)
  {
    var m := vs[mid].version;
    CompareTotalOrder(v, m, v);
    forall i | 0 <= i < |vs|
      ensures Compare(v, m) == Less && i <= mid ==> Newer(vs[i].version, v)
      ensures Compare(v, m) != Less && mid <= i ==> !Newer(vs[i].version, v)
    {
      var w := vs[i].version;
      CompareTotalOrder(v, m, w);
      CompareTotalOrder(w, v, m);
      CompareTotalOrder(w, m, v);
      CompareTotalOrder(m, w, v);
    }
  }

  /* Setting and deleting */

  function SetLatest(f: File, text: string): (r: (Result, File)) {
    match f
    case Absent => (NotFound, f)
    case Unreadable => (BadJson, f)
    case Stored(c) =>
      if (forall i | 0 <= i < |c.versions| :: Show(c.versions[i].version) != text) || Parse(text).None?
      then (NotFound, f)
      else (Ok, Stored(c.(latest := Parse(text).value)))
  }

  /** The greatest text, in plain string order, of an entry that is neither `text` nor marked deleted. */
  function GreatestLive(vs: seq<Info>, text: string, deleted: set<string>): (r: Option<string>)
    decreases |vs|
  {
    if vs == [] then None
    else
      var best := GreatestLive(vs[..|vs| - 1], text, deleted);
      var candidate := Show(vs[|vs| - 1].version);
      if candidate != text && candidate !in deleted && (best.None? || CompareText(candidate, best.value) == Greater)
      then Some(candidate) else best
  }

  function AfterDelete(f: File, text: string, deleted: set<string>): File {
    if !f.Stored? || Show(f.catalog.latest) != text then f
    else
      var best := GreatestLive(f.catalog.versions, text, deleted);
      if best.Some? && Parse(best.value).Some? then Stored(f.catalog.(latest := Parse(best.value).value)) else f
  }

  /* Publishing and setting, in plain terms */

  /** Merging keeps the listed platforms in front and in order. */
  lemma {:induction false} MergeKeepsFront(have: seq<Platform>, extra: seq<Platform>)
    ensures |have| <= |MergePlatforms(have, extra)| && MergePlatforms(have, extra)[..|have|] == have
    decreases |extra|
  {
    if extra != [] {
      var more := if extra[0] in have then have else have + [extra[0]];
      MergeKeepsFront(more, extra[1..]);
      assert MergePlatforms(more, extra[1..])[..|more|][..|have|] == more[..|have|];
    }
  }

  /** A version that is not listed is inserted as given, behind exactly the newer ones. Of a listed one the version
      text, the forced flag and the rollout stay, release notes are replaced if there are new ones, new platforms are
      added behind the old; and no other entry changes. The pointer moves exactly to a newer version. */
  lemma PublishIs(c: Catalog, info: Info)
    ensures var c', vs, v := Publish(c, info), c.versions, info.version;
            && c'.latest == (if Compare(v, c.latest) == Greater then v else c.latest)
            && ((forall i | 0 <= i < |vs| :: !Same(vs[i].version, v)) ==>
                  exists p | 0 <= p <= |vs| ::
                    && c'.versions == vs[..p] + [info] + vs[p..]
                    && (forall i | 0 <= i < p :: Compare(vs[i].version, v) == Greater)
                    && (p < |vs| ==> Compare(vs[p].version, v) != Greater))
            && forall i | && 0 <= i < |vs| && Same(vs[i].version, v)
                          && (forall j | 0 <= j < i :: !Same(vs[j].version, v)) ::
                 && |c'.versions| == |vs| && (forall j | 0 <= j < |vs| && j != i :: c'.versions[j] == vs[j])
                 && var e := c'.versions[i];
                    && e.version == vs[i].version && e.forced == vs[i].forced && e.rollout == vs[i].rollout
                    && e.notes == (if info.notes.Some? then info.notes else vs[i].notes)
                    && |vs[i].platforms| <= |e.platforms| && e.platforms[..|vs[i].platforms|] == vs[i].platforms
                    && forall p :: p in e.platforms <==> p in vs[i].platforms || p in info.platforms
  {
    var vs, v, at := c.versions, info.version, Find(c.versions, info.version);
    if at < |vs| {
      MergeIsUnion(vs[at].platforms, info.platforms);
      MergeKeepsFront(vs[at].platforms, info.platforms);
    } else {
      assert Publish(c, info).versions == vs[..Position(vs, v)] + [info] + vs[Position(vs, v)..];
    }
  }

  /** What setting the latest version answers, and that it changes nothing else. */
  lemma SetLatestIs(f: File, text: string)
    ensures var (r, f') := SetLatest(f, text);
            && (f.Absent? ==> r == NotFound) && (f.Unreadable? ==> r == BadJson)
            && (f.Stored? ==>
                  r == if Parse(text).Some? && exists i | 0 <= i < |f.catalog.versions| ::
                            Show(f.catalog.versions[i].version) == text
                       then Ok else NotFound)
            && (r != Ok ==> f' == f)
            && (r == Ok ==> f' == Stored(Catalog(f.catalog.versions, Parse(text).value)))
  {
  }

  /* Every operation keeps the order and the latest pointer */

  lemma InsertKeepsOrder(vs: seq<Info>, p: nat, info: Info)
    requires NewestFirst(vs) && p <= |vs|
    requires forall i | 0 <= i < p :: Newer(vs[i].version, info.version)
    requires forall i | p <= i < |vs| :: Newer(info.version, vs[i].version)
    ensures NewestFirst(Insert(vs, p, info))
  {
  }

  lemma OlderThanPosition(vs: seq<Info>, v: Version)
    requires NewestFirst(vs) && Find(vs, v) == |vs|
    ensures forall i | Position(vs, v) <= i < |vs| :: Newer(v, vs[i].version)
  {
    var p := Position(vs, v);
    if p < |vs| {
      CompareTotalOrder(v, vs[p].version, v);
      SplitByOrder(vs, v, p);
      forall i | p <= i < |vs| ensures Newer(v, vs[i].version) {
        CompareTotalOrder(v, vs[i].version, v);
      }
    }
  }

  lemma PlaceKeepsOrder(vs: seq<Info>, info: Info)
    requires NewestFirst(vs) && AllValid(vs) && IsValid(info.version)
    ensures NewestFirst(Place(vs, info)) && AllValid(Place(vs, info))
  {
    var at := Find(vs, info.version);
    if at < |vs| {
      assert forall k | 0 <= k < |vs| :: Place(vs, info)[k].version == vs[k].version;
    } else {
      OlderThanPosition(vs, info.version);
      InsertKeepsOrder(vs, Position(vs, info.version), info);
    }
  }

  lemma PlaceHolds(vs: seq<Info>, info: Info)
    ensures exists i | 0 <= i < |Place(vs, info)| :: Same(Place(vs, info)[i].version, info.version)
    ensures forall i | 0 <= i < |vs| ::
              exists j | 0 <= j < |Place(vs, info)| :: Place(vs, info)[j].version == vs[i].version
    ensures forall j | 0 <= j < |Place(vs, info)| ::
              || Place(vs, info)[j].version == info.version
              || exists i | 0 <= i < |vs| :: vs[i].version == Place(vs, info)[j].version
  {
    var r, at := Place(vs, info), Find(vs, info.version);
    if at < |vs| {
      assert forall k | 0 <= k < |vs| :: r[k].version == vs[k].version;
      assert Same(r[at].version, info.version);
    } else {
      InsertHolds(vs, Position(vs, info.version), info);
    }
  }

  lemma InsertHolds(vs: seq<Info>, p: nat, info: Info)
    requires p <= |vs|
    ensures var r := Insert(vs, p, info);
            && (exists i | 0 <= i < |r| :: Same(r[i].version, info.version))
            && (forall i | 0 <= i < |vs| :: exists j | 0 <= j < |r| :: r[j].version == vs[i].version)
            && forall j | 0 <= j < |r| ::
                 r[j].version == info.version || exists i | 0 <= i < |vs| :: vs[i].version == r[j].version
  {
    var r := Insert(vs, p, info);
    assert r[p] == info;
    forall i | 0 <= i < |vs| ensures exists j | 0 <= j < |r| :: r[j].version == vs[i].version {
      assert r[if i < p then i else i + 1] == vs[i];
    }
    forall j | 0 <= j < |r| && j != p ensures exists i | 0 <= i < |vs| :: vs[i].version == r[j].version {
      assert r[j] == vs[if j < p then j else j - 1];
    }
  }

  lemma PublishKeepsListed(c: Catalog, info: Info)
    requires LatestListed(c) || Same(c.latest, info.version)
    ensures LatestListed(Publish(c, info))
  {
    var c' := Publish(c, info);
    PlaceHolds(c.versions, info);
    if Newer(info.version, c.latest) || Same(c.latest, info.version) {
      var i :| 0 <= i < |c'.versions| && Same(c'.versions[i].version, info.version);
      assert Same(c'.versions[i].version, c'.latest);
    } else {
      var i :| 0 <= i < |c.versions| && Same(c.versions[i].version, c.latest);
      var j :| 0 <= j < |c'.versions| && c'.versions[j].version == c.versions[i].version;
      assert Same(c'.versions[j].version, c'.latest);
    }
  }

  lemma PublishKeepsGood(f: File, info: Info)
    requires GoodFile(f) && IsValid(info.version)
    ensures Good(Publish(Readable(f, info.version), info))
  {
    var c := Readable(f, info.version);
    PlaceKeepsOrder(c.versions, info);
    PublishKeepsListed(c, info);
  }

  lemma SetLatestKeepsGood(f: File, text: string)
    requires GoodFile(f)
    ensures GoodFile(SetLatest(f, text).1)
    ensures SetLatest(f, text).0 == Ok ==>
              Show(SetLatest(f, text).1.catalog.latest) == text
  {
    if SetLatest(f, text).0 == Ok {
      var i :| 0 <= i < |f.catalog.versions| && Show(f.catalog.versions[i].version) == text;
      ParseShow(f.catalog.versions[i].version);
      assert Same(f.catalog.versions[i].version, Parse(text).value);
    }
  }

  /** The text may replace a deleted latest version. */
  predicate IsLive(candidate: string, text: string, deleted: set<string>) {
    candidate != text && candidate !in deleted
  }

  /** `best` is the text of a live entry, and no live entry has a greater one; none only if no entry is live. */
  ghost predicate IsGreatestLive(vs: seq<Info>, text: string, deleted: set<string>, best: Option<string>) {
    && (best.Some? ==> && IsLive(best.value, text, deleted)
                       && exists i | 0 <= i < |vs| :: Show(vs[i].version) == best.value)
    && forall i | 0 <= i < |vs| && IsLive(Show(vs[i].version), text, deleted) ::
         best.Some? && CompareText(Show(vs[i].version), best.value) != Greater
  }

  lemma {:induction false} GreatestLiveIs(vs: seq<Info>, text: string, deleted: set<string>)
    ensures IsGreatestLive(vs, text, deleted, GreatestLive(vs, text, deleted))
    decreases |vs|
  {
    if vs != [] {
      var front, last := vs[..|vs| - 1], Show(vs[|vs| - 1].version);
      GreatestLiveIs(front, text, deleted);
      var before, best := GreatestLive(front, text, deleted), GreatestLive(vs, text, deleted);
      assert forall i | 0 <= i < |front| :: front[i] == vs[i];
      assert vs[|vs| - 1] == vs[|front|];
      forall i | 0 <= i < |vs| && IsLive(Show(vs[i].version), text, deleted)
        ensures best.Some? && CompareText(Show(vs[i].version), best.value) != Greater
      {
        CompareTextLaws(Show(vs[i].version), if before.Some? then before.value else last, last);
        CompareTextLaws(last, last, last);
        if i < |front| {
          assert IsLive(Show(front[i].version), text, deleted);
          CompareTextLaws(last, before.value, last);
        }
      }
    }
  }

  lemma AfterDeleteKeepsGood(f: File, text: string, deleted: set<string>)
    requires GoodFile(f)
    ensures GoodFile(AfterDelete(f, text, deleted))
  {
    if f.Stored? {
      var vs := f.catalog.versions;
      GreatestLiveIs(vs, text, deleted);
      var best := GreatestLive(vs, text, deleted);
      if best.Some? {
        var i :| 0 <= i < |vs| && Show(vs[i].version) == best.value;
        ParseShow(vs[i].version);
        assert Same(vs[i].version, Parse(best.value).value);
      }
    }
  }

  /** Deleting the text `latest` shows sets it to the entry with the greatest live text, or leaves it. */
  lemma DeleteSetsLatest(c: Catalog, text: string, deleted: set<string>)
    requires AllValid(c.versions) && Show(c.latest) == text
    ensures var c' := AfterDelete(Stored(c), text, deleted).catalog;
            var best := GreatestLive(c.versions, text, deleted);
            && c'.versions == c.versions && IsGreatestLive(c.versions, text, deleted, best)
            && (best.None? ==> c' == c)
            && (best.Some? ==> Show(c'.latest) == best.value
                               && exists i | 0 <= i < |c.versions| :: c.versions[i].version == c'.latest)
  {
    GreatestLiveIs(c.versions, text, deleted);
    var best := GreatestLive(c.versions, text, deleted);
    if best.Some? {
      var i :| 0 <= i < |c.versions| && Show(c.versions[i].version) == best.value;
      ParseShow(c.versions[i].version);
      assert c.versions[i].version == AfterDelete(Stored(c), text, deleted).catalog.latest;
    }
  }

  /** Deleting the text `latest` shows moves it onto a live entry whenever there is one, and only then; no live text is
      greater in plain string order. */
  lemma DeleteMovesLatest(c: Catalog, text: string, deleted: set<string>)
    requires Good(c) && Show(c.latest) == text && text in deleted
    ensures var c' := AfterDelete(Stored(c), text, deleted).catalog;
            && c'.versions == c.versions
            && (Show(c'.latest) !in deleted <==>
                exists i | 0 <= i < |c.versions| :: Show(c.versions[i].version) !in deleted)
            && (Show(c'.latest) !in deleted ==> exists i | 0 <= i < |c.versions| :: c.versions[i].version == c'.latest)
            && forall i | 0 <= i < |c.versions| && Show(c.versions[i].version) !in deleted ::
                 CompareText(Show(c.versions[i].version), Show(c'.latest)) != Greater
  {
    DeleteSetsLatest(c, text, deleted);
    forall i | 0 <= i < |c.versions| && Show(c.versions[i].version) !in deleted
      ensures GreatestLive(c.versions, text, deleted).Some?
    {
      assert IsLive(Show(c.versions[i].version), text, deleted);
    }
  }

  /* Exactly when `latest` carries the text of an entry */

  ghost predicate LatestIsEntry(c: Catalog) {
    exists i | 0 <= i < |c.versions| :: c.versions[i].version == c.latest
  }

  lemma OnlyOneSame(vs: seq<Info>, v: Version, at: nat)
    requires NewestFirst(vs) && at < |vs| && Same(vs[at].version, v)
    ensures forall k | 0 <= k < |vs| && Same(vs[k].version, v) :: k == at
  {
    forall k | 0 <= k < |vs| && Same(vs[k].version, v) ensures k == at {
      CompareTotalOrder(vs[k].version, vs[at].version, v);
      CompareTotalOrder(vs[at].version, vs[k].version, v);
    }
  }

  /** The version is already listed, under other build metadata. */
  ghost predicate ListedOtherwise(vs: seq<Info>, v: Version) {
    exists i | 0 <= i < |vs| :: Same(vs[i].version, v) && vs[i].version != v
  }

  /** Publishing keeps `latest` the text of an entry unless it re-publishes, above the pointer, a version
      listed with different build metadata; then a later delete of the listed text leaves `latest` behind. */
  lemma PublishKeepsLatestEntry(c: Catalog, info: Info)
    requires Good(c) && LatestIsEntry(c)
    ensures LatestIsEntry(Publish(c, info)) <==>
            !(Newer(info.version, c.latest) && ListedOtherwise(c.versions, info.version))
  {
    var c', v, at := Publish(c, info), info.version, Find(c.versions, info.version);
    if !Newer(v, c.latest) {
      PlaceHolds(c.versions, info);
      var i :| 0 <= i < |c.versions| && c.versions[i].version == c.latest;
      var j :| 0 <= j < |c'.versions| && c'.versions[j].version == c.versions[i].version;
    } else if at == |c.versions| {
      assert c'.versions[Position(c.versions, v)] == info;
    } else {
      OnlyOneSame(c.versions, v, at);
      assert forall k | 0 <= k < |c.versions| :: c'.versions[k].version == c.versions[k].version;
      if LatestIsEntry(c') {
        var k :| 0 <= k < |c'.versions| && c'.versions[k].version == v;
        assert c.versions[k].version == v;
      }
    }
  }

  /** A deletion by the listed text does not move a `latest` that shows another text of the same version. */
  lemma DeleteLeavesOtherText(c: Catalog, i: nat, deleted: set<string>)
    requires Good(c) && i < |c.versions|
    requires Same(c.versions[i].version, c.latest) && c.versions[i].version != c.latest
    ensures AfterDelete(Stored(c), Show(c.versions[i].version), deleted) == Stored(c)
  {
    ParseShow(c.versions[i].version);
    ParseShow(c.latest);
  }

  /* Whole runs */

  datatype Op = PublishOp(info: Info) | SetLatestOp(text: string) | MakeDirOp(text: string) | DeleteOp(text: string)

  ghost predicate Wellformed(op: Op) {
    op.PublishOp? ==> IsValid(op.info.version)
  }

  /** The stored catalogue, the version directories, and the texts marked deleted. */
  datatype Store = Store(file: File, versionDirs: set<string>, deleted: set<string>)

  const EMPTY: Store := Store(Absent, {}, {})

  function AfterOp(s: Store, op: Op): Store {
    match op
    case PublishOp(info) => s.(file := Stored(Publish(Readable(s.file, info.version), info)))
    case SetLatestOp(text) => s.(file := SetLatest(s.file, text).1)
    case MakeDirOp(text) => s.(versionDirs := s.versionDirs + {text})
    case DeleteOp(text) =>
      if text !in s.versionDirs then s
      else s.(deleted := s.deleted + {text}, file := AfterDelete(s.file, text, s.deleted + {text}))
  }

  function RunOps(s: Store, ops: seq<Op>): Store
    decreases |ops|
  {
    if ops == [] then s else AfterOp(RunOps(s, ops[..|ops| - 1]), ops[|ops| - 1])
  }

  method Serve(store: CatalogFile, ops: seq<Op>)
    requires store.Valid() && forall op | op in ops :: Wellformed(op)
    modifies store
    ensures store.Valid()
    ensures Store(store.file, store.versionDirs, store.deleted)
            == RunOps(Store(old(store.file), old(store.versionDirs), old(store.deleted)), ops)
  {
    ghost var start := Store(store.file, store.versionDirs, store.deleted);
    for n := 0 to |ops|
      invariant store.Valid()
      invariant Store(store.file, store.versionDirs, store.deleted) == RunOps(start, ops[..n])
    {
      assert ops[..n + 1][..n] == ops[..n];
      assert ops[n] in ops;
      match ops[n]
      case PublishOp(info) => store.UpdateCatalog(info);
      case SetLatestOp(text) => var _ := store.SetLatestVersion(text);
      case MakeDirOp(text) => store.EnsureVersionDir(text);
      case DeleteOp(text) => var _ := store.DeleteVersion(text);
    }
    assert ops[..|ops|] == ops;
  }

  /** Publish-only runs are runs. */
  lemma {:induction false} PublishAllRuns(s: Store, ops: seq<Op>)
    requires forall op | op in ops :: op.PublishOp?
    ensures RunOps(s, ops).file == PublishAll(s.file, ops)
    decreases |ops|
  {
    if ops != [] {
      PublishAllRuns(s, ops[..|ops| - 1]);
      assert ops[|ops| - 1] in ops;
    }
  }

  lemma RunOne(s: Store, ops: seq<Op>, op: Op)
    ensures RunOps(s, ops + [op]) == AfterOp(RunOps(s, ops), op)
  {
    assert (ops + [op])[..|ops|] == ops;
  }

  function PublishAll(f: File, ops: seq<Op>): File
    requires forall op | op in ops :: op.PublishOp?
    decreases |ops|
  {
    if ops == [] then f
    else
      var info := ops[|ops| - 1].info;
      Stored(Publish(Readable(PublishAll(f, ops[..|ops| - 1]), info.version), info))
  }

  /* Exactly when the latest version stands for a live entry */

  ghost predicate AnyLive(vs: seq<Info>, deleted: set<string>) {
    exists i | 0 <= i < |vs| :: Show(vs[i].version) !in deleted
  }

  /** Entry `i` is the one `v` stands for, and it is not deleted. */
  ghost predicate LiveAt(vs: seq<Info>, v: Version, deleted: set<string>, i: int) {
    0 <= i < |vs| && Same(vs[i].version, v) && Show(vs[i].version) !in deleted
  }

  ghost predicate StandsForLive(vs: seq<Info>, v: Version, deleted: set<string>) {
    exists i :: LiveAt(vs, v, deleted, i)
  }

  /** `latest_version` stands for an entry that is not deleted, whenever there is one. */
  ghost predicate Healthy(s: Store) {
    s.file.Stored? && AnyLive(s.file.catalog.versions, s.deleted) ==>
      StandsForLive(s.file.catalog.versions, s.file.catalog.latest, s.deleted)
  }

  /** The text under which a version is listed once it has been published. */
  function ListedText(vs: seq<Info>, v: Version): string {
    var i := Find(vs, v);
    if i < |vs| then Show(vs[i].version) else Show(v)
  }

  /** The operation does not take the pointer off the live entries:
      - a publication above the pointer is of a version that is not deleted, unless everything is;
      - a publication below the pointer does not bring the first live entry;
      - the pointer is not set to a deleted text, unless everything is deleted;
      - a deletion is not of the text listed for the pointer's version when the pointer shows another text, unless
        nothing else is live. */
  ghost predicate Careful(s: Store, op: Op) {
    s.file.Stored? ==>
      var vs, latest := s.file.catalog.versions, s.file.catalog.latest;
      match op
      case PublishOp(info) =>
        if Newer(info.version, latest) then ListedText(vs, info.version) !in s.deleted || !AnyLive(vs, s.deleted)
        else AnyLive(vs, s.deleted) || Find(vs, info.version) < |vs| || Show(info.version) in s.deleted
      case SetLatestOp(text) => SetLatest(s.file, text).0 != Ok || text !in s.deleted || !AnyLive(vs, s.deleted)
      case MakeDirOp(_) => true
      case DeleteOp(text) =>
        || text !in s.versionDirs || Show(latest) == text || ListedText(vs, latest) != text
        || !AnyLive(vs, s.deleted + {text})
  }

  lemma ListedTextIs(vs: seq<Info>, v: Version, i: nat)
    requires NewestFirst(vs) && i < |vs| && Same(vs[i].version, v)
    ensures Find(vs, v) == i && ListedText(vs, v) == Show(vs[i].version)
  {
    OnlyOneSame(vs, v, i);
  }

  /** In a well-formed list a version stands for a live entry exactly if the text listed for it is not deleted. */
  lemma StandsForListed(vs: seq<Info>, v: Version, deleted: set<string>)
    requires NewestFirst(vs) && Find(vs, v) < |vs|
    ensures StandsForLive(vs, v, deleted) <==> ListedText(vs, v) !in deleted
  {
    if ListedText(vs, v) !in deleted {
      assert LiveAt(vs, v, deleted, Find(vs, v));
    }
    if i :| LiveAt(vs, v, deleted, i) {
      ListedTextIs(vs, v, i);
    }
  }

  /** The pointer of a good catalogue names an entry. */
  lemma LatestIsFound(c: Catalog)
    requires Good(c)
    ensures Find(c.versions, c.latest) < |c.versions|
  {
    var i :| 0 <= i < |c.versions| && Same(c.versions[i].version, c.latest);
    ListedTextIs(c.versions, c.latest, i);
  }

  lemma InsertTexts(vs: seq<Info>, p: nat, info: Info, deleted: set<string>)
    requires p <= |vs|
    ensures AnyLive(Insert(vs, p, info), deleted) <==> AnyLive(vs, deleted) || Show(info.version) !in deleted
  {
    var r := Insert(vs, p, info);
    if i :| 0 <= i < |vs| && Show(vs[i].version) !in deleted {
      assert r[if i < p then i else i + 1] == vs[i];
    }
    if j :| 0 <= j < |r| && Show(r[j].version) !in deleted {
      assert j != p ==> r[j] == vs[if j < p then j else j - 1];
    }
    assert r[p] == info;
  }

  /** Publishing keeps the texts that are listed and adds at most its own. */
  lemma PlaceTexts(vs: seq<Info>, info: Info, deleted: set<string>)
    ensures AnyLive(Place(vs, info), deleted)
            <==> AnyLive(vs, deleted) || (Find(vs, info.version) == |vs| && Show(info.version) !in deleted)
  {
    if Find(vs, info.version) < |vs| {
      assert forall k | 0 <= k < |vs| :: Place(vs, info)[k].version == vs[k].version;
    } else {
      InsertTexts(vs, Position(vs, info.version), info, deleted);
    }
  }

  lemma PlaceLists(vs: seq<Info>, info: Info, v: Version)
    requires NewestFirst(vs) && AllValid(vs) && IsValid(info.version)
    requires Find(vs, v) < |vs| || v == info.version
    ensures Find(Place(vs, info), v) < |Place(vs, info)| && ListedText(Place(vs, info), v) == ListedText(vs, v)
  {
    var r, at := Place(vs, info), Find(vs, info.version);
    PlaceKeepsOrder(vs, info);
    if at < |vs| {
      assert forall k | 0 <= k < |vs| :: r[k].version == vs[k].version;
      assert Find(vs, v) < |vs|;
      ListedTextIs(r, v, Find(vs, v));
    } else {
      var p := Position(vs, info.version);
      if Find(vs, v) < |vs| {
        var i := Find(vs, v);
        assert r[if i < p then i else i + 1] == vs[i];
        ListedTextIs(r, v, if i < p then i else i + 1);
      } else {
        assert r[p] == info;
        CompareTotalOrder(v, v, v);
        ListedTextIs(r, v, p);
      }
    }
  }

  lemma PublishHealth(c: Catalog, info: Info, deleted: set<string>)
    requires Good(c) && IsValid(info.version)
    requires AnyLive(c.versions, deleted) ==> StandsForLive(c.versions, c.latest, deleted)
    ensures var c', vs := Publish(c, info), c.versions;
            (AnyLive(c'.versions, deleted) ==> StandsForLive(c'.versions, c'.latest, deleted))
            <==> if Newer(info.version, c.latest) then ListedText(vs, info.version) !in deleted || !AnyLive(vs, deleted)
                 else AnyLive(vs, deleted) || Find(vs, info.version) < |vs| || Show(info.version) in deleted
  {
    var vs, c' := c.versions, Publish(c, info);
    LatestIsFound(c);
    PlaceKeepsOrder(vs, info);
    PlaceTexts(vs, info, deleted);
    PlaceLists(vs, info, c'.latest);
    StandsForListed(c'.versions, c'.latest, deleted);
    StandsForListed(vs, c.latest, deleted);
  }

  lemma SetLatestHealth(c: Catalog, text: string, deleted: set<string>)
    requires Good(c) && SetLatest(Stored(c), text).0 == Ok
    ensures var c' := SetLatest(Stored(c), text).1.catalog;
            c'.versions == c.versions && (StandsForLive(c.versions, c'.latest, deleted) <==> text !in deleted)
  {
    var c' := SetLatest(Stored(c), text).1.catalog;
    var i :| 0 <= i < |c.versions| && Show(c.versions[i].version) == text;
    ParseShow(c.versions[i].version);
    assert Same(c.versions[i].version, c'.latest);
    ListedTextIs(c.versions, c'.latest, i);
    StandsForListed(c.versions, c'.latest, deleted);
  }

  lemma DeleteHealth(c: Catalog, text: string, deleted: set<string>)
    requires Good(c)
    requires AnyLive(c.versions, deleted) ==> StandsForLive(c.versions, c.latest, deleted)
    ensures var gone := deleted + {text};
            var c' := AfterDelete(Stored(c), text, gone).catalog;
            && c'.versions == c.versions
            && ((AnyLive(c.versions, gone) ==> StandsForLive(c.versions, c'.latest, gone))
                <==> Show(c.latest) == text || ListedText(c.versions, c.latest) != text || !AnyLive(c.versions, gone))
  {
    var gone := deleted + {text};
    LatestIsFound(c);
    if Show(c.latest) == text {
      DeleteMovesLatest(c, text, gone);
      var c' := AfterDelete(Stored(c), text, gone).catalog;
      if AnyLive(c.versions, gone) {
        var i :| 0 <= i < |c.versions| && c.versions[i].version == c'.latest;
        assert LiveAt(c.versions, c'.latest, gone, i);
      }
    } else {
      StandsForListed(c.versions, c.latest, deleted);
      StandsForListed(c.versions, c.latest, gone);
      if i :| 0 <= i < |c.versions| && Show(c.versions[i].version) !in gone {
        assert Show(c.versions[i].version) !in deleted;
      }
    }
  }

  /** From a healthy store an operation leaves a healthy one if and only if it is careful. */
  lemma HealthIsKept(s: Store, op: Op)
    requires GoodFile(s.file) && Wellformed(op) && Healthy(s)
    ensures Healthy(AfterOp(s, op)) <==> Careful(s, op)
  {
    if s.file.Stored? {
      match op
      case PublishOp(info) => PublishHealth(s.file.catalog, info, s.deleted);
      case SetLatestOp(text) =>
        if SetLatest(s.file, text).0 == Ok {
          SetLatestHealth(s.file.catalog, text, s.deleted);
        }
      case MakeDirOp(_) =>
      case DeleteOp(text) => DeleteHealth(s.file.catalog, text, s.deleted);
    } else if op.PublishOp? {
      FirstPublishIsHealthy(op.info, s.deleted);
    }
  }

  lemma FirstPublishIsHealthy(info: Info, deleted: set<string>)
    ensures Healthy(Store(Stored(Publish(Catalog([], info.version), info)), {}, deleted))
    ensures Publish(Catalog([], info.version), info).versions == [info]
  {
    assert Place([], info) == [info];
    CompareTotalOrder(info.version, info.version, info.version);
    if Show(info.version) !in deleted {
      assert LiveAt([info], info.version, deleted, 0);
    }
  }

  lemma AfterOpKeepsGood(s: Store, op: Op)
    requires GoodFile(s.file) && Wellformed(op)
    ensures GoodFile(AfterOp(s, op).file)
  {
    match op
    case PublishOp(info) => PublishKeepsGood(s.file, info);
    case SetLatestOp(text) => SetLatestKeepsGood(s.file, text);
    case MakeDirOp(_) =>
    case DeleteOp(text) => AfterDeleteKeepsGood(s.file, text, s.deleted + {text});
  }

  lemma {:induction false} RunKeepsGood(s: Store, ops: seq<Op>)
    requires GoodFile(s.file) && forall op | op in ops :: Wellformed(op)
    ensures GoodFile(RunOps(s, ops).file)
    decreases |ops|
  {
    if ops != [] {
      RunKeepsGood(s, ops[..|ops| - 1]);
      AfterOpKeepsGood(RunOps(s, ops[..|ops| - 1]), ops[|ops| - 1]);
    }
  }

  /** The store is healthy before and after each operation. */
  ghost predicate AllHealthy(s: Store, ops: seq<Op>)
    decreases |ops|
  {
    Healthy(RunOps(s, ops)) && (ops != [] ==> AllHealthy(s, ops[..|ops| - 1]))
  }

  /** Each operation is careful when it comes. */
  ghost predicate AllCareful(s: Store, ops: seq<Op>)
    decreases |ops|
  {
    ops != [] ==> AllCareful(s, ops[..|ops| - 1]) && Careful(RunOps(s, ops[..|ops| - 1]), ops[|ops| - 1])
  }

  /** A run is healthy all along if and only if each of its operations is careful. */
  lemma {:induction false} RunIsHealthy(s: Store, ops: seq<Op>)
    requires GoodFile(s.file) && Healthy(s) && forall op | op in ops :: Wellformed(op)
    ensures AllHealthy(s, ops) <==> AllCareful(s, ops)
    decreases |ops|
  {
    if ops != [] {
      var front, last := ops[..|ops| - 1], ops[|ops| - 1];
      RunIsHealthy(s, front);
      RunKeepsGood(s, front);
      if Healthy(RunOps(s, front)) {
        HealthIsKept(RunOps(s, front), last);
      }
    }
  }

  /* Runs that leave the latest version on a deleted entry */

  function Bare(v: Version): Info {
    Info(v, [], None, false, None)
  }

  /** Publishes 2.0.0+a and 1.0.0, moves the pointer to 1.0.0, re-publishes 2.0.0 as 2.0.0+b, deletes 2.0.0+a. */
  function Straying(a: Version, b: Version, one: Version): seq<Op> {
    Republishing(a, b, one) + [MakeDirOp(Show(a))] + [DeleteOp(Show(a))]
  }

  function Republishing(a: Version, b: Version, one: Version): seq<Op> {
    [PublishOp(Bare(a))] + [PublishOp(Bare(one))] + [SetLatestOp(Show(one))] + [PublishOp(Bare(b))]
  }

  /** `latest_version` shows no entry's text and stands for a deleted entry, although a live entry is there. */
  ghost predicate Stray(s: Store) {
    && s.file.Stored? && !LatestIsEntry(s.file.catalog)
    && (exists i | 0 <= i < |s.file.catalog.versions| ::
          Same(s.file.catalog.versions[i].version, s.file.catalog.latest)
            && Show(s.file.catalog.versions[i].version) in s.deleted)
    && exists i | 0 <= i < |s.file.catalog.versions| :: Show(s.file.catalog.versions[i].version) !in s.deleted
  }

  lemma RepublishedCatalog(a: Version, b: Version, one: Version)
    requires IsValid(one) && Same(a, b) && Newer(a, one)
    ensures RunOps(EMPTY, Republishing(a, b, one)) == EMPTY.(file := Stored(Catalog([Bare(a), Bare(one)], b)))
  {
    ParseShow(one);
    CompareTotalOrder(a, one, b);
    CompareTotalOrder(one, a, b);
    var o1 := [PublishOp(Bare(a))];
    var o2 := o1 + [PublishOp(Bare(one))];
    var o3 := o2 + [SetLatestOp(Show(one))];
    RunOne(EMPTY, [], PublishOp(Bare(a)));
    assert [] + [PublishOp(Bare(a))] == o1;
    RunOne(EMPTY, o1, PublishOp(Bare(one)));
    RunOne(EMPTY, o2, SetLatestOp(Show(one)));
    RunOne(EMPTY, o3, PublishOp(Bare(b)));
    PlaceFirst(a);
    PlaceOlder(a, one);
    PlaceAgain(a, b, one);
    assert [Bare(a), Bare(one)][1].version == one;
  }

  lemma StrayingStore(a: Version, b: Version, one: Version)
    requires IsValid(one) && Same(a, b) && Show(a) != Show(b) && Newer(a, one)
    ensures RunOps(EMPTY, Straying(a, b, one)) == Store(Stored(Catalog([Bare(a), Bare(one)], b)), {Show(a)}, {Show(a)})
  {
    var ops := Republishing(a, b, one);
    RepublishedCatalog(a, b, one);
    RunOne(EMPTY, ops, MakeDirOp(Show(a)));
    RunOne(EMPTY, ops + [MakeDirOp(Show(a))], DeleteOp(Show(a)));
  }

  /** Whatever two texts of one version and older version are chosen. */
  lemma LatestCanStray(a: Version, b: Version, one: Version)
    requires IsValid(a) && IsValid(b) && IsValid(one) && Same(a, b) && a != b && Newer(a, one)
    ensures Stray(RunOps(EMPTY, Straying(a, b, one))) && !Healthy(RunOps(EMPTY, Straying(a, b, one)))
  {
    ParseShow(a);
    ParseShow(b);
    ParseShow(one);
    CompareTotalOrder(a, b, one);
    StrayingStore(a, b, one);
    StraysFrom(a, b, one);
  }

  lemma StraysFrom(a: Version, b: Version, one: Version)
    requires Same(a, b) && a != b && Newer(a, one) && b != one && Show(a) != Show(one)
    ensures var s := Store(Stored(Catalog([Bare(a), Bare(one)], b)), {Show(a)}, {Show(a)}); Stray(s) && !Healthy(s)
  {
    var vs := [Bare(a), Bare(one)];
    assert vs[0].version == a && vs[1].version == one;
    CompareTotalOrder(a, one, b);
    OnlyOneSame(vs, b, 0);
  }

  lemma PlaceFirst(a: Version)
    ensures Place([], Bare(a)) == [Bare(a)]
  {
    assert [][..0] + [Bare(a)] + [][0..] == [Bare(a)];
  }

  lemma PlaceOlder(a: Version, one: Version)
    requires Newer(a, one)
    ensures Place([Bare(a)], Bare(one)) == [Bare(a), Bare(one)]
  {
    CompareTotalOrder(a, one, a);
    var vs := [Bare(a)];
    assert vs[1..] == [];
    assert Find(vs, one) == 1 && Position(vs, one) == 1;
  }

  lemma PlaceAgain(a: Version, b: Version, one: Version)
    requires Same(a, b)
    ensures Place([Bare(a), Bare(one)], Bare(b)) == [Bare(a), Bare(one)]
  {
    var vs := [Bare(a), Bare(one)];
    assert Find(vs, b) == 0;
    assert Merge(vs[0], Bare(b)) == vs[0];
  }

  /** Publishes `two` and the older `one`, and deletes `two`. */
  function Withdrawing(two: Version, one: Version): seq<Op> {
    [PublishOp(Bare(two))] + [PublishOp(Bare(one))] + [MakeDirOp(Show(two))] + [DeleteOp(Show(two))]
  }

  /** The pointer is on `one` then. */
  lemma WithdrawnStore(two: Version, one: Version)
    requires IsValid(two) && IsValid(one) && Newer(two, one)
    ensures Show(two) != Show(one)
    ensures RunOps(EMPTY, Withdrawing(two, one))
            == Store(Stored(Catalog([Bare(two), Bare(one)], one)), {Show(two)}, {Show(two)})
  {
    ParseShow(two);
    ParseShow(one);
    CompareTotalOrder(one, one, two);
    PublishedTwo(two, one);
    var ops := [PublishOp(Bare(two))] + [PublishOp(Bare(one))];
    RunOne(EMPTY, ops, MakeDirOp(Show(two)));
    RunOne(EMPTY, ops + [MakeDirOp(Show(two))], DeleteOp(Show(two)));
    assert EMPTY.versionDirs + {Show(two)} == {Show(two)};
    DeleteTwo(two, one);
  }

  lemma DeleteTwo(two: Version, one: Version)
    requires Show(two) != Show(one) && Parse(Show(one)) == Some(one)
    ensures AfterOp(Store(Stored(Catalog([Bare(two), Bare(one)], two)), {Show(two)}, {}), DeleteOp(Show(two)))
            == Store(Stored(Catalog([Bare(two), Bare(one)], one)), {Show(two)}, {Show(two)})
  {
    OnlyLive(two, one);
    var none: set<string> := {};
    assert none + {Show(two)} == {Show(two)};
  }

  lemma PublishedTwo(two: Version, one: Version)
    requires Newer(two, one)
    ensures RunOps(EMPTY, [PublishOp(Bare(two))]) == EMPTY.(file := Stored(Catalog([Bare(two)], two)))
    ensures RunOps(EMPTY, [PublishOp(Bare(two))] + [PublishOp(Bare(one))])
            == EMPTY.(file := Stored(Catalog([Bare(two), Bare(one)], two)))
  {
    CompareTotalOrder(two, one, two);
    RunOne(EMPTY, [], PublishOp(Bare(two)));
    assert [] + [PublishOp(Bare(two))] == [PublishOp(Bare(two))];
    RunOne(EMPTY, [PublishOp(Bare(two))], PublishOp(Bare(one)));
    PlaceFirst(two);
    PlaceOlder(two, one);
  }

  lemma OnlyLive(two: Version, one: Version)
    requires Show(two) != Show(one)
    ensures GreatestLive([Bare(two), Bare(one)], Show(two), {Show(two)}) == Some(Show(one))
  {
    var vs := [Bare(two), Bare(one)];
    assert vs[..1] == [Bare(two)] && vs[..1][..0] == [];
    assert GreatestLive(vs[..1], Show(two), {Show(two)}) == None;
  }

  /** Without any build metadata the pointer ends on a deleted entry beside a live one: by publishing the deleted
      version again, by setting the pointer to it, or by publishing an older version once everything is deleted. */
  lemma LatestCanStrayPlainly(two: Version, one: Version)
    requires IsValid(two) && IsValid(one) && Newer(two, one)
    ensures !Healthy(RunOps(EMPTY, Withdrawing(two, one) + [PublishOp(Bare(two))]))
    ensures !Healthy(RunOps(EMPTY, Withdrawing(two, one) + [SetLatestOp(Show(two))]))
    ensures !Healthy(RunOps(EMPTY, [PublishOp(Bare(two))] + [MakeDirOp(Show(two))] + [DeleteOp(Show(two))]
                                   + [PublishOp(Bare(one))]))
  {
    var ops := Withdrawing(two, one);
    WithdrawnStore(two, one);
    RunOne(EMPTY, ops, PublishOp(Bare(two)));
    RunOne(EMPTY, ops, SetLatestOp(Show(two)));
    StrayByPublishing(two, one);
    StrayBySetting(two, one);
    StrayByAdding(two, one);
  }

  lemma StrayByPublishing(two: Version, one: Version)
    requires IsValid(two) && IsValid(one) && Newer(two, one) && Show(two) != Show(one)
    ensures var s := Store(Stored(Catalog([Bare(two), Bare(one)], one)), {Show(two)}, {Show(two)});
            Good(s.file.catalog) && Healthy(s) && !Healthy(AfterOp(s, PublishOp(Bare(two))))
  {
    var vs := [Bare(two), Bare(one)];
    var s := Store(Stored(Catalog(vs, one)), {Show(two)}, {Show(two)});
    CompareTotalOrder(two, one, two);
    CompareTotalOrder(one, one, one);
    CompareTotalOrder(two, two, two);
    assert vs[0].version == two && vs[1].version == one;
    assert Same(vs[1].version, one) && LiveAt(vs, one, s.deleted, 1);
    ListedTextIs(vs, two, 0);
    HealthIsKept(s, PublishOp(Bare(two)));
  }

  lemma StrayBySetting(two: Version, one: Version)
    requires IsValid(two) && IsValid(one) && Newer(two, one) && Show(two) != Show(one)
    ensures var s := Store(Stored(Catalog([Bare(two), Bare(one)], one)), {Show(two)}, {Show(two)});
            !Healthy(AfterOp(s, SetLatestOp(Show(two))))
  {
    var vs := [Bare(two), Bare(one)];
    var s := Store(Stored(Catalog(vs, one)), {Show(two)}, {Show(two)});
    StrayByPublishing(two, one);
    ParseShow(two);
    assert Show(vs[0].version) == Show(two);
    assert Show(vs[1].version) !in s.deleted;
    HealthIsKept(s, SetLatestOp(Show(two)));
  }

  lemma StrayByAdding(two: Version, one: Version)
    requires IsValid(two) && IsValid(one) && Newer(two, one) && Show(two) != Show(one)
    ensures !Healthy(RunOps(EMPTY, [PublishOp(Bare(two))] + [MakeDirOp(Show(two))] + [DeleteOp(Show(two))]
                                   + [PublishOp(Bare(one))]))
  {
    var o3 := [PublishOp(Bare(two))] + [MakeDirOp(Show(two))] + [DeleteOp(Show(two))];
    RunOne(EMPTY, o3, PublishOp(Bare(one)));
    var s := Store(Stored(Catalog([Bare(two)], two)), {Show(two)}, {Show(two)});
    AllWithdrawn(two, one);
    CompareTotalOrder(two, one, two);
    CompareTotalOrder(two, two, two);
    assert Same([Bare(two)][0].version, two);
    assert !AnyLive([Bare(two)], s.deleted);
    assert Find([Bare(two)], one) == 1;
    HealthIsKept(s, PublishOp(Bare(one)));
  }

  lemma AllWithdrawn(two: Version, one: Version)
    requires Newer(two, one)
    ensures RunOps(EMPTY, [PublishOp(Bare(two))] + [MakeDirOp(Show(two))] + [DeleteOp(Show(two))])
            == Store(Stored(Catalog([Bare(two)], two)), {Show(two)}, {Show(two)})
  {
    var ops := [PublishOp(Bare(two))];
    PublishedTwo(two, one);
    RunOne(EMPTY, ops, MakeDirOp(Show(two)));
    RunOne(EMPTY, ops + [MakeDirOp(Show(two))], DeleteOp(Show(two)));
    assert [Bare(two)][..0] == [];
    assert GreatestLive([Bare(two)], Show(two), {Show(two)}) == None;
    assert EMPTY.versionDirs + {Show(two)} == {Show(two)} && EMPTY.deleted + {Show(two)} == {Show(two)};
  }

  /** Such versions exist: 2.0.0+a, 2.0.0+b and 1.0.0. */
  lemma StrayingExample()
    ensures var two, again, one := Version(2, 0, 0, "", "a"), Version(2, 0, 0, "", "b"), Version(1, 0, 0, "", "");
            Stray(RunOps(EMPTY, Straying(two, again, one)))
  {
    SplitSingle("a", '.');
    SplitSingle("b", '.');
    LatestCanStray(Version(2, 0, 0, "", "a"), Version(2, 0, 0, "", "b"), Version(1, 0, 0, "", ""));
  }

  /* Publish-only runs: the first entry is the latest, and the order of publishing does not matter */

  ghost predicate Publishes(ops: seq<Op>) {
    forall op | op in ops :: op.PublishOp? && IsValid(op.info.version)
  }

  lemma {:induction false} PublishOnlyLatest(ops: seq<Op>)
    requires Publishes(ops) && ops != []
    ensures PublishAll(Absent, ops).Stored?
    ensures var c := PublishAll(Absent, ops).catalog; Good(c) && c.versions != [] && c.latest == c.versions[0].version
    decreases |ops|
  {
    var front, info := ops[..|ops| - 1], ops[|ops| - 1].info;
    assert forall op | op in front :: op in ops;
    var f := PublishAll(Absent, front);
    if front != [] {
      PublishOnlyLatest(front);
    }
    assert ops[|ops| - 1] in ops;
    PublishKeepsGood(f, info);
    FirstIsLatest(Readable(f, info.version), info);
  }

  lemma FirstIsLatest(c: Catalog, info: Info)
    requires NewestFirst(c.versions)
    requires if c.versions == [] then c.latest == info.version else c.latest == c.versions[0].version
    ensures var c' := Publish(c, info); c'.versions != [] && c'.latest == c'.versions[0].version
  {
    CompareTotalOrder(info.version, c.latest, info.version);
    if c.versions != [] && Newer(info.version, c.latest) {
      assert Find(c.versions, info.version) == |c.versions| by {
        forall k | 0 <= k < |c.versions| ensures !Same(c.versions[k].version, info.version) {
          CompareTotalOrder(c.versions[k].version, c.latest, info.version);
          CompareTotalOrder(info.version, c.latest, c.versions[k].version);
          CompareTotalOrder(c.latest, c.versions[k].version, info.version);
        }
      }
      assert Position(c.versions, info.version) == 0;
    }
  }

  /** A version without its build metadata: what precedence sees. */
  function Key(v: Version): Version { v.(build := "") }

  ghost function Keys(vs: seq<Info>): set<Version> {
    set i | 0 <= i < |vs| :: Key(vs[i].version)
  }

  /** Some entry for version `k` supports platform `p`. */
  ghost predicate Supports(vs: seq<Info>, k: Version, p: Platform) {
    exists i | 0 <= i < |vs| :: Key(vs[i].version) == k && p in vs[i].platforms
  }

  lemma {:induction false} MergeIsUnion(have: seq<Platform>, extra: seq<Platform>)
    ensures forall p :: p in MergePlatforms(have, extra) <==> p in have || p in extra
    ensures NoRepeat(have) ==> NoRepeat(MergePlatforms(have, extra))
    decreases |extra|
  {
    if extra != [] {
      MergeIsUnion(if extra[0] in have then have else have + [extra[0]], extra[1..]);
      assert extra == [extra[0]] + extra[1..];
    }
  }

  ghost predicate NoRepeat(ps: seq<Platform>) {
    forall i, j | 0 <= i < j < |ps| :: ps[i] != ps[j]
  }

  lemma PlaceKeys(vs: seq<Info>, info: Info)
    ensures Keys(Place(vs, info)) == Keys(vs) + {Key(info.version)}
  {
    var r, at := Place(vs, info), Find(vs, info.version);
    if at < |vs| {
      assert forall k | 0 <= k < |vs| :: r[k].version == vs[k].version;
      assert Key(vs[at].version) == Key(info.version);
    } else {
      var p := Position(vs, info.version);
      assert forall i | p <= i < |vs| :: r[i + 1] == vs[i];
    }
  }

  lemma MergePlatformsOf(vs: seq<Info>, at: nat, info: Info, k: Version, p: Platform)
    requires at < |vs| && Key(vs[at].version) == Key(info.version)
    ensures Supports(vs[at := Merge(vs[at], info)], k, p)
            <==> Supports(vs, k, p) || (Key(info.version) == k && p in info.platforms)
  {
    var r := vs[at := Merge(vs[at], info)];
    MergeIsUnion(vs[at].platforms, info.platforms);
    assert r[at].version == vs[at].version;
    if Supports(vs, k, p) {
      var i :| 0 <= i < |vs| && Key(vs[i].version) == k && p in vs[i].platforms;
      assert Key(r[i].version) == k && p in r[i].platforms;
    }
  }

  lemma InsertPlatforms(vs: seq<Info>, at: nat, info: Info, k: Version, p: Platform)
    requires at <= |vs|
    ensures Supports(Insert(vs, at, info), k, p)
            <==> Supports(vs, k, p) || (Key(info.version) == k && p in info.platforms)
  {
    var r := Insert(vs, at, info);
    if Supports(vs, k, p) {
      var i :| 0 <= i < |vs| && Key(vs[i].version) == k && p in vs[i].platforms;
      assert r[if i < at then i else i + 1] == vs[i];
    }
    if Supports(r, k, p) {
      var j :| 0 <= j < |r| && Key(r[j].version) == k && p in r[j].platforms;
      assert j != at ==> r[j] == vs[if j < at then j else j - 1];
    }
  }

  lemma PlacePlatforms(vs: seq<Info>, info: Info, k: Version, p: Platform)
    ensures Supports(Place(vs, info), k, p)
            <==> Supports(vs, k, p) || (Key(info.version) == k && p in info.platforms)
  {
    var at := Find(vs, info.version);
    if at < |vs| {
      MergePlatformsOf(vs, at, info, k, p);
    } else {
      InsertPlatforms(vs, Position(vs, info.version), info, k, p);
    }
  }

  ghost function PublishedKeys(ops: seq<Op>): set<Version>
    requires Publishes(ops)
  {
    set op | op in ops :: Key(op.info.version)
  }

  ghost predicate PublishedFor(ops: seq<Op>, k: Version, p: Platform)
    requires Publishes(ops)
  {
    exists op | op in ops :: Key(op.info.version) == k && p in op.info.platforms
  }

  function VersionsOf(f: File): seq<Info> {
    if f.Stored? then f.catalog.versions else []
  }

  lemma PublishAllStep(ops: seq<Op>)
    requires Publishes(ops) && ops != []
    ensures var front, last := ops[..|ops| - 1], ops[|ops| - 1];
            && ops == front + [last] && Publishes(front) && last in ops
            && VersionsOf(PublishAll(Absent, ops)) == Place(VersionsOf(PublishAll(Absent, front)), last.info)
  {
    assert ops == ops[..|ops| - 1] + [ops[|ops| - 1]];
  }

  /** A publish-only run lists exactly the published versions... */
  lemma {:induction false} PublishedVersions(ops: seq<Op>)
    requires Publishes(ops)
    ensures Keys(VersionsOf(PublishAll(Absent, ops))) == PublishedKeys(ops)
    decreases |ops|
  {
    if ops != [] {
      var front, last := ops[..|ops| - 1], ops[|ops| - 1];
      PublishAllStep(ops);
      PublishedVersions(front);
      PlaceKeys(VersionsOf(PublishAll(Absent, front)), last.info);
      assert PublishedKeys(ops) == PublishedKeys(front) + {Key(last.info.version)};
    }
  }

  /** ...each with the union of the platforms published for it. */
  lemma {:induction false} PublishedPlatforms(ops: seq<Op>, k: Version, p: Platform)
    requires Publishes(ops)
    ensures Supports(VersionsOf(PublishAll(Absent, ops)), k, p) <==> PublishedFor(ops, k, p)
    decreases |ops|
  {
    if ops != [] {
      var front, last := ops[..|ops| - 1], ops[|ops| - 1];
      PublishAllStep(ops);
      PublishedPlatforms(front, k, p);
      PlacePlatforms(VersionsOf(PublishAll(Absent, front)), last.info, k, p);
    }
  }

  lemma {:induction false} SortedByKeys(a: seq<Info>, b: seq<Info>)
    requires NewestFirst(a) && NewestFirst(b) && Keys(a) == Keys(b)
    ensures |a| == |b| && forall i | 0 <= i < |a| :: Same(a[i].version, b[i].version)
    decreases |a|
  {
    NoKeys(a);
    NoKeys(b);
    if a != [] {
      SameHeads(a, b);
      DropHead(a);
      DropHead(b);
      SortedByKeys(a[1..], b[1..]);
      assert forall n | 1 <= n < |a| :: a[n] == a[1..][n - 1] && b[n] == b[1..][n - 1];
    }
  }

  lemma NoKeys(vs: seq<Info>)
    ensures Keys(vs) == {} <==> vs == []
  {
    if vs != [] {
      assert Key(vs[0].version) in Keys(vs);
    }
  }

  lemma SameHeads(a: seq<Info>, b: seq<Info>)
    requires NewestFirst(a) && NewestFirst(b) && Keys(a) == Keys(b) && a != []
    ensures b != [] && Same(a[0].version, b[0].version)
  {
    assert Key(a[0].version) in Keys(b);
    var i :| 0 <= i < |b| && Key(b[i].version) == Key(a[0].version);
    assert Key(b[0].version) in Keys(a);
    var j :| 0 <= j < |a| && Key(a[j].version) == Key(b[0].version);
    HeadsAgree(a, b, i, j);
  }

  lemma HeadsAgree(a: seq<Info>, b: seq<Info>, i: nat, j: nat)
    requires NewestFirst(a) && NewestFirst(b) && i < |b| && j < |a|
    requires Same(b[i].version, a[0].version) && Same(a[j].version, b[0].version)
    ensures Same(a[0].version, b[0].version)
  {
    CompareTotalOrder(a[0].version, a[j].version, b[0].version);
    CompareTotalOrder(b[0].version, b[i].version, a[0].version);
    CompareTotalOrder(a[0].version, b[0].version, b[i].version);
  }

  lemma DropHead(a: seq<Info>)
    requires NewestFirst(a) && a != []
    ensures NewestFirst(a[1..])
    ensures Keys(a[1..]) == Keys(a) - {Key(a[0].version)}
  {
    forall i | 0 < i < |a| ensures Key(a[i].version) != Key(a[0].version) {
      CompareTotalOrder(a[0].version, a[i].version, a[0].version);
    }
    assert forall i | 0 < i < |a| :: a[i] == a[1..][i - 1];
  }

  lemma EntryPlatforms(vs: seq<Info>, i: nat, p: Platform)
    requires NewestFirst(vs) && i < |vs|
    ensures Supports(vs, Key(vs[i].version), p) <==> p in vs[i].platforms
  {
    OnlyOneSame(vs, vs[i].version, i);
    if Supports(vs, Key(vs[i].version), p) {
      var j :| 0 <= j < |vs| && Key(vs[j].version) == Key(vs[i].version) && p in vs[j].platforms;
      assert Same(vs[j].version, vs[i].version);
    }
  }

  /** The same publications in any order list the same versions with the same platforms and latest version. */
  lemma PublishOrderIrrelevant(a: seq<Op>, b: seq<Op>)
    requires Publishes(a) && a != [] && multiset(a) == multiset(b)
    ensures Publishes(b)
    ensures var x, y := PublishAll(Absent, a), PublishAll(Absent, b);
            && x.Stored? && y.Stored? && |x.catalog.versions| == |y.catalog.versions|
            && Same(x.catalog.latest, y.catalog.latest)
            && forall i | 0 <= i < |x.catalog.versions| ::
                 && Same(x.catalog.versions[i].version, y.catalog.versions[i].version)
                 && forall p :: p in x.catalog.versions[i].platforms <==> p in y.catalog.versions[i].platforms
  {
    SameMembers(a, b);
    assert b != [] by { assert a[0] in b; }
    PublishOnlyLatest(a);
    PublishOnlyLatest(b);
    var x, y := PublishAll(Absent, a).catalog.versions, PublishAll(Absent, b).catalog.versions;
    PublishedVersions(a);
    PublishedVersions(b);
    assert PublishedKeys(a) == PublishedKeys(b);
    SortedByKeys(x, y);
    forall i, p | 0 <= i < |x| ensures p in x[i].platforms <==> p in y[i].platforms {
      var k := Key(x[i].version);
      assert k == Key(y[i].version);
      PublishedPlatforms(a, k, p);
      PublishedPlatforms(b, k, p);
      EntryPlatforms(x, i, p);
      EntryPlatforms(y, i, p);
    }
  }

  lemma SameMembers(a: seq<Op>, b: seq<Op>)
    requires multiset(a) == multiset(b)
    ensures forall op :: op in a <==> op in b
  {
    forall op ensures op in a <==> op in b {
      assert op in a <==> op in multiset(a);
      assert op in b <==> op in multiset(b);
    }
  }

  /** Entries never repeat a platform when no publication does. */
  lemma {:induction false} PlatformsDoNotRepeat(ops: seq<Op>)
    requires Publishes(ops) && forall op | op in ops :: NoRepeat(op.info.platforms)
    ensures forall i | 0 <= i < |VersionsOf(PublishAll(Absent, ops))| ::
              NoRepeat(VersionsOf(PublishAll(Absent, ops))[i].platforms)
    decreases |ops|
  {
    if ops != [] {
      var front, last := ops[..|ops| - 1], ops[|ops| - 1];
      PublishAllStep(ops);
      PlatformsDoNotRepeat(front);
      var vs := VersionsOf(PublishAll(Absent, front));
      var at := Find(vs, last.info.version);
      if at < |vs| {
        MergeIsUnion(vs[at].platforms, last.info.platforms);
      }
    }
  }
}
