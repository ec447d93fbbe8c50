/** Requests per address: a fixed-window counter over a bounded table with expiry sweeps and sampled eviction
    (crates/deltaship-server/src/rate_limit.rs). */
module RateLimit {
  import opened Text
  import opened Eviction

  type Address = string
  type Time = nat

  datatype Entry = Entry(count: nat, windowStart: Time, lastAccess: Time)

  type Entries = map<Address, Entry>

  datatype Config = Config(maxRequests: nat, window: nat)

  /* The table */

  function Live(cfg: Config, entries: Entries, now: Time): (r: Entries)
    ensures r.Keys <= entries.Keys && |r| <= |entries|
  {
    var r := map ip | ip in entries && Since(now, entries[ip].windowStart) < cfg.window :: entries[ip];
    SubsetSize(r.Keys, entries.Keys);
    r
  }

  /** The addresses a full table gives up, for the order in which it happens to be iterated. */
  function Victims(entries: Entries, order: seq<Address>): seq<Address> {
    OldestOf(Accesses(entries), order, |entries|)
  }

  function Accesses(entries: Entries): map<Address, Time> {
    map ip | ip in entries :: entries[ip].lastAccess
  }

  function Evicted(cfg: Config, entries: Entries, now: Time, order: seq<Address>): seq<Address> {
    if |entries| < MAX_ENTRIES || |Live(cfg, entries, now)| < MAX_ENTRIES then []
    else Victims(Live(cfg, entries, now), order)
  }

  function MakeRoom(cfg: Config, entries: Entries, now: Time, order: seq<Address>): Entries {
    if |entries| < MAX_ENTRIES then entries
    else Live(cfg, entries, now) - Members(Evicted(cfg, entries, now, order))
  }

  function Touch(cfg: Config, entries: Entries, ip: Address, now: Time): (bool, Entry) {
    var e := if ip in entries then entries[ip] else Entry(0, now, now);
    var e' := if Since(now, e.windowStart) >= cfg.window then Entry(0, now, now) else e.(lastAccess := now);
    if e'.count >= cfg.maxRequests then (false, e') else (true, e'.(count := e'.count + 1))
  }

  function Room(cfg: Config, entries: Entries, ip: Address, now: Time, order: seq<Address>): Entries {
    if ip in entries then entries else MakeRoom(cfg, entries, now, order)
  }

  class RateLimiter {
    var entries: Entries
    const cfg: Config

    ghost predicate Valid()
      reads this
    {
      |entries| <= MAX_ENTRIES
    }

    constructor (maxRequests: nat, window: nat)
      ensures entries == map[] && cfg == Config(maxRequests, window) && Valid()
    {
      entries, cfg := map[], Config(maxRequests, window);
    }

    method CleanupExpired(now: Time)
      requires Valid()
      modifies this
      ensures Valid() && entries == Live(cfg, old(entries), now)
    {
      var live := map ip | ip in entries && Since(now, entries[ip].windowStart) < cfg.window :: entries[ip];
      assert live == Live(cfg, entries, now);
      entries := live;
    }

    method EvictWhenFull(now: Time, order: seq<Address>)
      requires Valid() && Enumerates(order, entries.Keys)
      modifies this
      ensures Valid() && |entries| < MAX_ENTRIES
      ensures entries == MakeRoom(cfg, old(entries), now, order)
    {
      if |entries| < MAX_ENTRIES {
        return;
      }
      CleanupExpired(now);
      if |entries| < MAX_ENTRIES {
        assert entries == entries - Members([]);
        return;
      }
      var victims := Victims(entries, order);
      RemoveAll(victims);
      MakeRoomFits(cfg, old(entries), now, order);
    }

    method RemoveAll(victims: seq<Address>)
      modifies this
      ensures entries == old(entries) - Members(victims)
    {
      for k := 0 to |victims|
        invariant entries == old(entries) - Members(victims[..k])
      {
        assert Members(victims[..k + 1]) == Members(victims[..k]) + {victims[k]};
        entries := entries - {victims[k]};
      }
      assert victims[..|victims|] == victims;
    }

    method CheckRateLimit(ip: Address, now: Time, order: seq<Address>) returns (admitted: bool)
      requires Valid() && Enumerates(order, entries.Keys)
      modifies this
      ensures Valid()
      ensures var room := Room(cfg, old(entries), ip, now, order);
              && admitted == Touch(cfg, room, ip, now).0
              && entries == room[ip := Touch(cfg, room, ip, now).1]
    {
      if ip !in entries && |entries| >= MAX_ENTRIES {
        EvictWhenFull(now, order);
      }
      admitted := Count(ip, now);
    }

    /** The part of a check that follows the capacity guard. */
    method Count(ip: Address, now: Time) returns (admitted: bool)
      requires Valid() && (ip in entries || |entries| < MAX_ENTRIES)
      modifies this
      ensures Valid()
      ensures admitted == Touch(cfg, old(entries), ip, now).0
      ensures entries == old(entries)[ip := Touch(cfg, old(entries), ip, now).1]
    {
      var entry := if ip in entries then entries[ip] else Entry(0, now, now);
      entry := entry.(lastAccess := now);
      if Since(now, entry.windowStart) >= cfg.window {
        entry := entry.(count := 0, windowStart := now);
      }
      admitted := entry.count < cfg.maxRequests;
      if admitted {
        entry := entry.(count := entry.count + 1);
      }
      InsertSize(entries, ip, entry);
      entries := entries[ip := entry];
    }
  }

  lemma InsertSize(entries: Entries, ip: Address, entry: Entry)
    ensures |entries[ip := entry]| == |entries| + if ip in entries then 0 else 1
  {
    assert entries[ip := entry].Keys == entries.Keys + {ip};
    assert |entries| == |entries.Keys| && |entries[ip := entry]| == |entries[ip := entry].Keys|;
  }

  /** A full table, still full after dropping the expired entries, loses exactly a tenth of its capacity, and
      nothing that was used later than a sampled survivor. */
  lemma MakeRoomFits(cfg: Config, entries: Entries, now: Time, order: seq<Address>)
    requires |entries| <= MAX_ENTRIES && Enumerates(order, entries.Keys)
    ensures |MakeRoom(cfg, entries, now, order)| < MAX_ENTRIES
    ensures var live := Live(cfg, entries, now);
            |entries| == |live| == MAX_ENTRIES ==>
              && |MakeRoom(cfg, entries, now, order)| == MAX_ENTRIES - LRU_EVICTION_COUNT
              && forall v, w | v in Evicted(cfg, entries, now, order) && w in Sampled(live.Keys, order, |live|)
                               && w !in Evicted(cfg, entries, now, order) ::
                   v in live && w in live && live[v].lastAccess <= live[w].lastAccess
  {
    var live := Live(cfg, entries, now);
    if |live| == MAX_ENTRIES {
      assert Accesses(live).Keys == live.Keys;
      OldestOfIsOldest(Accesses(live), order, |live|, entries.Keys);
      var victims := Victims(live, order);
      RemoveSize(live.Keys, victims);
      assert (live - Members(victims)).Keys == live.Keys - Members(victims);
    }
  }

  /* Each operation, in plain terms */

  /** A sweep keeps exactly the entries whose window is not over, as they are. */
  lemma SweepIs(cfg: Config, entries: Entries, now: Time, ip: Address)
    ensures var r := Live(cfg, entries, now);
            && (ip in r <==> ip in entries && (if now < entries[ip].windowStart then 0 < cfg.window
                                               else now - entries[ip].windowStart < cfg.window))
            && (ip in r ==> r[ip] == entries[ip])
  {
  }

  /** A request starts a new window if there is none or it is over, is admitted exactly while the count is below the
      quota, which it then raises by one, and is noted as the last access whether admitted or not. */
  lemma TouchIs(cfg: Config, entries: Entries, ip: Address, now: Time)
    requires ip in entries ==> entries[ip].windowStart <= now
    ensures var (admitted, e) := Touch(cfg, entries, ip, now);
            var anew := ip !in entries || now - entries[ip].windowStart >= cfg.window;
            var count := if anew then 0 else entries[ip].count;
            && e.lastAccess == now && e.windowStart == (if anew then now else entries[ip].windowStart)
            && (admitted <==> count < cfg.maxRequests) && e.count == if admitted then count + 1 else count
  {
  }

  /** A request of a known address, or to a table with room, changes that address's entry alone; to a full table it
      first drops the expired entries and, if all 100,000 are live, 10,000 of them. */
  lemma RequestIs(cfg: Config, entries: Entries, ip: Address, now: Time, order: seq<Address>)
    requires |entries| <= 100_000 && Enumerates(order, entries.Keys)
    ensures var room := Room(cfg, entries, ip, now, order);
            && (ip in entries || |entries| < 100_000 ==> room == entries)
            && (ip !in entries && |entries| == 100_000 ==>
                  && (forall a | a in room :: a in Live(cfg, entries, now) && room[a] == entries[a])
                  && (|Live(cfg, entries, now)| < 100_000 ==> room == Live(cfg, entries, now))
                  && (|Live(cfg, entries, now)| == 100_000 ==> |room| == 90_000))
  {
    if ip !in entries && |entries| == 100_000 {
      MakeRoomFits(cfg, entries, now, order);
      var live := Live(cfg, entries, now);
      assert |live| < 100_000 ==> live - Members([]) == live;
    }
  }

  /* Whole traces */

  datatype Event = Request(ip: Address, now: Time, order: seq<Address>) | Sweep(now: Time)

  function After(cfg: Config, entries: Entries, e: Event): Entries {
    match e
    case Sweep(now) => Live(cfg, entries, now)
    case Request(ip, now, order) =>
      var room := Room(cfg, entries, ip, now, order);
      room[ip := Touch(cfg, room, ip, now).1]
  }

  function Admits(cfg: Config, entries: Entries, e: Event): bool
    requires e.Request?
  {
    Touch(cfg, Room(cfg, entries, e.ip, e.now, e.order), e.ip, e.now).0
  }

  /** Time does not run backwards, and each request names an order in which its table could be iterated. */
  ghost predicate Legal(cfg: Config, entries: Entries, clock: Time, events: seq<Event>)
    decreases |events|
  {
    events != [] ==>
      && clock <= events[0].now
      && (events[0].Request? ==> Enumerates(events[0].order, entries.Keys))
      && Legal(cfg, After(cfg, entries, events[0]), events[0].now, events[1..])
  }

  /** What the limiter answers to the requests of `ip`. */
  function Answers(cfg: Config, entries: Entries, events: seq<Event>, ip: Address): seq<bool>
    decreases |events|
  {
    if events == [] then []
    else
      var rest := Answers(cfg, After(cfg, entries, events[0]), events[1..], ip);
      if events[0].Request? && events[0].ip == ip then [Admits(cfg, entries, events[0])] + rest else rest
  }

  function TimesOf(events: seq<Event>, ip: Address): seq<Time>
    decreases |events|
  {
    if events == [] then []
    else if events[0].Request? && events[0].ip == ip then [events[0].now] + TimesOf(events[1..], ip)
    else TimesOf(events[1..], ip)
  }

  method Serve(limiter: RateLimiter, clock: Time, events: seq<Event>, ip: Address) returns (answers: seq<bool>)
    requires limiter.Valid() && Legal(limiter.cfg, limiter.entries, clock, events)
    modifies limiter
    ensures limiter.Valid()
    ensures answers == Answers(limiter.cfg, old(limiter.entries), events, ip)
  {
    answers := [];
    ghost var now := clock;
    for n := 0 to |events|
      invariant limiter.Valid() && Legal(limiter.cfg, limiter.entries, now, events[n..])
      invariant answers + Answers(limiter.cfg, limiter.entries, events[n..], ip)
                == Answers(limiter.cfg, old(limiter.entries), events, ip)
    {
      ghost var before := limiter.entries;
      assert events[n..][0] == events[n] && events[n..][1..] == events[n + 1..];
      match events[n] {
        case Sweep(t) =>
          limiter.CleanupExpired(t);
        case Request(a, t, order) =>
          var admitted := limiter.CheckRateLimit(a, t, order);
          if a == ip {
            answers := answers + [admitted];
          }
      }
      assert limiter.entries == After(limiter.cfg, before, events[n]);
      now := events[n].now;
    }
  }

  /* One address by itself: the reference counter */

  datatype Window = Window(count: nat, start: Time)

  function Tick(cfg: Config, w: Option<Window>, now: Time): (bool, Window) {
    var w' := if w.None? || Since(now, w.value.start) >= cfg.window then Window(0, now) else w.value;
    if w'.count >= cfg.maxRequests then (false, w') else (true, w'.(count := w'.count + 1))
  }

  function FixedWindow(cfg: Config, w: Option<Window>, times: seq<Time>): seq<bool>
    decreases |times|
  {
    if times == [] then []
    else [Tick(cfg, w, times[0]).0] + FixedWindow(cfg, Some(Tick(cfg, w, times[0]).1), times[1..])
  }

  /** `ip` is never among the addresses a full table gives up. */
  ghost predicate NeverEvicted(cfg: Config, entries: Entries, events: seq<Event>, ip: Address)
    decreases |events|
  {
    events != [] ==>
      && (events[0].Request? && events[0].ip !in entries ==>
            ip !in Evicted(cfg, entries, events[0].now, events[0].order))
      && NeverEvicted(cfg, After(cfg, entries, events[0]), events[1..], ip)
  }

  /** The table knows the reference window, or has dropped one that is over. */
  ghost predicate Tracks(cfg: Config, entries: Entries, ip: Address, w: Option<Window>, clock: Time) {
    if ip in entries then w == Some(Window(entries[ip].count, entries[ip].windowStart))
    else w.Some? ==> Since(clock, w.value.start) >= cfg.window
  }

  lemma SweepTracks(cfg: Config, entries: Entries, ip: Address, w: Option<Window>, clock: Time, now: Time)
    requires Tracks(cfg, entries, ip, w, clock) && clock <= now
    ensures Tracks(cfg, Live(cfg, entries, now), ip, w, now)
  {
  }

  lemma RoomTracks(cfg: Config, entries: Entries, ip: Address, w: Option<Window>, clock: Time, a: Address, now: Time,
                   order: seq<Address>)
    requires Tracks(cfg, entries, ip, w, clock) && clock <= now
    requires a !in entries ==> ip !in Evicted(cfg, entries, now, order)
    ensures Tracks(cfg, Room(cfg, entries, a, now, order), ip, w, now)
  {
    SweepTracks(cfg, entries, ip, w, clock, now);
  }

  lemma TouchTicks(cfg: Config, room: Entries, ip: Address, w: Option<Window>, now: Time)
    requires Tracks(cfg, room, ip, w, now)
    ensures Touch(cfg, room, ip, now).0 == Tick(cfg, w, now).0
    ensures Tracks(cfg, room[ip := Touch(cfg, room, ip, now).1], ip, Some(Tick(cfg, w, now).1), now)
  {
  }

  lemma {:induction false} AnswersTrack(cfg: Config, entries: Entries, clock: Time, events: seq<Event>, ip: Address,
                                        w: Option<Window>)
    requires Legal(cfg, entries, clock, events) && NeverEvicted(cfg, entries, events, ip)
    requires Tracks(cfg, entries, ip, w, clock)
    ensures Answers(cfg, entries, events, ip) == FixedWindow(cfg, w, TimesOf(events, ip))
    decreases |events|
  {
    if events != [] {
      var e, rest := events[0], events[1..];
      var w' := w;
      match e {
        case Sweep(now) =>
          SweepTracks(cfg, entries, ip, w, clock, now);
        case Request(a, now, order) =>
          RoomTracks(cfg, entries, ip, w, clock, a, now, order);
          if a == ip {
            TouchTicks(cfg, Room(cfg, entries, ip, now, order), ip, w, now);
            w' := Some(Tick(cfg, w, now).1);
            assert ([now] + TimesOf(rest, ip))[1..] == TimesOf(rest, ip);
          }
      }
      AnswersTrack(cfg, After(cfg, entries, e), e.now, rest, ip, w');
    }
  }

  /** An address that is never evicted is answered as if it had a counter of its own: neither other addresses,
      nor sweeps, nor the iteration order change an answer. */
  lemma AnswersAreFixedWindow(cfg: Config, clock: Time, events: seq<Event>, ip: Address)
    requires Legal(cfg, map[], clock, events) && NeverEvicted(cfg, map[], events, ip)
    ensures Answers(cfg, map[], events, ip) == FixedWindow(cfg, None, TimesOf(events, ip))
  {
    AnswersTrack(cfg, map[], clock, events, ip, None);
  }

  lemma {:induction false} SweepsInvisible(cfg: Config, clock: Time, a: seq<Event>, b: seq<Event>, ip: Address)
    requires Legal(cfg, map[], clock, a) && NeverEvicted(cfg, map[], a, ip)
    requires Legal(cfg, map[], clock, b) && NeverEvicted(cfg, map[], b, ip)
    requires TimesOf(a, ip) == TimesOf(b, ip)
    ensures Answers(cfg, map[], a, ip) == Answers(cfg, map[], b, ip)
  {
    AnswersAreFixedWindow(cfg, clock, a, ip);
    AnswersAreFixedWindow(cfg, clock, b, ip);
  }

  /* The burst bound */

  /** Admissions within `[a, a + window)`. */
  function Admitted(cfg: Config, times: seq<Time>, answers: seq<bool>, a: Time): nat
    requires |times| == |answers|
    decreases |times|
  {
    if times == [] then 0
    else (if answers[0] && a <= times[0] < a + cfg.window then 1 else 0) + Admitted(cfg, times[1..], answers[1..], a)
  }

  ghost predicate Ascending(clock: Time, times: seq<Time>)
    decreases |times|
  {
    times != [] ==> clock <= times[0] && Ascending(times[0], times[1..])
  }

  function Tally(cfg: Config, w: Option<Window>, times: seq<Time>, a: Time): nat
    decreases |times|
  {
    if times == [] then 0
    else
      (if Tick(cfg, w, times[0]).0 && a <= times[0] < a + cfg.window then 1 else 0)
      + Tally(cfg, Some(Tick(cfg, w, times[0]).1), times[1..], a)
  }

  lemma {:induction false} TallyIsAdmitted(cfg: Config, w: Option<Window>, times: seq<Time>, a: Time)
    ensures |FixedWindow(cfg, w, times)| == |times|
    ensures Admitted(cfg, times, FixedWindow(cfg, w, times), a) == Tally(cfg, w, times, a)
    decreases |times|
  {
    if times != [] {
      var w' := Some(Tick(cfg, w, times[0]).1);
      TallyIsAdmitted(cfg, w', times[1..], a);
      assert FixedWindow(cfg, w, times)[1..] == FixedWindow(cfg, w', times[1..]);
    }
  }

  lemma {:induction false} NoneAfter(cfg: Config, w: Option<Window>, times: seq<Time>, a: Time, clock: Time)
    requires Ascending(clock, times) && a + cfg.window <= clock
    ensures Tally(cfg, w, times, a) == 0
    decreases |times|
  {
    if times != [] {
      NoneAfter(cfg, Some(Tick(cfg, w, times[0]).1), times[1..], a, times[0]);
    }
  }

  /** A window that began inside the interval outlasts it. */
  lemma {:induction false} OneWindow(cfg: Config, w: Window, times: seq<Time>, a: Time, clock: Time)
    requires Ascending(clock, times) && a <= w.start <= clock && w.count <= cfg.maxRequests
    ensures Tally(cfg, Some(w), times, a) <= cfg.maxRequests - w.count
    decreases |times|
  {
    if times != [] {
      if times[0] >= a + cfg.window {
        NoneAfter(cfg, Some(Tick(cfg, Some(w), times[0]).1), times[1..], a, times[0]);
      } else {
        OneWindow(cfg, Tick(cfg, Some(w), times[0]).1, times[1..], a, times[0]);
      }
    }
  }

  lemma {:induction false} TwoWindows(cfg: Config, w: Option<Window>, times: seq<Time>, a: Time, clock: Time)
    requires Ascending(clock, times) && cfg.maxRequests > 0
    requires w.Some? ==> 0 < w.value.count <= cfg.maxRequests && w.value.start <= clock
    ensures Tally(cfg, w, times, a) <= 2 * cfg.maxRequests - 1
    ensures a <= clock && w.Some? ==> Tally(cfg, w, times, a) <= 2 * cfg.maxRequests - w.value.count
    decreases |times|
  {
    if times != [] {
      var now := times[0];
      var w' := Tick(cfg, w, now).1;
      if a <= now && w'.start == now {
        OneWindow(cfg, w', times[1..], a, now);
      } else {
        TwoWindows(cfg, Some(w'), times[1..], a, now);
      }
    }
  }

  lemma {:induction false} NeverWhenZero(cfg: Config, w: Option<Window>, times: seq<Time>, a: Time)
    requires cfg.maxRequests == 0
    ensures Tally(cfg, w, times, a) == 0
    decreases |times|
  {
    if times != [] {
      NeverWhenZero(cfg, Some(Tick(cfg, w, times[0]).1), times[1..], a);
    }
  }

  lemma {:induction false} TimesAscend(cfg: Config, entries: Entries, clock: Time, events: seq<Event>, ip: Address,
                                       start: Time)
    requires Legal(cfg, entries, clock, events) && start <= clock
    ensures Ascending(start, TimesOf(events, ip))
    decreases |events|
  {
    if events != [] {
      var e, rest := events[0], events[1..];
      if e.Request? && e.ip == ip {
        TimesAscend(cfg, After(cfg, entries, e), e.now, rest, ip, e.now);
        assert ([e.now] + TimesOf(rest, ip))[1..] == TimesOf(rest, ip);
      } else {
        TimesAscend(cfg, After(cfg, entries, e), e.now, rest, ip, start);
      }
    }
  }

  /** An interval of one tick sees one window, and an empty one sees nothing. */
  lemma {:induction false} ShortWindow(cfg: Config, w: Option<Window>, times: seq<Time>, a: Time, clock: Time)
    requires Ascending(clock, times) && cfg.window <= 1
    requires w.Some? ==> w.value.count <= cfg.maxRequests && w.value.start <= clock && w.value.start < a
    ensures Tally(cfg, w, times, a) <= cfg.window * cfg.maxRequests
    decreases |times|
  {
    if times != [] {
      var now := times[0];
      var w' := Tick(cfg, w, now).1;
      if now >= a + cfg.window {
        NoneAfter(cfg, Some(w'), times[1..], a, now);
      } else if now >= a {
        OneWindow(cfg, w', times[1..], a, now);
      } else {
        ShortWindow(cfg, Some(w'), times[1..], a, now);
      }
    }
  }

  /** The most admissions an interval of one window length can hold. */
  function MostAdmissions(cfg: Config): nat {
    if cfg.maxRequests == 0 || cfg.window == 0 then 0
    else if cfg.window == 1 then cfg.maxRequests
    else 2 * cfg.maxRequests - 1
  }

  lemma TallyBound(cfg: Config, times: seq<Time>, a: Time, clock: Time)
    requires Ascending(clock, times)
    ensures Tally(cfg, None, times, a) <= MostAdmissions(cfg)
  {
    if cfg.maxRequests == 0 {
      NeverWhenZero(cfg, None, times, a);
    } else if cfg.window <= 1 {
      ShortWindow(cfg, None, times, a, clock);
    } else {
      TwoWindows(cfg, None, times, a, clock);
    }
  }

  /** In any interval of one window length an address that is never evicted gets fewer than twice its quota; a window of
      one clock tick allows one quota. */
  lemma BurstBound(cfg: Config, clock: Time, events: seq<Event>, ip: Address, a: Time)
    requires Legal(cfg, map[], clock, events) && NeverEvicted(cfg, map[], events, ip)
    ensures |Answers(cfg, map[], events, ip)| == |TimesOf(events, ip)|
    ensures Admitted(cfg, TimesOf(events, ip), Answers(cfg, map[], events, ip), a) <= MostAdmissions(cfg)
    ensures MostAdmissions(cfg) < 2 * cfg.maxRequests || cfg.maxRequests == 0
  {
    var times := TimesOf(events, ip);
    AnswersAreFixedWindow(cfg, clock, events, ip);
    TallyIsAdmitted(cfg, None, times, a);
    TimesAscend(cfg, map[], clock, events, ip, clock);
    TallyBound(cfg, times, a, clock);
  }

  function Repeat(t: Time, n: nat): (r: seq<Time>) {
    seq(n, _ => t)
  }

  lemma {:induction false} RepeatAdmits(cfg: Config, w: Window, t: Time, n: nat, rest: seq<Time>, a: Time)
    requires w.start <= t < w.start + cfg.window && a <= t < a + cfg.window && w.count + n <= cfg.maxRequests
    ensures Tally(cfg, Some(w), Repeat(t, n) + rest, a) == n + Tally(cfg, Some(w.(count := w.count + n)), rest, a)
    decreases n
  {
    var times := Repeat(t, n) + rest;
    if n == 0 {
      assert times == rest;
    } else {
      RepeatAdmits(cfg, w.(count := w.count + 1), t, n - 1, rest, a);
      assert times[1..] == Repeat(t, n - 1) + rest;
    }
  }

  /** One request, the rest of the quota at the window's end, and a whole quota right after. */
  function Squeeze(cfg: Config): seq<Time> {
    if cfg.maxRequests == 0 || cfg.window == 0 then []
    else if cfg.window == 1 then Repeat(0, cfg.maxRequests)
    else [0] + (Repeat(cfg.window - 1, cfg.maxRequests - 1) + Repeat(cfg.window, cfg.maxRequests))
  }

  /** Where the fullest interval of `Squeeze` begins. */
  function SqueezeStart(cfg: Config): Time {
    if cfg.window == 0 then 0 else cfg.window - 1
  }

  lemma LongSqueeze(cfg: Config)
    requires cfg.maxRequests > 0 && cfg.window > 1
    ensures Tally(cfg, None, Squeeze(cfg), cfg.window - 1) == 2 * cfg.maxRequests - 1
  {
    var m, a := cfg.maxRequests, cfg.window - 1;
    var second := Repeat(cfg.window, m);
    var tail := Repeat(a, m - 1) + second;
    assert Squeeze(cfg)[1..] == tail;
    RepeatAdmits(cfg, Window(1, 0), a, m - 1, second, a);
    assert second[1..] == Repeat(cfg.window, m - 1) + [];
    RepeatAdmits(cfg, Window(1, cfg.window), cfg.window, m - 1, [], a);
  }

  lemma TickSqueeze(cfg: Config)
    requires cfg.maxRequests > 0 && cfg.window == 1
    ensures Tally(cfg, None, Squeeze(cfg), 0) == cfg.maxRequests
  {
    assert Squeeze(cfg)[1..] == Repeat(0, cfg.maxRequests - 1) + [];
    RepeatAdmits(cfg, Window(1, 0), 0, cfg.maxRequests - 1, [], 0);
  }

  lemma {:induction false} RepeatAscends(t: Time, n: nat, rest: seq<Time>, clock: Time)
    requires clock <= t && Ascending(t, rest)
    ensures Ascending(clock, Repeat(t, n) + rest)
    decreases n
  {
    var times := Repeat(t, n) + rest;
    if n == 0 {
      assert times == rest;
    } else {
      RepeatAscends(t, n - 1, rest, t);
      assert times[1..] == Repeat(t, n - 1) + rest;
    }
  }

  lemma SqueezeAscends(cfg: Config)
    ensures Ascending(0, Squeeze(cfg))
  {
    if cfg.maxRequests > 0 && cfg.window == 1 {
      RepeatAscends(0, cfg.maxRequests, [], 0);
      assert Squeeze(cfg) == Repeat(0, cfg.maxRequests) + [];
    } else if cfg.maxRequests > 0 && cfg.window > 1 {
      var second := Repeat(cfg.window, cfg.maxRequests);
      RepeatAscends(cfg.window, cfg.maxRequests, [], cfg.window - 1);
      assert second == second + [];
      RepeatAscends(cfg.window - 1, cfg.maxRequests - 1, second, 0);
      assert Squeeze(cfg)[1..] == Repeat(cfg.window - 1, cfg.maxRequests - 1) + second;
    }
  }

  /** Requests of one address at the given times, to a table that holds nobody else. */
  function Requests(ip: Address, times: seq<Time>, known: bool): seq<Event>
    decreases |times|
  {
    if times == [] then []
    else [Request(ip, times[0], if known then [ip] else [])] + Requests(ip, times[1..], true)
  }

  lemma {:induction false} RequestsAreLegal(cfg: Config, entries: Entries, ip: Address, times: seq<Time>, clock: Time)
    requires Ascending(clock, times) && entries.Keys <= {ip}
    ensures var events := Requests(ip, times, ip in entries);
            Legal(cfg, entries, clock, events) && NeverEvicted(cfg, entries, events, ip) && TimesOf(events, ip) == times
    decreases |times|
  {
    if times != [] {
      var events := Requests(ip, times, ip in entries);
      var entries' := After(cfg, entries, events[0]);
      OnlyOneAddress(cfg, entries, ip, times[0], events[0].order);
      RequestsAreLegal(cfg, entries', ip, times[1..], times[0]);
      assert events[1..] == Requests(ip, times[1..], true);
    }
  }

  lemma OnlyOneAddress(cfg: Config, entries: Entries, ip: Address, now: Time, order: seq<Address>)
    requires entries.Keys <= {ip}
    ensures After(cfg, entries, Request(ip, now, order)).Keys == {ip} && Evicted(cfg, entries, now, order) == []
    ensures Enumerates(if ip in entries then [ip] else [], entries.Keys)
  {
    SubsetSize(entries.Keys, {ip});
    assert |entries| == |entries.Keys|;
    assert entries.Keys == if ip in entries then {ip} else {};
    assert multiset([ip]) == multiset({ip});
  }

  /** The bound is met for every quota and window, by a trace of the limiter itself. */
  lemma BurstBoundIsTight(cfg: Config, ip: Address)
    ensures var events := Requests(ip, Squeeze(cfg), false);
            && Legal(cfg, map[], 0, events) && NeverEvicted(cfg, map[], events, ip)
            && |TimesOf(events, ip)| == |Answers(cfg, map[], events, ip)|
            && Admitted(cfg, TimesOf(events, ip), Answers(cfg, map[], events, ip), SqueezeStart(cfg))
               == MostAdmissions(cfg)
  {
    var times, events := Squeeze(cfg), Requests(ip, Squeeze(cfg), false);
    SqueezeAscends(cfg);
    RequestsAreLegal(cfg, map[], ip, times, 0);
    AnswersAreFixedWindow(cfg, 0, events, ip);
    TallyIsAdmitted(cfg, None, times, SqueezeStart(cfg));
    if cfg.maxRequests > 0 && cfg.window == 1 {
      TickSqueeze(cfg);
    } else if cfg.maxRequests > 0 && cfg.window > 1 {
      LongSqueeze(cfg);
    }
  }
}
