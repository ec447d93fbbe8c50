/** Failed logins per address: an exponential backoff over a bounded table
    (crates/deltaship-server/src/rate_limit.rs). Times are in nanoseconds. */
module AuthBackoff {
  import opened Text
  import opened Eviction

  const AUTH_FAILURE_THRESHOLD: nat := 5
  const AUTH_BACKOFF_BASE_SECONDS: nat := 60
  const MAX_AUTH_BACKOFF_SECONDS: nat := 600

  const U32: nat := 0x1_0000_0000
  const U64: nat := 0x1_0000_0000_0000_0000

  type Address = string
  type Time = nat

  datatype Entry = Entry(failureCount: nat, backoffUntil: Option<Time>, lastAccess: Time)

  type Entries = map<Address, Entry>

  function Seconds(n: nat): Time { n * 1_000_000_000 }

  predicate InBackoff(e: Entry, now: Time) {
    e.backoffUntil.Some? && now < e.backoffUntil.value
  }

  /* The penalty */

  function Pow2(k: nat): (r: nat)
    ensures r > 0
    decreases k
  {
    if k == 0 then 1 else 2 * Pow2(k - 1)
  }

  /** `(60 * 2_u64.pow(k)).min(600)` in wrapping 64-bit arithmetic. */
  function Penalty(k: nat): nat {
    Min(AUTH_BACKOFF_BASE_SECONDS * (Pow2(k) % U64) % U64, MAX_AUTH_BACKOFF_SECONDS)
  }

  /** The documented ladder. */
  function Ladder(k: nat): nat {
    Min(AUTH_BACKOFF_BASE_SECONDS * Pow2(k), MAX_AUTH_BACKOFF_SECONDS)
  }

  lemma Pow2Values()
    ensures Pow2(4) == 16 && Pow2(58) == 0x400_0000_0000_0000
  {
    assert Pow2(8) == 0x100;
    assert Pow2(16) == 0x1_0000;
    assert Pow2(24) == 0x100_0000;
    assert Pow2(32) == 0x1_0000_0000;
    assert Pow2(40) == 0x100_0000_0000;
    assert Pow2(48) == 0x1_0000_0000_0000;
  }

  lemma {:induction false} Pow2Grows(j: nat, k: nat)
    requires j <= k
    ensures Pow2(j) <= Pow2(k)
    decreases k
  {
    if j < k {
      Pow2Grows(j, k - 1);
    }
  }

  lemma {:induction false} HighPowersVanish(k: nat)
    requires k >= 64
    ensures Pow2(k) % U64 == 0
    decreases k
  {
    if k == 64 {
      Pow2Values();
      assert Pow2(61) == 8 * Pow2(58);
      assert Pow2(64) == 8 * Pow2(61);
    } else {
      HighPowersVanish(k - 1);
    }
  }

  /** The wrapping product is the documented ladder exactly up to exponent 61; from 62 on the penalty is zero. */
  lemma PenaltyFollowsLadder(k: nat)
    ensures Penalty(k) == Ladder(k) <==> k < 62
    ensures k >= 62 ==> Penalty(k) == 0
  {
    Pow2Values();
    if k <= 58 {
      LowPowers(k);
    } else {
      Pow2Grows(4, k);
      if k >= 64 {
        HighPowersVanish(k);
      } else {
        LastPowers(k);
      }
    }
  }

  lemma LowPowers(k: nat)
    requires k <= 58
    ensures Penalty(k) == Ladder(k)
  {
    Pow2Values();
    Pow2Grows(k, 58);
    NoWrap(Pow2(k));
  }

  lemma NoWrap(x: nat)
    requires AUTH_BACKOFF_BASE_SECONDS * x < U64
    ensures AUTH_BACKOFF_BASE_SECONDS * (x % U64) % U64 == AUTH_BACKOFF_BASE_SECONDS * x
  {
    assert x % U64 == x;
  }

  lemma LastPowers(k: nat)
    requires 59 <= k < 64
    ensures Pow2(k) < U64
    ensures AUTH_BACKOFF_BASE_SECONDS * Pow2(k) % U64 > MAX_AUTH_BACKOFF_SECONDS <==> k < 62
    ensures k >= 62 ==> AUTH_BACKOFF_BASE_SECONDS * Pow2(k) % U64 == 0
  {
    Pow2Values();
    assert Pow2(59) == 2 * Pow2(58);
    assert Pow2(60) == 2 * Pow2(59);
    assert Pow2(61) == 2 * Pow2(60);
    assert Pow2(62) == 2 * Pow2(61);
    assert Pow2(63) == 2 * Pow2(62);
  }

  /** While the arithmetic does not wrap to zero, a longer history never has a shorter penalty. */
  lemma PenaltyNeverShrinks(j: nat, k: nat)
    requires j <= k
    ensures Penalty(j) <= Penalty(k) <==> k < 62 || j >= 62
  {
    PenaltyFollowsLadder(j);
    PenaltyFollowsLadder(k);
    Pow2Grows(j, k);
  }

  /* The table */

  predicate Keeps(e: Entry, now: Time) {
    InBackoff(e, now) || Since(now, e.lastAccess) < Seconds(MAX_AUTH_BACKOFF_SECONDS)
  }

  function Retained(entries: Entries, now: Time): (r: Entries)
    ensures r.Keys <= entries.Keys && |r| <= |entries|
    ensures |r| == |entries| ==> r == entries
  {
    var r := map ip | ip in entries && Keeps(entries[ip], now) :: entries[ip];
    SubsetSize(r.Keys, entries.Keys);
    r
  }

  /** Last accesses of the entries that are not serving a penalty. */
  function Evictable(entries: Entries, now: Time): map<Address, Time> {
    map ip | ip in entries && !InBackoff(entries[ip], now) :: entries[ip].lastAccess
  }

  function Evicted(entries: Entries, now: Time, order: seq<Address>): seq<Address> {
    if |entries| < MAX_ENTRIES || |Retained(entries, now)| < MAX_ENTRIES then []
    else OldestOf(Evictable(Retained(entries, now), now), order, |Retained(entries, now)|)
  }

  function MakeRoom(entries: Entries, now: Time, order: seq<Address>): Entries {
    if |entries| < MAX_ENTRIES then entries else Retained(entries, now) - Members(Evicted(entries, now, order))
  }

  function Room(entries: Entries, ip: Address, now: Time, order: seq<Address>): Entries {
    if ip in entries then entries else MakeRoom(entries, now, order)
  }

  /** One more failure: whether the attempt may go on, and the new entry. */
  function Fail(e: Entry, now: Time): (bool, Entry) {
    if InBackoff(e, now) then (false, e.(lastAccess := now))
    else
      var count := (e.failureCount + 1) % U32;
      if count >= AUTH_FAILURE_THRESHOLD then
        (false, Entry(count, Some(now + Seconds(Penalty(count - AUTH_FAILURE_THRESHOLD))), now))
      else (true, Entry(count, None, now))
  }

  function EntryOf(entries: Entries, ip: Address, now: Time): Entry {
    if ip in entries then entries[ip] else Entry(0, None, now)
  }

  function AfterFailure(entries: Entries, ip: Address, now: Time, order: seq<Address>): Entries {
    var room := Room(entries, ip, now, order);
    room[ip := Fail(EntryOf(room, ip, now), now).1]
  }

  function AfterSuccess(entries: Entries, ip: Address, now: Time): Entries {
    if ip !in entries then entries
    else if entries[ip].failureCount <= 1 then entries - {ip}
    else entries[ip := Entry(entries[ip].failureCount - 1, None, now)]
  }

  predicate Blocked(entries: Entries, ip: Address, now: Time) {
    ip in entries && InBackoff(entries[ip], now)
  }

  /** The new entry after one more failure. */
  method CountFailure(before: Entry, now: Time) returns (allowed: bool, entry: Entry)
    ensures (allowed, entry) == Fail(before, now)
  {
    entry := before.(lastAccess := now);
    if entry.backoffUntil.Some? {
      if now < entry.backoffUntil.value {
        return false, entry;
      }
      entry := entry.(backoffUntil := None);
    }
    entry := entry.(failureCount := (entry.failureCount + 1) % U32);
    allowed := entry.failureCount < AUTH_FAILURE_THRESHOLD;
    if !allowed {
      var exponent := entry.failureCount - AUTH_FAILURE_THRESHOLD;
      entry := entry.(backoffUntil := Some(now + Seconds(Penalty(exponent))));
    }
  }

  class AuthFailureLimiter {
    var entries: Entries

    constructor ()
      ensures entries == map[]
    {
      entries := map[];
    }

    method CleanupExpired(now: Time)
      modifies this
      ensures entries == Retained(old(entries), now)
    {
      var kept := map ip | ip in entries && Keeps(entries[ip], now) :: entries[ip];
      assert kept == Retained(entries, now);
      entries := kept;
    }

    method EvictWhenFull(now: Time, order: seq<Address>)
      requires Enumerates(order, entries.Keys)
      modifies this
      ensures entries == MakeRoom(old(entries), now, order)
    {
      if |entries| < MAX_ENTRIES {
        return;
      }
      CleanupExpired(now);
      if |entries| < MAX_ENTRIES {
        assert entries == entries - Members([]);
        return;
      }
      var victims := OldestOf(Evictable(entries, now), order, |entries|);
      RemoveAll(victims);
    }

    method RemoveAll(victims: seq<Address>)
      modifies this
      ensures entries == old(entries) - Members(victims)
    {
      for k := 0 to |victims|
        invariant entries == old(entries) - Members(victims[..k])
      {
        assert Members(victims[..k + 1]) == Members(victims[..k]) + {victims[k]};
        entries := entries - {victims[k]};
      }
      assert victims[..|victims|] == victims;
    }

    method RecordFailure(ip: Address, now: Time, order: seq<Address>) returns (allowed: bool)
      requires Enumerates(order, entries.Keys)
      modifies this
      ensures allowed == Fail(EntryOf(Room(old(entries), ip, now, order), ip, now), now).0
      ensures entries == AfterFailure(old(entries), ip, now, order)
    {
      if ip !in entries && |entries| >= MAX_ENTRIES {
        EvictWhenFull(now, order);
      }
      var entry := if ip in entries then entries[ip] else Entry(0, None, now);
      allowed, entry := CountFailure(entry, now);
      entries := entries[ip := entry];
    }

    method RecordSuccess(ip: Address, now: Time)
      modifies this
      ensures entries == AfterSuccess(old(entries), ip, now)
    {
      if ip in entries {
        var e := entries[ip];
        var count := if e.failureCount == 0 then 0 else e.failureCount - 1;
        entries := entries[ip := Entry(count, None, now)];
        if count == 0 {
          entries := entries - {ip};
        }
      }
    }

    method IsBlocked(ip: Address, now: Time) returns (blocked: bool)
      ensures blocked == Blocked(entries, ip, now)
    {
      if ip in entries && entries[ip].backoffUntil.Some? {
        return now < entries[ip].backoffUntil.value;
      }
      return false;
    }
  }

  /* Whole traces */

  datatype Event =
    | Failure(ip: Address, now: Time, order: seq<Address>)
    | Success(ip: Address, now: Time)
    | Sweep(now: Time)

  function After(entries: Entries, e: Event): Entries {
    match e
    case Failure(ip, now, order) => AfterFailure(entries, ip, now, order)
    case Success(ip, now) => AfterSuccess(entries, ip, now)
    case Sweep(now) => Retained(entries, now)
  }

  ghost predicate Legal(entries: Entries, clock: Time, events: seq<Event>)
    decreases |events|
  {
    events != [] ==>
      && clock <= events[0].now
      && (events[0].Failure? ==> Enumerates(events[0].order, entries.Keys))
      && Legal(After(entries, events[0]), events[0].now, events[1..])
  }

  function Run(entries: Entries, events: seq<Event>): Entries
    decreases |events|
  {
    if events == [] then entries else Run(After(entries, events[0]), events[1..])
  }

  method Serve(limiter: AuthFailureLimiter, clock: Time, events: seq<Event>)
    requires Legal(limiter.entries, clock, events)
    modifies limiter
    ensures limiter.entries == Run(old(limiter.entries), events)
  {
    ghost var now := clock;
    for n := 0 to |events|
      invariant Legal(limiter.entries, now, events[n..])
      invariant Run(limiter.entries, events[n..]) == Run(old(limiter.entries), events)
    {
      assert events[n..][0] == events[n] && events[n..][1..] == events[n + 1..];
      now := events[n].now;
      match events[n]
      case Failure(ip, t, order) => var _ := limiter.RecordFailure(ip, t, order);
      case Success(ip, t) => limiter.RecordSuccess(ip, t);
      case Sweep(t) => limiter.CleanupExpired(t);
    }
  }

  /* Each operation, in plain terms */

  /** A success lowers a count above one by exactly one and clears the penalty; it drops the entry exactly when the
      count was at most one; and it leaves every other address as it was. */
  lemma SuccessIs(entries: Entries, ip: Address, now: Time)
    ensures var r := AfterSuccess(entries, ip, now);
            && (forall a | a != ip :: (a in r <==> a in entries) && (a in entries ==> r[a] == entries[a]))
            && (ip in r <==> ip in entries && entries[ip].failureCount > 1)
            && (ip in r ==> r[ip] == Entry(entries[ip].failureCount - 1, None, now))
  {
  }

  /** A failure inside a penalty is refused and changes only the last access. Any other adds one to the 32-bit count;
      with fewer than five it may go on without a penalty, and from five on it is refused and starts one. */
  lemma FailureIs(e: Entry, now: Time)
    ensures var (allowed, r) := Fail(e, now);
            && r.lastAccess == now
            && (if e.backoffUntil.Some? && now < e.backoffUntil.value then
                  !allowed && r.failureCount == e.failureCount && r.backoffUntil == e.backoffUntil
                else
                  && r.failureCount == (e.failureCount + 1) % 0x1_0000_0000
                  && (allowed <==> r.failureCount < 5)
                  && r.backoffUntil == if allowed then None
                                       else Some(now + 1_000_000_000 * Penalty(r.failureCount - 5)))
  {
  }

  /** Below exponent 62 the penalty is 60 seconds doubled each time, and at most 600 seconds. */
  lemma PenaltyIs(k: nat)
    requires k < 62
    ensures Penalty(k)
            == if k == 0 then 60 else if k == 1 then 120 else if k == 2 then 240 else if k == 3 then 480 else 600
  {
    PenaltyFollowsLadder(k);
    Pow2Values();
    if k >= 4 {
      Pow2Grows(4, k);
    } else {
      assert Pow2(0) == 1 && Pow2(1) == 2 && Pow2(2) == 4 && Pow2(3) == 8;
    }
  }

  /** In a table with room, or for an address it knows, a failure changes that address's entry alone. */
  lemma FailureChangesOne(entries: Entries, ip: Address, now: Time, order: seq<Address>)
    requires ip in entries || |entries| < 100_000
    ensures AfterFailure(entries, ip, now, order)
            == entries[ip := Fail(if ip in entries then entries[ip] else Entry(0, None, now), now).1]
  {
  }

  /** A sweep keeps exactly the entries inside a penalty and those used in the last 600 seconds, as they are. */
  lemma SweepIs(entries: Entries, now: Time, ip: Address)
    ensures var r := Retained(entries, now);
            && (ip in r <==> && ip in entries
                             && (|| (entries[ip].backoffUntil.Some? && now < entries[ip].backoffUntil.value)
                                 || now < entries[ip].lastAccess + 600_000_000_000))
            && (ip in r ==> r[ip] == entries[ip])
  {
  }

  /** A full table first drops what a sweep would; if it is still full it gives up at most 10,000 addresses, as many as
      serve no penalty, and none used later than a sampled one that stays. */
  lemma EvictionIs(entries: Entries, now: Time, order: seq<Address>)
    requires |entries| >= 100_000 && Enumerates(order, entries.Keys)
    ensures var kept, gone := Retained(entries, now), Evicted(entries, now, order);
            && MakeRoom(entries, now, order) == kept - Members(gone)
            && (|kept| < 100_000 ==> gone == [])
            && (|kept| >= 100_000 ==> |gone| == Min(10_000, |Evictable(kept, now)|))
            && (forall v | v in gone :: v in kept && !InBackoff(kept[v], now))
            && (forall v, w | v in gone && w in Sampled(Evictable(kept, now).Keys, order, |kept|) && w !in gone ::
                  v in kept && w in kept && kept[v].lastAccess <= kept[w].lastAccess)
  {
    var kept := Retained(entries, now);
    if |kept| >= 100_000 {
      var open := Evictable(kept, now);
      OldestOfIsOldest(open, order, |kept|, entries.Keys);
      var gone := Evicted(entries, now, order);
      assert forall v | v in gone :: v in multiset(gone);
    }
  }

  /* The count of an address below the threshold */

  function CountOf(entries: Entries, ip: Address): nat {
    if ip in entries then entries[ip].failureCount else 0
  }

  /** Its own failures add one and its own successes take one away, not below zero. */
  function Counted(count: nat, e: Event, ip: Address): nat {
    if e.Failure? && e.ip == ip then count + 1
    else if e.Success? && e.ip == ip then (if count == 0 then 0 else count - 1)
    else count
  }

  function Tallied(count: nat, events: seq<Event>, ip: Address): nat
    decreases |events|
  {
    if events == [] then count else Tallied(Counted(count, events[0], ip), events[1..], ip)
  }

  /** The tally stays below five. */
  ghost predicate StaysBelow(count: nat, events: seq<Event>, ip: Address)
    decreases |events|
  {
    count < 5 && (events != [] ==> StaysBelow(Counted(count, events[0], ip), events[1..], ip))
  }

  /** Neither a sweep nor an eviction drops the address. */
  ghost predicate NeverForgotten(entries: Entries, events: seq<Event>, ip: Address)
    decreases |events|
  {
    events != [] ==>
      && ((events[0].Sweep? || events[0].ip != ip) && ip in entries ==> ip in After(entries, events[0]))
      && NeverForgotten(After(entries, events[0]), events[1..], ip)
  }

  ghost predicate Unpenalised(entries: Entries, ip: Address) {
    ip in entries ==> entries[ip].backoffUntil == None
  }

  lemma OthersKeepEntry(entries: Entries, e: Event, ip: Address)
    requires (e.Sweep? || e.ip != ip) && (ip in entries ==> ip in After(entries, e))
    ensures ip in After(entries, e) <==> ip in entries
    ensures ip in entries ==> After(entries, e)[ip] == entries[ip]
  {
  }

  lemma OwnEventCounts(entries: Entries, e: Event, ip: Address)
    requires (e.Failure? || e.Success?) && e.ip == ip && Unpenalised(entries, ip)
    requires Counted(CountOf(entries, ip), e, ip) < 5
    ensures CountOf(After(entries, e), ip) == Counted(CountOf(entries, ip), e, ip) && Unpenalised(After(entries, e), ip)
  {
    if e.Success? {
      SuccessIs(entries, ip, e.now);
    } else {
      RoomKeepsOwn(entries, ip, e.now, e.order);
      FailBelow(EntryOf(entries, ip, e.now), e.now);
    }
  }

  /** Making room for an address changes nothing about it. */
  lemma RoomKeepsOwn(entries: Entries, ip: Address, now: Time, order: seq<Address>)
    ensures EntryOf(Room(entries, ip, now, order), ip, now) == EntryOf(entries, ip, now)
  {
  }

  lemma FailBelow(e: Entry, now: Time)
    requires e.backoffUntil == None && e.failureCount + 1 < 5
    ensures Fail(e, now).1 == Entry(e.failureCount + 1, None, now)
  {
  }

  /** While an address stays below the threshold and is not forgotten, its count is the tally of its own failures and
      successes, whatever else happens. */
  lemma {:induction false} CountIsTally(entries: Entries, clock: Time, events: seq<Event>, ip: Address)
    requires Unpenalised(entries, ip) && Legal(entries, clock, events)
    requires NeverForgotten(entries, events, ip) && StaysBelow(CountOf(entries, ip), events, ip)
    ensures var r := Run(entries, events);
            CountOf(r, ip) == Tallied(CountOf(entries, ip), events, ip) && Unpenalised(r, ip)
    decreases |events|
  {
    if events != [] {
      var e := events[0];
      if e.Sweep? || e.ip != ip {
        OthersKeepEntry(entries, e, ip);
      } else {
        OwnEventCounts(entries, e, ip);
      }
      CountIsTally(After(entries, e), e.now, events[1..], ip);
    }
  }

  /** After such a run the next failure blocks the address exactly when the tally has reached four. */
  lemma NextFailureBlocks(clock: Time, events: seq<Event>, ip: Address, now: Time, order: seq<Address>)
    requires Legal(map[], clock, events) && NeverForgotten(map[], events, ip) && StaysBelow(0, events, ip)
    requires Enumerates(order, Run(map[], events).Keys)
    ensures var r := Run(map[], events);
            && (Blocked(AfterFailure(r, ip, now, order), ip, now) <==> Tallied(0, events, ip) >= 4)
            && (Fail(EntryOf(Room(r, ip, now, order), ip, now), now).0 <==> Tallied(0, events, ip) < 4)
  {
    CountIsTally(map[], clock, events, ip);
    var r := Run(map[], events);
    TallyBelow(0, events, ip);
    RoomKeepsOwn(r, ip, now, order);
    FailFrom(EntryOf(r, ip, now), now);
  }

  lemma FailFrom(e: Entry, now: Time)
    requires e.backoffUntil == None && e.failureCount < 5
    ensures Fail(e, now).0 <==> e.failureCount < 4
    ensures InBackoff(Fail(e, now).1, now) <==> e.failureCount >= 4
  {
    FailureIs(e, now);
    PenaltyIs(0);
  }

  lemma {:induction false} TallyBelow(count: nat, events: seq<Event>, ip: Address)
    requires StaysBelow(count, events, ip)
    ensures Tallied(count, events, ip) < 5
    decreases |events|
  {
    if events != [] {
      TallyBelow(Counted(count, events[0], ip), events[1..], ip);
    }
  }

  /* A penalty is served in full */

  /** A penalised address is never among those a full table gives up. */
  lemma PenalisedIsKept(entries: Entries, ip: Address, now: Time, order: seq<Address>)
    requires Blocked(entries, ip, now) && Enumerates(order, entries.Keys)
    ensures var room := MakeRoom(entries, now, order); ip in room && room[ip] == entries[ip]
  {
    var kept := Retained(entries, now);
    if |entries| >= MAX_ENTRIES && |kept| >= MAX_ENTRIES {
      OldestOfIsOldest(Evictable(kept, now), order, |kept|, entries.Keys);
      var victims := Evicted(entries, now, order);
      assert forall v | v in victims :: v in multiset(victims);
    }
  }

  /** Before its end a penalty survives every event except the address's own success. */
  lemma PenaltyStands(entries: Entries, ip: Address, until: Time, e: Event)
    requires ip in entries && entries[ip].backoffUntil == Some(until) && e.now < until
    requires e.Failure? ==> Enumerates(e.order, entries.Keys)
    ensures ip in After(entries, e) && After(entries, e)[ip].backoffUntil == Some(until)
            <==> !(e.Success? && e.ip == ip)
  {
    if e.Failure? {
      PenalisedIsKept(entries, ip, e.now, e.order);
    }
  }

  lemma {:induction false} PenaltyIsServed(entries: Entries, clock: Time, events: seq<Event>, ip: Address, until: Time)
    requires ip in entries && entries[ip].backoffUntil == Some(until)
    requires Legal(entries, clock, events)
    requires forall i | 0 <= i < |events| :: events[i].now < until && !(events[i].Success? && events[i].ip == ip)
    ensures var r := Run(entries, events);
            && ip in r && r[ip].backoffUntil == Some(until)
            && forall now: Time | now < until :: Blocked(r, ip, now)
    decreases |events|
  {
    if events != [] {
      PenaltyStands(entries, ip, until, events[0]);
      PenaltyIsServed(After(entries, events[0]), events[0].now, events[1..], ip, until);
    }
  }

  /* Repeat offenders are remembered */

  /** `ip` is never among the addresses a full table gives up. */
  ghost predicate NeverEvicted(entries: Entries, events: seq<Event>, ip: Address)
    decreases |events|
  {
    events != [] ==>
      && (events[0].Failure? && events[0].ip !in entries ==> ip !in Evicted(entries, events[0].now, events[0].order))
      && NeverEvicted(After(entries, events[0]), events[1..], ip)
  }

  lemma OthersLeaveEntry(entries: Entries, ip: Address, e: Event)
    requires ip in entries && (e.Sweep? || e.ip != ip)
             && Since(e.now, entries[ip].lastAccess) < Seconds(MAX_AUTH_BACKOFF_SECONDS)
    requires e.Failure? && e.ip !in entries ==> ip !in Evicted(entries, e.now, e.order)
    ensures ip in After(entries, e) && After(entries, e)[ip] == entries[ip]
  {
  }

  /** For the longest penalty's time after its last access, sweeps and other addresses leave an entry as it is, so the
      next failure goes on from its count. */
  lemma {:induction false} OffenderIsRemembered(entries: Entries, clock: Time, events: seq<Event>, ip: Address)
    requires ip in entries && Legal(entries, clock, events) && NeverEvicted(entries, events, ip)
    requires forall i | 0 <= i < |events| ::
               && (events[i].Sweep? || events[i].ip != ip)
               && Since(events[i].now, entries[ip].lastAccess) < Seconds(MAX_AUTH_BACKOFF_SECONDS)
    ensures ip in Run(entries, events) && Run(entries, events)[ip] == entries[ip]
    decreases |events|
  {
    if events != [] {
      OthersLeaveEntry(entries, ip, events[0]);
      OffenderIsRemembered(After(entries, events[0]), events[0].now, events[1..], ip);
    }
  }

  /** A failure outside a penalty, at or past the threshold, starts one of the ladder's length, as long as the
      exponent stays below 62. */
  lemma FailureStartsPenalty(e: Entry, now: Time)
    requires !InBackoff(e, now) && AUTH_FAILURE_THRESHOLD <= e.failureCount + 1 < U32
    ensures var (allowed, e') := Fail(e, now);
            var k := e.failureCount + 1 - AUTH_FAILURE_THRESHOLD;
            !allowed && (e'.backoffUntil == Some(now + Seconds(Ladder(k))) <==> k < 62)
  {
    PenaltyFollowsLadder(e.failureCount + 1 - AUTH_FAILURE_THRESHOLD);
  }

  /* An address that keeps failing is let go in the end */

  /** Failure `n`, counted from one, comes 15 seconds after a sweep and ten minutes after the failure before. */
  function FailureTime(n: nat): Time
    requires n > 0
  {
    Seconds(600 * (n - 1) + 15)
  }

  /** `k` sweeps, one every 30 seconds, the first 15 seconds after failure `n`. */
  function SweepsAfter(n: nat, k: nat): seq<Event>
    requires n > 0
  {
    seq(k, j requires 0 <= j < k => Sweep(FailureTime(n) + Seconds(15 + 30 * j)))
  }

  /** `n` failures of one address, with a sweep every 30 seconds from time zero on. */
  function Patient(ip: Address, n: nat): seq<Event> {
    if n == 0 then [Sweep(0)]
    else if n == 1 then Patient(ip, 0) + [Failure(ip, FailureTime(1), [])]
    else Patient(ip, n - 1) + SweepsAfter(n - 1, 20) + [Failure(ip, FailureTime(n), [ip])]
  }

  /** The entry after `n > 0` such failures. */
  function PatientEntry(n: nat): Entry
    requires n > 0
  {
    var now := FailureTime(n);
    Entry(n, if n < AUTH_FAILURE_THRESHOLD then None else Some(now + Seconds(Penalty(n - AUTH_FAILURE_THRESHOLD))), now)
  }

  /** The events lead from an empty table to `result`, and none is later than `end`. */
  ghost predicate Reaches(events: seq<Event>, result: Entries, end: Time) {
    && Legal(map[], 0, events) && Run(map[], events) == result
    && forall i | 0 <= i < |events| :: events[i].now <= end
  }

  lemma {:induction false} LegalAppend(entries: Entries, clock: Time, events: seq<Event>, e: Event)
    requires Legal(entries, clock, events) && clock <= e.now && forall i | 0 <= i < |events| :: events[i].now <= e.now
    requires e.Failure? ==> Enumerates(e.order, Run(entries, events).Keys)
    ensures Legal(entries, clock, events + [e]) && Run(entries, events + [e]) == After(Run(entries, events), e)
    decreases |events|
  {
    if events == [] {
      assert (events + [e])[1..] == [];
    } else {
      LegalAppend(After(entries, events[0]), events[0].now, events[1..], e);
      assert (events + [e])[1..] == events[1..] + [e];
    }
  }

  lemma ReachOne(events: seq<Event>, entries: Entries, end: Time, e: Event)
    requires Reaches(events, entries, end) && end <= e.now && (e.Failure? ==> Enumerates(e.order, entries.Keys))
    ensures Reaches(events + [e], After(entries, e), e.now)
  {
    LegalAppend(map[], 0, events, e);
  }

  /** Sweeps in the ten minutes after a failure change nothing. */
  lemma {:induction false} SweepsLeave(ip: Address, n: nat, events: seq<Event>, k: nat)
    requires n > 0 && k <= 20 && Reaches(events, map[ip := PatientEntry(n)], FailureTime(n))
    ensures Reaches(events + SweepsAfter(n, k), map[ip := PatientEntry(n)], FailureTime(n) + Seconds(30 * k))
    decreases k
  {
    var all := events + SweepsAfter(n, k);
    if k == 0 {
      assert all == events;
    } else {
      SweepsLeave(ip, n, events, k - 1);
      var e := Sweep(FailureTime(n) + Seconds(15 + 30 * (k - 1)));
      assert all == events + SweepsAfter(n, k - 1) + [e];
      OneSweepLeaves(ip, n, e.now);
      ReachLater(events + SweepsAfter(n, k - 1), n, k);
      ReachOne(events + SweepsAfter(n, k - 1), map[ip := PatientEntry(n)], e.now, e);
    }
  }

  lemma OneSweepLeaves(ip: Address, n: nat, now: Time)
    requires n > 0 && FailureTime(n) <= now < FailureTime(n) + Seconds(600)
    ensures Retained(map[ip := PatientEntry(n)], now) == map[ip := PatientEntry(n)]
  {
  }

  /** The sweeps so far come before the next one. */
  lemma ReachLater(events: seq<Event>, n: nat, k: nat)
    requires n > 0 && k > 0 && forall i | 0 <= i < |events| :: events[i].now <= FailureTime(n) + Seconds(30 * (k - 1))
    ensures forall i | 0 <= i < |events| :: events[i].now <= FailureTime(n) + Seconds(15 + 30 * (k - 1))
  {
  }

  lemma PatientStep(ip: Address, n: nat, order: seq<Address>)
    requires 0 < n < U32
    ensures var before := if n == 1 then map[] else map[ip := PatientEntry(n - 1)];
            AfterFailure(before, ip, FailureTime(n), order) == map[ip := PatientEntry(n)]
  {
  }

  lemma {:induction false} PatientRun(ip: Address, n: nat)
    requires 0 < n < U32
    ensures Reaches(Patient(ip, n), map[ip := PatientEntry(n)], FailureTime(n))
  {
    PatientStep(ip, n, if n == 1 then [] else [ip]);
    if n == 1 {
      var start := [Sweep(0)];
      assert start[1..] == [];
      assert Retained(map[], 0) == map[];
      assert Reaches(start, map[], 0);
      ReachOne(start, map[], 0, Failure(ip, FailureTime(1), []));
    } else {
      PatientRun(ip, n - 1);
      SweepsLeave(ip, n - 1, Patient(ip, n - 1), 20);
      var before := Patient(ip, n - 1) + SweepsAfter(n - 1, 20);
      assert FailureTime(n - 1) + Seconds(30 * 20) == FailureTime(n);
      assert map[ip := PatientEntry(n - 1)].Keys == {ip};
      ReachOne(before, map[ip := PatientEntry(n - 1)], FailureTime(n), Failure(ip, FailureTime(n), [ip]));
    }
  }

  function FailuresOf(events: seq<Event>): nat
    decreases |events|
  {
    if events == [] then 0
    else FailuresOf(events[..|events| - 1]) + if events[|events| - 1].Failure? then 1 else 0
  }

  lemma {:induction false} SweepsAddNone(events: seq<Event>, n: nat, k: nat)
    requires n > 0
    ensures FailuresOf(events + SweepsAfter(n, k)) == FailuresOf(events)
    decreases k
  {
    var all := events + SweepsAfter(n, k);
    if k == 0 {
      assert all == events;
    } else {
      SweepsAddNone(events, n, k - 1);
      assert all[..|all| - 1] == events + SweepsAfter(n, k - 1);
    }
  }

  lemma {:induction false} PatientFailures(ip: Address, n: nat)
    ensures FailuresOf(Patient(ip, n)) == n
  {
    var events := Patient(ip, n);
    if n == 0 {
      assert events[..0] == [];
    } else {
      PatientFailures(ip, n - 1);
      if n == 1 {
        assert events[..|events| - 1] == Patient(ip, 0);
      } else {
        SweepsAddNone(Patient(ip, n - 1), n - 1, 20);
        assert events[..|events| - 1] == Patient(ip, n - 1) + SweepsAfter(n - 1, 20);
      }
    }
  }

  /** An address that fails every ten minutes, with the table swept every 30 seconds: from its 67th failure on the
      penalty is over as soon as it begins, and the address is not blocked. */
  lemma PatientIsLetGo(ip: Address, n: nat)
    requires 67 <= n < U32
    ensures Legal(map[], 0, Patient(ip, n)) && FailuresOf(Patient(ip, n)) == n
    ensures forall now: Time | now >= FailureTime(n) :: !Blocked(Run(map[], Patient(ip, n)), ip, now)
  {
    PatientRun(ip, n);
    PatientFailures(ip, n);
    PenaltyFollowsLadder(n - AUTH_FAILURE_THRESHOLD);
  }

  /* The size of the table */

  /** The bound on the table fails exactly when it is full of penalties and a new address arrives. */
  lemma TableOverflows(entries: Entries, ip: Address, now: Time, order: seq<Address>)
    requires |entries| <= MAX_ENTRIES && Enumerates(order, entries.Keys)
    ensures |AfterFailure(entries, ip, now, order)| > MAX_ENTRIES
            <==> |entries| == MAX_ENTRIES && ip !in entries && forall a | a in entries :: InBackoff(entries[a], now)
  {
    var room := Room(entries, ip, now, order);
    InsertSize(room, ip, Fail(EntryOf(room, ip, now), now).1);
    if ip !in entries && |entries| == MAX_ENTRIES {
      RoomSize(entries, now, order);
    }
  }

  lemma InsertSize(entries: Entries, ip: Address, entry: Entry)
    ensures |entries[ip := entry]| == |entries| + if ip in entries then 0 else 1
  {
    assert entries[ip := entry].Keys == entries.Keys + {ip};
    assert |entries| == |entries.Keys| && |entries[ip := entry]| == |entries[ip := entry].Keys|;
  }

  lemma RoomSize(entries: Entries, now: Time, order: seq<Address>)
    requires |entries| == MAX_ENTRIES && Enumerates(order, entries.Keys)
    ensures |MakeRoom(entries, now, order)| >= MAX_ENTRIES <==> forall a | a in entries :: InBackoff(entries[a], now)
    ensures MakeRoom(entries, now, order).Keys <= entries.Keys
  {
    var kept := Retained(entries, now);
    if |kept| < MAX_ENTRIES {
      assert (forall a | a in entries :: InBackoff(entries[a], now)) ==> kept == entries;
    } else {
      var open := Evictable(kept, now);
      OldestOfIsOldest(open, order, |kept|, entries.Keys);
      var victims := Evicted(entries, now, order);
      assert multiset(victims) <= multiset(kept.Keys) by {
        assert multiset(open.Keys) <= multiset(kept.Keys);
      }
      RemoveSize(kept.Keys, victims);
      assert (kept - Members(victims)).Keys == kept.Keys - Members(victims);
      assert |open| == |open.Keys|;
      assert |open| == 0 <==> forall a | a in entries :: InBackoff(entries[a], now) by {
        if a :| a in entries && !InBackoff(entries[a], now) {
          assert a in open;
        }
      }
    }
  }

  /* A flood of failing addresses makes the table as large as one likes */

  function Names(n: nat): seq<Address> {
    seq(n, i requires 0 <= i < n => Numeral(i))
  }

  function Burst(ip: Address, order: seq<Address>, n: nat): seq<Event>
    decreases n, |order|
  {
    if n == 0 then [] else [Failure(ip, 0, order)] + Burst(ip, order, n - 1)
  }

  /** The failures that penalise a new address, given the iteration orders before and after it is in the table. */
  function Offend(ip: Address, before: seq<Address>, later: seq<Address>): seq<Event> {
    [Failure(ip, 0, before)] + Burst(ip, later, AUTH_FAILURE_THRESHOLD - 1)
  }

  /** `n` addresses penalised at one instant. */
  function Flood(n: nat): seq<Event> {
    if n == 0 then [] else Flood(n - 1) + Offend(Numeral(n - 1), Names(n - 1), Names(n))
  }

  ghost predicate AllPenalised(entries: Entries) {
    forall a | a in entries :: InBackoff(entries[a], 0)
  }

  const PENALISED: Entry := Entry(AUTH_FAILURE_THRESHOLD, Some(Seconds(AUTH_BACKOFF_BASE_SECONDS)), 0)

  /** `events` all happen at time zero and lead from one table to the other. */
  ghost predicate Leads(entries: Entries, events: seq<Event>, result: Entries) {
    Legal(entries, 0, events) && Run(entries, events) == result && forall i | 0 <= i < |events| :: events[i].now == 0
  }

  lemma LeadsCons(entries: Entries, e: Event, rest: seq<Event>, result: Entries)
    requires e.now == 0 && (e.Failure? ==> Enumerates(e.order, entries.Keys))
    requires Leads(After(entries, e), rest, result)
    ensures Leads(entries, [e] + rest, result)
  {
    assert ([e] + rest)[1..] == rest;
  }

  lemma LeadsUncons(entries: Entries, events: seq<Event>, result: Entries)
    requires Leads(entries, events, result) && events != []
    ensures Leads(After(entries, events[0]), events[1..], result) && events[0].now == 0
    ensures events[0].Failure? ==> Enumerates(events[0].order, entries.Keys)
  {
  }

  lemma {:induction false} LeadsConcat(entries: Entries, a: seq<Event>, middle: Entries, b: seq<Event>, result: Entries)
    requires Leads(entries, a, middle) && Leads(middle, b, result)
    ensures Leads(entries, a + b, result)
    decreases |a|
  {
    if a == [] {
      assert a + b == b;
    } else {
      LeadsUncons(entries, a, middle);
      LeadsConcat(After(entries, a[0]), a[1..], middle, b, result);
      LeadsCons(entries, a[0], a[1..] + b, result);
      assert a + b == [a[0]] + (a[1..] + b);
    }
  }

  lemma {:induction false} BurstCounts(entries: Entries, ip: Address, order: seq<Address>, n: nat)
    requires ip in entries && entries[ip].backoffUntil.None? && 0 < n
    requires entries[ip].failureCount + n == AUTH_FAILURE_THRESHOLD
    requires Enumerates(order, entries.Keys)
    ensures Leads(entries, Burst(ip, order, n), entries[ip := PENALISED])
    decreases n
  {
    var e := Failure(ip, 0, order);
    var next := After(entries, e);
    assert next.Keys == entries.Keys;
    if n == 1 {
      assert Pow2(0) == 1;
      assert next == entries[ip := PENALISED];
    } else {
      BurstCounts(next, ip, order, n - 1);
      assert next[ip := PENALISED] == entries[ip := PENALISED];
    }
    LeadsCons(entries, e, Burst(ip, order, n - 1), entries[ip := PENALISED]);
  }

  lemma FullOfPenaltiesKeepsAll(entries: Entries, order: seq<Address>)
    requires AllPenalised(entries) && Enumerates(order, entries.Keys)
    ensures MakeRoom(entries, 0, order) == entries
  {
    assert Retained(entries, 0) == entries;
    if |entries| >= MAX_ENTRIES {
      OldestOfIsOldest(Evictable(entries, 0), order, |entries|, entries.Keys);
      assert Evictable(entries, 0) == map[];
    }
  }

  ghost predicate Holds(entries: Entries, n: nat) {
    AllPenalised(entries) && entries.Keys == Members(Names(n)) && Enumerates(Names(n), entries.Keys) && |entries| == n
  }

  lemma NewNameEnumerates(entries: Entries, n: nat)
    requires Holds(entries, n)
    ensures Numeral(n) !in entries
    ensures Enumerates(Names(n + 1), entries.Keys + {Numeral(n)})
    ensures Members(Names(n + 1)) == entries.Keys + {Numeral(n)}
  {
    NameIsNew(n);
    NamesGrow(n);
    OneMoreKey(Names(n), entries.Keys, Numeral(n));
  }

  lemma NamesGrow(n: nat)
    ensures Names(n + 1) == Names(n) + [Numeral(n)]
  {
  }

  lemma OneMoreKey(names: seq<Address>, keys: set<Address>, x: Address)
    requires Enumerates(names, keys) && keys == Members(names) && x !in keys
    ensures Enumerates(names + [x], keys + {x}) && Members(names + [x]) == keys + {x}
  {
    assert multiset(names + [x]) == multiset(keys) + multiset{x};
  }

  lemma NameIsNew(n: nat)
    ensures Numeral(n) !in Names(n)
  {
    forall i: nat | i < n ensures Names(n)[i] != Numeral(n) {
      ValueOfNumeral(i);
      ValueOfNumeral(n);
    }
  }

  lemma FirstOffence(entries: Entries, n: nat)
    requires Holds(entries, n) && Numeral(n) !in entries
    ensures After(entries, Failure(Numeral(n), 0, Names(n))) == entries[Numeral(n) := Entry(1, None, 0)]
  {
    FullOfPenaltiesKeepsAll(entries, Names(n));
  }

  lemma OffendFrom(entries: Entries, ip: Address, before: seq<Address>, later: seq<Address>, n: nat)
    requires n + 1 == AUTH_FAILURE_THRESHOLD && Enumerates(before, entries.Keys)
    requires Enumerates(later, entries.Keys + {ip})
    requires After(entries, Failure(ip, 0, before)) == entries[ip := Entry(1, None, 0)]
    ensures Leads(entries, [Failure(ip, 0, before)] + Burst(ip, later, n), entries[ip := PENALISED])
  {
    var next := entries[ip := Entry(1, None, 0)];
    assert next.Keys == entries.Keys + {ip};
    BurstCounts(next, ip, later, n);
    assert next[ip := PENALISED] == entries[ip := PENALISED];
    LeadsCons(entries, Failure(ip, 0, before), Burst(ip, later, n), entries[ip := PENALISED]);
  }

  lemma OffendLeads(entries: Entries, n: nat)
    requires Holds(entries, n)
    ensures Leads(entries, Offend(Numeral(n), Names(n), Names(n + 1)), entries[Numeral(n) := PENALISED])
  {
    NewNameEnumerates(entries, n);
    FirstOffence(entries, n);
    OffendFrom(entries, Numeral(n), Names(n), Names(n + 1), AUTH_FAILURE_THRESHOLD - 1);
  }

  lemma OneMoreHolds(entries: Entries, n: nat)
    requires Holds(entries, n)
    ensures Holds(entries[Numeral(n) := PENALISED], n + 1)
  {
    NewNameEnumerates(entries, n);
    InsertSize(entries, Numeral(n), PENALISED);
    assert entries[Numeral(n) := PENALISED].Keys == entries.Keys + {Numeral(n)};
  }

  /** No bound holds of the table: for every `n` some run fills it with `n` penalties. */
  lemma {:induction false} TableIsUnbounded(n: nat)
    ensures Legal(map[], 0, Flood(n)) && |Run(map[], Flood(n))| == n
    ensures Leads(map[], Flood(n), Run(map[], Flood(n))) && Holds(Run(map[], Flood(n)), n)
  {
    if n > 0 {
      TableIsUnbounded(n - 1);
      var entries := Run(map[], Flood(n - 1));
      OffendLeads(entries, n - 1);
      OneMoreHolds(entries, n - 1);
      LeadsConcat(map[], Flood(n - 1), entries, Offend(Numeral(n - 1), Names(n - 1), Names(n)),
                  entries[Numeral(n - 1) := PENALISED]);
    }
  }
}
