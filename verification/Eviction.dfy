/** What both limiters do with a full table: sample it in iteration order and drop the longest unused
    (crates/deltaship-server/src/rate_limit.rs). */
module Eviction {

  const MAX_ENTRIES: nat := 100_000
  const LRU_EVICTION_COUNT: nat := MAX_ENTRIES / 10

  /** `Instant::duration_since`, which is zero when the clock appears to run backwards. */
  function Since(now: nat, start: nat): nat {
    if now < start then 0 else now - start
  }

  /** `order` lists every key once: one of the orders in which the table may be iterated. */
  ghost predicate Enumerates(order: seq<string>, keys: set<string>) {
    multiset(order) == multiset(keys)
  }

  function Members(s: seq<string>): set<string> {
    set x | x in s
  }

  function Filter(order: seq<string>, keys: set<string>): (r: seq<string>)
    ensures forall x | x in r :: x in keys
    decreases |order|
  {
    if order == [] then []
    else (if order[0] in keys then [order[0]] else []) + Filter(order[1..], keys)
  }

  function Min(a: nat, b: nat): nat {
    if a < b then a else b
  }

  /** The first candidates the iteration meets, four for each one to drop; `size` is the size of the table. */
  function Sampled(keys: set<string>, order: seq<string>, size: nat): (r: seq<string>)
    ensures forall x | x in r :: x in keys
  {
    var candidates := Filter(order, keys);
    candidates[..Min(Min(4 * Min(LRU_EVICTION_COUNT, size), size), |candidates|)]
  }

  ghost predicate ByAccess(access: map<string, nat>, s: seq<string>) {
    forall i, j | 0 <= i < j < |s| :: s[i] in access && s[j] in access && access[s[i]] <= access[s[j]]
  }

  function InsertByAccess(access: map<string, nat>, x: string, s: seq<string>): (r: seq<string>)
    requires x in access && forall y | y in s :: y in access
    ensures multiset(r) == multiset{x} + multiset(s)
    decreases |s|
  {
    if s == [] || access[x] <= access[s[0]] then [x] + s
    else
      assert s == [s[0]] + s[1..];
      [s[0]] + InsertByAccess(access, x, s[1..])
  }

  lemma {:induction false} InsertSorted(access: map<string, nat>, x: string, s: seq<string>)
    requires x in access && (forall y | y in s :: y in access) && ByAccess(access, s)
    ensures ByAccess(access, InsertByAccess(access, x, s))
    decreases |s|
  {
    if s != [] && access[x] > access[s[0]] {
      var rest := InsertByAccess(access, x, s[1..]);
      InsertSorted(access, x, s[1..]);
      InsertMembers(access, x, s[1..]);
      assert forall y | y in s[1..] :: access[s[0]] <= access[y];
      SortedCons(access, s[0], rest);
    }
  }

  lemma InsertMembers(access: map<string, nat>, x: string, s: seq<string>)
    requires x in access && forall y | y in s :: y in access
    ensures forall y | y in InsertByAccess(access, x, s) :: y == x || y in s
  {
    forall y | y in InsertByAccess(access, x, s) ensures y == x || y in s {
      assert y in multiset(InsertByAccess(access, x, s));
    }
  }

  lemma SortedCons(access: map<string, nat>, x: string, s: seq<string>)
    requires ByAccess(access, s) && x in access && forall y | y in s :: y in access && access[x] <= access[y]
    ensures ByAccess(access, [x] + s)
  {
  }

  /** `sort_by_key` on the last access: stable, longest unused first. */
  function SortByAccess(access: map<string, nat>, s: seq<string>): (r: seq<string>)
    requires forall y | y in s :: y in access
    ensures multiset(r) == multiset(s) && ByAccess(access, r)
    decreases |s|
  {
    if s == [] then []
    else
      var rest := SortByAccess(access, s[1..]);
      assert s == [s[0]] + s[1..];
      SameMembers(rest, s[1..]);
      InsertSorted(access, s[0], rest);
      InsertByAccess(access, s[0], rest)
  }

  /** The keys a table of `size` entries gives up, out of those listed in `access`. */
  function OldestOf(access: map<string, nat>, order: seq<string>, size: nat): seq<string> {
    var sorted := SortByAccess(access, Sampled(access.Keys, order, size));
    sorted[..Min(Min(LRU_EVICTION_COUNT, size), |sorted|)]
  }

  lemma SameMembers(a: seq<string>, b: seq<string>)
    requires multiset(a) == multiset(b)
    ensures forall x :: x in a <==> x in b
  {
    forall x ensures x in a <==> x in b {
      assert x in a <==> x in multiset(a);
      assert x in b <==> x in multiset(b);
    }
  }

  /** The sample is the beginning of the iteration over the candidates: four for each of the at most 10,000 to drop. */
  lemma SampledIs(keys: set<string>, order: seq<string>, all: set<string>, size: nat)
    requires Enumerates(order, all) && keys <= all
    ensures var sampled, candidates := Sampled(keys, order, size), Filter(order, keys);
            && |sampled| == Min(Min(if size < 10_000 then 4 * size else 40_000, size), |keys|)
            && sampled == candidates[..|sampled|]
    ensures MAX_ENTRIES == 100_000 && LRU_EVICTION_COUNT == 10_000
  {
    FilterEnumerates(order, all, keys);
  }

  lemma {:induction false} FilterCounts(order: seq<string>, keys: set<string>, x: string)
    ensures multiset(Filter(order, keys))[x] == if x in keys then multiset(order)[x] else 0
    decreases |order|
  {
    if order != [] {
      FilterCounts(order[1..], keys, x);
      assert order == [order[0]] + order[1..];
    }
  }

  lemma FilterEnumerates(order: seq<string>, all: set<string>, keys: set<string>)
    requires Enumerates(order, all) && keys <= all
    ensures Enumerates(Filter(order, keys), keys) && |Filter(order, keys)| == |keys|
  {
    forall x ensures multiset(Filter(order, keys))[x] == multiset(keys)[x] {
      FilterCounts(order, keys, x);
    }
    assert |multiset(Filter(order, keys))| == |Filter(order, keys)| && |multiset(keys)| == |keys|;
  }

  lemma PrefixCounts(s: seq<string>, n: nat)
    requires n <= |s|
    ensures multiset(s[..n]) <= multiset(s)
  {
    assert s == s[..n] + s[n..];
    assert multiset(s) == multiset(s[..n]) + multiset(s[n..]);
  }

  /** At most a tenth of the capacity goes, each key once; a sampled key that stays was used no earlier. */
  lemma OldestOfIsOldest(access: map<string, nat>, order: seq<string>, size: nat, all: set<string>)
    requires Enumerates(order, all) && access.Keys <= all
    ensures var victims := OldestOf(access, order, size);
            && multiset(victims) <= multiset(access.Keys)
            && |victims| == Min(Min(LRU_EVICTION_COUNT, size), |access|)
            && forall v, w | v in victims && w in Sampled(access.Keys, order, size) && w !in victims ::
                 v in access && w in access && access[v] <= access[w]
  {
    FilterEnumerates(order, all, access.Keys);
    var candidates := Filter(order, access.Keys);
    var sampled := Sampled(access.Keys, order, size);
    var sorted := SortByAccess(access, sampled);
    PrefixCounts(candidates, |sampled|);
    assert |sorted| == |multiset(sorted)| == |sampled|;
    var n := |OldestOf(access, order, size)|;
    PrefixCounts(sorted, n);
    SameMembers(sorted, sampled);
    FrontIsOldest(access, sorted, n);
  }

  lemma FrontIsOldest(access: map<string, nat>, sorted: seq<string>, n: nat)
    requires n <= |sorted| && ByAccess(access, sorted)
    ensures forall v, w | v in sorted[..n] && w in sorted && w !in sorted[..n] ::
              v in access && w in access && access[v] <= access[w]
  {
    var front := sorted[..n];
    assert forall k | 0 <= k < n :: sorted[k] == front[k] && front[k] in front;
    forall v, w | v in sorted[..n] && w in sorted && w !in sorted[..n]
      ensures v in access && w in access && access[v] <= access[w]
    {
      var i :| 0 <= i < n && sorted[i] == v;
      var j :| 0 <= j < |sorted| && sorted[j] == w;
    }
  }

  lemma {:induction false} RemoveSize(keys: set<string>, victims: seq<string>)
    requires multiset(victims) <= multiset(keys)
    ensures |keys - Members(victims)| == |keys| - |victims|
    decreases |victims|
  {
    if victims == [] {
      assert keys - Members(victims) == keys;
    } else {
      var v, rest := victims[0], victims[1..];
      assert victims == [v] + rest;
      assert multiset(victims) == multiset{v} + multiset(rest);
      assert v in multiset(victims) && v in keys;
      assert multiset(rest) <= multiset(keys - {v}) by {
        forall x ensures multiset(rest)[x] <= multiset(keys - {v})[x] {
          assert multiset(victims)[x] <= multiset(keys)[x];
        }
      }
      RemoveSize(keys - {v}, rest);
      assert keys - Members(victims) == (keys - {v}) - Members(rest);
    }
  }

  lemma {:induction false} SubsetSize(small: set<string>, large: set<string>)
    requires small <= large
    ensures |small| <= |large|
    ensures |small| == |large| ==> small == large
  {
    assert |large| == |small| + |large - small| by { assert large == small + (large - small); }
  }
}
