/** The per-address rate limiter table with its least-recently-seen eviction. */
module RateLimiter {
  import Collections

  /** A limiter is known by its serial number; `lastSeen` is a clock reading. */
  datatype Entry = Entry(limiter: nat, lastSeen: nat)

  /** The table and the serial number the next new limiter gets. */
  datatype Table = Table(entries: map<string, Entry>, next: nat)

  const EMPTY := Table(map[], 0)

  ghost predicate IsOldest(entries: map<string, Entry>, ip: string) {
    ip in entries && forall k :: k in entries ==> entries[ip].lastSeen <= entries[k].lastSeen
  }

  ghost predicate DistinctTimes(entries: map<string, Entry>) {
    forall a, b :: a in entries && b in entries && entries[a].lastSeen == entries[b].lastSeen ==> a == b
  }

  function Insert(t: Table, ip: string, now: nat): Table {
    Table(t.entries[ip := Entry(t.next, now)], t.next + 1)
  }

  /** What one request does to a table of `maxIPs` addresses: a known address is seen
      again; a new one gets a new limiter, in place of the least recently seen address if
      the table is full. */
  ghost predicate Request(maxIPs: nat, t: Table, ip: string, now: nat, t': Table) {
    if ip in t.entries then t' == t.(entries := t.entries[ip := t.entries[ip].(lastSeen := now)])
    else if |t.entries| < maxIPs then t' == Insert(t, ip, now)
    else exists gone :: IsOldest(t.entries, gone) && t' == Insert(t.(entries := t.entries - {gone}), ip, now)
  }

  // ----- what the code does -----

  /** The empty address cannot go, and then one other address may go, or none. */
  ghost predicate EvictsInstead(before: map<string, Entry>, after: map<string, Entry>) {
    || after == before
    || exists k :: k in before && k != "" && after == before - {k}
  }

  /** What eviction leaves: all but the least recently seen address, unless that is the
      empty one. */
  ghost predicate Evicts(before: map<string, Entry>, after: map<string, Entry>) {
    if IsOldest(before, "") then EvictsInstead(before, after)
    else exists k :: IsOldest(before, k) && after == before - {k}
  }

  ghost predicate Serves(maxIPs: nat, t: Table, ip: string, now: nat, t': Table) {
    if ip in t.entries then t' == t.(entries := t.entries[ip := t.entries[ip].(lastSeen := now)])
    else if |t.entries| < maxIPs then t' == Insert(t, ip, now)
    else exists left :: Evicts(t.entries, left) && t' == Insert(t.(entries := left), ip, now)
  }

  class Limiter {
    const maxIPs: nat
    var table: Table

    constructor (maxIPs: nat)
      ensures this.maxIPs == maxIPs && table == EMPTY
    {
      this.maxIPs, this.table := maxIPs, EMPTY;
    }

    /** Removes the least recently seen address, in whatever order the map is visited,
        unless that is the empty address, which the loop takes for "none yet". */
    method EvictOldest()
      requires DistinctTimes(table.entries)
      modifies this
      ensures table.next == old(table).next
      ensures forall ip :: IsOldest(old(table).entries, ip) ==>
                (table.entries == old(table).entries - {ip} <==> ip != "")
      ensures EvictsInstead(old(table).entries, table.entries)
      ensures old(table).entries != map[] ==> Evicts(old(table).entries, table.entries)
    {
      var entries := table.entries;
      var oldestIP, oldestTime := "", 0;
      var rest := entries.Keys;
      while rest != {}
        invariant rest <= entries.Keys && table == old(table)
        invariant oldestIP != "" ==> oldestIP in entries && entries[oldestIP].lastSeen == oldestTime
        invariant forall ip :: IsOldest(entries, ip) && ip != "" && ip !in rest ==> oldestIP == ip
      {
        var ip := Collections.AnyOf(rest);
        if oldestIP == "" || entries[ip].lastSeen < oldestTime {
          oldestIP, oldestTime := ip, entries[ip].lastSeen;
        }
        rest := rest - {ip};
      }
      ghost var gone: string;
      if entries != map[] {
        gone := SomeOldest(entries);
      }
      if oldestIP != "" {
        table := table.(entries := entries - {oldestIP});
      }
    }

    method GetLimiter(ip: string, now: nat) returns (limiter: nat)
      requires DistinctTimes(table.entries) && maxIPs > 0
      modifies this
      ensures Serves(maxIPs, old(table), ip, now, table)
      ensures ip in table.entries && table.entries[ip] == Entry(limiter, now)
    {
      if ip in table.entries {
        limiter := table.entries[ip].limiter;
        table := table.(entries := table.entries[ip := Entry(limiter, now)]);
        return;
      }
      if |table.entries| >= maxIPs {
        EvictOldest();
      }
      limiter := table.next;
      table := Insert(table, ip, now);
    }

    /** Any requests from the start: a run of the code, and so an exact table unless the
        empty address had to be evicted. */
    method ServeAll(requests: seq<Seen>) returns (ghost tables: seq<Table>)
      requires maxIPs > 0 && table == EMPTY && Increasing(requests)
      modifies this
      ensures IsRun(maxIPs, tables, requests) && tables[|requests|] == table
      ensures NoEmptyEviction(maxIPs, requests, |requests|) ==> IsExact(maxIPs, table.entries, requests, |requests|)
      ensures (forall r :: r in requests ==> r.ip != "") ==> IsExact(maxIPs, table.entries, requests, |requests|)
    {
      tables := [table];
      for n := 0 to |requests|
        invariant |tables| == n + 1 && tables[0] == EMPTY && tables[n] == table
        invariant forall i {:trigger IsServed(maxIPs, tables, requests, i)} ::
                    0 <= i < n ==> IsServed(maxIPs, tables, requests, i)
        invariant DistinctTimes(table.entries) && IsBehind(table.entries, requests, n)
      {
        ghost var before := tables;
        var limiter := GetLimiter(requests[n].ip, requests[n].at);
        ServeKeeps(maxIPs, before[n], requests[n].ip, requests[n].at, table);
        tables := tables + [table];
        forall i | 0 <= i < n + 1 ensures IsServed(maxIPs, tables, requests, i) {
          if i < n {
            assert IsServed(maxIPs, before, requests, i);
          }
        }
      }
      if NoEmptyEviction(maxIPs, requests, |requests|) {
        TableIsLru(maxIPs, tables, requests, |requests|);
      }
    }
  }

  /** Entries were seen before the request `n` and all after it. */
  ghost predicate IsBehind(entries: map<string, Entry>, requests: seq<Seen>, n: nat) {
    forall k, m {:trigger entries[k], requests[m]} ::
      k in entries && n <= m < |requests| ==> entries[k].lastSeen < requests[m].at
  }

  /** A request that has to evict the empty address. */
  ghost predicate MustEvictEmpty(maxIPs: nat, t: Table, ip: string) {
    ip !in t.entries && |t.entries| >= maxIPs && IsOldest(t.entries, "")
  }

  /** The code serves a request as specified if and only if it need not evict the empty
      address. */
  lemma ServesAsSpecifiedIff(maxIPs: nat, t: Table, ip: string, now: nat, t': Table)
    requires maxIPs > 0 && DistinctTimes(t.entries) && Serves(maxIPs, t, ip, now, t')
    ensures Request(maxIPs, t, ip, now, t') <==> !MustEvictEmpty(maxIPs, t, ip)
  {
    if MustEvictEmpty(maxIPs, t, ip) {
      assert "" in t'.entries;
      OldestMustGo(maxIPs, t, ip, now, t');
    }
  }

  /** If it must, the table grows, or another address loses its limiter instead. */
  lemma EmptyAddressStays(maxIPs: nat, t: Table, ip: string, now: nat, t': Table)
    requires Serves(maxIPs, t, ip, now, t') && MustEvictEmpty(maxIPs, t, ip)
    ensures "" in t'.entries && |t.entries| <= |t'.entries| <= |t.entries| + 1
    ensures |t'.entries| == |t.entries| <==> exists k :: k in t.entries && k != "" && k !in t'.entries
    ensures t.entries.Keys == {""} ==> |t'.entries| == 2
  {
    var left :| Evicts(t.entries, left) && t' == Insert(t.(entries := left), ip, now);
    assert |t'.entries| == |t'.entries.Keys| && |t.entries| == |t.entries.Keys| && |left| == |left.Keys|;
    assert t'.entries.Keys == left.Keys + {ip};
    if left != t.entries {
      var k :| k in t.entries && k != "" && left == t.entries - {k};
      assert left.Keys == t.entries.Keys - {k};
      assert k !in t'.entries;
    }
  }

  lemma OldestMustGo(maxIPs: nat, t: Table, ip: string, now: nat, t': Table)
    requires DistinctTimes(t.entries) && ip !in t.entries && |t.entries| >= maxIPs
    requires IsOldest(t.entries, "") && "" in t'.entries
    ensures !Request(maxIPs, t, ip, now, t')
  {
    forall gone | IsOldest(t.entries, gone)
      ensures gone == ""
    {
    }
  }

  lemma {:induction false} SomeOldest(entries: map<string, Entry>) returns (ip: string)
    requires entries != map[]
    ensures IsOldest(entries, ip)
    decreases |entries|
  {
    ip := Collections.Member(entries.Keys);
    var rest := entries - {ip};
    if rest != map[] {
      assert |rest.Keys| < |entries.Keys| by {
        assert rest.Keys == entries.Keys - {ip};
      }
      var other := SomeOldest(rest);
      assert forall k :: k in entries ==> k == ip || k in rest;
      if entries[other].lastSeen < entries[ip].lastSeen {
        ip := other;
      }
    }
  }

  // ----- the specification: recency -----

  datatype Seen = Seen(ip: string, at: nat)

  /** Addresses that the first `n` requests came from after the last one from `ip`. */
  function SeenSince(requests: seq<Seen>, n: nat, ip: string): set<string>
    requires n <= |requests|
  {
    if n == 0 || requests[n - 1].ip == ip then {}
    else SeenSince(requests, n - 1, ip) + {requests[n - 1].ip}
  }

  predicate IsSeen(requests: seq<Seen>, n: nat, ip: string)
    requires n <= |requests|
  {
    exists i :: 0 <= i < n && requests[i].ip == ip
  }

  /** Of the first `n` requests' distinct addresses `ip` is among the `m` most recent. */
  predicate IsRecent(requests: seq<Seen>, n: nat, ip: string, m: nat)
    requires n <= |requests|
  {
    IsSeen(requests, n, ip) && |SeenSince(requests, n, ip)| < m
  }

  // ----- runs of the code -----

  /** The clock does not repeat a reading. */
  ghost predicate Increasing(requests: seq<Seen>) {
    forall i, j :: 0 <= i < j < |requests| ==> requests[i].at < requests[j].at
  }

  ghost predicate IsRun(maxIPs: nat, tables: seq<Table>, requests: seq<Seen>) {
    && maxIPs > 0 && |tables| == |requests| + 1 && tables[0] == EMPTY && Increasing(requests)
    && forall i {:trigger IsServed(maxIPs, tables, requests, i)} ::
         0 <= i < |requests| ==> IsServed(maxIPs, tables, requests, i)
  }

  ghost predicate IsServed(maxIPs: nat, tables: seq<Table>, requests: seq<Seen>, i: nat)
    requires i < |requests| && i + 1 < |tables|
  {
    Serves(maxIPs, tables[i], requests[i].ip, requests[i].at, tables[i + 1])
  }

  lemma RunStep(maxIPs: nat, tables: seq<Table>, requests: seq<Seen>, n: nat)
    requires IsRun(maxIPs, tables, requests) && 0 < n < |tables|
    ensures Serves(maxIPs, tables[n - 1], requests[n - 1].ip, requests[n - 1].at, tables[n])
  {
    assert IsServed(maxIPs, tables, requests, n - 1);
  }

  /** Request `i` is from an address that is not among the most recent, while the empty
      address is the least recent of them. */
  ghost predicate EvictsEmpty(maxIPs: nat, requests: seq<Seen>, i: nat)
    requires i < |requests|
  {
    && IsSeen(requests, i, "") && |SeenSince(requests, i, "")| == maxIPs - 1
    && !IsRecent(requests, i, requests[i].ip, maxIPs)
  }

  /** None of the first `n` requests is such. */
  ghost predicate NoEmptyEviction(maxIPs: nat, requests: seq<Seen>, n: nat)
    requires n <= |requests|
  {
    forall i :: 0 <= i < n ==> !EvictsEmpty(maxIPs, requests, i)
  }

  /** Whatever a request evicts, the entries that stay are unchanged, and only a new
      address gets a new limiter. */
  lemma ServeKeeps(maxIPs: nat, t: Table, ip: string, now: nat, t': Table)
    requires Serves(maxIPs, t, ip, now, t')
    ensures ip in t'.entries && t'.entries[ip].lastSeen == now && t.next <= t'.next
    ensures forall k :: k in t'.entries && k != ip ==> k in t.entries && t'.entries[k] == t.entries[k]
    ensures if ip in t.entries then t'.entries[ip].limiter == t.entries[ip].limiter && t'.next == t.next
            else t'.entries[ip].limiter == t.next && t'.next == t.next + 1
  {
  }

  // ----- recency by time -----

  /** When each address was last seen. */
  function LastSeen(requests: seq<Seen>, n: nat): map<string, nat>
    requires n <= |requests|
  {
    if n == 0 then map[] else LastSeen(requests, n - 1)[requests[n - 1].ip := requests[n - 1].at]
  }

  lemma {:induction false} LastSeenIsPast(requests: seq<Seen>, n: nat, ip: string)
    requires n <= |requests| && Increasing(requests)
    ensures ip in LastSeen(requests, n) <==> IsSeen(requests, n, ip)
    ensures ip in LastSeen(requests, n) && n < |requests| ==> LastSeen(requests, n)[ip] < requests[n].at
  {
    if n > 0 {
      LastSeenIsPast(requests, n - 1, ip);
    }
  }

  lemma {:induction false} SeenSinceIsLater(requests: seq<Seen>, n: nat, ip: string, k: string)
    requires n <= |requests| && Increasing(requests) && ip in LastSeen(requests, n)
    ensures k in SeenSince(requests, n, ip) <==>
      k in LastSeen(requests, n) && LastSeen(requests, n)[ip] < LastSeen(requests, n)[k]
  {
    LastSeenIsPast(requests, n - 1, ip);
    LastSeenIsPast(requests, n - 1, k);
    if requests[n - 1].ip != ip {
      SeenSinceIsLater(requests, n - 1, ip, k);
    }
  }

  lemma {:induction false} LastSeenIsInjective(requests: seq<Seen>, n: nat, a: string, b: string)
    requires n <= |requests| && Increasing(requests) && a in LastSeen(requests, n) && b in LastSeen(requests, n) && a != b
    ensures LastSeen(requests, n)[a] != LastSeen(requests, n)[b]
  {
    LastSeenIsPast(requests, n - 1, a);
    LastSeenIsPast(requests, n - 1, b);
    if requests[n - 1].ip != a && requests[n - 1].ip != b {
      LastSeenIsInjective(requests, n - 1, a, b);
    }
  }

  /** Every entry carries the time its address was last seen, and addresses without an
      entry were last seen before all that have one, which then fill the table. */
  ghost predicate Holds(maxIPs: nat, entries: map<string, Entry>, seen: map<string, nat>) {
    && |entries| <= maxIPs
    && (forall k :: k in entries ==> k in seen && entries[k].lastSeen == seen[k])
    && (forall x :: x in seen && x !in entries ==> |entries| == maxIPs && IsBeforeAll(entries, seen[x]))
  }

  ghost predicate IsBeforeAll(entries: map<string, Entry>, time: nat) {
    forall k :: k in entries ==> time < entries[k].lastSeen
  }

  lemma SeenAgainHolds(maxIPs: nat, entries: map<string, Entry>, seen: map<string, nat>, ip: string, now: nat)
    requires Holds(maxIPs, entries, seen) && ip in entries && forall k :: k in seen ==> seen[k] < now
    ensures Holds(maxIPs, entries[ip := entries[ip].(lastSeen := now)], seen[ip := now])
  {
    var after := entries[ip := entries[ip].(lastSeen := now)];
    assert after.Keys == entries.Keys && |after| == |after.Keys| && |entries| == |entries.Keys|;
  }

  lemma InsertHolds(maxIPs: nat, entries: map<string, Entry>, seen: map<string, nat>, ip: string, now: nat, limiter: nat)
    requires Holds(maxIPs, entries, seen) && ip !in entries && |entries| < maxIPs
    ensures Holds(maxIPs, entries[ip := Entry(limiter, now)], seen[ip := now])
  {
    var after := entries[ip := Entry(limiter, now)];
    assert after.Keys == entries.Keys + {ip} && |after| == |after.Keys| && |entries| == |entries.Keys|;
  }

  lemma ReplaceOldestHolds(maxIPs: nat, entries: map<string, Entry>, seen: map<string, nat>,
                           gone: string, ip: string, now: nat, limiter: nat)
    requires Holds(maxIPs, entries, seen) && ip !in entries && forall k :: k in seen ==> seen[k] < now
    requires |entries| >= maxIPs && IsOldest(entries, gone) && IsBeforeAll(entries - {gone}, seen[gone])
    ensures Holds(maxIPs, (entries - {gone})[ip := Entry(limiter, now)], seen[ip := now])
  {
    var after := (entries - {gone})[ip := Entry(limiter, now)];
    assert after.Keys == entries.Keys - {gone} + {ip} && |after| == |after.Keys| && |entries| == |entries.Keys|;
  }

  lemma RequestHolds(maxIPs: nat, t: Table, requests: seq<Seen>, n: nat, t': Table)
    requires 0 < n <= |requests| && Increasing(requests) && Holds(maxIPs, t.entries, LastSeen(requests, n - 1))
    requires Request(maxIPs, t, requests[n - 1].ip, requests[n - 1].at, t')
    ensures Holds(maxIPs, t'.entries, LastSeen(requests, n))
  {
    var ip, now, seen := requests[n - 1].ip, requests[n - 1].at, LastSeen(requests, n - 1);
    forall k | k in seen
      ensures seen[k] < now
    {
      LastSeenIsPast(requests, n - 1, k);
    }
    if ip in t.entries {
      SeenAgainHolds(maxIPs, t.entries, seen, ip, now);
    } else if |t.entries| < maxIPs {
      InsertHolds(maxIPs, t.entries, seen, ip, now, t.next);
    } else {
      var gone :| IsOldest(t.entries, gone) && t' == Insert(t.(entries := t.entries - {gone}), ip, now);
      forall k | k in t.entries && k != gone
        ensures seen[gone] < t.entries[k].lastSeen
      {
        LastSeenIsInjective(requests, n - 1, gone, k);
      }
      ReplaceOldestHolds(maxIPs, t.entries, seen, gone, ip, now, t.next);
    }
  }

  /** In every run an entry carries the time its address was last seen. */
  lemma {:induction false} TimesAreRight(maxIPs: nat, tables: seq<Table>, requests: seq<Seen>, n: nat)
    requires IsRun(maxIPs, tables, requests) && n < |tables|
    ensures var seen, entries := LastSeen(requests, n), tables[n].entries;
      forall k :: k in entries ==> k in seen && entries[k].lastSeen == seen[k]
  {
    if n > 0 {
      TimesAreRight(maxIPs, tables, requests, n - 1);
      RunStep(maxIPs, tables, requests, n);
      ServeKeeps(maxIPs, tables[n - 1], requests[n - 1].ip, requests[n - 1].at, tables[n]);
    }
  }

  lemma TimesAreDistinct(maxIPs: nat, tables: seq<Table>, requests: seq<Seen>, n: nat)
    requires IsRun(maxIPs, tables, requests) && n < |tables|
    ensures DistinctTimes(tables[n].entries)
  {
    var entries := tables[n].entries;
    TimesAreRight(maxIPs, tables, requests, n);
    forall a, b | a in entries && b in entries && entries[a].lastSeen == entries[b].lastSeen
      ensures a == b
    {
      if a != b {
        LastSeenIsInjective(requests, n, a, b);
      }
    }
  }

  lemma SubsetSize(a: set<string>, b: set<string>)
    requires a <= b
    ensures |a| <= |b|
    ensures |a| == |b| ==> a == b
  {
    assert b == a + (b - a);
  }

  lemma SinceIsLater(requests: seq<Seen>, n: nat, ip: string)
    requires n <= |requests| && Increasing(requests) && ip in LastSeen(requests, n)
    ensures forall k :: k in SeenSince(requests, n, ip) <==>
      k in LastSeen(requests, n) && LastSeen(requests, n)[ip] < LastSeen(requests, n)[k]
  {
    forall k
      ensures k in SeenSince(requests, n, ip) <==>
        k in LastSeen(requests, n) && LastSeen(requests, n)[ip] < LastSeen(requests, n)[k]
    {
      SeenSinceIsLater(requests, n, ip, k);
    }
  }

  /** The table has precisely the `maxIPs` most recently seen distinct addresses. */
  ghost predicate IsExact(maxIPs: nat, entries: map<string, Entry>, requests: seq<Seen>, n: nat)
    requires n <= |requests|
  {
    |entries| <= maxIPs && forall ip :: ip in entries <==> IsRecent(requests, n, ip, maxIPs)
  }

  lemma HoldsIsExact(maxIPs: nat, entries: map<string, Entry>, requests: seq<Seen>, n: nat)
    requires n <= |requests| && Increasing(requests) && Holds(maxIPs, entries, LastSeen(requests, n))
    ensures IsExact(maxIPs, entries, requests, n)
  {
    assert |entries| == |entries.Keys|;
    forall ip
      ensures ip in entries <==> IsRecent(requests, n, ip, maxIPs)
    {
      LastSeenIsPast(requests, n, ip);
      if ip in LastSeen(requests, n) {
        var since := SeenSince(requests, n, ip);
        SinceIsLater(requests, n, ip);
        if ip in entries {
          SubsetSize(since, entries.Keys - {ip});
        } else {
          SubsetSize(entries.Keys, since);
        }
      }
    }
  }

  /** In an exact table with the right times, evicting the empty address is a matter of
      the requests alone. */
  lemma EvictsEmptyIff(maxIPs: nat, t: Table, requests: seq<Seen>, n: nat)
    requires maxIPs > 0 && n < |requests| && Increasing(requests) && IsExact(maxIPs, t.entries, requests, n)
    requires forall k :: k in t.entries ==>
               k in LastSeen(requests, n) && t.entries[k].lastSeen == LastSeen(requests, n)[k]
    ensures MustEvictEmpty(maxIPs, t, requests[n].ip) <==> EvictsEmpty(maxIPs, requests, n)
  {
    LastSeenIsPast(requests, n, "");
    if "" in t.entries {
      var since, others := SeenSince(requests, n, ""), t.entries.Keys - {""};
      SinceIsLater(requests, n, "");
      assert |t.entries| == |t.entries.Keys|;
      RecentIsClosed(maxIPs, requests, n);
      assert since <= others;
      SubsetSize(since, others);
      if IsOldest(t.entries, "") {
        forall k | k in others ensures k in since {
          LastSeenIsInjective(requests, n, "", k);
        }
        assert others == since;
      }
    }
  }

  /** What was seen after a recent address is itself recent. */
  lemma RecentIsClosed(maxIPs: nat, requests: seq<Seen>, n: nat)
    requires n <= |requests| && Increasing(requests) && IsRecent(requests, n, "", maxIPs)
    ensures forall k :: k in SeenSince(requests, n, "") ==> IsRecent(requests, n, k, maxIPs) && k != ""
  {
    LastSeenIsPast(requests, n, "");
    SinceIsLater(requests, n, "");
    forall k | k in SeenSince(requests, n, "")
      ensures IsRecent(requests, n, k, maxIPs) && k != ""
    {
      LastSeenIsPast(requests, n, k);
      SinceIsLater(requests, n, k);
      SubsetSize(SeenSince(requests, n, k), SeenSince(requests, n, ""));
    }
  }

  lemma NeedNotEvictEmpty(maxIPs: nat, t: Table, requests: seq<Seen>, n: nat)
    requires maxIPs > 0 && n < |requests| && Increasing(requests)
    requires Holds(maxIPs, t.entries, LastSeen(requests, n)) && !EvictsEmpty(maxIPs, requests, n)
    ensures !MustEvictEmpty(maxIPs, t, requests[n].ip)
  {
    HoldsIsExact(maxIPs, t.entries, requests, n);
    EvictsEmptyIff(maxIPs, t, requests, n);
  }

  lemma ServeHolds(maxIPs: nat, t: Table, requests: seq<Seen>, n: nat, t': Table)
    requires maxIPs > 0 && 0 < n <= |requests| && Increasing(requests) && DistinctTimes(t.entries)
    requires Holds(maxIPs, t.entries, LastSeen(requests, n - 1)) && !EvictsEmpty(maxIPs, requests, n - 1)
    requires Serves(maxIPs, t, requests[n - 1].ip, requests[n - 1].at, t')
    ensures Holds(maxIPs, t'.entries, LastSeen(requests, n))
  {
    NeedNotEvictEmpty(maxIPs, t, requests, n - 1);
    ServesAsSpecifiedIff(maxIPs, t, requests[n - 1].ip, requests[n - 1].at, t');
    RequestHolds(maxIPs, t, requests, n, t');
  }

  lemma {:induction false} RunHolds(maxIPs: nat, tables: seq<Table>, requests: seq<Seen>, n: nat)
    requires IsRun(maxIPs, tables, requests) && n < |tables| && NoEmptyEviction(maxIPs, requests, n)
    ensures Holds(maxIPs, tables[n].entries, LastSeen(requests, n))
  {
    if n > 0 {
      RunHolds(maxIPs, tables, requests, n - 1);
      RunStep(maxIPs, tables, requests, n);
      TimesAreDistinct(maxIPs, tables, requests, n - 1);
      ServeHolds(maxIPs, tables[n - 1], requests, n, tables[n]);
    }
  }

  /** The table is exact as long as the empty address need not be evicted. */
  lemma TableIsLru(maxIPs: nat, tables: seq<Table>, requests: seq<Seen>, n: nat)
    requires IsRun(maxIPs, tables, requests) && n < |tables| && NoEmptyEviction(maxIPs, requests, n)
    ensures IsExact(maxIPs, tables[n].entries, requests, n)
  {
    RunHolds(maxIPs, tables, requests, n);
    HoldsIsExact(maxIPs, tables[n].entries, requests, n);
  }

  /** Evicting the empty address fails, and the table is not exact any more. */
  lemma EmptyEvictionFails(maxIPs: nat, tables: seq<Table>, requests: seq<Seen>, i: nat)
    requires IsRun(maxIPs, tables, requests) && i < |requests| && EvictsEmpty(maxIPs, requests, i)
    requires IsExact(maxIPs, tables[i].entries, requests, i)
    ensures "" in tables[i + 1].entries && !IsExact(maxIPs, tables[i + 1].entries, requests, i + 1)
  {
    var r := requests[i];
    RunStep(maxIPs, tables, requests, i + 1);
    TimesAreRight(maxIPs, tables, requests, i);
    EvictsEmptyIff(maxIPs, tables[i], requests, i);
    EmptyAddressStays(maxIPs, tables[i], r.ip, r.at, tables[i + 1]);
    EmptyIsNotRecent(maxIPs, requests, i);
  }

  lemma EmptyIsNotRecent(maxIPs: nat, requests: seq<Seen>, i: nat)
    requires maxIPs > 0 && i < |requests| && Increasing(requests) && EvictsEmpty(maxIPs, requests, i)
    ensures !IsRecent(requests, i + 1, "", maxIPs)
  {
    RecentIsClosed(maxIPs, requests, i);
    assert requests[i].ip !in SeenSince(requests, i, "");
  }

  /** The exact condition: in every state of a run the table has precisely the most
      recently seen addresses if and only if no request has to evict the empty one. */
  lemma LruIffNoEmptyEviction(maxIPs: nat, tables: seq<Table>, requests: seq<Seen>)
    requires IsRun(maxIPs, tables, requests)
    ensures (forall n {:trigger tables[n]} :: 0 <= n < |tables| ==> IsExact(maxIPs, tables[n].entries, requests, n))
       <==> NoEmptyEviction(maxIPs, requests, |requests|)
  {
    if NoEmptyEviction(maxIPs, requests, |requests|) {
      forall n {:trigger tables[n]} | 0 <= n < |tables|
        ensures IsExact(maxIPs, tables[n].entries, requests, n)
      {
        TableIsLru(maxIPs, tables, requests, n);
      }
    } else {
      var i :| 0 <= i < |requests| && EvictsEmpty(maxIPs, requests, i);
      if IsExact(maxIPs, tables[i].entries, requests, i) {
        EmptyEvictionFails(maxIPs, tables, requests, i);
      }
    }
  }

  /** Non-empty addresses will do. */
  lemma NonEmptyNeverFails(maxIPs: nat, requests: seq<Seen>)
    requires forall i :: 0 <= i < |requests| ==> requests[i].ip != ""
    ensures NoEmptyEviction(maxIPs, requests, |requests|)
  {
  }

  function Xs(n: nat): string {
    seq(n, i => 'x')
  }

  /** The empty address, then as many others as fit, then one more. */
  function FillingUp(n: nat): seq<Seen> {
    seq(n + 1, i requires 0 <= i => Seen(Xs(i), i))
  }

  lemma {:induction false} FillingUpSeen(m: nat, n: nat)
    requires 0 < n <= m + 1
    ensures IsSeen(FillingUp(m), n, "") && |SeenSince(FillingUp(m), n, "")| == n - 1
    ensures forall k :: k in SeenSince(FillingUp(m), n, "") ==> |k| < n
  {
    var rs := FillingUp(m);
    assert rs[0].ip == "" && rs[n - 1].ip == Xs(n - 1) && |Xs(n - 1)| == n - 1;
    if n > 1 {
      FillingUpSeen(m, n - 1);
      assert Xs(n - 1) != "" && Xs(n - 1) !in SeenSince(rs, n - 1, "");
    }
  }

  /** For every limit there are requests that must evict the empty address; every run of
      them ends with a table that has it and one address too many, or one too few of the
      others. */
  lemma EmptyEvictionIsReachable(maxIPs: nat, tables: seq<Table>)
    requires maxIPs > 0
    ensures Increasing(FillingUp(maxIPs)) && EvictsEmpty(maxIPs, FillingUp(maxIPs), maxIPs)
    ensures IsRun(maxIPs, tables, FillingUp(maxIPs)) ==>
              !IsExact(maxIPs, tables[maxIPs + 1].entries, FillingUp(maxIPs), maxIPs + 1)
    ensures IsRun(maxIPs, tables, FillingUp(maxIPs)) && maxIPs == 1 ==> |tables[2].entries| == 2
  {
    var rs := FillingUp(maxIPs);
    FillingUpSeen(maxIPs, maxIPs);
    assert forall i :: 0 <= i < maxIPs ==> |rs[i].ip| == i;
    assert |rs[maxIPs].ip| == maxIPs;
    assert !IsSeen(rs, maxIPs, rs[maxIPs].ip);
    if IsRun(maxIPs, tables, rs) {
      forall i | 0 <= i < maxIPs ensures !EvictsEmpty(maxIPs, rs, i) {
        if i > 0 {
          FillingUpSeen(maxIPs, i);
        }
      }
      TableIsLru(maxIPs, tables, rs, maxIPs);
      EmptyEvictionFails(maxIPs, tables, rs, maxIPs);
      if maxIPs == 1 {
        OnlyEmptyGrows(tables, rs);
      }
    }
  }

  lemma OnlyEmptyGrows(tables: seq<Table>, requests: seq<Seen>)
    requires IsRun(1, tables, requests) && |requests| == 2 && requests[0].ip == "" && requests[1].ip != ""
    ensures |tables[2].entries| == 2
  {
    RunStep(1, tables, requests, 1);
    RunStep(1, tables, requests, 2);
    assert tables[1].entries.Keys == {""} && IsOldest(tables[1].entries, "");
    assert |tables[1].entries| == |tables[1].entries.Keys|;
    EmptyAddressStays(1, tables[1], requests[1].ip, requests[1].at, tables[2]);
  }

  /** An address that stays among them keeps its limiter. */
  lemma {:induction false} LimiterIsKept(
    maxIPs: nat, tables: seq<Table>, requests: seq<Seen>, i: nat, j: nat, ip: string)
    requires IsRun(maxIPs, tables, requests) && i <= j < |tables| && NoEmptyEviction(maxIPs, requests, j)
    requires forall k :: i <= k <= j ==> IsRecent(requests, k, ip, maxIPs)
    ensures ip in tables[i].entries && ip in tables[j].entries
    ensures tables[j].entries[ip].limiter == tables[i].entries[ip].limiter
  {
    TableIsLru(maxIPs, tables, requests, j);
    if i < j {
      LimiterIsKept(maxIPs, tables, requests, i, j - 1, ip);
      RunStep(maxIPs, tables, requests, j);
      ServeKeeps(maxIPs, tables[j - 1], requests[j - 1].ip, requests[j - 1].at, tables[j]);
    }
  }

  lemma {:induction false} LimitersAreDistinct(maxIPs: nat, tables: seq<Table>, requests: seq<Seen>, n: nat)
    requires IsRun(maxIPs, tables, requests) && n < |tables|
    ensures forall a :: a in tables[n].entries ==> tables[n].entries[a].limiter < tables[n].next
    ensures forall a, b :: a in tables[n].entries && b in tables[n].entries && a != b ==>
              tables[n].entries[a].limiter != tables[n].entries[b].limiter
  {
    if n > 0 {
      LimitersAreDistinct(maxIPs, tables, requests, n - 1);
      RunStep(maxIPs, tables, requests, n);
      ServeKeeps(maxIPs, tables[n - 1], requests[n - 1].ip, requests[n - 1].at, tables[n]);
    }
  }

  /** A limiter that existed in an earlier state was then the same address's. */
  lemma {:induction false} OldLimitersStay(
    maxIPs: nat, tables: seq<Table>, requests: seq<Seen>, i: nat, j: nat, ip: string)
    requires IsRun(maxIPs, tables, requests) && i <= j < |tables| && ip in tables[j].entries
    requires tables[j].entries[ip].limiter < tables[i].next
    ensures forall k :: i <= k <= j ==>
              ip in tables[k].entries && tables[k].entries[ip].limiter == tables[j].entries[ip].limiter
  {
    if i < j {
      RunStep(maxIPs, tables, requests, j);
      ServeKeeps(maxIPs, tables[j - 1], requests[j - 1].ip, requests[j - 1].at, tables[j]);
      NextGrows(maxIPs, tables, requests, i, j - 1);
      OldLimitersStay(maxIPs, tables, requests, i, j - 1, ip);
    }
  }

  lemma {:induction false} NextGrows(maxIPs: nat, tables: seq<Table>, requests: seq<Seen>, i: nat, j: nat)
    requires IsRun(maxIPs, tables, requests) && i <= j < |tables|
    ensures tables[i].next <= tables[j].next
  {
    if i < j {
      NextGrows(maxIPs, tables, requests, i, j - 1);
      RunStep(maxIPs, tables, requests, j);
      ServeKeeps(maxIPs, tables[j - 1], requests[j - 1].ip, requests[j - 1].at, tables[j]);
    }
  }

  /** Limiters are never shared or handed out twice: one found in two states of a run
      belongs to one address, which was in the table all the time between. */
  lemma LimitersAreNeverReused(
    maxIPs: nat, tables: seq<Table>, requests: seq<Seen>, i: nat, j: nat, k: nat, a: string, b: string)
    requires IsRun(maxIPs, tables, requests) && i <= k <= j < |tables|
    requires a in tables[i].entries && b in tables[j].entries
    requires tables[i].entries[a].limiter == tables[j].entries[b].limiter
    ensures a == b && a in tables[k].entries
  {
    LimitersAreDistinct(maxIPs, tables, requests, i);
    OldLimitersStay(maxIPs, tables, requests, i, j, b);
  }
}
