/** The web-server collector's statistics: totals and status classes, and the ranking of
    client addresses by an in-place exchange sort. Maps are visited in any order. */
module WebServerStats {

  datatype AccessLogEntry = AccessLogEntry(ip: string, verb: string, status: nat, bytes: int)

  datatype IpStat = IpStat(ip: string, requests: nat, bytes: int)

  // ---------------------------------------------------------------------------
  // What is counted
  // ---------------------------------------------------------------------------

  function Requests(entries: seq<AccessLogEntry>, ip: string): nat {
    if entries == [] then 0
    else Requests(entries[..|entries| - 1], ip) + if entries[|entries| - 1].ip == ip then 1 else 0
  }

  function BytesTo(entries: seq<AccessLogEntry>, ip: string): int {
    if entries == [] then 0
    else BytesTo(entries[..|entries| - 1], ip) + if entries[|entries| - 1].ip == ip then entries[|entries| - 1].bytes else 0
  }

  function TotalBytes(entries: seq<AccessLogEntry>): int {
    if entries == [] then 0 else TotalBytes(entries[..|entries| - 1]) + entries[|entries| - 1].bytes
  }

  /** Entries whose status is one of `codes` and of the given class. */
  function InClass(entries: seq<AccessLogEntry>, codes: set<nat>, category: nat): nat {
    if entries == [] then 0
    else
      var e := entries[|entries| - 1];
      InClass(entries[..|entries| - 1], codes, category) + if e.status in codes && e.status / 100 == category then 1 else 0
  }

  function WithStatus(entries: seq<AccessLogEntry>, code: nat): nat {
    if entries == [] then 0
    else WithStatus(entries[..|entries| - 1], code) + if entries[|entries| - 1].status == code then 1 else 0
  }

  function Codes(entries: seq<AccessLogEntry>): set<nat> {
    set e | e in entries :: e.status
  }

  function SumRequests(stats: seq<IpStat>): nat {
    if stats == [] then 0 else stats[0].requests + SumRequests(stats[1..])
  }

  function SumBytes(stats: seq<IpStat>): int {
    if stats == [] then 0 else stats[0].bytes + SumBytes(stats[1..])
  }

  // ---------------------------------------------------------------------------
  // The ranking
  // ---------------------------------------------------------------------------

  predicate DistinctIps(stats: seq<IpStat>) {
    forall i, j :: 0 <= i < j < |stats| ==> stats[i].ip != stats[j].ip
  }

  predicate Exact(s: IpStat, entries: seq<AccessLogEntry>) {
    s.requests == Requests(entries, s.ip) > 0 && s.bytes == BytesTo(entries, s.ip)
  }

  predicate Ranked(stats: seq<IpStat>) {
    forall i, j :: 0 <= i < j < |stats| ==> stats[i].requests >= stats[j].requests
  }

  predicate Covers(stats: seq<IpStat>, entries: seq<AccessLogEntry>) {
    forall e :: e in entries ==> Has(stats, e.ip)
  }

  predicate Has(stats: seq<IpStat>, ip: string) {
    exists s :: s in stats && s.ip == ip
  }

  /** The addresses that made requests. */
  function Addresses(entries: seq<AccessLogEntry>): set<string> {
    set e | e in entries :: e.ip
  }

  function Min(a: nat, b: nat): nat { if a < b then a else b }

  /** A correct answer: distinct addresses with exact counts, in descending order, as many as
      there are up to `limit`, and no address left out has more requests than one listed. */
  ghost predicate IsTop(result: seq<IpStat>, entries: seq<AccessLogEntry>, limit: nat) {
    && DistinctIps(result) && (forall s :: s in result ==> Exact(s, entries)) && Ranked(result)
    && |result| == Min(limit, |Addresses(entries)|)
    && forall e, s :: e in entries && s in result && (forall r :: r in result ==> r.ip != e.ip)
         ==> Requests(entries, e.ip) <= s.requests
  }

  /** The number of stats for an address: one when addresses are distinct and it is listed. */
  function Listed(stats: seq<IpStat>, ip: string): nat {
    if stats == [] then 0 else (if stats[0].ip == ip then 1 else 0) + Listed(stats[1..], ip)
  }

  lemma {:induction false} ListedOnce(stats: seq<IpStat>, ip: string)
    requires DistinctIps(stats)
    ensures Listed(stats, ip) == if Has(stats, ip) then 1 else 0
  {
    if stats != [] {
      ListedOnce(stats[1..], ip);
      assert forall s :: s in stats <==> s == stats[0] || s in stats[1..];
      assert forall i :: 0 <= i < |stats[1..]| ==> stats[1..][i].ip != stats[0].ip;
    }
  }

  function SumOf(stats: seq<IpStat>, entries: seq<AccessLogEntry>): nat {
    if stats == [] then 0 else Requests(entries, stats[0].ip) + SumOf(stats[1..], entries)
  }

  function SumBytesOf(stats: seq<IpStat>, entries: seq<AccessLogEntry>): int {
    if stats == [] then 0 else BytesTo(entries, stats[0].ip) + SumBytesOf(stats[1..], entries)
  }

  lemma {:induction false} SumStep(stats: seq<IpStat>, entries: seq<AccessLogEntry>)
    requires entries != []
    ensures var init, e := entries[..|entries| - 1], entries[|entries| - 1];
            && SumOf(stats, entries) == SumOf(stats, init) + Listed(stats, e.ip)
            && SumBytesOf(stats, entries) == SumBytesOf(stats, init) + Listed(stats, e.ip) * e.bytes
  {
    if stats != [] {
      var e, rest := entries[|entries| - 1], stats[1..];
      SumStep(rest, entries);
      var one := if stats[0].ip == e.ip then 1 else 0;
      assert BytesTo(entries, stats[0].ip) == BytesTo(entries[..|entries| - 1], stats[0].ip) + one * e.bytes;
      assert (one + Listed(rest, e.ip)) * e.bytes == one * e.bytes + Listed(rest, e.ip) * e.bytes;
    }
  }

  lemma {:induction false} SumNone(stats: seq<IpStat>)
    ensures SumOf(stats, []) == 0 && SumBytesOf(stats, []) == 0
  {
    if stats != [] { SumNone(stats[1..]); }
  }

  /** Distinct addresses never account for more than there is, and for all of it exactly
      when they cover it. */
  lemma {:induction false} SumsCover(stats: seq<IpStat>, entries: seq<AccessLogEntry>)
    requires DistinctIps(stats)
    ensures SumOf(stats, entries) <= |entries|
    ensures SumOf(stats, entries) == |entries| <==> Covers(stats, entries)
    ensures Covers(stats, entries) ==> SumBytesOf(stats, entries) == TotalBytes(entries)
  {
    hide DistinctIps, Has;
    if entries == [] {
      SumNone(stats);
    } else {
      var init, e := entries[..|entries| - 1], entries[|entries| - 1];
      assert entries == init + [e];
      assert Covers(stats, entries) <==> Covers(stats, init) && Has(stats, e.ip);
      SumsCover(stats, init);
      SumStep(stats, entries);
      ListedOnce(stats, e.ip);
    }
  }

  lemma {:induction false} SumsExact(stats: seq<IpStat>, entries: seq<AccessLogEntry>)
    requires forall s :: s in stats ==> Exact(s, entries)
    ensures SumRequests(stats) == SumOf(stats, entries) && SumBytes(stats) == SumBytesOf(stats, entries)
  {
    if stats != [] {
      assert stats[0] in stats && forall s :: s in stats[1..] ==> s in stats;
      SumsExact(stats[1..], entries);
    }
  }

  function Ips(stats: seq<IpStat>): set<string> {
    set s | s in stats :: s.ip
  }

  lemma {:induction false} IpsCounted(stats: seq<IpStat>)
    requires DistinctIps(stats)
    ensures |Ips(stats)| == |stats|
  {
    if stats != [] {
      var rest := stats[1..];
      forall i | 0 <= i < |rest| ensures rest[i].ip != stats[0].ip {
        assert rest[i] == stats[i + 1];
      }
      IpsCounted(rest);
      hide DistinctIps;
      assert stats == [stats[0]] + rest;
      assert Ips(stats) == {stats[0].ip} + Ips(rest);
    }
  }

  /** Exact stats name addresses of the log, all of them exactly when they cover it. */
  lemma IpsOfLog(stats: seq<IpStat>, entries: seq<AccessLogEntry>)
    requires forall s :: s in stats ==> Exact(s, entries)
    ensures Ips(stats) <= Addresses(entries)
    ensures Covers(stats, entries) <==> Ips(stats) == Addresses(entries)
  {
    forall s | s in stats ensures s.ip in Addresses(entries) {
      RequestsPositive(entries, s.ip);
    }
    if Covers(stats, entries) {
      forall ip | ip in Addresses(entries) ensures ip in Ips(stats) {
        var e :| e in entries && e.ip == ip;
        assert Has(stats, e.ip);
      }
    }
    if Ips(stats) == Addresses(entries) {
      forall e | e in entries ensures Has(stats, e.ip) {
        assert e.ip in Ips(stats);
      }
    }
  }

  lemma SameSize(a: set<string>, b: set<string>)
    requires a <= b
    ensures |a| <= |b|
    ensures |a| == |b| <==> a == b
  {
    assert b == a + (b - a);
    assert |b| == |a| + |b - a|;
  }

  /** Every address is listed exactly when there are no more than `limit` of them. */
  lemma TopCovers(result: seq<IpStat>, entries: seq<AccessLogEntry>, limit: nat)
    requires IsTop(result, entries, limit)
    ensures Covers(result, entries) <==> |Addresses(entries)| <= limit
  {
    IpsCounted(result);
    IpsOfLog(result, entries);
    SameSize(Ips(result), Addresses(entries));
  }

  /** CONSERVATION. The listed requests add up to the number of entries exactly when the log
      has at most `limit` addresses, and the listed bytes then add up to the total. */
  lemma NothingLost(result: seq<IpStat>, entries: seq<AccessLogEntry>, limit: nat)
    requires IsTop(result, entries, limit)
    ensures SumRequests(result) <= |entries|
    ensures SumRequests(result) == |entries| <==> |Addresses(entries)| <= limit
    ensures |Addresses(entries)| <= limit ==> SumBytes(result) == TotalBytes(entries)
  {
    TopCovers(result, entries, limit);
    SumsExact(result, entries);
    SumsCover(result, entries);
  }

  lemma {:induction false} RequestsPositive(entries: seq<AccessLogEntry>, ip: string)
    ensures Requests(entries, ip) > 0 <==> exists e :: e in entries && e.ip == ip
  {
    if entries != [] {
      var n := |entries| - 1;
      RequestsPositive(entries[..n], ip);
      assert forall e :: e in entries <==> e in entries[..n] || e == entries[n];
    }
  }

  /** The first `i` places hold elements no smaller than anything after them. */
  ghost predicate Settled(s: seq<IpStat>, i: nat) {
    forall k, m :: 0 <= k < m < |s| && k < i ==> s[k].requests >= s[m].requests
  }

  /** Place `i` holds the largest element seen between `i` and `j`. */
  ghost predicate Best(s: seq<IpStat>, i: nat, j: nat)
    requires i < j <= |s|
  {
    forall m :: i < m < j ==> s[i].requests >= s[m].requests
  }

  ghost predicate Rearranges(s: seq<IpStat>, t: seq<IpStat>) {
    multiset(s) == multiset(t) && |s| == |t| && (DistinctIps(s) ==> DistinctIps(t))
  }

  /** One comparison of the inner loop. */
  lemma CompareStep(start: seq<IpStat>, s: seq<IpStat>, t: seq<IpStat>, i: nat, j: nat)
    requires i < j < |s| && Rearranges(start, s) && Settled(s, i) && Best(s, i, j)
    requires t == if s[j].requests > s[i].requests then s[i := s[j]][j := s[i]] else s
    ensures Rearranges(start, t) && Settled(t, i) && Best(t, i, j + 1)
  {
    if s[j].requests > s[i].requests {
      SwapKeeps(s, t, i, j);
    }
  }

  lemma SwapKeeps(s: seq<IpStat>, t: seq<IpStat>, i: nat, j: nat)
    requires i < j < |s| && t == s[i := s[j]][j := s[i]]
    ensures Rearranges(s, t)
  {
  }

  lemma SettleNext(s: seq<IpStat>, i: nat)
    requires i < |s| && Settled(s, i) && Best(s, i, |s|)
    ensures Settled(s, i + 1)
  {
  }

  /** Exchange sort: every later element that is larger than the one in place is swapped in. */
  method ExchangeSort(a: array<IpStat>)
    modifies a
    ensures Ranked(a[..]) && Rearranges(old(a[..]), a[..])
  {
    hide Settled, Best, Rearranges, DistinctIps;
    ghost var start := a[..];
    SortStart(start);
    var i := 0;
    while i < a.Length
      invariant 0 <= i <= a.Length
      invariant Rearranges(start, a[..]) && Settled(a[..], i)
    {
      var j := i + 1;
      SortRow(a[..], i);
      while j < a.Length
        invariant i + 1 <= j <= a.Length
        invariant Rearranges(start, a[..]) && Settled(a[..], i) && Best(a[..], i, j)
      {
        ghost var before := a[..];
        if a[j].requests > a[i].requests {
          a[i], a[j] := a[j], a[i];
        }
        CompareStep(start, before, a[..], i, j);
        j := j + 1;
      }
      SettleNext(a[..], i);
      i := i + 1;
    }
    SortEnd(a[..]);
  }

  lemma SortStart(s: seq<IpStat>)
    ensures Rearranges(s, s) && Settled(s, 0)
  {
  }

  lemma SortRow(s: seq<IpStat>, i: nat)
    requires i < |s|
    ensures Best(s, i, i + 1)
  {
  }

  lemma SortEnd(s: seq<IpStat>)
    requires Settled(s, |s|)
    ensures Ranked(s)
  {
  }

  /** The two maps count exactly the given entries. */
  ghost predicate Counts(ipCounts: map<string, nat>, ipBytes: map<string, int>, entries: seq<AccessLogEntry>) {
    && (forall ip :: ip in ipCounts <==> Requests(entries, ip) > 0)
    && ipBytes.Keys == ipCounts.Keys
    && forall ip :: ip in ipCounts ==> ipCounts[ip] == Requests(entries, ip) && ipBytes[ip] == BytesTo(entries, ip)
  }

  lemma CountsNext(ipCounts: map<string, nat>, ipBytes: map<string, int>, entries: seq<AccessLogEntry>, k: nat)
    requires k < |entries| && Counts(ipCounts, ipBytes, entries[..k])
    ensures var e := entries[k];
            Counts(ipCounts[e.ip := (if e.ip in ipCounts then ipCounts[e.ip] else 0) + 1],
                   ipBytes[e.ip := (if e.ip in ipBytes then ipBytes[e.ip] else 0) + e.bytes],
                   entries[..k + 1])
  {
    var e := entries[k];
    assert entries[..k + 1][..k] == entries[..k] && entries[..k + 1][k] == e;
    forall ip
      ensures Requests(entries[..k + 1], ip) == Requests(entries[..k], ip) + if ip == e.ip then 1 else 0
      ensures BytesTo(entries[..k + 1], ip) == BytesTo(entries[..k], ip) + if ip == e.ip then e.bytes else 0
    {}
    if e.ip !in ipCounts {
      NoBytes(entries[..k], e.ip);
    }
  }

  method CountByIp(entries: seq<AccessLogEntry>) returns (ipCounts: map<string, nat>, ipBytes: map<string, int>)
    ensures Counts(ipCounts, ipBytes, entries)
  {
    ipCounts, ipBytes := map[], map[];
    assert Counts(ipCounts, ipBytes, []);
    for k := 0 to |entries|
      invariant ipBytes.Keys == ipCounts.Keys
      invariant Counts(ipCounts, ipBytes, entries[..k])
    {
      hide Counts;
      var e := entries[k];
      CountsNext(ipCounts, ipBytes, entries, k);
      ipCounts := ipCounts[e.ip := (if e.ip in ipCounts then ipCounts[e.ip] else 0) + 1];
      ipBytes := ipBytes[e.ip := (if e.ip in ipBytes then ipBytes[e.ip] else 0) + e.bytes];
    }
    assert entries[..|entries|] == entries;
  }

  lemma {:induction false} NoBytes(entries: seq<AccessLogEntry>, ip: string)
    requires Requests(entries, ip) == 0
    ensures BytesTo(entries, ip) == 0
  {
    if entries != [] {
      NoBytes(entries[..|entries| - 1], ip);
    }
  }

  method ListStats(entries: seq<AccessLogEntry>) returns (stats: seq<IpStat>)
    ensures DistinctIps(stats) && Covers(stats, entries) && forall s :: s in stats ==> Exact(s, entries)
  {
    var ipCounts, ipBytes := CountByIp(entries);
    stats := [];
    var pending := ipCounts.Keys;
    while pending != {}
      invariant pending <= ipCounts.Keys
      invariant DistinctIps(stats)
      invariant forall s :: s in stats ==> Exact(s, entries) && s.ip in ipCounts && s.ip !in pending
      invariant forall ip :: ip in ipCounts && ip !in pending ==> Has(stats, ip)
      decreases pending
    {
      var ip :| ip in pending;
      var stat := IpStat(ip, ipCounts[ip], ipBytes[ip]);
      ghost var was := stats;
      stats := stats + [stat];
      pending := pending - {ip};
      assert stat in stats && forall s :: s in was ==> s in stats;
      forall other | other in ipCounts && other !in pending ensures Has(stats, other) {
        if other != ip {
          assert Has(was, other);
          var s :| s in was && s.ip == other;
          assert s in stats;
        }
      }
    }
    forall e | e in entries ensures Has(stats, e.ip) {
      RequestsPositive(entries, e.ip);
      assert e.ip in ipCounts;
    }
  }

  /** The `limit` busiest addresses. A negative limit is out of range for Go's
      slice expression. */
  method GetTopIPs(entries: seq<AccessLogEntry>, limit: int) returns (result: seq<IpStat>)
    requires limit >= 0
    ensures IsTop(result, entries, limit)
  {
    var stats := ListStats(entries);
    var a := new IpStat[|stats|](i requires 0 <= i < |stats| => stats[i]);
    assert a[..] == stats;
    ExchangeSort(a);
    ghost var sorted := a[..];
    assert DistinctIps(sorted);
    forall s ensures s in sorted <==> s in stats {
      assert s in multiset(sorted) <==> s in multiset(stats);
    }
    result := if a.Length > limit then a[..limit] else a[..];
    CutIsTop(sorted, result, entries, limit);
  }

  lemma CutIsTop(sorted: seq<IpStat>, result: seq<IpStat>, entries: seq<AccessLogEntry>, limit: nat)
    requires DistinctIps(sorted) && Covers(sorted, entries) && Ranked(sorted) && forall s :: s in sorted ==> Exact(s, entries)
    requires result == if |sorted| > limit then sorted[..limit] else sorted
    ensures IsTop(result, entries, limit)
  {
    ListedSize(sorted, entries);
    CutBusiest(sorted, result, entries);
  }

  lemma ListedSize(stats: seq<IpStat>, entries: seq<AccessLogEntry>)
    requires DistinctIps(stats) && Covers(stats, entries) && forall s :: s in stats ==> Exact(s, entries)
    ensures |stats| == |Addresses(entries)|
  {
    IpsCounted(stats);
    IpsOfLog(stats, entries);
  }

  lemma CutBusiest(sorted: seq<IpStat>, result: seq<IpStat>, entries: seq<AccessLogEntry>)
    requires Covers(sorted, entries) && Ranked(sorted) && forall s :: s in sorted ==> Exact(s, entries)
    requires result <= sorted
    ensures forall e, s :: e in entries && s in result && (forall r :: r in result ==> r.ip != e.ip)
              ==> Requests(entries, e.ip) <= s.requests
  {
    forall e, s | e in entries && s in result && (forall r :: r in result ==> r.ip != e.ip)
      ensures Requests(entries, e.ip) <= s.requests
    {
      assert Has(sorted, e.ip);
      var t :| t in sorted && t.ip == e.ip;
      var i :| 0 <= i < |sorted| && sorted[i] == t;
      var j :| 0 <= j < |result| && result[j] == s;
      assert forall k :: 0 <= k < |result| ==> result[k] in result && result[k].ip != e.ip;
      assert i >= |result| && sorted[j] == s;
    }
  }

  // ---------------------------------------------------------------------------
  // Totals
  // ---------------------------------------------------------------------------

  lemma {:induction false} ClassStep(entries: seq<AccessLogEntry>, codes: set<nat>, code: nat, category: nat)
    requires code !in codes
    ensures InClass(entries, codes + {code}, category) ==
            InClass(entries, codes, category) + if code / 100 == category then WithStatus(entries, code) else 0
    ensures InClass(entries, {}, category) == 0
  {
    if entries != [] {
      ClassStep(entries[..|entries| - 1], codes, code, category);
    }
  }

  lemma {:induction false} ClassNone(entries: seq<AccessLogEntry>, category: nat)
    ensures InClass(entries, {}, category) == 0
  {
    if entries != [] { ClassNone(entries[..|entries| - 1], category); }
  }

  datatype Stats = Stats(totalRequests: nat, totalBytes: int, status2xx: nat, status3xx: nat, status4xx: nat, status5xx: nat)

  method CountStatuses(entries: seq<AccessLogEntry>) returns (totalBytes: int, statusCodes: map<nat, nat>)
    ensures totalBytes == TotalBytes(entries)
    ensures statusCodes.Keys == Codes(entries)
    ensures forall c :: c in statusCodes ==> statusCodes[c] == WithStatus(entries, c)
  {
    totalBytes, statusCodes := 0, map[];
    for k := 0 to |entries|
      invariant totalBytes == TotalBytes(entries[..k])
      invariant statusCodes.Keys == Codes(entries[..k])
      invariant forall c :: c in statusCodes ==> statusCodes[c] == WithStatus(entries[..k], c)
    {
      var e := entries[k];
      hide WithStatus, Codes;
      StatusNext(entries, k);
      if e.status !in statusCodes {
        NoStatus(entries[..k], e.status);
      }
      totalBytes := totalBytes + e.bytes;
      statusCodes := statusCodes[e.status := (if e.status in statusCodes then statusCodes[e.status] else 0) + 1];
    }
    assert entries[..|entries|] == entries;
  }

  lemma StatusNext(entries: seq<AccessLogEntry>, k: nat)
    requires k < |entries|
    ensures Codes(entries[..k + 1]) == Codes(entries[..k]) + {entries[k].status}
    ensures forall c :: WithStatus(entries[..k + 1], c) == WithStatus(entries[..k], c) + if entries[k].status == c then 1 else 0
    ensures TotalBytes(entries[..k + 1]) == TotalBytes(entries[..k]) + entries[k].bytes
  {
    assert entries[..k + 1] == entries[..k] + [entries[k]] && entries[..k + 1][..k] == entries[..k];
  }

  lemma {:induction false} NoStatus(entries: seq<AccessLogEntry>, code: nat)
    requires code !in Codes(entries)
    ensures WithStatus(entries, code) == 0
  {
    if entries != [] {
      var n := |entries| - 1;
      assert entries[n] in entries && forall e :: e in entries[..n] ==> e in entries;
      NoStatus(entries[..n], code);
    }
  }

  /** Each status class counts the entries whose status lies in it, although the loop adds
      up per-status counts in any order. */
  method GetStats(entries: seq<AccessLogEntry>) returns (stats: Stats)
    ensures stats.totalRequests == |entries| && stats.totalBytes == TotalBytes(entries)
    ensures stats.status2xx == InClass(entries, Codes(entries), 2) && stats.status3xx == InClass(entries, Codes(entries), 3)
    ensures stats.status4xx == InClass(entries, Codes(entries), 4) && stats.status5xx == InClass(entries, Codes(entries), 5)
    ensures stats.status2xx == |Between(entries, 200, 300)| && stats.status3xx == |Between(entries, 300, 400)|
    ensures stats.status4xx == |Between(entries, 400, 500)| && stats.status5xx == |Between(entries, 500, 600)|
  {
    var totalBytes, statusCodes := CountStatuses(entries);
    var count2xx, count3xx, count4xx, count5xx := 0, 0, 0, 0;
    var pending := statusCodes.Keys;
    ghost var visited: set<nat> := {};
    ClassNone(entries, 2); ClassNone(entries, 3); ClassNone(entries, 4); ClassNone(entries, 5);
    while pending != {}
      invariant visited + pending == statusCodes.Keys && visited !! pending
      invariant count2xx == InClass(entries, visited, 2) && count3xx == InClass(entries, visited, 3)
      invariant count4xx == InClass(entries, visited, 4) && count5xx == InClass(entries, visited, 5)
      decreases pending
    {
      var code :| code in pending;
      var count := statusCodes[code];
      ClassStep(entries, visited, code, 2);
      ClassStep(entries, visited, code, 3);
      ClassStep(entries, visited, code, 4);
      ClassStep(entries, visited, code, 5);
      match code / 100 {
        case 2 => count2xx := count2xx + count;
        case 3 => count3xx := count3xx + count;
        case 4 => count4xx := count4xx + count;
        case 5 => count5xx := count5xx + count;
        case _ =>
      }
      visited := visited + {code};
      pending := pending - {code};
    }
    assert visited == Codes(entries);
    ClassNumbers(entries, 2); ClassNumbers(entries, 3); ClassNumbers(entries, 4); ClassNumbers(entries, 5);
    stats := Stats(|entries|, totalBytes, count2xx, count3xx, count4xx, count5xx);
  }

  /** The class counts say what their names say. */
  lemma {:induction false} ClassCounts(entries: seq<AccessLogEntry>, codes: set<nat>, category: nat)
    requires Codes(entries) <= codes
    ensures InClass(entries, codes, category) == |FilterClass(entries, category)|
  {
    if entries != [] {
      var n := |entries| - 1;
      assert entries[n] in entries && entries[n].status in Codes(entries);
      assert forall e :: e in entries[..n] ==> e in entries;
      ClassCounts(entries[..n], codes, category);
    }
  }

  function FilterClass(entries: seq<AccessLogEntry>, category: nat): seq<AccessLogEntry> {
    if entries == [] then []
    else
      var e := entries[|entries| - 1];
      FilterClass(entries[..|entries| - 1], category) + if e.status / 100 == category then [e] else []
  }

  /** Entries with a status from `low` up to but not including `high`, in log order. */
  function Between(entries: seq<AccessLogEntry>, low: nat, high: nat): seq<AccessLogEntry> {
    if entries == [] then []
    else
      var e := entries[|entries| - 1];
      Between(entries[..|entries| - 1], low, high) + if low <= e.status < high then [e] else []
  }

  lemma {:induction false} ClassBetween(entries: seq<AccessLogEntry>, category: nat)
    ensures FilterClass(entries, category) == Between(entries, 100 * category, 100 * category + 100)
  {
    if entries != [] {
      ClassBetween(entries[..|entries| - 1], category);
    }
  }

  /** The class counts by their status numbers. */
  lemma ClassNumbers(entries: seq<AccessLogEntry>, category: nat)
    ensures InClass(entries, Codes(entries), category) == |Between(entries, 100 * category, 100 * category + 100)|
  {
    ClassCounts(entries, Codes(entries), category);
    ClassBetween(entries, category);
  }
}
