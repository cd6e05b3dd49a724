/** The SSH brute-force detector: a failure record per address, an automatic block at the
    fifth failure, and a cleanup tick that evicts records silent for over ten minutes.
    Times are in seconds. Each log line and each tick is one atomic event. */
module Bruteforce {
  import opened Firewall

  const THRESHOLD: nat := 5
  const SILENCE := 600   // a record silent for longer is evicted by the next tick
  const TICK := 300      // cleanup period

  datatype Record = Record(count: nat, lastSeen: int)

  type Failures = map<string, Record>

  /** `ok` says whether the block command, if one is issued, succeeds. */
  datatype Event = Failure(ip: string, now: int, ok: bool) | Cleanup(now: int)

  function Count(f: Failures, ip: string): nat {
    if ip in f then f[ip].count else 0
  }

  /** A block command is issued when the count reaches the threshold exactly. */
  predicate Attempts(f: Failures, e: Event) {
    e.Failure? && Count(f, e.ip) + 1 == THRESHOLD
  }

  predicate Blocks(f: Failures, e: Event) {
    Attempts(f, e) && e.ok
  }

  predicate Expired(r: Record, now: int) {
    now - r.lastSeen > SILENCE
  }

  function Next(f: Failures, e: Event): Failures {
    match e
    case Failure(ip, now, ok) => f[ip := Record(if Blocks(f, e) then 0 else Count(f, ip) + 1, now)]
    case Cleanup(now) => map ip | ip in f && !Expired(f[ip], now) :: f[ip]
  }

  /** The records after a run that starts with none. */
  function After(events: seq<Event>): Failures {
    if events == [] then map[] else Next(After(events[..|events| - 1]), events[|events| - 1])
  }

  function FailuresOf(events: seq<Event>, ip: string): nat {
    if events == [] then 0
    else
      var e := events[|events| - 1];
      FailuresOf(events[..|events| - 1], ip) + if e.Failure? && e.ip == ip then 1 else 0
  }

  function BlocksOf(events: seq<Event>, ip: string): nat {
    if events == [] then 0
    else
      var init, e := events[..|events| - 1], events[|events| - 1];
      BlocksOf(init, ip) + if Blocks(After(init), e) && e.ip == ip then 1 else 0
  }

  predicate Evicts(f: Failures, e: Event, ip: string) {
    e.Cleanup? && ip in f && Expired(f[ip], e.now)
  }

  /** Failures that evictions have forgotten. */
  function LostOf(events: seq<Event>, ip: string): nat {
    if events == [] then 0
    else
      var init, e := events[..|events| - 1], events[|events| - 1];
      LostOf(init, ip) + if Evicts(After(init), e, ip) then After(init)[ip].count else 0
  }

  /** CONSERVATION. Every failure is accounted for: five in each successful block, the rest
      in the current count or lost to eviction. */
  lemma {:induction false} Accounting(events: seq<Event>, ip: string)
    ensures FailuresOf(events, ip) ==
            THRESHOLD * BlocksOf(events, ip) + Count(After(events), ip) + LostOf(events, ip)
  {
    if events != [] {
      Accounting(events[..|events| - 1], ip);
    }
  }

  // ---------------------------------------------------------------------------
  // The window
  // ---------------------------------------------------------------------------

  /** Time of the last tick; the ticker starts at `start`. */
  function LastTick(events: seq<Event>, start: int): int {
    if events == [] then start
    else if events[|events| - 1].Cleanup? then events[|events| - 1].now
    else LastTick(events[..|events| - 1], start)
  }

  /** Events in time order, no tick later than one period after the one before it. */
  predicate Timely(events: seq<Event>, start: int) {
    events == [] ||
    var init, e := events[..|events| - 1], events[|events| - 1];
    && Timely(init, start)
    && (if init == [] then start else init[|init| - 1].now) <= e.now <= LastTick(init, start) + TICK
  }

  /** The counted failure times after one more event. */
  function Recount(f: Failures, times: seq<int>, e: Event, ip: string): seq<int> {
    if e.Failure? && e.ip == ip then
      if Blocks(f, e) then [] else (if ip in f then times else []) + [e.now]
    else if Evicts(f, e, ip) then []
    else times
  }

  /** Times of the failures the current record of `ip` has counted since it was created or
      last reset by a successful block. */
  function Counted(events: seq<Event>, ip: string): seq<int> {
    if events == [] then []
    else
      var init, e := events[..|events| - 1], events[|events| - 1];
      Recount(After(init), Counted(init, ip), e, ip)
  }

  ghost predicate Spaced(times: seq<int>, gap: int) {
    forall i :: 0 < i < |times| ==> 0 <= times[i] - times[i - 1] <= gap
  }

  /** What holds of a record and the failure times it has counted, at time `now` with the
      last tick at `tick`. */
  ghost predicate Tracked(f: Failures, ip: string, times: seq<int>, tick: int, now: int) {
    && tick <= now && |times| == Count(f, ip) && Spaced(times, SILENCE + TICK)
    && (ip in f ==>
          && tick - f[ip].lastSeen <= SILENCE && f[ip].lastSeen <= now
          && (times != [] ==> times[|times| - 1] == f[ip].lastSeen))
  }

  lemma TrackedStep(f: Failures, ip: string, times: seq<int>, tick: int, now: int, e: Event)
    requires Tracked(f, ip, times, tick, now) && now <= e.now <= tick + TICK
    ensures Tracked(Next(f, e), ip, Recount(f, times, e, ip), if e.Cleanup? then e.now else tick, e.now)
  {
    if e.Failure? { TrackedFailure(f, ip, times, tick, now, e); }
  }

  lemma TrackedFailure(f: Failures, ip: string, times: seq<int>, tick: int, now: int, e: Event)
    requires e.Failure? && Tracked(f, ip, times, tick, now) && now <= e.now <= tick + TICK
    ensures Tracked(Next(f, e), ip, Recount(f, times, e, ip), tick, e.now)
  {
  }

  /** Consecutive failures counted in one record are at most 15 minutes apart. */
  lemma {:induction false} CountedSpaced(events: seq<Event>, start: int, ip: string)
    requires Timely(events, start)
    ensures Tracked(After(events), ip, Counted(events, ip), LastTick(events, start),
                    if events == [] then start else events[|events| - 1].now)
    ensures Spaced(Counted(events, ip), SILENCE + TICK)
  {
    hide Next, Recount;
    if events != [] {
      var init, e := events[..|events| - 1], events[|events| - 1];
      CountedSpaced(init, start, ip);
      TrackedStep(After(init), ip, Counted(init, ip), LastTick(init, start),
                  if init == [] then start else init[|init| - 1].now, e);
    }
  }

  lemma {:induction false} SpanBound(times: seq<int>, gap: int)
    requires times != [] && Spaced(times, gap)
    ensures times[|times| - 1] - times[0] <= gap * (|times| - 1)
  {
    if |times| > 1 {
      var init := times[..|times| - 1];
      SpanBound(init, gap);
      assert gap * (|times| - 1) == gap * (|init| - 1) + gap;
    }
  }

  /** THE FIVE BEHIND A BLOCK. Whenever a block command is issued the record has counted
      four earlier failures, and the five together span at most 60 minutes. */
  lemma FiveWithinTheHour(events: seq<Event>, start: int)
    requires events != [] && Timely(events, start)
    requires Attempts(After(events[..|events| - 1]), events[|events| - 1])
    ensures var e := events[|events| - 1];
            var before := Counted(events[..|events| - 1], e.ip);
            |before| == 4 && Spaced(before + [e.now], SILENCE + TICK) && e.now - before[0] <= 3600
  {
    var init, e := events[..|events| - 1], events[|events| - 1];
    CountedSpaced(init, start, e.ip);
    var five := Counted(init, e.ip) + [e.now];
    assert Spaced(five, SILENCE + TICK);
    SpanBound(five, SILENCE + TICK);
  }

  // ---------------------------------------------------------------------------
  // The bound is attained: "five attempts in ten minutes" is not what is enforced
  // ---------------------------------------------------------------------------

  /** A failure every 15 minutes, each just before the tick that would have evicted it. */
  function SlowRun(ip: string, n: nat): seq<Event> {
    if n == 0 then [Failure(ip, 0, true)]
    else
      var t := 900 * (n - 1);
      SlowRun(ip, n - 1) + (if n == 1 then [] else [Cleanup(t)])
      + [Cleanup(t + 300), Cleanup(t + 600), Failure(ip, t + 900, true)]
  }

  lemma AfterAppend(events: seq<Event>, e: Event)
    ensures After(events + [e]) == Next(After(events), e)
    ensures LastTick(events + [e], 0) == if e.Cleanup? then e.now else LastTick(events, 0)
    ensures Timely(events + [e], 0) <==>
            Timely(events, 0) && (if events == [] then 0 else events[|events| - 1].now) <= e.now <= LastTick(events, 0) + TICK
  {
    assert (events + [e])[..|events + [e]| - 1] == events;
  }

  lemma {:induction false} SlowRunCounts(ip: string, n: nat)
    requires n <= 3
    ensures var run := SlowRun(ip, n);
            && Timely(run, 0) && run[|run| - 1].now == 900 * n && LastTick(run, 0) >= 0 && LastTick(run, 0) >= 900 * n - 300
            && After(run) == map[ip := Record(n + 1, 900 * n)]
  {
    if n == 0 {
      AfterAppend([], Failure(ip, 0, true));
      assert SlowRun(ip, 0) == [] + [Failure(ip, 0, true)];
    } else {
      SlowRunCounts(ip, n - 1);
      SlowRunStep(ip, n);
    }
  }

  lemma FreshKept(ip: string, r: Record, now: int)
    requires !Expired(r, now)
    ensures Next(map[ip := r], Cleanup(now)) == map[ip := r]
  {
  }

  lemma SlowRunStep(ip: string, n: nat)
    requires 1 <= n <= 4
    requires var run := SlowRun(ip, n - 1);
             && Timely(run, 0) && run[|run| - 1].now == 900 * (n - 1) && LastTick(run, 0) >= 0 && LastTick(run, 0) >= 900 * (n - 1) - 300
             && After(run) == map[ip := Record(n, 900 * (n - 1))]
    ensures var run := SlowRun(ip, n);
            && Timely(run, 0) && run[|run| - 1] == Failure(ip, 900 * n, true) && LastTick(run, 0) >= 0 && LastTick(run, 0) >= 900 * n - 300
            && After(run[..|run| - 1]) == map[ip := Record(n, 900 * (n - 1))]
            && After(run) == map[ip := Record(if n == 4 then 0 else n + 1, 900 * n)]
  {
    hide After, LastTick, Timely;
    var t := 900 * (n - 1);
    var r0 := SlowRun(ip, n - 1);
    FreshKept(ip, Record(n, t), t);
    FreshKept(ip, Record(n, t), t + 300);
    FreshKept(ip, Record(n, t), t + 600);
    var r1 := r0 + if n == 1 then [] else [Cleanup(t)];
    if n > 1 { AfterAppend(r0, Cleanup(t)); } else { assert r1 == r0; }
    assert After(r1) == map[ip := Record(n, t)];
    AfterAppend(r1, Cleanup(t + 300));
    AfterAppend(r1 + [Cleanup(t + 300)], Cleanup(t + 600));
    var r3 := r1 + [Cleanup(t + 300)] + [Cleanup(t + 600)];
    AfterAppend(r3, Failure(ip, t + 900, true));
    assert SlowRun(ip, n) == r3 + [Failure(ip, t + 900, true)];
    assert SlowRun(ip, n)[..|SlowRun(ip, n)| - 1] == r3;
  }

  /** Five failures spread over exactly 60 minutes, no two within ten minutes of each
      other, still trigger a block: the 60-minute bound is tight. */
  lemma SlowAttackBlocked(ip: string)
    ensures var run := SlowRun(ip, 4);
            && Timely(run, 0) && run[|run| - 1] == Failure(ip, 3600, true)
            && Blocks(After(run[..|run| - 1]), run[|run| - 1])
  {
    hide After, LastTick, Timely, SlowRun, Next;
    SlowRunCounts(ip, 3);
    SlowRunStep(ip, 4);
  }

  /** The five failures of that run come at 0, 15, 30, 45 and 60 minutes. */
  lemma SlowAttackTimes(ip: string, n: nat)
    requires n <= 4
    ensures SlowRun(ip, n) != [] && SlowRun(ip, n)[|SlowRun(ip, n)| - 1] == Failure(ip, 900 * n, true)
    ensures SlowRun(ip, n) <= SlowRun(ip, 4)
  {
    hide SlowRun;
    SlowRunGrows(ip, 0);
    SlowRunGrows(ip, 1);
    SlowRunGrows(ip, 2);
    SlowRunGrows(ip, 3);
  }

  lemma SlowRunGrows(ip: string, n: nat)
    ensures SlowRun(ip, n) <= SlowRun(ip, n + 1) && SlowRun(ip, n) != []
    ensures SlowRun(ip, n)[|SlowRun(ip, n)| - 1] == Failure(ip, 900 * n, true)
    ensures SlowRun(ip, n + 1)[|SlowRun(ip, n + 1)| - 1] == Failure(ip, 900 * (n + 1), true)
  {
  }

  // ---------------------------------------------------------------------------
  // A failed block is not retried
  // ---------------------------------------------------------------------------

  function AfterFrom(f: Failures, events: seq<Event>): Failures {
    if events == [] then f else Next(AfterFrom(f, events[..|events| - 1]), events[|events| - 1])
  }

  lemma NoRetryStep(f: Failures, e: Event, ip: string)
    requires Count(f, ip) >= THRESHOLD && !Evicts(f, e, ip)
    ensures Count(Next(f, e), ip) >= THRESHOLD
    ensures e.Failure? && e.ip == ip ==> !Attempts(f, e)
  {
  }

  /** Once a block command has failed, no further failure of the address triggers another
      one until its record is evicted. */
  lemma {:induction false} FailedBlockNotRetried(f: Failures, events: seq<Event>, ip: string)
    requires Count(f, ip) >= THRESHOLD
    requires forall i :: 0 <= i < |events| ==> !Evicts(AfterFrom(f, events[..i]), events[i], ip)
    ensures Count(AfterFrom(f, events), ip) >= THRESHOLD
    ensures forall i :: 0 <= i < |events| && events[i].Failure? && events[i].ip == ip ==>
              !Attempts(AfterFrom(f, events[..i]), events[i])
  {
    hide Next, Attempts, Evicts, Count;
    if events != [] {
      var n := |events| - 1;
      var init := events[..n];
      assert !Evicts(AfterFrom(f, events[..n]), events[n], ip);
      forall i | 0 <= i < n ensures init[..i] == events[..i] {}
      forall i | 0 <= i < n ensures !Evicts(AfterFrom(f, init[..i]), init[i], ip) {
        assert !Evicts(AfterFrom(f, events[..i]), events[i], ip);
      }
      FailedBlockNotRetried(f, init, ip);
      NoRetryStep(AfterFrom(f, init), events[n], ip);
    }
  }

  // ---------------------------------------------------------------------------
  // When the ten-minute promise is kept
  // ---------------------------------------------------------------------------

  /** Every event comes within ten minutes of `t0`. */
  predicate Within(events: seq<Event>, t0: int) {
    forall i :: 0 <= i < |events| ==> t0 <= events[i].now <= t0 + SILENCE
  }

  /** Some failure of the address issues a block command. */
  ghost predicate AttemptMade(f: Failures, events: seq<Event>, ip: string) {
    exists i :: 0 <= i < |events| && events[i].Failure? && events[i].ip == ip && Attempts(AfterFrom(f, events[..i]), events[i])
  }

  lemma AttemptNext(f: Failures, events: seq<Event>, ip: string)
    requires events != []
    ensures var n := |events| - 1;
            AttemptMade(f, events, ip) <==>
            || AttemptMade(f, events[..n], ip)
            || (events[n].Failure? && events[n].ip == ip && Attempts(AfterFrom(f, events[..n]), events[n]))
  {
    hide AfterFrom, Attempts;
    var n := |events| - 1;
    var init := events[..n];
    forall i | 0 <= i < n ensures init[..i] == events[..i] && init[i] == events[i] {}
    if AttemptMade(f, init, ip) {
      var i :| 0 <= i < n && init[i].Failure? && init[i].ip == ip && Attempts(AfterFrom(f, init[..i]), init[i]);
      assert events[i].Failure? && Attempts(AfterFrom(f, events[..i]), events[i]);
    }
    if AttemptMade(f, events, ip) {
      var i :| 0 <= i < |events| && events[i].Failure? && events[i].ip == ip && Attempts(AfterFrom(f, events[..i]), events[i]);
      assert i < n ==> init[i].Failure? && Attempts(AfterFrom(f, init[..i]), init[i]);
    }
  }

  /** One event inside the window neither evicts the record nor lets its time fall behind. */
  lemma WindowStep(f: Failures, e: Event, ip: string, t0: int)
    requires ip in f ==> f[ip].lastSeen >= t0
    requires t0 <= e.now <= t0 + SILENCE
    ensures ip in Next(f, e) ==> Next(f, e)[ip].lastSeen >= t0
    ensures !(e.Failure? && e.ip == ip) ==> Count(Next(f, e), ip) == Count(f, ip)
    ensures e.Failure? && e.ip == ip && !Attempts(f, e) ==> Count(Next(f, e), ip) == Count(f, ip) + 1
  {
  }

  /** Within ten minutes of a time the record was touched at or after, a block command is
      issued exactly when the failures of the window bring the count from below five to five. */
  lemma {:induction false} WindowAttempts(f: Failures, events: seq<Event>, ip: string, t0: int)
    requires (ip in f ==> f[ip].lastSeen >= t0) && Within(events, t0)
    ensures AttemptMade(f, events, ip) <==> Count(f, ip) < THRESHOLD <= Count(f, ip) + FailuresOf(events, ip)
    ensures !AttemptMade(f, events, ip) ==> Count(AfterFrom(f, events), ip) == Count(f, ip) + FailuresOf(events, ip)
    ensures ip in AfterFrom(f, events) ==> AfterFrom(f, events)[ip].lastSeen >= t0
  {
    hide Next, Count, AttemptMade;
    if events == [] {
      NoAttempt(f, ip);
    } else {
      var n := |events| - 1;
      var init, e := events[..n], events[n];
      assert forall i :: 0 <= i < n ==> init[i] == events[i];
      WindowAttempts(f, init, ip, t0);
      WindowStep(AfterFrom(f, init), e, ip, t0);
      AttemptNext(f, events, ip);
    }
  }

  lemma NoAttempt(f: Failures, ip: string)
    ensures !AttemptMade(f, [], ip)
  {
  }

  lemma {:induction false} AfterFromFirst(f: Failures, e: Event, rest: seq<Event>)
    ensures AfterFrom(f, [e] + rest) == AfterFrom(Next(f, e), rest)
  {
    hide Next;
    var all := [e] + rest;
    if rest == [] {
      assert all == [e] && all[..0] == [];
    } else {
      var n := |rest| - 1;
      AfterFromFirst(f, e, rest[..n]);
      assert all[..|all| - 1] == [e] + rest[..n];
    }
  }

  lemma {:induction false} FailuresOfFirst(e: Event, rest: seq<Event>, ip: string)
    ensures FailuresOf([e] + rest, ip) == FailuresOf(rest, ip) + if e.Failure? && e.ip == ip then 1 else 0
  {
    var all := [e] + rest;
    if rest == [] {
      assert all == [e] && all[..0] == [];
    } else {
      var n := |rest| - 1;
      FailuresOfFirst(e, rest[..n], ip);
      assert all[..|all| - 1] == [e] + rest[..n];
    }
  }

  lemma AttemptFirst(f: Failures, e: Event, rest: seq<Event>, ip: string)
    ensures AttemptMade(f, [e] + rest, ip) <==>
            (e.Failure? && e.ip == ip && Attempts(f, e)) || AttemptMade(Next(f, e), rest, ip)
  {
    hide Next, Attempts, AfterFrom;
    var all := [e] + rest;
    NoEvents(f);
    assert all[..0] == [];
    forall i | 0 <= i < |rest| ensures all[..i + 1] == [e] + rest[..i] && AfterFrom(f, all[..i + 1]) == AfterFrom(Next(f, e), rest[..i]) {
      AfterFromFirst(f, e, rest[..i]);
    }
    if AttemptMade(f, all, ip) {
      var i :| 0 <= i < |all| && all[i].Failure? && all[i].ip == ip && Attempts(AfterFrom(f, all[..i]), all[i]);
      if i > 0 {
        assert all[..(i - 1) + 1] == all[..i];
        assert rest[i - 1].Failure? && Attempts(AfterFrom(Next(f, e), rest[..i - 1]), rest[i - 1]);
      }
    }
    if AttemptMade(Next(f, e), rest, ip) {
      var i :| 0 <= i < |rest| && rest[i].Failure? && rest[i].ip == ip && Attempts(AfterFrom(Next(f, e), rest[..i]), rest[i]);
      assert all[i + 1].Failure? && Attempts(AfterFrom(f, all[..i + 1]), all[i + 1]);
    }
    if e.Failure? && e.ip == ip && Attempts(f, e) {
      assert all[0].Failure? && Attempts(AfterFrom(f, all[..0]), all[0]);
    }
  }

  lemma NoEvents(f: Failures)
    ensures AfterFrom(f, []) == f
  {
  }

  /** FIVE IN TEN MINUTES, EXACTLY. Take any records and any window of ten minutes that opens
      with a failure of the address and holds at least five. Some failure of the window
      issues a block command if and only if the count stands below five when the window
      opens; it does not while the record of an earlier failed block is still there. */
  lemma FiveInTenMinutes(f: Failures, events: seq<Event>, ip: string)
    requires events != [] && events[0].Failure? && events[0].ip == ip && Within(events, events[0].now)
    requires FailuresOf(events, ip) >= THRESHOLD
    ensures AttemptMade(f, events, ip) <==> Count(f, ip) < THRESHOLD
  {
    hide AttemptMade;
    var e, rest := events[0], events[1..];
    assert events == [e] + rest;
    assert forall i :: 0 <= i < |rest| ==> rest[i] == events[i + 1];
    AttemptFirst(f, e, rest, ip);
    FailuresOfFirst(e, rest, ip);
    WindowAttempts(Next(f, e), rest, ip, e.now);
  }

  /** `n` failures a second apart while iptables cannot be run. */
  function FailingRun(ip: string, n: nat): seq<Event> {
    if n == 0 then [] else FailingRun(ip, n - 1) + [Failure(ip, n, false)]
  }

  lemma NothingAfter()
    ensures After([]) == map[]
  {
  }

  lemma {:induction false} FailingRunCounts(ip: string, n: nat)
    ensures After(FailingRun(ip, n)) == if n == 0 then map[] else map[ip := Record(n, n)]
  {
    hide LastTick, Timely, After;
    if n == 0 {
      NothingAfter();
    } else {
      FailingRunCounts(ip, n - 1);
      AfterAppend(FailingRun(ip, n - 1), Failure(ip, n, false));
    }
  }

  /** A concrete case: after five failures whose block command failed, no later window opened
      by a failure of the address triggers another block, however many failures it holds. */
  lemma PromiseBroken(ip: string, events: seq<Event>)
    requires events != [] && events[0].Failure? && events[0].ip == ip && Within(events, events[0].now)
    requires FailuresOf(events, ip) >= THRESHOLD
    ensures !AttemptMade(After(FailingRun(ip, 5)), events, ip)
  {
    hide AttemptMade, FailingRun;
    FailingRunCounts(ip, 5);
    FiveInTenMinutes(After(FailingRun(ip, 5)), events, ip);
  }

  // ---------------------------------------------------------------------------
  // The module
  // ---------------------------------------------------------------------------

  class BruteforceModule {
    var failures: map<string, Record>
    const firewall: FirewallCollector

    constructor (firewall: FirewallCollector)
      ensures failures == map[] && this.firewall == firewall
    {
      failures := map[];
      this.firewall := firewall;
    }

    /** A log line from which the address `ip` was extracted; the empty string means the
        line reports no failed login. `available` says whether iptables can be run. */
    method OnLine(ip: string, now: int, available: bool) returns (blocked: bool)
      requires firewall.kernel.Valid()
      modifies this`failures, firewall.kernel`rules
      ensures firewall.kernel.Valid()
      ensures var e := Failure(ip, now, available && IsAddress(ip));
              if ip == "" then failures == old(failures) && firewall.kernel.rules == old(firewall.kernel.rules) && !blocked
              else
                && failures == Next(old(failures), e)
                && blocked == Blocks(old(failures), e)
                && firewall.kernel.rules == if blocked then [BlockRule(ip)] + old(firewall.kernel.rules) else old(firewall.kernel.rules)
    {
      blocked := false;
      if ip == "" { return; }
      var record := if ip in failures then failures[ip] else Record(0, 0);
      record := Record(record.count + 1, now);
      if record.count == 5 {
        var outcome := firewall.ExecuteIPTablesCommand("block_ip", ip, available);
        if outcome.Completed? {
          record := record.(count := 0);
          blocked := true;
        }
      }
      failures := failures[ip := record];
    }

    /** One cleanup tick: the records are visited in any order. */
    method Cleanup(now: int)
      modifies this`failures
      ensures failures == Next(old(failures), Event.Cleanup(now))
    {
      var pending := failures.Keys;
      while pending != {}
        invariant pending <= failures.Keys <= old(failures).Keys
        invariant forall ip :: ip in failures ==> failures[ip] == old(failures)[ip]
        invariant forall ip :: ip in old(failures) && ip !in pending ==>
                    (ip in failures <==> !Expired(old(failures)[ip], now))
        decreases pending
      {
        var ip :| ip in pending;
        if now - failures[ip].lastSeen > 600 {
          failures := failures - {ip};
        }
        pending := pending - {ip};
      }
    }
  }
}
