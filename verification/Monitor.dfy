/** The monitoring engine: a status machine per monitor, the five-second scheduler, passive
    heartbeats and the alerts raised on status changes. Times are in nanoseconds. Every
    scheduler tick and every processed result is one atomic step. */
module Monitor {
  import opened Wrappers

  const SECOND := 1_000_000_000
  const PERIOD := 5 * SECOND

  datatype Status = UP | DOWN | PENDING

  /** `lastCheck` is None for Go's zero time, which is long past for every interval. */
  datatype MonitorState = MonitorState(status: Status, fails: nat, lastCheck: Option<int>)

  datatype MonitorConfig = MonitorConfig(
    id: string, kind: string, enabled: bool, interval: int, thresholdFailures: int, thresholdResponse: int)

  datatype Alert = StatusChange(id: string, status: Status) | SlowResponse(id: string)

  function Needed(m: MonitorConfig): (n: nat) {
    if m.thresholdFailures <= 0 then 1 else m.thresholdFailures
  }

  function Interval(m: MonitorConfig): (i: int)
    ensures i > 0
  {
    (if m.interval <= 0 then 60 else m.interval) * SECOND
  }

  /** Go's conversion of an int to int32. */
  function ToInt32(x: int): int {
    var y := x % 0x1_0000_0000;
    if y >= 0x8000_0000 then y - 0x1_0000_0000 else y
  }

  function Fresh(): MonitorState {
    MonitorState(PENDING, 0, None)
  }

  // ---------------------------------------------------------------------------
  // One result
  // ---------------------------------------------------------------------------

  function Observe(st: MonitorState, up: bool, needed: nat): MonitorState {
    if up then st.(status := UP, fails := 0)
    else st.(fails := st.fails + 1, status := if st.fails + 1 >= needed then DOWN else st.status)
  }

  function Process(st: MonitorState, m: MonitorConfig, up: bool, now: int): MonitorState {
    Observe(if m.kind == "heartbeat" && up then st.(lastCheck := Some(now)) else st, up, Needed(m))
  }

  function Changed(before: MonitorState, after: MonitorState): bool {
    before.status != PENDING && before.status != after.status
  }

  function AlertsFor(m: MonitorConfig, before: MonitorState, after: MonitorState, up: bool, rtt: int): seq<Alert> {
    (if Changed(before, after) then [StatusChange(m.id, after.status)] else [])
    + (if up && m.thresholdResponse > 0 && rtt > ToInt32(m.thresholdResponse) then [SlowResponse(m.id)] else [])
  }

  // ---------------------------------------------------------------------------
  // The status machine over whole histories
  // ---------------------------------------------------------------------------

  /** One result together with the failure threshold in force when it is processed. */
  datatype Obs = Obs(up: bool, needed: nat)

  function Track(st: MonitorState, history: seq<Obs>): MonitorState {
    if history == [] then st
    else
      var n := |history| - 1;
      Observe(Track(st, history[..n]), history[n].up, history[n].needed)
  }

  /** The status-change alerts a history raises, in order. */
  function Alerts(st: MonitorState, history: seq<Obs>): seq<Status> {
    if history == [] then []
    else
      var n := |history| - 1;
      Alerts(st, history[..n]) + if Changed(Track(st, history[..n]), Track(st, history)) then [Track(st, history).status] else []
  }

  /** PENDING is never re-entered. */
  lemma {:induction false} NeverPendingAgain(st: MonitorState, history: seq<Obs>, i: nat)
    requires i <= |history| && Track(st, history[..i]).status != PENDING
    ensures Track(st, history).status != PENDING
  {
    var n := |history| - 1;
    if i <= n {
      assert history[..n][..i] == history[..i];
      NeverPendingAgain(st, history[..n], i);
    } else {
      assert history[..i] == history;
    }
  }

  /** Status-change alerts strictly alternate between DOWN and UP, whatever the thresholds
      do, and the last one names the current status. */
  lemma {:induction false} AlertsAlternate(st: MonitorState, history: seq<Obs>)
    ensures forall k :: 0 <= k < |Alerts(st, history)| ==> Alerts(st, history)[k] != PENDING
    ensures forall k :: 0 < k < |Alerts(st, history)| ==> Alerts(st, history)[k] != Alerts(st, history)[k - 1]
    ensures Alerts(st, history) != [] ==> Alerts(st, history)[|Alerts(st, history)| - 1] == Track(st, history).status
  {
    if history != [] {
      AlertsAlternate(st, history[..|history| - 1]);
    }
  }

  /** Failures at the end of the history, since its last success. */
  function Trailing(history: seq<Obs>): nat {
    if history == [] || history[|history| - 1].up then 0 else 1 + Trailing(history[..|history| - 1])
  }

  ghost predicate AnySuccess(history: seq<Obs>) {
    exists i :: 0 <= i < |history| && history[i].up
  }

  /** What a fixed threshold says of a history without stepping through it: enough trailing
      failures mean DOWN, otherwise any success means UP, otherwise nothing has happened. */
  ghost function Verdict(st: MonitorState, history: seq<Obs>, needed: nat): Status {
    var carried := Trailing(history) + if AnySuccess(history) then 0 else st.fails;
    if Trailing(history) > 0 && carried >= needed then DOWN
    else if AnySuccess(history) then UP
    else st.status
  }

  /** CLOSED FORM. With a fixed threshold the status is a function of the initial state, the
      trailing failures and whether any result succeeded. */
  lemma {:induction false} StatusClosedForm(st: MonitorState, history: seq<Obs>, needed: nat)
    requires forall i :: 0 <= i < |history| ==> history[i].needed == needed
    ensures Track(st, history).status == Verdict(st, history, needed)
    ensures Track(st, history).fails == Trailing(history) + if AnySuccess(history) then 0 else st.fails
  {
    if history != [] {
      var init := history[..|history| - 1];
      StatusClosedForm(st, init, needed);
      assert forall i :: 0 <= i < |init| ==> init[i] == history[i];
      if history[|history| - 1].up {
        assert AnySuccess(history);
      } else {
        assert AnySuccess(history) <==> AnySuccess(init) by {
          if AnySuccess(init) {
            var i :| 0 <= i < |init| && init[i].up;
            assert history[i].up;
          }
        }
      }
    }
  }

  function Downs(alerts: seq<Status>): nat {
    if alerts == [] then 0 else Downs(alerts[..|alerts| - 1]) + if alerts[|alerts| - 1] == DOWN then 1 else 0
  }

  function Failed(history: seq<Obs>): nat {
    if history == [] then 0 else Failed(history[..|history| - 1]) + if history[|history| - 1].up then 0 else 1
  }

  /** Each DOWN alert has used up a threshold's worth of failures, and the failures counted
      towards the next one come on top. */
  ghost predicate PaidFor(st: MonitorState, needed: nat, downs: nat, failed: nat) {
    && needed * downs <= failed
    && (st.status != DOWN ==> needed * downs + st.fails <= failed)
  }

  /** A monitor that is not DOWN has fewer failures than the threshold. */
  ghost predicate BelowThreshold(st: MonitorState, needed: nat) {
    st.status != DOWN ==> st.fails < needed
  }

  lemma PaidStep(st: MonitorState, up: bool, needed: nat, downs: nat, failed: nat)
    requires needed >= 1 && PaidFor(st, needed, downs, failed)
    ensures var after := Observe(st, up, needed);
            PaidFor(after, needed, downs + (if Changed(st, after) && after.status == DOWN then 1 else 0),
                    failed + if up then 0 else 1)
    ensures BelowThreshold(st, needed) ==> BelowThreshold(Observe(st, up, needed), needed)
  {
    assert needed * (downs + 1) == needed * downs + needed;
  }

  lemma DownsAppend(alerts: seq<Status>, a: Status)
    ensures Downs(alerts + [a]) == Downs(alerts) + if a == DOWN then 1 else 0
  {
    assert (alerts + [a])[..|alerts + [a]| - 1] == alerts;
  }

  /** With a fixed threshold, threshold times the number of DOWN alerts never exceeds the
      number of failed results, counting those the monitor had against it at the start. */
  lemma {:induction false} DownAlertsPaidFor(st: MonitorState, history: seq<Obs>, needed: nat)
    requires needed >= 1 && forall i :: 0 <= i < |history| ==> history[i].needed == needed
    ensures needed * Downs(Alerts(st, history)) <= st.fails + Failed(history)
    ensures PaidFor(Track(st, history), needed, Downs(Alerts(st, history)), st.fails + Failed(history))
    ensures BelowThreshold(st, needed) ==> BelowThreshold(Track(st, history), needed)
  {
    hide Observe, Track, Alerts, Changed, BelowThreshold;
    if history == [] {
      NoHistory(st);
    } else {
      var n := |history| - 1;
      DownAlertsPaidFor(st, history[..n], needed);
      assert history == history[..n] + [history[n]];
      TrackSnoc(st, history[..n], history[n]);
      var before := Track(st, history[..n]);
      PaidStep(before, history[n].up, needed, Downs(Alerts(st, history[..n])), st.fails + Failed(history[..n]));
      if Changed(before, Track(st, history)) {
        DownsAppend(Alerts(st, history[..n]), Track(st, history).status);
      } else {
        assert Alerts(st, history) == Alerts(st, history[..n]) + [] == Alerts(st, history[..n]);
      }
    }
  }

  // ---------------------------------------------------------------------------
  // Heartbeat timing
  // ---------------------------------------------------------------------------

  predicate Overdue(st: MonitorState, m: MonitorConfig, now: int) {
    match st.lastCheck
    case None => true
    case Some(t) => now - t > Interval(m)
  }

  /** A scheduler tick on a heartbeat monitor: a monitor never heard from starts DOWN with a
      check time one hour back. */
  function HeartbeatTick(st: Option<MonitorState>, m: MonitorConfig, now: int): MonitorState {
    match st
    case None => MonitorState(DOWN, 0, Some(now - 3600 * SECOND))
    case Some(s) => if Overdue(s, m, now) then Process(s, m, false, now) else s
  }

  /** State after `n` ticks from time `first` on, with no beat in between. */
  function Silent(st: MonitorState, m: MonitorConfig, first: int, n: nat): MonitorState {
    if n == 0 then st else HeartbeatTick(Some(Silent(st, m, first, n - 1)), m, first + PERIOD * (n - 1))
  }

  /** What a heartbeat monitor looks like at `now` when its last beat was at `t`: the
      failure count is the overdue time in ticks, rounded up, and the monitor is DOWN
      exactly when it is overdue by more than threshold - 1 ticks. */
  ghost predicate SilentSince(st: MonitorState, m: MonitorConfig, t: int, now: int) {
    var overdue := now - t - Interval(m);
    && st.lastCheck == Some(t)
    && (if overdue <= 0 then st.fails == 0 else PERIOD * (st.fails - 1) < overdue <= PERIOD * st.fails)
    && (st.status == DOWN <==> overdue > PERIOD * (Needed(m) - 1))
    && (st.status != DOWN ==> st.status == UP)
  }

  lemma SilentTick(st: MonitorState, m: MonitorConfig, t: int, now: int)
    requires SilentSince(st, m, t, now - PERIOD)
    ensures SilentSince(HeartbeatTick(Some(st), m, now), m, t, now)
  {
    var overdue := now - t - Interval(m);
    var after := HeartbeatTick(Some(st), m, now);
    if overdue > 0 {
      assert after.fails == st.fails + 1;
      assert PERIOD * (after.fails - 1) < overdue <= PERIOD * after.fails;
      DownIffLate(after.fails, Needed(m), overdue);
    }
  }

  lemma DownIffLate(fails: int, needed: nat, overdue: int)
    requires PERIOD * (fails - 1) < overdue <= PERIOD * fails
    ensures fails >= needed <==> overdue > PERIOD * (needed - 1)
  {
    if fails >= needed {
      assert PERIOD * (fails - 1) >= PERIOD * (needed - 1);
    } else {
      assert PERIOD * fails <= PERIOD * (needed - 1);
    }
  }

  /** LATENCY. After the last beat at `t`, the n-th tick finds the monitor DOWN exactly when
      it comes later than t + interval + 5 s * (threshold - 1). */
  lemma {:induction false} SilenceDetected(m: MonitorConfig, t: int, first: int, n: nat)
    requires t <= first <= t + PERIOD
    ensures SilentSince(Silent(MonitorState(UP, 0, Some(t)), m, first, n), m, t, first + PERIOD * (n - 1))
  {
    if n > 0 {
      SilenceDetected(m, t, first, n - 1);
      assert first + PERIOD * (n - 2) == first + PERIOD * (n - 1) - PERIOD;
      SilentTick(Silent(MonitorState(UP, 0, Some(t)), m, first, n - 1), m, t, first + PERIOD * (n - 1));
    }
  }

  /** The tick at which DOWN is first seen falls in (t + I + 5 s (T-1), t + I + 5 s T]. */
  lemma HeartbeatLatency(m: MonitorConfig, t: int, first: int, n: nat)
    requires t <= first <= t + PERIOD && n >= 1
    requires Silent(MonitorState(UP, 0, Some(t)), m, first, n).status == DOWN
    requires Silent(MonitorState(UP, 0, Some(t)), m, first, n - 1).status != DOWN
    ensures var late := first + PERIOD * (n - 1) - t - Interval(m);
            PERIOD * (Needed(m) - 1) < late <= PERIOD * Needed(m)
  {
    SilenceDetected(m, t, first, n);
    SilenceDetected(m, t, first, n - 1);
    assert PERIOD * (n - 1) == PERIOD * (n - 2) + PERIOD;
    assert PERIOD * Needed(m) == PERIOD * (Needed(m) - 1) + PERIOD;
  }

  datatype Pulse = Tick(now: int) | Beat(now: int)

  function Pulsed(st: MonitorState, m: MonitorConfig, pulse: Pulse): MonitorState {
    match pulse
    case Tick(now) => HeartbeatTick(Some(st), m, now)
    case Beat(now) => Process(st, m, true, now)
  }

  function Live(st: MonitorState, m: MonitorConfig, pulses: seq<Pulse>): MonitorState {
    if pulses == [] then st else Pulsed(Live(st, m, pulses[..|pulses| - 1]), m, pulses[|pulses| - 1])
  }

  /** Time of the last beat, when one at `last` came before the pulses. */
  function LastBeat(pulses: seq<Pulse>, last: int): int {
    if pulses == [] then last
    else if pulses[|pulses| - 1].Beat? then pulses[|pulses| - 1].now
    else LastBeat(pulses[..|pulses| - 1], last)
  }

  /** No tick comes more than an interval after the beat before it. In particular, beats at
      most an interval apart are punctual up to an interval after the last of them. */
  predicate Punctual(pulses: seq<Pulse>, last: int, interval: int) {
    forall i :: 0 <= i < |pulses| && pulses[i].Tick? ==> pulses[i].now <= LastBeat(pulses[..i], last) + interval
  }

  predicate NeverFailed(m: MonitorConfig, last: int, pulses: seq<Pulse>) {
    forall k :: 0 <= k <= |pulses| ==> Live(MonitorState(UP, 0, Some(last)), m, pulses[..k]).fails == 0
  }

  /** No failure is ever recorded, at any moment of the run, exactly when the beats are
      punctual; the monitor is then UP all along. */
  lemma {:induction false} PunctualNeverFails(m: MonitorConfig, last: int, pulses: seq<Pulse>)
    requires m.kind == "heartbeat"
    ensures NeverFailed(m, last, pulses) <==> Punctual(pulses, last, Interval(m))
    ensures NeverFailed(m, last, pulses) ==>
              Live(MonitorState(UP, 0, Some(last)), m, pulses) == MonitorState(UP, 0, Some(LastBeat(pulses, last)))
  {
    hide NeverFailed, Punctual, Interval;
    if pulses == [] {
      NoPulses(m, last);
    } else {
      var n := |pulses| - 1;
      PunctualNeverFails(m, last, pulses[..n]);
      NeverFailedNext(m, last, pulses);
      PunctualNext(pulses, last, Interval(m));
    }
  }

  lemma NoPulses(m: MonitorConfig, last: int)
    ensures NeverFailed(m, last, []) && Punctual([], last, Interval(m))
  {
  }

  /** Both conditions of a run are those of the run before its last pulse, and of that pulse. */
  lemma NeverFailedNext(m: MonitorConfig, last: int, pulses: seq<Pulse>)
    requires pulses != []
    ensures NeverFailed(m, last, pulses) <==>
            && NeverFailed(m, last, pulses[..|pulses| - 1])
            && Live(MonitorState(UP, 0, Some(last)), m, pulses).fails == 0
  {
    hide Live;
    var n := |pulses| - 1;
    var st := MonitorState(UP, 0, Some(last));
    assert pulses[..n + 1] == pulses;
    forall k | 0 <= k <= n ensures pulses[..n][..k] == pulses[..k] {}
    if NeverFailed(m, last, pulses) {
      forall k | 0 <= k <= n ensures Live(st, m, pulses[..n][..k]).fails == 0 {
        assert Live(st, m, pulses[..k]).fails == 0;
      }
    }
    if NeverFailed(m, last, pulses[..n]) {
      forall k | 0 <= k <= n ensures Live(st, m, pulses[..k]).fails == 0 {
        assert Live(st, m, pulses[..n][..k]).fails == 0;
      }
    }
  }

  lemma PunctualNext(pulses: seq<Pulse>, last: int, interval: int)
    requires pulses != []
    ensures var n := |pulses| - 1;
            Punctual(pulses, last, interval) <==>
            && Punctual(pulses[..n], last, interval)
            && (pulses[n].Tick? ==> pulses[n].now <= LastBeat(pulses[..n], last) + interval)
  {
    hide LastBeat;
    var n := |pulses| - 1;
    forall i | 0 <= i < n ensures pulses[..n][..i] == pulses[..i] && pulses[..n][i] == pulses[i] {}
  }

  // ---------------------------------------------------------------------------
  // Probe spacing
  // ---------------------------------------------------------------------------

  /** An active monitor is probed when at least an interval has passed since the last probe
      was started. */
  predicate Due(st: MonitorState, m: MonitorConfig, now: int) {
    match st.lastCheck
    case None => true
    case Some(t) => now - t >= Interval(m)
  }

  /** Scheduler ticks and probe results of one active monitor. */
  datatype Activity = Sweep(now: int) | Answer(up: bool, now: int)

  function Act(st: MonitorState, m: MonitorConfig, a: Activity): MonitorState {
    match a
    case Sweep(now) => if Due(st, m, now) then st.(lastCheck := Some(now)) else st
    case Answer(up, now) => Process(st, m, up, now)
  }

  function Activities(st: MonitorState, m: MonitorConfig, acts: seq<Activity>): MonitorState {
    if acts == [] then st else Act(Activities(st, m, acts[..|acts| - 1]), m, acts[|acts| - 1])
  }

  /** Times at which probes are started. */
  function Launches(st: MonitorState, m: MonitorConfig, acts: seq<Activity>): seq<int> {
    if acts == [] then []
    else
      var init, a := acts[..|acts| - 1], acts[|acts| - 1];
      Launches(st, m, init) + if a.Sweep? && Due(Activities(st, m, init), m, a.now) then [a.now] else []
  }

  function LastSweep(acts: seq<Activity>, start: int): int {
    if acts == [] then start
    else if acts[|acts| - 1].Sweep? then acts[|acts| - 1].now
    else LastSweep(acts[..|acts| - 1], start)
  }

  /** Sweeps in time order, at most one scheduler period apart. */
  predicate Regular(acts: seq<Activity>, start: int) {
    acts == [] ||
    var init, a := acts[..|acts| - 1], acts[|acts| - 1];
    Regular(init, start) && (a.Sweep? ==> LastSweep(init, start) <= a.now <= LastSweep(init, start) + PERIOD)
  }

  ghost predicate WellSpaced(m: MonitorConfig, launches: seq<int>, st: MonitorState, sweep: int, start: int) {
    && (forall k :: 0 < k < |launches| ==> Interval(m) <= launches[k] - launches[k - 1] < Interval(m) + PERIOD)
    && (if launches == [] then st.lastCheck == None && sweep == start
        else
          var last := launches[|launches| - 1];
          st.lastCheck == Some(last) && last <= sweep < last + Interval(m))
  }

  /** Probes of one monitor are started at least an interval apart and less than an interval
      plus one scheduler period apart, however long their answers take. */
  lemma {:induction false} ProbeSpacing(m: MonitorConfig, acts: seq<Activity>, start: int)
    requires m.kind != "heartbeat" && Regular(acts, start)
    ensures WellSpaced(m, Launches(Fresh(), m, acts), Activities(Fresh(), m, acts), LastSweep(acts, start), start)
  {
    if acts != [] {
      var n := |acts| - 1;
      ProbeSpacing(m, acts[..n], start);
      SpacedStep(m, Launches(Fresh(), m, acts[..n]), Activities(Fresh(), m, acts[..n]), LastSweep(acts[..n], start), start, acts[n]);
      assert Launches(Fresh(), m, acts[..n]) + [] == Launches(Fresh(), m, acts[..n]);
    }
  }

  lemma SpacedStep(m: MonitorConfig, launches: seq<int>, st: MonitorState, sweep: int, start: int, a: Activity)
    requires m.kind != "heartbeat" && WellSpaced(m, launches, st, sweep, start)
    requires a.Sweep? ==> sweep <= a.now <= sweep + PERIOD
    ensures WellSpaced(m, if a.Sweep? && Due(st, m, a.now) then launches + [a.now] else launches,
                       Act(st, m, a), if a.Sweep? then a.now else sweep, start)
  {
    hide Interval, Needed;
    if a.Sweep? && Due(st, m, a.now) {
      var more := launches + [a.now];
      forall k | 0 < k < |more| ensures Interval(m) <= more[k] - more[k - 1] < Interval(m) + PERIOD {
        assert k < |launches| ==> more[k] == launches[k];
      }
    }
  }

  // ---------------------------------------------------------------------------
  // The service
  // ---------------------------------------------------------------------------

  type States = map<string, MonitorState>

  function ProcessIn(states: States, m: MonitorConfig, up: bool, now: int): States {
    states[m.id := Process(if m.id in states then states[m.id] else Fresh(), m, up, now)]
  }

  function ProcessAlerts(states: States, m: MonitorConfig, up: bool, rtt: int, now: int): seq<Alert> {
    var st := if m.id in states then states[m.id] else Fresh();
    AlertsFor(m, st, Process(st, m, up, now), up, rtt)
  }

  /** One monitor's part of a tick: new states, probes to start, alerts raised. */
  function TickOne(states: States, m: MonitorConfig, now: int): (States, seq<string>, seq<Alert>) {
    if !m.enabled then (states, [], [])
    else if m.kind == "heartbeat" then
      if m.id !in states then (states[m.id := HeartbeatTick(None, m, now)], [], [])
      else if Overdue(states[m.id], m, now) then
        (ProcessIn(states, m, false, now), [], ProcessAlerts(states, m, false, 0, now))
      else (states, [], [])
    else
      var st := if m.id in states then states[m.id] else Fresh();
      if Due(st, m, now) then (states[m.id := st.(lastCheck := Some(now))], [m.id], [])
      else (states[m.id := st], [], [])
  }

  function TickAll(states: States, monitors: seq<MonitorConfig>, now: int): (States, seq<string>, seq<Alert>) {
    if monitors == [] then (states, [], [])
    else
      var (s0, p0, a0) := TickAll(states, monitors[..|monitors| - 1], now);
      var (s1, p1, a1) := TickOne(s0, monitors[|monitors| - 1], now);
      (s1, p0 + p1, a0 + a1)
  }

  /** With distinct ids a tick treats each monitor on its own: its state moves by the
      heartbeat or the sweep step, and no other monitor's entry changes. */
  lemma {:induction false} TickIsPerMonitor(states: States, monitors: seq<MonitorConfig>, now: int, i: nat)
    requires i < |monitors| && DistinctMonitors(monitors)
    ensures var m, after := monitors[i], TickAll(states, monitors, now).0;
            if !m.enabled then
              (m.id in after <==> m.id in states) && (m.id in states ==> after[m.id] == states[m.id])
            else
              && m.id in after
              && after[m.id] ==
                 if m.kind == "heartbeat" then HeartbeatTick(if m.id in states then Some(states[m.id]) else None, m, now)
                 else Act(if m.id in states then states[m.id] else Fresh(), m, Sweep(now))
  {
    var n := |monitors| - 1;
    if i < n {
      TickIsPerMonitor(states, monitors[..n], now, i);
    } else {
      TickLeavesOthers(states, monitors[..n], now, monitors[n].id);
    }
  }

  lemma {:induction false} TickLeavesOthers(states: States, monitors: seq<MonitorConfig>, now: int, id: string)
    requires forall j :: 0 <= j < |monitors| ==> monitors[j].id != id
    ensures var after := TickAll(states, monitors, now).0;
            (id in after <==> id in states) && (id in states ==> after[id] == states[id])
  {
    if monitors != [] {
      TickLeavesOthers(states, monitors[..|monitors| - 1], now, id);
    }
  }

  /** A processed result. */
  datatype Result = Result(m: MonitorConfig, up: bool, rtt: int, now: int)

  /** States after a run of results of any monitors, and the alerts they raised. */
  function ProcessAll(states: States, results: seq<Result>): (States, seq<Alert>) {
    if results == [] then (states, [])
    else
      var r := results[|results| - 1];
      var (before, alerts) := ProcessAll(states, results[..|results| - 1]);
      (ProcessIn(before, r.m, r.up, r.now), alerts + ProcessAlerts(before, r.m, r.up, r.rtt, r.now))
  }

  /** The results of one monitor. */
  function HistoryOf(results: seq<Result>, id: string): seq<Obs> {
    if results == [] then []
    else
      var r := results[|results| - 1];
      HistoryOf(results[..|results| - 1], id) + if r.m.id == id then [Obs(r.up, Needed(r.m))] else []
  }

  /** The status changes among the alerts that concern one monitor. */
  function ChangesOf(alerts: seq<Alert>, id: string): seq<Status> {
    if alerts == [] then []
    else
      var a := alerts[|alerts| - 1];
      ChangesOf(alerts[..|alerts| - 1], id) + if a.StatusChange? && a.id == id then [a.status] else []
  }

  lemma {:induction false} ChangesAppend(a: seq<Alert>, b: seq<Alert>, id: string)
    ensures ChangesOf(a + b, id) == ChangesOf(a, id) + ChangesOf(b, id)
  {
    if b == [] {
      assert a + b == a;
    } else {
      var n := |b| - 1;
      ChangesAppend(a, b[..n], id);
      assert (a + b)[..|a + b| - 1] == a + b[..n] && (a + b)[|a + b| - 1] == b[n];
    }
  }

  lemma ChangesOfOne(m: MonitorConfig, before: MonitorState, after: MonitorState, up: bool, rtt: int, id: string)
    ensures ChangesOf(AlertsFor(m, before, after, up, rtt), id) ==
            if Changed(before, after) && m.id == id then [after.status] else []
  {
    var change := if Changed(before, after) then [StatusChange(m.id, after.status)] else [];
    var slow := if up && m.thresholdResponse > 0 && rtt > ToInt32(m.thresholdResponse) then [SlowResponse(m.id)] else [];
    ChangesAppend(change, slow, id);
    assert change != [] ==> change[..0] == [];
    assert slow != [] ==> slow[..0] == [];
  }

  function StateOf(states: States, id: string): MonitorState {
    if id in states then states[id] else Fresh()
  }

  lemma StateStep(before: States, r: Result, id: string)
    ensures StateOf(ProcessIn(before, r.m, r.up, r.now), id) ==
            if r.m.id == id then Process(StateOf(before, id), r.m, r.up, r.now) else StateOf(before, id)
  {
  }

  lemma ProcessObserves(st: MonitorState, track: MonitorState, m: MonitorConfig, up: bool, now: int)
    requires st.status == track.status && st.fails == track.fails
    ensures var after, next := Process(st, m, up, now), Observe(track, up, Needed(m));
            after.status == next.status && after.fails == next.fails && Changed(st, after) == Changed(track, next)
  {
  }

  lemma TrackSnoc(st: MonitorState, past: seq<Obs>, o: Obs)
    ensures var before, after := Track(st, past), Track(st, past + [o]);
            && after == Observe(before, o.up, o.needed)
            && Alerts(st, past + [o]) == Alerts(st, past) + if Changed(before, after) then [after.status] else []
  {
    var history := past + [o];
    assert history[..|history| - 1] == past;
  }

  /** The service runs one status machine per monitor: whatever results of other monitors
      come in between, a monitor's state and its status-change alerts are those of its own
      history. */
  lemma {:induction false} ServiceRunsMachines(states: States, results: seq<Result>, id: string)
    ensures var (after, alerts) := ProcessAll(states, results);
            var st, history := StateOf(states, id), HistoryOf(results, id);
            && StateOf(after, id).status == Track(st, history).status
            && StateOf(after, id).fails == Track(st, history).fails
            && ChangesOf(alerts, id) == Alerts(st, history)
  {
    if results != [] {
      hide StateOf, Track, Alerts, ProcessIn, Process, Observe, Changed, AlertsFor, ChangesOf;
      var n := |results| - 1;
      var r := results[n];
      ServiceRunsMachines(states, results[..n], id);
      var (before, alerts) := ProcessAll(states, results[..n]);
      var past, st := HistoryOf(results[..n], id), StateOf(before, r.m.id);
      ChangesAppend(alerts, ProcessAlerts(before, r.m, r.up, r.rtt, r.now), id);
      AlertsOfState(before, r);
      ChangesOfOne(r.m, st, Process(st, r.m, r.up, r.now), r.up, r.rtt, id);
      StateStep(before, r, id);
      if r.m.id == id {
        ProcessObserves(st, Track(StateOf(states, id), past), r.m, r.up, r.now);
        TrackSnoc(StateOf(states, id), past, Obs(r.up, Needed(r.m)));
      } else {
        assert past + [] == past && ChangesOf(alerts, id) + [] == ChangesOf(alerts, id);
      }
    }
  }

  lemma AlertsOfState(before: States, r: Result)
    ensures var st := StateOf(before, r.m.id);
            ProcessAlerts(before, r.m, r.up, r.rtt, r.now) == AlertsFor(r.m, st, Process(st, r.m, r.up, r.now), r.up, r.rtt)
  {
  }

  function FirstWithId(monitors: seq<MonitorConfig>, id: string): Option<MonitorConfig> {
    if monitors == [] then None
    else if monitors[0].id == id then Some(monitors[0])
    else FirstWithId(monitors[1..], id)
  }

  // ---------------------------------------------------------------------------
  // Runs of the whole service
  // ---------------------------------------------------------------------------

  /** A scheduler tick, a beat pushed by a job, or the answer of a probe. */
  datatype ServiceEvent = TickAt(now: int) | BeatOf(id: string, now: int) | Answered(id: string, up: bool, rtt: int, now: int)

  predicate Beats(m: MonitorConfig) {
    m.enabled && m.kind == "heartbeat"
  }

  function Serve(states: States, monitors: seq<MonitorConfig>, e: ServiceEvent): (States, seq<Alert>) {
    match e
    case TickAt(now) =>
      var (after, _, alerts) := TickAll(states, monitors, now);
      (after, alerts)
    case BeatOf(id, now) =>
      var m := FirstWithId(monitors, id);
      if m.Some? && Beats(m.value) then
        (ProcessIn(states, m.value, true, now), ProcessAlerts(states, m.value, true, 0, now))
      else (states, [])
    case Answered(id, up, rtt, now) =>
      var m := FirstWithId(monitors, id);
      if m.Some? && m.value.kind != "heartbeat" then
        (ProcessIn(states, m.value, up, now), ProcessAlerts(states, m.value, up, rtt, now))
      else (states, [])
  }

  function ServeAll(states: States, monitors: seq<MonitorConfig>, events: seq<ServiceEvent>): (States, seq<Alert>) {
    if events == [] then (states, [])
    else
      var n := |events| - 1;
      var (before, alerts) := ServeAll(states, monitors, events[..n]);
      var (after, raised) := Serve(before, monitors, events[n]);
      (after, alerts + raised)
  }

  /** The machine of one monitor on its own; None while the service has no state for it. */
  function Own(st: Option<MonitorState>, m: MonitorConfig, e: ServiceEvent): Option<MonitorState> {
    var s := if st.Some? then st.value else Fresh();
    match e
    case TickAt(now) =>
      if !m.enabled then st
      else if m.kind == "heartbeat" then Some(HeartbeatTick(st, m, now))
      else Some(Act(s, m, Sweep(now)))
    case BeatOf(id, now) => if id == m.id && Beats(m) then Some(Pulsed(s, m, Beat(now))) else st
    case Answered(id, up, _, now) => if id == m.id && m.kind != "heartbeat" then Some(Act(s, m, Answer(up, now))) else st
  }

  function OwnAll(st: Option<MonitorState>, m: MonitorConfig, events: seq<ServiceEvent>): Option<MonitorState> {
    if events == [] then st else Own(OwnAll(st, m, events[..|events| - 1]), m, events[|events| - 1])
  }

  /** The result the event makes the machine process, if any. */
  function Judged(st: Option<MonitorState>, m: MonitorConfig, e: ServiceEvent): Option<Obs> {
    match e
    case TickAt(now) =>
      if Beats(m) && st.Some? && Overdue(st.value, m, now) then Some(Obs(false, Needed(m))) else None
    case BeatOf(id, _) => if id == m.id && Beats(m) then Some(Obs(true, Needed(m))) else None
    case Answered(id, up, _, _) => if id == m.id && m.kind != "heartbeat" then Some(Obs(up, Needed(m))) else None
  }

  function OwnHistory(st: Option<MonitorState>, m: MonitorConfig, events: seq<ServiceEvent>): seq<Obs> {
    if events == [] then []
    else
      var n := |events| - 1;
      OwnHistory(st, m, events[..n])
      + match Judged(OwnAll(st, m, events[..n]), m, events[n]) case None => [] case Some(o) => [o]
  }

  predicate DistinctMonitors(monitors: seq<MonitorConfig>) {
    forall j, k :: 0 <= j < k < |monitors| ==> monitors[j].id != monitors[k].id
  }

  function Lookup(states: States, id: string): Option<MonitorState> {
    if id in states then Some(states[id]) else None
  }

  lemma {:induction false} FirstIsOnly(monitors: seq<MonitorConfig>, id: string, i: nat)
    requires i < |monitors| && DistinctMonitors(monitors)
    ensures id == monitors[i].id ==> FirstWithId(monitors, id) == Some(monitors[i])
    ensures var m := FirstWithId(monitors, id); id != monitors[i].id && m.Some? ==> m.value.id != monitors[i].id
  {
    if i > 0 {
      FirstIsOnly(monitors[1..], id, i - 1);
    } else {
      FoundHasId(monitors, id);
    }
  }

  lemma {:induction false} FoundHasId(monitors: seq<MonitorConfig>, id: string)
    ensures FirstWithId(monitors, id).Some? ==> FirstWithId(monitors, id).value.id == id
  {
    if monitors != [] { FoundHasId(monitors[1..], id); }
  }

  /** The status change, if any, that one step from `before` to `after` announces. */
  function Change(before: MonitorState, after: MonitorState): seq<Status> {
    if Changed(before, after) then [after.status] else []
  }

  /** What one tick announces of one monitor. */
  lemma {:induction false} TickAlertsOf(states: States, monitors: seq<MonitorConfig>, now: int, id: string)
    requires DistinctMonitors(monitors)
    ensures var m := FirstWithId(monitors, id);
            ChangesOf(TickAll(states, monitors, now).2, id) ==
            if m.Some? && Beats(m.value) && id in states && Overdue(states[id], m.value, now)
            then Change(states[id], Process(states[id], m.value, false, now)) else []
  {
    hide Overdue, Process, AlertsFor, Changed, ChangesOf, TickOne;
    NoChanges(id);
    if monitors != [] {
      var n := |monitors| - 1;
      var init, last := monitors[..n], monitors[n];
      TickAlertsOf(states, init, now, id);
      FirstSnoc(init, last, id);
      assert init + [last] == monitors;
      var before := TickAll(states, init, now);
      ChangesAppend(before.2, TickOne(before.0, last, now).2, id);
      TickOneAlerts(before.0, last, now, id);
      if last.id == id {
        TickLeavesOthers(states, init, now, id);
        NoneFound(init, id);
      } else {
        assert ChangesOf(before.2, id) + [] == ChangesOf(before.2, id);
      }
    }
  }

  lemma TickOneAlerts(states: States, m: MonitorConfig, now: int, id: string)
    ensures ChangesOf(TickOne(states, m, now).2, id) ==
            if m.id == id && Beats(m) && id in states && Overdue(states[id], m, now)
            then Change(states[id], Process(states[id], m, false, now)) else []
  {
    hide Process, AlertsFor, Changed, Overdue;
    if Beats(m) && m.id in states && Overdue(states[m.id], m, now) {
      ChangesOfOne(m, states[m.id], Process(states[m.id], m, false, now), false, 0, id);
    }
  }

  lemma {:induction false} FirstSnoc(init: seq<MonitorConfig>, last: MonitorConfig, id: string)
    ensures FirstWithId(init + [last], id) ==
            if FirstWithId(init, id).Some? then FirstWithId(init, id) else if last.id == id then Some(last) else None
  {
    if init == [] {
      assert init + [last] == [last] && FirstWithId([last][1..], id) == None;
    } else {
      FirstSnoc(init[1..], last, id);
      assert (init + [last])[1..] == init[1..] + [last];
    }
  }

  lemma {:induction false} NoneFound(monitors: seq<MonitorConfig>, id: string)
    requires forall j :: 0 <= j < |monitors| ==> monitors[j].id != id
    ensures FirstWithId(monitors, id) == None
  {
    if monitors != [] { NoneFound(monitors[1..], id); }
  }

  /** One event of the service is one step of the monitor's own machine, and announces that
      machine's status change. */
  lemma ServeStep(states: States, monitors: seq<MonitorConfig>, e: ServiceEvent, i: nat)
    requires i < |monitors| && DistinctMonitors(monitors)
    ensures var m, (after, raised) := monitors[i], Serve(states, monitors, e);
            && Lookup(after, m.id) == Own(Lookup(states, m.id), m, e)
            && ChangesOf(raised, m.id) ==
               if Judged(Lookup(states, m.id), m, e) == None then []
               else Change(StateOf(states, m.id), StateOf(after, m.id))
  {
    hide Process, AlertsFor, Changed, Overdue, Due, ChangesOf;
    var m := monitors[i];
    NoChanges(m.id);
    match e {
      case TickAt(now) =>
        TickIsPerMonitor(states, monitors, now, i);
        FirstIsOnly(monitors, m.id, i);
        TickAlertsOf(states, monitors, now, m.id);
      case BeatOf(id, now) =>
        FirstIsOnly(monitors, id, i);
        ServedChanges(states, FirstWithId(monitors, id), true, 0, now, m.id);
      case Answered(id, up, rtt, now) =>
        FirstIsOnly(monitors, id, i);
        ServedChanges(states, FirstWithId(monitors, id), up, rtt, now, m.id);
    }
  }

  lemma NoChanges(id: string)
    ensures ChangesOf([], id) == []
  {
  }

  lemma ServedChanges(states: States, found: Option<MonitorConfig>, up: bool, rtt: int, now: int, id: string)
    ensures found.Some? ==>
              var m := found.value;
              var st := StateOf(states, m.id);
              ChangesOf(ProcessAlerts(states, m, up, rtt, now), id) ==
              if m.id == id then Change(st, Process(st, m, up, now)) else []
  {
    hide Process, AlertsFor, Changed;
    if found.Some? {
      var m := found.value;
      ChangesOfOne(m, StateOf(states, m.id), Process(StateOf(states, m.id), m, up, now), up, rtt, id);
    }
  }

  /** A step that processes a result observes it; any other leaves status and count alone. */
  lemma OwnStep(st: Option<MonitorState>, m: MonitorConfig, e: ServiceEvent)
    requires m.kind == "heartbeat" ==> st.Some?
    ensures var s := if st.Some? then st.value else Fresh();
            var s' := if Own(st, m, e).Some? then Own(st, m, e).value else Fresh();
            match Judged(st, m, e)
            case None => s'.status == s.status && s'.fails == s.fails
            case Some(o) =>
              var next := Observe(s, o.up, o.needed);
              s'.status == next.status && s'.fails == next.fails && Changed(s, s') == Changed(s, next)
  {
  }

  /** One more judged result carries a machine and its tracked history on together. */
  lemma JudgedStep(start: MonitorState, history: seq<Obs>, s: MonitorState, s': MonitorState, judged: Option<Obs>)
    requires s.status == Track(start, history).status && s.fails == Track(start, history).fails
    requires match judged
             case None => s'.status == s.status && s'.fails == s.fails
             case Some(o) =>
               var next := Observe(s, o.up, o.needed);
               s'.status == next.status && s'.fails == next.fails && Changed(s, s') == Changed(s, next)
    ensures var more := history + match judged case None => [] case Some(o) => [o];
            && s'.status == Track(start, more).status && s'.fails == Track(start, more).fails
            && Alerts(start, more) == Alerts(start, history) + if judged == None then [] else Change(s, s')
  {
    hide Track, Alerts;
    match judged {
      case None => assert history + [] == history && Alerts(start, history) + [] == Alerts(start, history);
      case Some(o) => TrackSnoc(start, history, o);
    }
  }

  /** THE SERVICE RUNS ONE MACHINE PER MONITOR. Over any run of ticks, beats and answers of
      any monitors, a monitor's state is that of its own machine... */
  lemma {:induction false} ServiceRun(states: States, monitors: seq<MonitorConfig>, events: seq<ServiceEvent>, i: nat)
    requires i < |monitors| && DistinctMonitors(monitors)
    ensures var id := monitors[i].id;
            Lookup(ServeAll(states, monitors, events).0, id) == OwnAll(Lookup(states, id), monitors[i], events)
  {
    if events != [] {
      var n := |events| - 1;
      ServiceRun(states, monitors, events[..n], i);
      ServeStep(ServeAll(states, monitors, events[..n]).0, monitors, events[n], i);
    }
  }

  /** ...and the status changes announced for it are the alerts of the history of results
      that machine processed. A heartbeat monitor first seen by a tick starts DOWN without
      an alert, so it is followed from a state it already has. */
  lemma {:induction false} ServiceAlerts(states: States, monitors: seq<MonitorConfig>, events: seq<ServiceEvent>, i: nat)
    requires i < |monitors| && DistinctMonitors(monitors)
    requires monitors[i].kind == "heartbeat" ==> monitors[i].id in states
    ensures var m, (after, alerts) := monitors[i], ServeAll(states, monitors, events);
            var start, history := StateOf(states, m.id), OwnHistory(Lookup(states, m.id), m, events);
            && StateOf(after, m.id).status == Track(start, history).status
            && StateOf(after, m.id).fails == Track(start, history).fails
            && ChangesOf(alerts, m.id) == Alerts(start, history)
            && (m.id in states ==> m.id in after)
  {
    hide Track, Alerts, Serve, ChangesOf, Own, Judged, Observe, Changed, Change;
    var m := monitors[i];
    if events == [] {
      NoChanges(m.id);
      NoHistory(StateOf(states, m.id));
    } else {
      var n := |events| - 1;
      var (before, alerts) := ServeAll(states, monitors, events[..n]);
      var (after, raised) := Serve(before, monitors, events[n]);
      var st := Lookup(before, m.id);
      ServiceAlerts(states, monitors, events[..n], i);
      ServiceRun(states, monitors, events[..n], i);
      ServeStep(before, monitors, events[n], i);
      OwnStep(st, m, events[n]);
      OwnStays(st, m, events[n]);
      ChangesAppend(alerts, raised, m.id);
      JudgedStep(StateOf(states, m.id), OwnHistory(Lookup(states, m.id), m, events[..n]),
                 StateOf(before, m.id), StateOf(after, m.id), Judged(st, m, events[n]));
    }
  }

  lemma NoHistory(st: MonitorState)
    ensures Track(st, []) == st && Alerts(st, []) == []
  {
  }

  lemma OwnStays(st: Option<MonitorState>, m: MonitorConfig, e: ServiceEvent)
    ensures st.Some? ==> Own(st, m, e).Some?
  {
  }

  /** The ticks and beats an enabled heartbeat monitor takes part in. */
  function PulsesOf(events: seq<ServiceEvent>, id: string): seq<Pulse> {
    if events == [] then []
    else
      PulsesOf(events[..|events| - 1], id)
      + match events[|events| - 1]
        case TickAt(now) => [Tick(now)]
        case BeatOf(other, now) => if other == id then [Beat(now)] else []
        case Answered(_, _, _, _) => []
  }

  /** HEARTBEATS OF THE SERVICE. Whatever other monitors do, a heartbeat monitor goes
      through the ticks and beats of its own id, so the latency and punctuality results hold
      of the running service. */
  lemma {:induction false} ServiceHeartbeat(states: States, monitors: seq<MonitorConfig>, events: seq<ServiceEvent>, i: nat)
    requires i < |monitors| && DistinctMonitors(monitors) && Beats(monitors[i]) && monitors[i].id in states
    ensures var m := monitors[i];
            Lookup(ServeAll(states, monitors, events).0, m.id) == Some(Live(states[m.id], m, PulsesOf(events, m.id)))
  {
    hide Serve, HeartbeatTick, Process;
    if events != [] {
      var n := |events| - 1;
      var m := monitors[i];
      ServiceHeartbeat(states, monitors, events[..n], i);
      ServeStep(ServeAll(states, monitors, events[..n]).0, monitors, events[n], i);
      var past := PulsesOf(events[..n], m.id);
      assert past + [] == past;
      if events[n].TickAt? { assert (past + [Tick(events[n].now)])[..|past|] == past; }
      if events[n].BeatOf? { assert (past + [Beat(events[n].now)])[..|past|] == past; }
    }
  }

  /** The sweeps and answers an enabled active monitor takes part in. */
  function ActivitiesOf(events: seq<ServiceEvent>, id: string): seq<Activity> {
    if events == [] then []
    else
      ActivitiesOf(events[..|events| - 1], id)
      + match events[|events| - 1]
        case TickAt(now) => [Sweep(now)]
        case BeatOf(_, _) => []
        case Answered(other, up, _, now) => if other == id then [Answer(up, now)] else []
  }

  /** A tick starts the probe of a monitor exactly when it is enabled, active and due. */
  lemma {:induction false} TickProbes(states: States, monitors: seq<MonitorConfig>, now: int, id: string)
    requires DistinctMonitors(monitors)
    ensures var m := FirstWithId(monitors, id);
            id in TickAll(states, monitors, now).1 <==>
            m.Some? && m.value.enabled && m.value.kind != "heartbeat" && Due(StateOf(states, id), m.value, now)
  {
    hide Due, TickOne;
    if monitors != [] {
      var n := |monitors| - 1;
      var init, last := monitors[..n], monitors[n];
      TickProbes(states, init, now, id);
      TickOneProbes(TickAll(states, init, now).0, last, now, id);
      FirstSnoc(init, last, id);
      assert init + [last] == monitors;
      if last.id == id {
        TickLeavesOthers(states, init, now, id);
        NoneFound(init, id);
      }
    }
  }

  lemma TickOneProbes(states: States, m: MonitorConfig, now: int, id: string)
    ensures id in TickOne(states, m, now).1 <==>
            m.id == id && m.enabled && m.kind != "heartbeat" && Due(StateOf(states, id), m, now)
  {
    hide Due, Overdue, ProcessIn, ProcessAlerts;
  }

  /** Times at which the service starts probes of one monitor. */
  function ProbeTimes(states: States, monitors: seq<MonitorConfig>, events: seq<ServiceEvent>, id: string): seq<int> {
    if events == [] then []
    else
      var n := |events| - 1;
      ProbeTimes(states, monitors, events[..n], id)
      + if events[n].TickAt? && id in TickAll(ServeAll(states, monitors, events[..n]).0, monitors, events[n].now).1
        then [events[n].now] else []
  }

  /** PROBES OF THE SERVICE. An active monitor goes through the sweeps and the answers of its
      own id, and its probes are started when its own machine says so... */
  lemma {:induction false} ServiceProbes(states: States, monitors: seq<MonitorConfig>, events: seq<ServiceEvent>, i: nat)
    requires i < |monitors| && DistinctMonitors(monitors) && monitors[i].enabled && monitors[i].kind != "heartbeat"
    ensures var m := monitors[i];
            var start, acts := StateOf(states, m.id), ActivitiesOf(events, m.id);
            && StateOf(ServeAll(states, monitors, events).0, m.id) == Activities(start, m, acts)
            && ProbeTimes(states, monitors, events, m.id) == Launches(start, m, acts)
  {
    hide Serve, Act, Due, Activities, Launches, TickAll;
    var m := monitors[i];
    if events == [] {
      NoActs(StateOf(states, m.id), m);
    } else {
      var n := |events| - 1;
      var before := ServeAll(states, monitors, events[..n]).0;
      var start, past := StateOf(states, m.id), ActivitiesOf(events[..n], m.id);
      ServiceProbes(states, monitors, events[..n], i);
      ServeStep(before, monitors, events[n], i);
      FirstIsOnly(monitors, m.id, i);
      match events[n] {
        case TickAt(now) =>
          TickProbes(before, monitors, now, m.id);
          ActSnoc(start, m, past, Sweep(now));
        case Answered(id, up, _, now) =>
          if id == m.id { ActSnoc(start, m, past, Answer(up, now)); } else { assert past + [] == past; }
        case BeatOf(_, _) => assert past + [] == past;
      }
    }
  }

  lemma NoActs(st: MonitorState, m: MonitorConfig)
    ensures Activities(st, m, []) == st && Launches(st, m, []) == []
  {
  }

  lemma ActSnoc(st: MonitorState, m: MonitorConfig, past: seq<Activity>, a: Activity)
    ensures var before := Activities(st, m, past);
            && Activities(st, m, past + [a]) == Act(before, m, a)
            && Launches(st, m, past + [a]) == Launches(st, m, past) + if a.Sweep? && Due(before, m, a.now) then [a.now] else []
  {
    assert (past + [a])[..|past + [a]| - 1] == past;
  }

  /** ...so when ticks come in time order and at most a period apart, the probes the service
      starts for a new monitor are at least an interval and less than an interval plus one
      period apart, whatever its and other monitors' probes take. */
  lemma ServiceProbeSpacing(states: States, monitors: seq<MonitorConfig>, events: seq<ServiceEvent>, i: nat, start: int)
    requires i < |monitors| && DistinctMonitors(monitors) && monitors[i].enabled && monitors[i].kind != "heartbeat"
    requires monitors[i].id !in states && Regular(ActivitiesOf(events, monitors[i].id), start)
    ensures var m := monitors[i];
            var times := ProbeTimes(states, monitors, events, m.id);
            forall k :: 0 < k < |times| ==> Interval(m) <= times[k] - times[k - 1] < Interval(m) + PERIOD
  {
    ServiceProbes(states, monitors, events, i);
    ProbeSpacing(monitors[i], ActivitiesOf(events, monitors[i].id), start);
  }

  /** The status changes the service announces for a monitor strictly alternate, and the
      last one names its status. */
  lemma ServiceAlternates(states: States, monitors: seq<MonitorConfig>, events: seq<ServiceEvent>, i: nat)
    requires i < |monitors| && DistinctMonitors(monitors)
    requires monitors[i].kind == "heartbeat" ==> monitors[i].id in states
    ensures var id, (after, alerts) := monitors[i].id, ServeAll(states, monitors, events);
            var changes := ChangesOf(alerts, id);
            && (forall k :: 0 < k < |changes| ==> changes[k] != changes[k - 1])
            && (changes != [] ==> changes[|changes| - 1] == StateOf(after, id).status != PENDING)
  {
    hide ServeAll, ChangesOf, OwnHistory, Track, Alerts;
    ServiceAlerts(states, monitors, events, i);
    AlertsAlternate(StateOf(states, monitors[i].id), OwnHistory(Lookup(states, monitors[i].id), monitors[i], events));
  }

  /** Ticks one period apart, from `first` on. */
  function Ticks(first: int, n: nat): seq<Pulse> {
    if n == 0 then [] else Ticks(first, n - 1) + [Tick(first + PERIOD * (n - 1))]
  }

  /** Silence is a run of ticks with no beat in between. */
  lemma {:induction false} SilentIsLive(st: MonitorState, m: MonitorConfig, first: int, n: nat)
    ensures Silent(st, m, first, n) == Live(st, m, Ticks(first, n))
  {
    if n > 0 {
      SilentIsLive(st, m, first, n - 1);
      assert Ticks(first, n)[..|Ticks(first, n)| - 1] == Ticks(first, n - 1);
    }
  }

  /** LATENCY OF THE SERVICE. While other monitors beat and answer, `n` ticks without a beat
      of its own leave a monitor last heard at `t` as the latency result says. */
  lemma ServiceSilence(states: States, monitors: seq<MonitorConfig>, events: seq<ServiceEvent>, i: nat,
                       t: int, first: int, n: nat)
    requires i < |monitors| && DistinctMonitors(monitors) && Beats(monitors[i])
    requires Lookup(states, monitors[i].id) == Some(MonitorState(UP, 0, Some(t)))
    requires PulsesOf(events, monitors[i].id) == Ticks(first, n) && t <= first <= t + PERIOD
    ensures SilentSince(StateOf(ServeAll(states, monitors, events).0, monitors[i].id), monitors[i], t, first + PERIOD * (n - 1))
  {
    hide SilentSince, ServeAll, PulsesOf, Live, Silent;
    ServiceHeartbeat(states, monitors, events, i);
    SilentIsLive(MonitorState(UP, 0, Some(t)), monitors[i], first, n);
    SilenceDetected(monitors[i], t, first, n);
  }

  // ---------------------------------------------------------------------------
  // The configured numbers
  // ---------------------------------------------------------------------------

  /** THE CONFIGURED THRESHOLD. Failed results in a row take a monitor that is UP with no
      failures DOWN exactly from the configured number on (from the first on when that is zero
      or negative), and raise one DOWN alert. */
  lemma {:induction false} ConfiguredThreshold(states: States, results: seq<Result>, m: MonitorConfig)
    requires m.id in states && states[m.id].status == UP && states[m.id].fails == 0
    requires forall i :: 0 <= i < |results| ==> results[i].m == m && !results[i].up
    ensures var (after, alerts) := ProcessAll(states, results);
            var down := |results| >= 1 && |results| >= m.thresholdFailures;
            && m.id in after && after[m.id].fails == |results|
            && after[m.id].status == (if down then DOWN else UP)
            && ChangesOf(alerts, m.id) == if down then [DOWN] else []
  {
    if results == [] {
      NoChanges(m.id);
    } else {
      hide ChangesOf, AlertsFor, Process, Changed;
      var n := |results| - 1;
      var r := results[n];
      assert forall i :: 0 <= i < n ==> results[..n][i] == results[i];
      ConfiguredThreshold(states, results[..n], m);
      var (before, alerts) := ProcessAll(states, results[..n]);
      var st := before[m.id];
      FailedOnce(st, m, r.now);
      ChangesAppend(alerts, ProcessAlerts(before, m, false, r.rtt, r.now), m.id);
      ChangesOfOne(m, st, Process(st, m, false, r.now), false, r.rtt, m.id);
    }
  }

  lemma FailedOnce(st: MonitorState, m: MonitorConfig, now: int)
    requires st.status == if st.fails >= 1 && st.fails >= m.thresholdFailures then DOWN else UP
    ensures var after := Process(st, m, false, now);
            && after.fails == st.fails + 1
            && after.status == (if after.fails >= m.thresholdFailures then DOWN else UP)
            && (Changed(st, after) <==> after.status == DOWN && st.status == UP)
  {
  }

  /** A success makes a monitor UP and forgets its failures, whatever it was. */
  lemma SuccessMeans(states: States, m: MonitorConfig, now: int)
    ensures var after := ProcessIn(states, m, true, now);
            && m.id in after && after[m.id].status == UP && after[m.id].fails == 0
            && (m.kind == "heartbeat" ==> after[m.id].lastCheck == Some(now))
  {
  }

  /** THE CONFIGURED LATENCY, in nanoseconds: with a positive threshold T and interval of I
      seconds, DOWN is first seen later than I + 5 (T - 1) and no later than I + 5 T seconds
      after the last beat; an interval that is not positive counts as 60, a threshold as 1. */
  lemma ConfiguredLatency(m: MonitorConfig, t: int, first: int, n: nat)
    requires t <= first <= t + 5_000_000_000 && n >= 1
    requires Silent(MonitorState(UP, 0, Some(t)), m, first, n).status == DOWN
    requires Silent(MonitorState(UP, 0, Some(t)), m, first, n - 1).status != DOWN
    ensures var late := first + 5_000_000_000 * (n - 1) - t;
            var interval := (if m.interval > 0 then m.interval else 60) * 1_000_000_000;
            var threshold := if m.thresholdFailures > 0 then m.thresholdFailures else 1;
            interval + 5_000_000_000 * (threshold - 1) < late <= interval + 5_000_000_000 * threshold
  {
    hide Silent;
    HeartbeatLatency(m, t, first, n);
  }

  /** Beats at most the configured number of seconds apart: the tick that records a first
      failure comes later than that after the last beat. */
  lemma ConfiguredPunctual(m: MonitorConfig, last: int, pulses: seq<Pulse>)
    requires m.kind == "heartbeat"
    ensures NeverFailed(m, last, pulses) <==>
            forall i :: 0 <= i < |pulses| && pulses[i].Tick? ==>
              pulses[i].now - LastBeat(pulses[..i], last) <= (if m.interval > 0 then m.interval else 60) * 1_000_000_000
  {
    hide NeverFailed, LastBeat;
    PunctualNeverFails(m, last, pulses);
  }

  /** THE CONFIGURED SPACING of probes, in nanoseconds. */
  lemma ConfiguredSpacing(m: MonitorConfig, acts: seq<Activity>, start: int)
    requires m.kind != "heartbeat" && Regular(acts, start)
    ensures var times := Launches(Fresh(), m, acts);
            var interval := (if m.interval > 0 then m.interval else 60) * 1_000_000_000;
            forall k :: 0 < k < |times| ==> interval <= times[k] - times[k - 1] < interval + 5_000_000_000
  {
    hide Launches, Regular;
    ProbeSpacing(m, acts, start);
  }

  /** A threshold that fits in 32 bits is taken as it is; a larger one wraps around. */
  lemma Int32Means(x: int)
    ensures -0x8000_0000 <= x < 0x8000_0000 ==> ToInt32(x) == x
    ensures -0x8000_0000 <= ToInt32(x) < 0x8000_0000 && ToInt32(x + 0x1_0000_0000) == ToInt32(x)
  {
  }

  /** WHAT A RESULT ANNOUNCES. A status change when the monitor had a status and it changed; a
      slow response when it answered and took longer than a positive threshold. */
  lemma ResultAnnounces(states: States, m: MonitorConfig, up: bool, rtt: int, now: int)
    ensures var alerts := ProcessAlerts(states, m, up, rtt, now);
            var before := if m.id in states then states[m.id].status else PENDING;
            var after := ProcessIn(states, m, up, now)[m.id].status;
            && (forall s :: StatusChange(m.id, s) in alerts <==> s == after && before != PENDING && before != after)
            && (m.thresholdResponse < 0x8000_0000 ==>
                  (SlowResponse(m.id) in alerts <==> up && m.thresholdResponse > 0 && rtt > m.thresholdResponse))
            && (forall a :: a in alerts ==> a.id == m.id)
  {
    if 0 < m.thresholdResponse < 0x8000_0000 { Int32Means(m.thresholdResponse); }
  }

  /** FIRST SIGHT. A tick that meets a monitor for the first time starts a heartbeat monitor
      DOWN with a check one hour back, and probes an active one at once; neither announces
      anything. */
  lemma FirstSight(states: States, monitors: seq<MonitorConfig>, now: int, i: nat)
    requires i < |monitors| && DistinctMonitors(monitors) && monitors[i].enabled && monitors[i].id !in states
    ensures var m, (after, probes, alerts) := monitors[i], TickAll(states, monitors, now);
            && m.id in after && ChangesOf(alerts, m.id) == []
            && after[m.id] ==
               (if m.kind == "heartbeat" then MonitorState(DOWN, 0, Some(now - 3_600_000_000_000))
                else MonitorState(PENDING, 0, Some(now)))
            && (m.id in probes <==> m.kind != "heartbeat")
  {
    hide ChangesOf, TickAll;
    var m := monitors[i];
    TickIsPerMonitor(states, monitors, now, i);
    FirstIsOnly(monitors, m.id, i);
    TickProbes(states, monitors, now, m.id);
    TickAlertsOf(states, monitors, now, m.id);
  }

  class MonitorService {
    var states: map<string, MonitorState>

    constructor ()
      ensures states == map[]
    {
      states := map[];
    }

    method ProcessResult(m: MonitorConfig, up: bool, rtt: int, now: int) returns (alerts: seq<Alert>)
      modifies this
      ensures states == ProcessIn(old(states), m, up, now)
      ensures alerts == ProcessAlerts(old(states), m, up, rtt, now)
    {
      var state := if m.id in states then states[m.id] else Fresh();
      var prevStatus := state.status;
      if m.kind == "heartbeat" && up {
        state := state.(lastCheck := Some(now));
      }
      if up {
        state := state.(fails := 0, status := UP);
      } else {
        state := state.(fails := state.fails + 1);
        var failuresNeeded := if m.thresholdFailures <= 0 then 1 else m.thresholdFailures;
        if state.fails >= failuresNeeded {
          state := state.(status := DOWN);
        }
      }
      states := states[m.id := state];
      alerts := [];
      if prevStatus != PENDING && prevStatus != state.status {
        alerts := alerts + [StatusChange(m.id, state.status)];
      }
      if up && m.thresholdResponse > 0 && rtt > ToInt32(m.thresholdResponse) {
        alerts := alerts + [SlowResponse(m.id)];
      }
    }

    /** One tick of the scheduler over the configured monitors. */
    method RunTick(monitors: seq<MonitorConfig>, now: int) returns (probes: seq<string>, alerts: seq<Alert>)
      modifies this
      ensures (states, probes, alerts) == TickAll(old(states), monitors, now)
    {
      probes, alerts := [], [];
      ghost var was := states;
      for i := 0 to |monitors|
        invariant (states, probes, alerts) == TickAll(was, monitors[..i], now)
      {
        assert monitors[..i + 1][..i] == monitors[..i];
        var started, raised := CheckMonitor(monitors[i], now);
        probes, alerts := probes + started, alerts + raised;
      }
      assert monitors[..|monitors|] == monitors;
    }

    /** One monitor's turn in a tick. */
    method CheckMonitor(m: MonitorConfig, now: int) returns (probes: seq<string>, alerts: seq<Alert>)
      modifies this
      ensures (states, probes, alerts) == TickOne(old(states), m, now)
    {
      probes, alerts := [], [];
      if !m.enabled { return; }
      if m.kind == "heartbeat" {
        if m.id in states {
          if Overdue(states[m.id], m, now) {
            alerts := ProcessResult(m, false, 0, now);
          }
        } else {
          states := states[m.id := MonitorState(DOWN, 0, Some(now - 3600 * SECOND))];
        }
        return;
      }
      ghost var was := states;
      if m.id !in states {
        states := states[m.id := Fresh()];
      }
      var state := states[m.id];
      if Due(state, m, now) {
        states := states[m.id := state.(lastCheck := Some(now))];
        probes := [m.id];
      }
      assert states == was[m.id := states[m.id]];
    }

    /** A beat pushed by a job; refused unless the id names an enabled heartbeat monitor. */
    method ReceiveHeartbeat(monitors: seq<MonitorConfig>, id: string, now: int) returns (ok: bool, alerts: seq<Alert>)
      modifies this
      ensures ok <==> exists i :: 0 <= i < |monitors| && monitors[i].id == id && monitors[i].enabled
                                 && monitors[i].kind == "heartbeat" && forall j :: 0 <= j < i ==> monitors[j].id != id
      ensures (states, alerts) == Serve(old(states), monitors, BeatOf(id, now))
    {
      ok, alerts := false, [];
      var monitor: Option<MonitorConfig> := None;
      var i := 0;
      while i < |monitors|
        invariant 0 <= i <= |monitors|
        invariant monitor == None && FirstWithId(monitors, id) == FirstWithId(monitors[i..], id)
        invariant forall j :: 0 <= j < i ==> monitors[j].id != id
      {
        assert monitors[i..][1..] == monitors[i + 1..];
        if monitors[i].id == id {
          monitor := Some(monitors[i]);
          break;
        }
        i := i + 1;
      }
      if monitor == None || !monitor.value.enabled || monitor.value.kind != "heartbeat" { return; }
      ok := true;
      alerts := ProcessResult(monitor.value, true, 0, now);
    }
  }
}
