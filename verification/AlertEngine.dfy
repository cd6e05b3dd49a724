/** The alert rule engine: host filters, silences and a per-(rule, host) cooldown kept in a
    map under the text key `rule|host`, against a reference engine that keeps no map and
    looks back over the trace of fired alerts instead. Times are in nanoseconds and each
    evaluation sees one clock reading. */
module AlertEngine {
  import opened Text
  import opened Wrappers

  const SECOND := 1_000_000_000
  const COOLDOWN := 60 * SECOND

  datatype AlertRule = AlertRule(
    id: string, enabled: bool, metric: string, host: string, operator: string, threshold: real,
    silenced: map<string, int>)

  datatype Fire = Fire(rule: string, host: string, at: int)

  // ---------------------------------------------------------------------------
  // One rule
  // ---------------------------------------------------------------------------

  predicate Compare(operator: string, value: real, threshold: real) {
    if operator == ">" then value > threshold
    else if operator == "<" then value < threshold
    else if operator == ">=" then value >= threshold
    else if operator == "<=" then value <= threshold
    else false
  }

  predicate SilencedOn(rule: AlertRule, host: string, now: int) {
    host in rule.silenced && now < rule.silenced[host]
  }

  predicate HostMatches(rule: AlertRule, host: string) {
    rule.host == "" || rule.host == "*" || rule.host == host
  }

  predicate ConditionHolds(rule: AlertRule, metrics: map<string, real>) {
    rule.metric in metrics && Compare(rule.operator, metrics[rule.metric], rule.threshold)
  }

  /** The rule would fire but for the cooldown. */
  predicate Eligible(rule: AlertRule, host: string, metrics: map<string, real>, now: int) {
    && rule.enabled && HostMatches(rule, host)
    && !SilencedOn(rule, host, now) && !SilencedOn(rule, "*", now)
    && ConditionHolds(rule, metrics)
  }

  function Key(rule: string, host: string): string {
    rule + "|" + host
  }

  /** One id is the other followed by a bar and anything more. */
  predicate Entangled(r: string, r': string) {
    r + "|" <= r' || r' + "|" <= r
  }

  /** Two different rule ids share a key for some hosts exactly when they are entangled. */
  lemma KeyCollision(r: string, r': string)
    requires r != r'
    ensures (exists h, h' :: Key(r, h) == Key(r', h')) <==> Entangled(r, r')
  {
    if r + "|" <= r' {
      EntangledCollide(r, r', "");
    } else if r' + "|" <= r {
      EntangledCollide(r', r, "");
    }
    forall h, h' | Key(r, h) == Key(r', h') ensures Entangled(r, r') {
      if |r| <= |r'| { SharedKey(r, h, r', h'); } else { SharedKey(r', h', r, h); }
    }
  }

  lemma SharedKey(r: string, h: string, r': string, h': string)
    requires |r| <= |r'| && Key(r, h) == Key(r', h')
    ensures r == r' || r + "|" <= r'
  {
    var k := Key(r, h);
    assert r == k[..|r|] && r' == k[..|r'|];
    if |r| < |r'| {
      assert r + "|" == k[..|r| + 1] == r'[..|r| + 1];
    }
  }

  /** The host under which the shorter of two entangled ids has the key of the longer. */
  function Clash(r: string, r': string, host: string): string
    requires r + "|" <= r'
  {
    r'[|r| + 1..] + "|" + host
  }

  lemma EntangledCollide(r: string, r': string, host: string)
    requires r + "|" <= r'
    ensures Key(r, Clash(r, r', host)) == Key(r', host)
  {
    assert r' == r + "|" + r'[|r| + 1..];
  }

  /** The text key identifies the pair when the rule ids are not entangled; hosts are
      unrestricted. */
  lemma KeyInjective(rule: string, host: string, rule': string, host': string)
    requires rule != rule' ==> !Entangled(rule, rule')
    ensures Key(rule, host) == Key(rule', host') <==> rule == rule' && host == host'
  {
    if Key(rule, host) == Key(rule', host') {
      if rule != rule' {
        KeyCollision(rule, rule');
      }
      assert Key(rule, host)[|rule| + 1..] == host && Key(rule', host')[|rule| + 1..] == host';
    }
  }

  /** No two of the ids are entangled. */
  predicate Untangled(ids: set<string>) {
    forall r, r' :: r in ids && r' in ids && r != r' ==> !Entangled(r, r')
  }

  lemma BarInside(r: string, r': string)
    ensures r + "|" <= r' ==> '|' in r'
  {
    assert (r + "|")[|r|] == '|';
  }

  /** Ids without a bar never are. */
  lemma BarFreeUntangled(ids: set<string>)
    requires forall r :: r in ids ==> '|' !in r
    ensures Untangled(ids)
  {
    forall r, r' | r in ids && r' in ids ensures !(r + "|" <= r') {
      BarInside(r, r');
    }
  }

  // ---------------------------------------------------------------------------
  // The engine with the cooldown map
  // ---------------------------------------------------------------------------

  type Cooldowns = map<string, int>

  predicate Cooling(last: Cooldowns, rule: string, host: string, now: int) {
    Key(rule, host) in last && now - last[Key(rule, host)] < COOLDOWN
  }

  function EvaluateAll(last: Cooldowns, rules: seq<AlertRule>, host: string, metrics: map<string, real>, now: int)
    : (Cooldowns, seq<Fire>)
  {
    if rules == [] then (last, [])
    else
      var n := |rules| - 1;
      var (last', fired) := EvaluateAll(last, rules[..n], host, metrics, now);
      if Eligible(rules[n], host, metrics, now) && !Cooling(last', rules[n].id, host, now) then
        (last'[Key(rules[n].id, host) := now], fired + [Fire(rules[n].id, host, now)])
      else (last', fired)
  }

  // ---------------------------------------------------------------------------
  // The reference engine over the trace
  // ---------------------------------------------------------------------------

  /** No fire of the pair in the last 60 seconds of the trace. */
  predicate Quiet(trace: seq<Fire>, rule: string, host: string, now: int) {
    forall f :: f in trace && f.rule == rule && f.host == host ==> now - f.at >= COOLDOWN
  }

  function Extend(trace: seq<Fire>, rules: seq<AlertRule>, host: string, metrics: map<string, real>, now: int): seq<Fire> {
    if rules == [] then trace
    else
      var n := |rules| - 1;
      var t := Extend(trace, rules[..n], host, metrics, now);
      if Eligible(rules[n], host, metrics, now) && Quiet(t, rules[n].id, host, now) then
        t + [Fire(rules[n].id, host, now)]
      else t
  }

  /** Time of the pair's last fire in the trace. */
  function Latest(trace: seq<Fire>, rule: string, host: string): Option<int> {
    if trace == [] then None
    else
      var f := trace[|trace| - 1];
      if f.rule == rule && f.host == host then Some(f.at) else Latest(trace[..|trace| - 1], rule, host)
  }

  predicate InOrder(trace: seq<Fire>, now: int) {
    && (forall i, j :: 0 <= i < j < |trace| ==> trace[i].at <= trace[j].at)
    && (forall i :: 0 <= i < |trace| ==> trace[i].at <= now)
  }

  function LastOf(last: Cooldowns, rule: string, host: string): Option<int> {
    if Key(rule, host) in last then Some(last[Key(rule, host)]) else None
  }

  /** The map holds, for every pair of a rule in use, the time of its latest fire in the
      trace. */
  ghost predicate Represents(last: Cooldowns, trace: seq<Fire>, ids: set<string>) {
    forall r, h :: r in ids ==>
      LastOf(last, r, h) == Latest(trace, r, h)
  }

  lemma QuietAppend(trace: seq<Fire>, last: Fire, rule: string, host: string, now: int)
    ensures Quiet(trace + [last], rule, host, now) <==>
            Quiet(trace, rule, host, now) && (last.rule == rule && last.host == host ==> now - last.at >= COOLDOWN)
  {
    assert forall f :: f in trace + [last] <==> f in trace || f == last;
  }

  /** In a trace in time order the latest fire decides whether the pair is quiet. */
  lemma {:induction false} LatestDecides(trace: seq<Fire>, rule: string, host: string, now: int)
    requires InOrder(trace, now)
    ensures Quiet(trace, rule, host, now) <==>
            (Latest(trace, rule, host).Some? ==> now - Latest(trace, rule, host).value >= COOLDOWN)
    ensures Latest(trace, rule, host).Some? ==> exists i :: 0 <= i < |trace| && trace[i].at == Latest(trace, rule, host).value
  {
    hide Quiet;
    if trace == [] {
      QuietEmpty(rule, host, now);
    } else {
      var n := |trace| - 1;
      var init, last := trace[..n], trace[n];
      assert trace == init + [last];
      InOrderPrefix(trace, now);
      LatestDecides(init, rule, host, now);
      QuietAppend(init, last, rule, host, now);
      if Latest(init, rule, host).Some? {
        var i :| 0 <= i < |init| && init[i].at == Latest(init, rule, host).value;
        assert trace[i].at <= trace[n].at;
      }
    }
  }

  lemma QuietEmpty(rule: string, host: string, now: int)
    ensures Quiet([], rule, host, now)
  {
  }

  lemma InOrderPrefix(trace: seq<Fire>, now: int)
    requires trace != [] && InOrder(trace, now)
    ensures InOrder(trace[..|trace| - 1], now)
  {
  }

  lemma RepresentsFire(last: Cooldowns, trace: seq<Fire>, ids: set<string>, rule: string, host: string, now: int)
    requires Represents(last, trace, ids) && Untangled(ids) && rule in ids
    ensures Represents(last[Key(rule, host) := now], trace + [Fire(rule, host, now)], ids)
  {
    var trace' := trace + [Fire(rule, host, now)];
    assert trace'[..|trace'| - 1] == trace;
    forall r, h | r in ids
      ensures LastOf(last[Key(rule, host) := now], r, h) == Latest(trace', r, h)
    {
      KeyInjective(r, h, rule, host);
    }
  }

  predicate IdsIn(rules: seq<AlertRule>, ids: set<string>) {
    forall i :: 0 <= i < |rules| ==> rules[i].id in ids
  }

  /** One evaluation: the map engine fires exactly what the reference engine fires. */
  lemma {:induction false} EvaluationRefines(last: Cooldowns, trace: seq<Fire>, ids: set<string>, rules: seq<AlertRule>,
                                             host: string, metrics: map<string, real>, now: int)
    requires Represents(last, trace, ids) && InOrder(trace, now) && IdsIn(rules, ids) && Untangled(ids)
    ensures var (last', fired) := EvaluateAll(last, rules, host, metrics, now);
            var trace' := Extend(trace, rules, host, metrics, now);
            trace' == trace + fired && Represents(last', trace', ids) && InOrder(trace', now)
  {
    hide Eligible, Cooling, Quiet, Represents, InOrder, Untangled;
    if rules == [] {
      assert trace + [] == trace;
    } else {
      var n := |rules| - 1;
      EvaluationRefines(last, trace, ids, rules[..n], host, metrics, now);
      var (last1, fired1) := EvaluateAll(last, rules[..n], host, metrics, now);
      var fire := Fire(rules[n].id, host, now);
      CoolingIsNotQuiet(last1, trace + fired1, ids, rules[n].id, host, now);
      RepresentsFire(last1, trace + fired1, ids, rules[n].id, host, now);
      InOrderFire(trace + fired1, fire);
      assert trace + fired1 + [fire] == trace + (fired1 + [fire]);
    }
  }

  lemma InOrderFire(trace: seq<Fire>, f: Fire)
    requires InOrder(trace, f.at)
    ensures InOrder(trace + [f], f.at)
  {
  }

  lemma CoolingIsNotQuiet(last: Cooldowns, trace: seq<Fire>, ids: set<string>, rule: string, host: string, now: int)
    requires Represents(last, trace, ids) && InOrder(trace, now) && rule in ids
    ensures Cooling(last, rule, host, now) <==> !Quiet(trace, rule, host, now)
  {
    LatestDecides(trace, rule, host, now);
    assert LastOf(last, rule, host) == Latest(trace, rule, host);
  }

  // ---------------------------------------------------------------------------
  // Silences
  // ---------------------------------------------------------------------------

  function Normalized(host: string): string {
    if TrimSpace(host) == "" then "*" else TrimSpace(host)
  }

  function IndexOf(rules: seq<AlertRule>, id: string): (i: nat)
    ensures i <= |rules|
    ensures i < |rules| ==> rules[i].id == id
    ensures forall j :: 0 <= j < i ==> rules[j].id != id
  {
    if rules == [] || rules[0].id == id then 0 else 1 + IndexOf(rules[1..], id)
  }

  /** Silences the first rule with the id; None when there is no such rule. */
  function Silenced(rules: seq<AlertRule>, id: string, host: string, until: int): seq<AlertRule> {
    var i := IndexOf(rules, id);
    if i == |rules| then rules
    else rules[i := rules[i].(silenced := rules[i].silenced[Normalized(host) := until])]
  }

  function Unsilenced(rules: seq<AlertRule>, id: string, host: string): seq<AlertRule> {
    var i := IndexOf(rules, id);
    if i == |rules| then rules
    else rules[i := rules[i].(silenced := rules[i].silenced - {host})]
  }

  function AllSilenced(rules: seq<AlertRule>, until: int): (r: seq<AlertRule>)
    ensures |r| == |rules|
    ensures forall i :: 0 <= i < |r| ==> r[i] == rules[i].(silenced := rules[i].silenced["*" := until])
  {
    seq(|rules|, i requires 0 <= i < |rules| => rules[i].(silenced := rules[i].silenced["*" := until]))
  }

  function NoneSilenced(rules: seq<AlertRule>): (r: seq<AlertRule>)
    ensures |r| == |rules|
    ensures forall i :: 0 <= i < |r| ==> r[i] == rules[i].(silenced := map[])
  {
    seq(|rules|, i requires 0 <= i < |rules| => rules[i].(silenced := map[]))
  }

  /** What one call undoes. Unsilencing with the text that was silenced lifts the silence
      exactly when that text is not empty and has no white space at its ends: silencing
      normalises the host, unsilencing does not. */
  lemma UnsilenceUndoes(rules: seq<AlertRule>, id: string, host: string, until: int)
    requires IndexOf(rules, id) < |rules|
    ensures var i := IndexOf(rules, id);
            var after := Unsilenced(Silenced(rules, id, host, until), id, host);
            && |after| == |rules| && (forall j :: 0 <= j < |rules| && j != i ==> after[j] == rules[j])
            && (Normalized(host) !in after[i].silenced <==> host != "" && TrimSpace(host) == host)
            && (Normalized(host) in after[i].silenced ==> after[i].silenced[Normalized(host)] == until)
  {
    var i := IndexOf(rules, id);
    var mid := Silenced(rules, id, host, until);
    SameIndex(rules, mid, id);
    if host == "*" {
      StarTrimmed();
    }
  }

  lemma {:induction false} SameIndex(rules: seq<AlertRule>, rules': seq<AlertRule>, id: string)
    requires |rules| == |rules'| && forall j :: 0 <= j < |rules| ==> rules[j].id == rules'[j].id
    ensures IndexOf(rules, id) == IndexOf(rules', id)
  {
    if rules != [] {
      SameIndex(rules[1..], rules'[1..], id);
    }
  }

  lemma StarTrimmed()
    ensures TrimSpace("*") == "*" && TrimSpace("") == ""
  {
    TrimNothing("*");
    TrimNothing("");
  }

  // ---------------------------------------------------------------------------
  // Whole runs
  // ---------------------------------------------------------------------------

  datatype Event =
    | Evaluate(host: string, metrics: map<string, real>, now: int)
    | Silence(id: string, host: string, until: int)
    | SilenceAll(until: int)
    | Unsilence(id: string, host: string)
    | UnsilenceAll
    | SetRules(rules: seq<AlertRule>)

  function Configure(rules: seq<AlertRule>, e: Event): seq<AlertRule> {
    match e
    case Evaluate(_, _, _) => rules
    case Silence(id, host, until) => Silenced(rules, id, host, until)
    case SilenceAll(until) => AllSilenced(rules, until)
    case Unsilence(id, host) => Unsilenced(rules, id, host)
    case UnsilenceAll => NoneSilenced(rules)
    case SetRules(replaced) => replaced
  }

  /** The rules in force after the events. */
  function RulesAfter(rules: seq<AlertRule>, events: seq<Event>): seq<AlertRule> {
    if events == [] then rules
    else Configure(RulesAfter(rules, events[..|events| - 1]), events[|events| - 1])
  }

  /** The map engine over a run: its cooldowns and everything it fired. */
  function Engine(rules: seq<AlertRule>, events: seq<Event>): (Cooldowns, seq<Fire>) {
    if events == [] then (map[], [])
    else
      var n := |events| - 1;
      var (last, fired) := Engine(rules, events[..n]);
      match events[n]
      case Evaluate(host, metrics, now) =>
        var (last', more) := EvaluateAll(last, RulesAfter(rules, events[..n]), host, metrics, now);
        (last', fired + more)
      case _ => (last, fired)
  }

  /** The reference engine over a run. */
  function Reference(rules: seq<AlertRule>, events: seq<Event>): seq<Fire> {
    if events == [] then []
    else
      var n := |events| - 1;
      match events[n]
      case Evaluate(host, metrics, now) =>
        Extend(Reference(rules, events[..n]), RulesAfter(rules, events[..n]), host, metrics, now)
      case _ => Reference(rules, events[..n])
  }

  /** The ids of every rule configured at any time in the run. */
  function IdsUsed(rules: seq<AlertRule>, events: seq<Event>): set<string> {
    (set r | r in rules :: r.id) + set e, r | e in events && e.SetRules? && r in e.rules :: r.id
  }

  /** Evaluations happen in time order. */
  predicate Timely(events: seq<Event>) {
    forall i, j :: 0 <= i < j < |events| && events[i].Evaluate? && events[j].Evaluate? ==> events[i].now <= events[j].now
  }

  predicate Uses(rules: seq<AlertRule>, events: seq<Event>, ids: set<string>) {
    IdsIn(rules, ids) && forall i :: 0 <= i < |events| && events[i].SetRules? ==> IdsIn(events[i].rules, ids)
  }

  lemma UsesIdsUsed(rules: seq<AlertRule>, events: seq<Event>)
    ensures Uses(rules, events, IdsUsed(rules, events))
  {
    forall i | 0 <= i < |events| && events[i].SetRules? ensures IdsIn(events[i].rules, IdsUsed(rules, events)) {
      assert events[i] in events;
    }
  }

  lemma {:induction false} IdsStay(rules: seq<AlertRule>, events: seq<Event>, ids: set<string>)
    requires Uses(rules, events, ids)
    ensures IdsIn(RulesAfter(rules, events), ids)
  {
    if events != [] {
      var n := |events| - 1;
      UsesPrefix(rules, events, ids);
      IdsStay(rules, events[..n], ids);
      assert events[n].SetRules? ==> IdsIn(events[n].rules, ids);
    }
  }

  lemma UsesPrefix(rules: seq<AlertRule>, events: seq<Event>, ids: set<string>)
    requires events != [] && Uses(rules, events, ids)
    ensures Uses(rules, events[..|events| - 1], ids)
  {
    var init := events[..|events| - 1];
    assert forall i :: 0 <= i < |init| ==> init[i] == events[i];
  }

  lemma TimelyPrefix(events: seq<Event>)
    requires events != [] && Timely(events)
    ensures Timely(events[..|events| - 1])
  {
  }

  lemma {:induction false} RunRefines(rules: seq<AlertRule>, events: seq<Event>, ids: set<string>, now: int)
    requires Timely(events) && Uses(rules, events, ids) && Untangled(ids)
    requires forall i :: 0 <= i < |events| && events[i].Evaluate? ==> events[i].now <= now
    ensures Engine(rules, events).1 == Reference(rules, events)
    ensures Represents(Engine(rules, events).0, Reference(rules, events), ids)
    ensures InOrder(Reference(rules, events), now)
  {
    hide Untangled;
    if events != [] {
      var n := |events| - 1;
      var init := events[..n];
      TimelyPrefix(events);
      UsesPrefix(rules, events, ids);
      IdsStay(rules, init, ids);
      assert forall i :: 0 <= i < n ==> init[i] == events[i];
      if events[n].Evaluate? {
        var e := events[n];
        RunRefines(rules, init, ids, e.now);
        EvaluationRefines(Engine(rules, init).0, Reference(rules, init), ids, RulesAfter(rules, init), e.host, e.metrics, e.now);
      } else {
        RunRefines(rules, init, ids, now);
      }
    }
  }

  /** A time no evaluation of the run comes after. */
  lemma {:induction false} EndOf(events: seq<Event>) returns (now: int)
    ensures forall i :: 0 <= i < |events| && events[i].Evaluate? ==> events[i].now <= now
  {
    now := 0;
    if events != [] {
      var n := |events| - 1;
      now := EndOf(events[..n]);
      assert forall i :: 0 <= i < n ==> events[..n][i] == events[i];
      if events[n].Evaluate? && events[n].now > now { now := events[n].now; }
    }
  }

  /** THE MAP REFINES THE TRACE. Over every run whose rule ids are not entangled the engine
      with the cooldown map fires exactly what the reference engine fires: an enabled rule
      that matches the host, whose condition holds and which no unexpired silence covers,
      fires precisely when its trace shows no fire of the pair in the last 60 seconds. */
  lemma EngineRefines(rules: seq<AlertRule>, events: seq<Event>)
    requires Timely(events) && Untangled(IdsUsed(rules, events))
    ensures Engine(rules, events).1 == Reference(rules, events)
    ensures Represents(Engine(rules, events).0, Reference(rules, events), IdsUsed(rules, events))
  {
    var now := EndOf(events);
    UsesIdsUsed(rules, events);
    RunRefines(rules, events, IdsUsed(rules, events), now);
  }

  // ---------------------------------------------------------------------------
  // Entangled ids
  // ---------------------------------------------------------------------------

  /** A rule for one host that fires whenever the metric is reported. */
  function Always(id: string, host: string): AlertRule {
    AlertRule(id, true, "m", host, ">=", 0.0, map[])
  }

  const REPORT: map<string, real> := map["m" := 0.0]

  /** Two rules, each for a host of its own, evaluated once for either host at one moment. */
  function ClashRules(r: string, r': string): seq<AlertRule>
    requires r + "|" <= r'
  {
    [Always(r, Clash(r, r', "b")), Always(r', "b")]
  }

  function ClashRun(r: string, r': string): seq<Event>
    requires r + "|" <= r'
  {
    [Evaluate(Clash(r, r', "b"), REPORT, 0), Evaluate("b", REPORT, 0)]
  }

  lemma OneRule(last: Cooldowns, trace: seq<Fire>, a: AlertRule, host: string, metrics: map<string, real>, now: int)
    ensures EvaluateAll(last, [a], host, metrics, now) ==
            if Eligible(a, host, metrics, now) && !Cooling(last, a.id, host, now)
            then (last[Key(a.id, host) := now], [Fire(a.id, host, now)]) else (last, [])
    ensures Extend(trace, [a], host, metrics, now) ==
            if Eligible(a, host, metrics, now) && Quiet(trace, a.id, host, now)
            then trace + [Fire(a.id, host, now)] else trace
  {
    hide Eligible, Cooling, Quiet, Key;
    assert [a][..0] == [];
    assert [] + [Fire(a.id, host, now)] == [Fire(a.id, host, now)];
  }

  /** Two rules of which one is eligible act like that one. */
  lemma TwoRules(last: Cooldowns, trace: seq<Fire>, a: AlertRule, b: AlertRule, host: string, metrics: map<string, real>, now: int)
    requires Eligible(a, host, metrics, now) != Eligible(b, host, metrics, now)
    ensures var one := if Eligible(a, host, metrics, now) then a else b;
            && EvaluateAll(last, [a, b], host, metrics, now) ==
               (if Cooling(last, one.id, host, now) then (last, []) else (last[Key(one.id, host) := now], [Fire(one.id, host, now)]))
            && Extend(trace, [a, b], host, metrics, now) ==
               (if Quiet(trace, one.id, host, now) then trace + [Fire(one.id, host, now)] else trace)
  {
    hide Eligible, Cooling, Quiet, Key;
    assert [a, b][..1] == [a];
    OneRule(last, trace, a, host, metrics, now);
    assert [] + [Fire(b.id, host, now)] == [Fire(b.id, host, now)];
  }

  lemma TwoEvents(rules: seq<AlertRule>, e: Event, e': Event)
    requires e.Evaluate? && e'.Evaluate?
    ensures var (last, fired) := EvaluateAll(map[], rules, e.host, e.metrics, e.now);
            var (_, more) := EvaluateAll(last, rules, e'.host, e'.metrics, e'.now);
            Engine(rules, [e, e']).1 == fired + more
    ensures Reference(rules, [e, e']) ==
            Extend(Extend([], rules, e.host, e.metrics, e.now), rules, e'.host, e'.metrics, e'.now)
  {
    hide EvaluateAll, Extend;
    var events := [e, e'];
    assert events[..1] == [e] && [e][..0] == [];
    assert RulesAfter(rules, []) == rules && RulesAfter(rules, [e]) == rules && RulesAfter(rules, events[..1]) == rules;
    var (last, fired) := EvaluateAll(map[], rules, e.host, e.metrics, e.now);
    assert [] + fired == fired;
    assert Engine(rules, [e]) == (last, fired);
    assert Reference(rules, [e]) == Extend([], rules, e.host, e.metrics, e.now);
  }

  /** A SUPPRESSED ALERT. With entangled ids the second of two alerts of different rules on
      different hosts is lost to the cooldown of the first. */
  lemma EntangledSuppress(r: string, r': string)
    requires r + "|" <= r'
    ensures Engine(ClashRules(r, r'), ClashRun(r, r')).1 == [Fire(r, Clash(r, r', "b"), 0)]
    ensures Reference(ClashRules(r, r'), ClashRun(r, r')) == [Fire(r, Clash(r, r', "b"), 0), Fire(r', "b", 0)]
  {
    hide EvaluateAll, Extend, Engine, Reference, Key, Eligible;
    var host := Clash(r, r', "b");
    assert |host| >= 2 && host != "" && host != "*" && host != "b";
    var a, b := Always(r, host), Always(r', "b");
    EntangledCollide(r, r', "b");
    EligibleOn(r, host, host);
    EligibleOn(r, host, "b");
    EligibleOn(r', "b", host);
    EligibleOn(r', "b", "b");
    TwoEvents([a, b], Evaluate(host, REPORT, 0), Evaluate("b", REPORT, 0));
    TwoRules(map[], [], a, b, host, REPORT, 0);
    var last, first := map[Key(r, host) := 0], [Fire(r, host, 0)];
    assert [] + first == first && first + [] == first;
    TwoRules(last, first, a, b, "b", REPORT, 0);
    assert Cooling(last, r', "b", 0);
    assert Quiet(first, r', "b", 0);
  }

  lemma EligibleOn(id: string, own: string, host: string)
    requires own != "" && own != "*"
    ensures Eligible(Always(id, own), host, REPORT, 0) <==> host == own
  {
  }

  /** EXACTLY WHEN. A set of rule ids is free of entangled pairs if and only if the engine
      with the cooldown map fires what the reference engine fires in every run that uses
      only those ids. The reference names rules by id, so this is about different ids; rules
      of one id are treated below. */
  lemma UntangledExact(ids: set<string>)
    ensures Untangled(ids) <==>
            forall rules, events :: Timely(events) && Uses(rules, events, ids) ==>
              Engine(rules, events).1 == Reference(rules, events)
  {
    hide Engine, Reference, Timely, Uses, Untangled;
    if Untangled(ids) {
      forall rules, events | Timely(events) && Uses(rules, events, ids)
        ensures Engine(rules, events).1 == Reference(rules, events)
      {
        var now := EndOf(events);
        RunRefines(rules, events, ids, now);
      }
    } else {
      var r, r' := EntangledPair(ids);
      EntangledSuppress(r, r');
      ClashUses(r, r', ids);
    }
  }

  lemma EntangledPair(ids: set<string>) returns (r: string, r': string)
    requires !Untangled(ids)
    ensures r in ids && r' in ids && r + "|" <= r'
  {
    r, r' :| r in ids && r' in ids && r != r' && Entangled(r, r');
    if !(r + "|" <= r') { r, r' := r', r; }
  }

  lemma ClashUses(r: string, r': string, ids: set<string>)
    requires r + "|" <= r' && r in ids && r' in ids
    ensures Timely(ClashRun(r, r')) && Uses(ClashRules(r, r'), ClashRun(r, r'), ids)
  {
  }

  // ---------------------------------------------------------------------------
  // Rules that are really different
  // ---------------------------------------------------------------------------

  /** A fire of the rule at a position of the configuration. */
  datatype Spot = Spot(index: nat, host: string, at: int)

  predicate QuietSpot(trace: seq<Spot>, index: nat, host: string, now: int) {
    forall f :: f in trace && f.index == index && f.host == host ==> now - f.at >= COOLDOWN
  }

  /** The reference engine that tells rules apart by position rather than by id. */
  function ExtendSpots(trace: seq<Spot>, rules: seq<AlertRule>, host: string, metrics: map<string, real>, now: int): seq<Spot> {
    if rules == [] then trace
    else
      var n := |rules| - 1;
      var t := ExtendSpots(trace, rules[..n], host, metrics, now);
      if Eligible(rules[n], host, metrics, now) && QuietSpot(t, n, host, now) then t + [Spot(n, host, now)] else t
  }

  function Spots(rules: seq<AlertRule>, events: seq<Event>): seq<Spot> {
    if events == [] then []
    else
      var n := |events| - 1;
      match events[n]
      case Evaluate(host, metrics, now) =>
        ExtendSpots(Spots(rules, events[..n]), RulesAfter(rules, events[..n]), host, metrics, now)
      case _ => Spots(rules, events[..n])
  }

  /** The same fires under the ids of their rules. */
  function Named(trace: seq<Spot>, ids: seq<string>): seq<Fire> {
    if trace == [] then []
    else
      var f := trace[|trace| - 1];
      Named(trace[..|trace| - 1], ids) + [Fire(if f.index < |ids| then ids[f.index] else "", f.host, f.at)]
  }

  /** The rules bear these ids, position by position. */
  predicate Bear(rules: seq<AlertRule>, ids: seq<string>) {
    |rules| == |ids| && forall i :: 0 <= i < |ids| ==> rules[i].id == ids[i]
  }

  /** Rules are silenced and unsilenced but not replaced. */
  predicate Fixed(events: seq<Event>) {
    forall i :: 0 <= i < |events| ==> !events[i].SetRules?
  }

  /** Ids that tell rules apart: no two equal and no two entangled. */
  predicate TellApart(ids: seq<string>) {
    forall i, j :: 0 <= i < j < |ids| ==> ids[i] != ids[j] && !Entangled(ids[i], ids[j])
  }

  lemma {:induction false} BearStays(rules: seq<AlertRule>, events: seq<Event>, ids: seq<string>)
    requires Bear(rules, ids) && Fixed(events)
    ensures Bear(RulesAfter(rules, events), ids)
  {
    if events != [] {
      BearStays(rules, events[..|events| - 1], ids);
    }
  }

  predicate Placed(trace: seq<Spot>, n: nat) {
    forall f :: f in trace ==> f.index < n
  }

  lemma {:induction false} NamedMembers(trace: seq<Spot>, ids: seq<string>)
    requires Placed(trace, |ids|)
    ensures forall x :: x in Named(trace, ids) <==> exists f :: f in trace && x == Fire(ids[f.index], f.host, f.at)
  {
    if trace != [] {
      var n := |trace| - 1;
      assert trace == trace[..n] + [trace[n]];
      NamedMembers(trace[..n], ids);
    }
  }

  /** With distinct ids, quiet by position is quiet by id. */
  lemma QuietNamed(trace: seq<Spot>, ids: seq<string>, k: nat, host: string, now: int)
    requires Placed(trace, |ids|) && k < |ids| && forall i, j :: 0 <= i < j < |ids| ==> ids[i] != ids[j]
    ensures QuietSpot(trace, k, host, now) <==> Quiet(Named(trace, ids), ids[k], host, now)
  {
    hide Named;
    NamedMembers(trace, ids);
    forall f | f in trace ensures Fire(ids[f.index], f.host, f.at) in Named(trace, ids) {}
    if Quiet(Named(trace, ids), ids[k], host, now) {
      forall f | f in trace && f.index == k && f.host == host ensures now - f.at >= COOLDOWN {
        assert Fire(ids[f.index], f.host, f.at) in Named(trace, ids);
      }
    }
  }

  lemma NamedSnoc(trace: seq<Spot>, f: Spot, ids: seq<string>)
    requires f.index < |ids|
    ensures Named(trace + [f], ids) == Named(trace, ids) + [Fire(ids[f.index], f.host, f.at)]
  {
    assert (trace + [f])[..|trace + [f]| - 1] == trace;
  }

  lemma {:induction false} ExtendNamed(trace: seq<Spot>, rules: seq<AlertRule>, ids: seq<string>, host: string,
                                       metrics: map<string, real>, now: int)
    requires Placed(trace, |ids|) && |rules| <= |ids| && forall i :: 0 <= i < |rules| ==> rules[i].id == ids[i]
    requires forall i, j :: 0 <= i < j < |ids| ==> ids[i] != ids[j]
    ensures Placed(ExtendSpots(trace, rules, host, metrics, now), |ids|)
    ensures Named(ExtendSpots(trace, rules, host, metrics, now), ids) == Extend(Named(trace, ids), rules, host, metrics, now)
  {
    hide Eligible, Quiet, QuietSpot, Named;
    if rules != [] {
      var n := |rules| - 1;
      ExtendNamed(trace, rules[..n], ids, host, metrics, now);
      var t := ExtendSpots(trace, rules[..n], host, metrics, now);
      QuietNamed(t, ids, n, host, now);
      NamedSnoc(t, Spot(n, host, now), ids);
    }
  }

  lemma NoneNamed(ids: seq<string>)
    ensures Named([], ids) == []
  {
  }

  lemma {:induction false} SpotsNamed(rules: seq<AlertRule>, events: seq<Event>, ids: seq<string>)
    requires Bear(rules, ids) && Fixed(events) && forall i, j :: 0 <= i < j < |ids| ==> ids[i] != ids[j]
    ensures Placed(Spots(rules, events), |ids|) && Named(Spots(rules, events), ids) == Reference(rules, events)
  {
    hide ExtendSpots, Extend, Named;
    if events == [] {
      NoneNamed(ids);
    } else {
      var n := |events| - 1;
      SpotsNamed(rules, events[..n], ids);
      BearStays(rules, events[..n], ids);
      if events[n].Evaluate? {
        var e := events[n];
        ExtendNamed(Spots(rules, events[..n]), RulesAfter(rules, events[..n]), ids, e.host, e.metrics, e.now);
      }
    }
  }

  /** Evaluating rules of which only the `k`-th is eligible. */
  lemma {:induction false} OnlyOne(last: Cooldowns, trace: seq<Spot>, rules: seq<AlertRule>, k: nat, host: string,
                                   metrics: map<string, real>, now: int)
    requires forall m :: 0 <= m < |rules| ==> (Eligible(rules[m], host, metrics, now) <==> m == k)
    ensures EvaluateAll(last, rules, host, metrics, now) ==
            if k < |rules| && !Cooling(last, rules[k].id, host, now)
            then (last[Key(rules[k].id, host) := now], [Fire(rules[k].id, host, now)]) else (last, [])
    ensures ExtendSpots(trace, rules, host, metrics, now) ==
            if k < |rules| && QuietSpot(trace, k, host, now) then trace + [Spot(k, host, now)] else trace
  {
    hide Eligible, Cooling, Key, QuietSpot;
    if rules != [] {
      var n := |rules| - 1;
      OnlyOne(last, trace, rules[..n], k, host, metrics, now);
      assert [] + [Fire(rules[n].id, host, now)] == [Fire(rules[n].id, host, now)];
    }
  }

  /** Every rule is disabled but the two at positions `i` and `j`, each on a metric of its own. */
  function TwoOn(ids: seq<string>, i: nat, j: nat): (r: seq<AlertRule>)
    ensures Bear(r, ids)
  {
    seq(|ids|, k requires 0 <= k < |ids| =>
      AlertRule(ids[k], k == i || k == j, if k == i then "m" else "n", "*", ">=", 0.0, map[]))
  }

  lemma TwoOnEligible(ids: seq<string>, i: nat, j: nat, host: string, k: nat)
    requires i < j < |ids| && k < |ids|
    ensures Eligible(TwoOn(ids, i, j)[k], host, map["m" := 0.0], 0) <==> k == i
    ensures Eligible(TwoOn(ids, i, j)[k], host, map["n" := 0.0], 0) <==> k == j
  {
  }

  lemma TwoSpots(rules: seq<AlertRule>, e: Event, e': Event)
    requires e.Evaluate? && e'.Evaluate?
    ensures Spots(rules, [e, e']) ==
            ExtendSpots(ExtendSpots([], rules, e.host, e.metrics, e.now), rules, e'.host, e'.metrics, e'.now)
  {
    hide ExtendSpots;
    var events := [e, e'];
    assert events[..1] == [e] && [e][..0] == [];
    assert RulesAfter(rules, []) == rules && RulesAfter(rules, [e]) == rules;
    assert Spots(rules, [e]) == ExtendSpots([], rules, e.host, e.metrics, e.now);
  }

  /** Of two rules that meet in one key for some hosts, the second loses its alert. */
  lemma MeetingSuppress(ids: seq<string>, i: nat, j: nat, h: string, h': string)
    requires i < j < |ids| && Key(ids[i], h) == Key(ids[j], h')
    ensures var rules := TwoOn(ids, i, j);
            var events := [Evaluate(h, map["m" := 0.0], 0), Evaluate(h', map["n" := 0.0], 0)];
            && Engine(rules, events).1 == [Fire(ids[i], h, 0)]
            && Spots(rules, events) == [Spot(i, h, 0), Spot(j, h', 0)]
  {
    hide EvaluateAll, ExtendSpots, Engine, Spots, Key, Eligible, TwoOn;
    var rules, m, n := TwoOn(ids, i, j), map["m" := 0.0], map["n" := 0.0];
    forall k | 0 <= k < |rules|
      ensures (Eligible(rules[k], h, m, 0) <==> k == i) && (Eligible(rules[k], h', n, 0) <==> k == j)
    {
      TwoOnEligible(ids, i, j, h, k);
      TwoOnEligible(ids, i, j, h', k);
    }
    TwoEvents(rules, Evaluate(h, m, 0), Evaluate(h', n, 0));
    TwoSpots(rules, Evaluate(h, m, 0), Evaluate(h', n, 0));
    OnlyOne(map[], [], rules, i, h, m, 0);
    var last, first := map[Key(ids[i], h) := 0], [Spot(i, h, 0)];
    assert [] + first == first && [Fire(ids[i], h, 0)] + [] == [Fire(ids[i], h, 0)];
    OnlyOne(last, first, rules, j, h', n, 0);
    assert Cooling(last, ids[j], h', 0);
    assert QuietSpot(first, j, h', 0);
  }

  /** EXACTLY WHEN RULES KEEP COOLDOWNS OF THEIR OWN. For rules bearing given ids, the engine
      fires in every run what an engine fires that gives each rule a cooldown per host of its
      own, if and only if no two of the ids are equal or entangled. */
  lemma OwnCooldownsExact(ids: seq<string>)
    ensures TellApart(ids) <==>
            forall rules, events :: Bear(rules, ids) && Timely(events) && Fixed(events) ==>
              Engine(rules, events).1 == Named(Spots(rules, events), ids)
  {
    hide Engine, Spots, Named, Timely, Reference;
    if TellApart(ids) {
      forall rules, events | Bear(rules, ids) && Timely(events) && Fixed(events)
        ensures Engine(rules, events).1 == Named(Spots(rules, events), ids)
      {
        SpotsNamed(rules, events, ids);
        var used := set i | 0 <= i < |ids| :: ids[i];
        var now := EndOf(events);
        RunRefines(rules, events, used, now);
      }
    } else {
      var i, j :| 0 <= i < j < |ids| && (ids[i] == ids[j] || Entangled(ids[i], ids[j]));
      var h, h' := MeetingHosts(ids[i], ids[j]);
      MeetingSuppress(ids, i, j, h, h');
      var rules, events := TwoOn(ids, i, j), [Evaluate(h, map["m" := 0.0], 0), Evaluate(h', map["n" := 0.0], 0)];
      NamedTwo(ids, Spot(i, h, 0), Spot(j, h', 0));
      assert Timely(events) by { SameTime(h, h'); }
      assert Bear(rules, ids) && Fixed(events);
    }
  }

  lemma MeetingHosts(r: string, r': string) returns (h: string, h': string)
    requires r == r' || Entangled(r, r')
    ensures Key(r, h) == Key(r', h')
  {
    if r == r' {
      h, h' := "", "";
    } else if r + "|" <= r' {
      h, h' := Clash(r, r', ""), "";
      EntangledCollide(r, r', "");
    } else {
      h, h' := "", Clash(r', r, "");
      EntangledCollide(r', r, "");
    }
  }

  lemma NamedTwo(ids: seq<string>, f: Spot, g: Spot)
    ensures |Named([f, g], ids)| == 2
  {
    assert [f, g][..1] == [f] && [f][..0] == [];
    assert |Named([f], ids)| == 1;
  }

  lemma SameTime(h: string, h': string)
    ensures Timely([Evaluate(h, map["m" := 0.0], 0), Evaluate(h', map["n" := 0.0], 0)])
  {
  }

  /** A concrete case: of two rules created with one id on different metrics, which a host
      reports in turn at one moment, only the first fires. */
  lemma EqualIdsSuppress(id: string, host: string)
    ensures var rules := TwoOn([id, id], 0, 1);
            var events := [Evaluate(host, map["m" := 0.0], 0), Evaluate(host, map["n" := 0.0], 0)];
            Engine(rules, events).1 == [Fire(id, host, 0)] && Spots(rules, events) == [Spot(0, host, 0), Spot(1, host, 0)]
  {
    MeetingSuppress([id, id], 0, 1, host, host);
  }

  // ---------------------------------------------------------------------------
  // Consequences for the trace
  // ---------------------------------------------------------------------------

  predicate PairsSpaced(trace: seq<Fire>) {
    forall i, j :: 0 <= i < j < |trace| && trace[i].rule == trace[j].rule && trace[i].host == trace[j].host
      ==> trace[j].at - trace[i].at >= COOLDOWN
  }

  /** The map knows every fire's key, with a time no earlier than the fire. */
  ghost predicate Guards(last: Cooldowns, fired: seq<Fire>) {
    forall f :: f in fired ==> Key(f.rule, f.host) in last && f.at <= last[Key(f.rule, f.host)]
  }

  lemma SpacedFire(last: Cooldowns, fired: seq<Fire>, rule: string, host: string, now: int)
    requires Guards(last, fired) && PairsSpaced(fired) && !Cooling(last, rule, host, now)
    ensures Guards(last[Key(rule, host) := now], fired + [Fire(rule, host, now)])
    ensures PairsSpaced(fired + [Fire(rule, host, now)])
  {
    assert forall i :: 0 <= i < |fired| ==> fired[i] in fired;
    hide Key;
  }

  lemma {:induction false} EvaluateSpaced(last: Cooldowns, past: seq<Fire>, rules: seq<AlertRule>, host: string,
                                          metrics: map<string, real>, now: int)
    requires Guards(last, past) && PairsSpaced(past)
    ensures var (last', fired) := EvaluateAll(last, rules, host, metrics, now);
            Guards(last', past + fired) && PairsSpaced(past + fired)
  {
    hide Guards, PairsSpaced, Cooling, Eligible;
    if rules == [] {
      assert past + [] == past;
    } else {
      var n := |rules| - 1;
      EvaluateSpaced(last, past, rules[..n], host, metrics, now);
      var (last', fired) := EvaluateAll(last, rules[..n], host, metrics, now);
      if !Cooling(last', rules[n].id, host, now) {
        SpacedFire(last', past + fired, rules[n].id, host, now);
        assert past + fired + [Fire(rules[n].id, host, now)] == past + (fired + [Fire(rules[n].id, host, now)]);
      }
    }
  }

  lemma NothingFired()
    ensures Guards(map[], []) && PairsSpaced([])
  {
  }

  lemma {:induction false} EngineSpaced(rules: seq<AlertRule>, events: seq<Event>)
    ensures var (last, fired) := Engine(rules, events);
            Guards(last, fired) && PairsSpaced(fired)
  {
    hide Guards, PairsSpaced, EvaluateAll;
    if events == [] {
      NothingFired();
    } else {
      var n := |events| - 1;
      EngineSpaced(rules, events[..n]);
      if events[n].Evaluate? {
        var e := events[n];
        var (last, fired) := Engine(rules, events[..n]);
        EvaluateSpaced(last, fired, RulesAfter(rules, events[..n]), e.host, e.metrics, e.now);
      }
    }
  }

  /** Fires of one pair with a time in [from, to]. */
  function FiresIn(trace: seq<Fire>, rule: string, host: string, from: int, to: int): nat {
    if trace == [] then 0
    else
      var f := trace[|trace| - 1];
      FiresIn(trace[..|trace| - 1], rule, host, from, to)
      + if f.rule == rule && f.host == host && from <= f.at <= to then 1 else 0
  }

  lemma {:induction false} WindowCut(trace: seq<Fire>, rule: string, host: string, from: int, to: int, cut: int)
    requires cut <= to
    requires forall i :: 0 <= i < |trace| && trace[i].rule == rule && trace[i].host == host ==> trace[i].at <= cut
    ensures FiresIn(trace, rule, host, from, to) == FiresIn(trace, rule, host, from, cut)
  {
    if trace != [] {
      WindowCut(trace[..|trace| - 1], rule, host, from, to, cut);
    }
  }

  lemma {:induction false} WindowBound(trace: seq<Fire>, rule: string, host: string, from: int, to: int)
    requires PairsSpaced(trace)
    ensures FiresIn(trace, rule, host, from, to) > 0 ==> COOLDOWN * (FiresIn(trace, rule, host, from, to) - 1) <= to - from
  {
    if trace != [] {
      var n := |trace| - 1;
      var init, f := trace[..n], trace[n];
      assert forall i :: 0 <= i < n ==> init[i] == trace[i];
      WindowBound(init, rule, host, from, to);
      if f.rule == rule && f.host == host && from <= f.at <= to {
        var cut := f.at - COOLDOWN;
        WindowCut(init, rule, host, from, to, cut);
        WindowBound(init, rule, host, from, cut);
      }
    }
  }

  /** RATE LIMIT. Over every run whatsoever, with any rule ids, fires of one pair are at least
      60 seconds apart, so any window of length W holds at most W / 60 s + 1 of them. */
  lemma RateLimited(rules: seq<AlertRule>, events: seq<Event>, rule: string, host: string, from: int, to: int)
    requires from <= to
    ensures PairsSpaced(Engine(rules, events).1)
    ensures FiresIn(Engine(rules, events).1, rule, host, from, to) <= (to - from) / COOLDOWN + 1
  {
    hide Engine, PairsSpaced, FiresIn, Guards;
    EngineSpaced(rules, events);
    WindowBound(Engine(rules, events).1, rule, host, from, to);
    CooldownsFit(FiresIn(Engine(rules, events).1, rule, host, from, to), to - from);
  }

  lemma CooldownsFit(fires: nat, window: nat)
    requires fires > 0 ==> COOLDOWN * (fires - 1) <= window
    ensures fires <= window / COOLDOWN + 1
  {
  }

  // ---------------------------------------------------------------------------
  // What one evaluation fires
  // ---------------------------------------------------------------------------

  /** What the rule's operator says of a value and the rule's threshold. */
  ghost predicate Exceeds(operator: string, value: real, threshold: real) {
    || (operator == ">" && value > threshold)
    || (operator == "<" && value < threshold)
    || (operator == ">=" && value >= threshold)
    || (operator == "<=" && value <= threshold)
  }

  /** The rule is enabled, is for this host or for all, is under no silence for the host or for
      all that has not run out, and its metric is reported beyond the threshold. */
  ghost predicate Due(rule: AlertRule, host: string, metrics: map<string, real>, now: int) {
    && rule.enabled
    && rule.host in {"", "*", host}
    && (forall h :: h in rule.silenced && h in {"*", host} ==> rule.silenced[h] <= now)
    && rule.metric in metrics && Exceeds(rule.operator, metrics[rule.metric], rule.threshold)
  }

  lemma EligibleIsDue(rule: AlertRule, host: string, metrics: map<string, real>, now: int)
    ensures Eligible(rule, host, metrics, now) <==> Due(rule, host, metrics, now)
  {
  }

  /** The pair fired less than sixty seconds ago, by the map. */
  ghost predicate JustFired(last: Cooldowns, id: string, host: string, now: int) {
    id + "|" + host in last && now - last[id + "|" + host] < 60_000_000_000
  }

  /** Some rule of that id is due. */
  ghost predicate SomeDue(rules: seq<AlertRule>, id: string, host: string, metrics: map<string, real>, now: int) {
    exists i :: 0 <= i < |rules| && rules[i].id == id && Due(rules[i], host, metrics, now)
  }

  /** What an evaluation fires: one alert for every id with a rule that is due and was not
      fired just before, none twice and no other. */
  ghost predicate FiredRight(last: Cooldowns, rules: seq<AlertRule>, host: string, metrics: map<string, real>, now: int,
                             fired: seq<Fire>)
  {
    && (forall f :: f in fired ==> f.host == host && f.at == now)
    && (forall id :: Fire(id, host, now) in fired <==> SomeDue(rules, id, host, metrics, now) && !JustFired(last, id, host, now))
    && (forall i, j :: 0 <= i < j < |fired| ==> fired[i] != fired[j])
  }

  ghost predicate KeyOfSome(fired: seq<Fire>, host: string, k: string) {
    exists f :: f in fired && k == f.rule + "|" + host
  }

  /** The map marks exactly what was fired. */
  ghost predicate Marked(last: Cooldowns, host: string, now: int, last': Cooldowns, fired: seq<Fire>) {
    forall k ::
      if KeyOfSome(fired, host, k) then k in last' && last'[k] == now
      else (k in last' <==> k in last) && (k in last' ==> last'[k] == last[k])
  }

  ghost predicate Evaluated(last: Cooldowns, rules: seq<AlertRule>, host: string, metrics: map<string, real>, now: int,
                            last': Cooldowns, fired: seq<Fire>)
  {
    FiredRight(last, rules, host, metrics, now, fired) && Marked(last, host, now, last', fired)
  }

  lemma SomeDueNext(rules: seq<AlertRule>, id: string, host: string, metrics: map<string, real>, now: int)
    requires rules != []
    ensures var n := |rules| - 1;
            SomeDue(rules, id, host, metrics, now) <==>
            SomeDue(rules[..n], id, host, metrics, now) || (rules[n].id == id && Due(rules[n], host, metrics, now))
  {
    hide Due;
    var n := |rules| - 1;
    if SomeDue(rules, id, host, metrics, now) {
      var i :| 0 <= i < |rules| && rules[i].id == id && Due(rules[i], host, metrics, now);
      assert i < n ==> rules[..n][i] == rules[i];
    }
    if SomeDue(rules[..n], id, host, metrics, now) {
      var i :| 0 <= i < n && rules[..n][i].id == id && Due(rules[..n][i], host, metrics, now);
      assert rules[i].id == id;
    }
  }

  lemma SameHostKeys(id: string, id': string, host: string)
    ensures id + "|" + host == id' + "|" + host <==> id == id'
  {
    var k, k' := id + "|" + host, id' + "|" + host;
    if k == k' {
      assert |id| == |id'|;
      assert id == k[..|id|] == k'[..|id'|] == id';
    }
  }

  /** WHAT AN EVALUATION FIRES, rule by rule and operator by operator. */
  lemma {:induction false} FiresExactly(last: Cooldowns, rules: seq<AlertRule>, host: string, metrics: map<string, real>, now: int)
    ensures var (last', fired) := EvaluateAll(last, rules, host, metrics, now);
            Evaluated(last, rules, host, metrics, now, last', fired)
  {
    hide Eligible, Due, Evaluated, SomeDue;
    if rules == [] {
      NothingEvaluated(last, host, metrics, now);
    } else {
      var n := |rules| - 1;
      var rule := rules[n];
      FiresExactly(last, rules[..n], host, metrics, now);
      var (last', fired) := EvaluateAll(last, rules[..n], host, metrics, now);
      EligibleIsDue(rule, host, metrics, now);
      forall id
        ensures SomeDue(rules, id, host, metrics, now) <==>
                SomeDue(rules[..n], id, host, metrics, now) || (rule.id == id && Due(rule, host, metrics, now))
      {
        SomeDueNext(rules, id, host, metrics, now);
      }
      if Due(rule, host, metrics, now) {
        DueNext(last, rules, host, metrics, now, last', fired);
      } else {
        NotDueNext(last, rules, host, metrics, now, last', fired);
      }
    }
  }

  lemma NothingEvaluated(last: Cooldowns, host: string, metrics: map<string, real>, now: int)
    ensures Evaluated(last, [], host, metrics, now, last, [])
  {
  }

  lemma NotDueNext(last: Cooldowns, rules: seq<AlertRule>, host: string, metrics: map<string, real>, now: int,
                   last': Cooldowns, fired: seq<Fire>)
    requires rules != [] && Evaluated(last, rules[..|rules| - 1], host, metrics, now, last', fired)
    requires forall id :: SomeDue(rules, id, host, metrics, now) <==> SomeDue(rules[..|rules| - 1], id, host, metrics, now)
    ensures Evaluated(last, rules, host, metrics, now, last', fired)
  {
    hide SomeDue, JustFired, Marked;
  }

  lemma DueNext(last: Cooldowns, rules: seq<AlertRule>, host: string, metrics: map<string, real>, now: int,
                last': Cooldowns, fired: seq<Fire>)
    requires rules != [] && Evaluated(last, rules[..|rules| - 1], host, metrics, now, last', fired)
    requires forall id ::
               SomeDue(rules, id, host, metrics, now) <==>
               SomeDue(rules[..|rules| - 1], id, host, metrics, now) || id == rules[|rules| - 1].id
    ensures var id := rules[|rules| - 1].id;
            if Cooling(last', id, host, now) then Evaluated(last, rules, host, metrics, now, last', fired)
            else Evaluated(last, rules, host, metrics, now, last'[Key(id, host) := now], fired + [Fire(id, host, now)])
  {
    hide SomeDue, Marked, JustFired, Cooling;
    var id := rules[|rules| - 1].id;
    CoolsHere(last, id, host, now, last', fired);
    if !Cooling(last', id, host, now) {
      assert Fire(id, host, now) !in fired;
      assert forall f :: f in fired + [Fire(id, host, now)] <==> f in fired || f == Fire(id, host, now);
      MarkNext(last, id, host, now, last', fired);
    }
  }

  lemma MarkNext(last: Cooldowns, id: string, host: string, now: int, last': Cooldowns, fired: seq<Fire>)
    requires Marked(last, host, now, last', fired)
    ensures Marked(last, host, now, last'[Key(id, host) := now], fired + [Fire(id, host, now)])
  {
    forall k ensures KeyOfSome(fired + [Fire(id, host, now)], host, k) <==> KeyOfSome(fired, host, k) || k == Key(id, host) {
      KeyOfSnoc(fired, Fire(id, host, now), host, k);
    }
    hide KeyOfSome, Key;
  }

  lemma KeyOfSnoc(fired: seq<Fire>, f: Fire, host: string, k: string)
    ensures KeyOfSome(fired + [f], host, k) <==> KeyOfSome(fired, host, k) || k == Key(f.rule, host)
  {
    assert forall g :: g in fired + [f] <==> g in fired || g == f;
    if k == Key(f.rule, host) {
      assert f in fired + [f];
    }
  }

  /** Within an evaluation an id cools because it fired just before it or during it. */
  lemma CoolsHere(last: Cooldowns, id: string, host: string, now: int, last': Cooldowns, fired: seq<Fire>)
    requires Marked(last, host, now, last', fired) && forall f :: f in fired ==> f.host == host && f.at == now
    ensures Cooling(last', id, host, now) <==> JustFired(last, id, host, now) || Fire(id, host, now) in fired
  {
    var k := id + "|" + host;
    if KeyOfSome(fired, host, k) {
      var f :| f in fired && k == f.rule + "|" + host;
      SameHostKeys(id, f.rule, host);
      assert f == Fire(id, host, now);
    }
    if Fire(id, host, now) in fired {
      assert KeyOfSome(fired, host, k);
    }
  }

  /** WHAT A SILENCE DOES. Until it runs out, the first rule with the id is not due on the
      named host (on any, when the text is blank or `*`); on other hosts it is due as before. */
  lemma SilenceMeans(rules: seq<AlertRule>, id: string, host: string, until: int, h: string, metrics: map<string, real>, now: int)
    requires IndexOf(rules, id) < |rules|
    ensures var i := IndexOf(rules, id);
            var before, after := rules[i], Silenced(rules, id, host, until)[i];
            && (TrimSpace(host) in {"", "*", h} && now < until ==> !Due(after, h, metrics, now))
            && (TrimSpace(host) !in {"", "*", h} ==> (Due(after, h, metrics, now) <==> Due(before, h, metrics, now)))
            && (until <= now && Due(before, h, metrics, now) ==> Due(after, h, metrics, now))
  {
    hide Exceeds, TrimSpace;
    var i := IndexOf(rules, id);
    var k, before, after := Normalized(host), rules[i], Silenced(rules, id, host, until)[i];
    assert after == before.(silenced := before.silenced[k := until]) && k in after.silenced;
    if TrimSpace(host) in {"", "*", h} {
      assert k in {"*", h};
    } else {
      assert k != "*" && k != h;
      forall other | other in {"*", h} ensures other in after.silenced <==> other in before.silenced {}
    }
  }

  /** Silencing everything stops every rule on every host until it runs out; clearing all
      silences leaves only the other conditions. */
  lemma SilenceAllMeans(rules: seq<AlertRule>, until: int, i: nat, h: string, metrics: map<string, real>, now: int)
    requires i < |rules|
    ensures now < until ==> !Due(AllSilenced(rules, until)[i], h, metrics, now)
    ensures Due(NoneSilenced(rules)[i], h, metrics, now) <==>
            && rules[i].enabled && rules[i].host in {"", "*", h}
            && rules[i].metric in metrics && Exceeds(rules[i].operator, metrics[rules[i].metric], rules[i].threshold)
  {
    assert "*" in AllSilenced(rules, until)[i].silenced;
  }

  // ---------------------------------------------------------------------------
  // The services
  // ---------------------------------------------------------------------------

  class AlertService {
    var lastTriggered: map<string, int>

    constructor ()
      ensures lastTriggered == map[]
    {
      lastTriggered := map[];
    }

    /** Checks the rules in configuration order and reports the alerts fired. */
    method EvaluateRules(rules: seq<AlertRule>, host: string, metrics: map<string, real>, now: int)
      returns (fired: seq<Fire>)
      modifies this
      ensures (lastTriggered, fired) == EvaluateAll(old(lastTriggered), rules, host, metrics, now)
      ensures Evaluated(old(lastTriggered), rules, host, metrics, now, lastTriggered, fired)
    {
      fired := [];
      FiresExactly(lastTriggered, rules, host, metrics, now);
      ghost var was := lastTriggered;
      for i := 0 to |rules|
        invariant (lastTriggered, fired) == EvaluateAll(was, rules[..i], host, metrics, now)
      {
        var rule := rules[i];
        assert rules[..i + 1][..i] == rules[..i];
        if !rule.enabled { continue; }
        if rule.host != "" && rule.host != "*" && rule.host != host { continue; }
        if host in rule.silenced {
          if now < rule.silenced[host] { continue; }
        }
        if "*" in rule.silenced {
          if now < rule.silenced["*"] { continue; }
        }
        if rule.metric !in metrics { continue; }
        if Compare(rule.operator, metrics[rule.metric], rule.threshold) {
          var triggerKey := Key(rule.id, host);
          if triggerKey in lastTriggered && now - lastTriggered[triggerKey] < COOLDOWN { continue; }
          lastTriggered := lastTriggered[triggerKey := now];
          fired := fired + [Fire(rule.id, host, now)];
        }
      }
      assert rules[..|rules|] == rules;
    }
  }

  class AlertConfig {
    var rules: seq<AlertRule>

    constructor (rules: seq<AlertRule>)
      ensures this.rules == rules
    {
      this.rules := rules;
    }

    method SilenceRule(id: string, host: string, duration: int, now: int) returns (found: bool)
      modifies this
      ensures found <==> exists i :: 0 <= i < |old(rules)| && old(rules)[i].id == id
      ensures rules == Silenced(old(rules), id, host, now + duration)
    {
      var target := TrimSpace(host);
      if target == "" { target := "*"; }
      found := false;
      for i := 0 to |rules|
        invariant !found && rules == old(rules) && IndexOf(rules, id) >= i
      {
        if rules[i].id == id {
          rules := rules[i := rules[i].(silenced := rules[i].silenced[target := now + duration])];
          found := true;
          break;
        }
      }
    }

    method SilenceEverything(duration: int, now: int)
      modifies this
      ensures rules == AllSilenced(old(rules), now + duration)
    {
      for i := 0 to |rules|
        invariant |rules| == |old(rules)|
        invariant forall j :: 0 <= j < i ==> rules[j] == AllSilenced(old(rules), now + duration)[j]
        invariant forall j :: i <= j < |rules| ==> rules[j] == old(rules)[j]
      {
        rules := rules[i := rules[i].(silenced := rules[i].silenced["*" := now + duration])];
      }
    }

    method UnsilenceRule(id: string, host: string)
      modifies this
      ensures rules == Unsilenced(old(rules), id, host)
    {
      for i := 0 to |rules|
        invariant rules == old(rules) && IndexOf(rules, id) >= i
      {
        if rules[i].id == id {
          rules := rules[i := rules[i].(silenced := rules[i].silenced - {host})];
          break;
        }
      }
    }

    method UnsilenceEverything()
      modifies this
      ensures rules == NoneSilenced(old(rules))
    {
      for i := 0 to |rules|
        invariant |rules| == |old(rules)|
        invariant forall j :: 0 <= j < i ==> rules[j] == NoneSilenced(old(rules))[j]
        invariant forall j :: i <= j < |rules| ==> rules[j] == old(rules)[j]
      {
        rules := rules[i := rules[i].(silenced := map[])];
      }
    }
  }
}
