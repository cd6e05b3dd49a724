/** The firewall control loop as a distributed protocol. Administrators edit the table and
    queue commands; each agent polls a snapshot of its queue, executes it one command at a
    time, acknowledges each (acknowledgements may be lost, iptables may fail to run, the
    agent may restart mid-batch), and reports its blocked sources. The brute-force module
    is a second writer into the same rule list.

    A snapshot executes in queue order; steps of different parties interleave freely. */
module ControlLoop {
  import opened Text
  import opened Firewall
  import opened CommandStore
  import opened OrderHistory
  import opened Wrappers

  datatype Agent = Agent(rules: seq<string>, todo: seq<Command>)

  datatype System = System(server: Server, agents: map<string, Agent>)

  datatype Step =
    | AdminBlock(agent: string, ip: string, reason: string)
    | AdminUnblock(agent: string, ip: string)
    | Poll(agent: string)
    | Run(agent: string, available: bool, acked: bool)
    | Report(agent: string)
    | LocalBlock(agent: string, ip: string)
    | Restart(agent: string)

  function StatusOf(outcome: Outcome): string {
    if outcome.Completed? then "completed" else "failed"
  }

  function Apply(s: System, step: Step): System {
    match step
    case AdminBlock(a, ip, reason) => s.(server := BlockIP(s.server, ip, a, reason))
    case AdminUnblock(a, ip) => s.(server := UnblockIP(s.server, ip, a))
    case Poll(a) =>
      if a in s.agents && s.agents[a].todo == [] then
        s.(agents := s.agents[a := s.agents[a].(todo := PendingOf(s.server.commands, a))])
      else s
    case Run(a, available, acked) =>
      if a in s.agents && s.agents[a].todo != [] then
        var c := s.agents[a].todo[0];
        var (rules, outcome) := ExecuteIf(available, s.agents[a].rules, c.order.action, c.order.ip);
        System(if acked then Ack(s.server, c.id, StatusOf(outcome)) else s.server,
               s.agents[a := Agent(rules, s.agents[a].todo[1..])])
      else s
    case Report(a) =>
      if a in s.agents then s.(server := Sync(s.server, a, Collected(s.agents[a].rules))) else s
    case LocalBlock(a, ip) =>
      if a in s.agents then
        s.(agents := s.agents[a := s.agents[a].(rules := Execute(s.agents[a].rules, "block_ip", ip).0)])
      else s
    case Restart(a) =>
      if a in s.agents then s.(agents := s.agents[a := s.agents[a].(todo := [])]) else s
  }

  function ApplyAll(s: System, steps: seq<Step>): System
    decreases |steps|
  {
    if steps == [] then s else ApplyAll(Apply(s, steps[0]), steps[1..])
  }

  // ---------------------------------------------------------------------------
  // Queue bookkeeping
  // ---------------------------------------------------------------------------

  function Orders(commands: seq<Command>): (r: seq<Order>)
    ensures |r| == |commands| && forall i :: 0 <= i < |r| ==> r[i] == commands[i].order
  {
    seq(|commands|, i requires 0 <= i < |commands| => commands[i].order)
  }

  /** Queue ids are fresh and distinct, and an agent's snapshot holds its own still-pending
      commands, each once. */
  ghost predicate Inv(s: System) {
    && DistinctIds(s.server.commands)
    && (forall c :: c in s.server.commands ==> c.id < s.server.nextId)
    && forall a :: a in s.agents ==>
         && DistinctIds(s.agents[a].todo)
         && forall c :: c in s.agents[a].todo ==> c in PendingOf(s.server.commands, a)
  }

  lemma {:induction false} PendingMembers(commands: seq<Command>, a: string)
    ensures forall c :: c in PendingOf(commands, a) <==> c in commands && c.agent == a && c.status == "pending"
    ensures DistinctIds(commands) ==> DistinctIds(PendingOf(commands, a))
  {
    if commands != [] {
      PendingMembers(commands[1..], a);
      assert commands == [commands[0]] + commands[1..];
    }
  }

  lemma SameId(commands: seq<Command>, c: Command, d: Command)
    requires DistinctIds(commands) && c in commands && d in commands
    ensures c.id == d.id ==> c == d
  {
  }

  lemma OrdersAppend(x: seq<Command>, y: seq<Command>)
    ensures Orders(x + y) == Orders(x) + Orders(y)
  {
  }

  /** The commands before the one with the given id. */
  function Before(commands: seq<Command>, id: nat): seq<Command> {
    if commands == [] || commands[0].id == id then [] else [commands[0]] + Before(commands[1..], id)
  }

  lemma {:induction false} BeforeFirst(x: seq<Command>, c: Command, y: seq<Command>)
    requires forall d :: d in x ==> d.id != c.id
    ensures Before(x + [c] + y, c.id) == x
  {
    if x != [] {
      assert x[0] in x;
      BeforeFirst(x[1..], c, y);
      assert (x + [c] + y)[1..] == x[1..] + [c] + y;
    }
  }

  /** An acknowledged command leaves the pending list and the others keep their order. */
  lemma AckPending(commands: seq<Command>, a: string, c: Command, status: string)
    returns (rest: seq<Command>)
    requires DistinctIds(commands) && c in PendingOf(commands, a) && status != "pending"
    ensures PendingOf(commands, a) == Before(PendingOf(commands, a), c.id) + [c] + rest
    ensures PendingOf(SetStatus(commands, c.id, status), a) == Before(PendingOf(commands, a), c.id) + rest
  {
    hide DistinctIds, PendingOf, SetStatus, Before;
    PendingMembers(commands, a);
    var x, y := AroundCommand(commands, c);
    rest := AckAround(x, c, y, a, status);
  }

  lemma AroundCommand(commands: seq<Command>, c: Command) returns (x: seq<Command>, y: seq<Command>)
    requires DistinctIds(commands) && c in commands
    ensures commands == x + [c] + y && forall d :: d in x || d in y ==> d.id != c.id
  {
    var i :| 0 <= i < |commands| && commands[i] == c;
    x, y := commands[..i], commands[i + 1..];
  }

  lemma AckAround(x: seq<Command>, c: Command, y: seq<Command>, a: string, status: string)
    returns (rest: seq<Command>)
    requires forall d :: d in x || d in y ==> d.id != c.id
    requires c.agent == a && c.status == "pending" && status != "pending"
    ensures var p := PendingOf(x + [c] + y, a);
            && p == Before(p, c.id) + [c] + rest
            && PendingOf(SetStatus(x + [c] + y, c.id, status), a) == Before(p, c.id) + rest
  {
    hide PendingOf, SetStatus, Before;
    var c' := c.(status := status);
    rest := PendingOf(y, a);
    assert SetStatus(x + [c] + y, c.id, status) == x + [c'] + y by {
      assert forall k :: 0 <= k < |x| ==> x[k] in x;
      assert forall k :: 0 <= k < |y| ==> y[k] in y;
    }
    PendingAround(x, c, y, a);
    PendingAround(x, c', y, a);
    PendingMembers(x, a);
    BeforeFirst(PendingOf(x, a), c, rest);
    assert PendingOf(x, a) + [] + rest == PendingOf(x, a) + rest;
  }

  lemma PendingAround(x: seq<Command>, c: Command, y: seq<Command>, a: string)
    requires c.agent == a
    ensures PendingOf(x + [c] + y, a) ==
            PendingOf(x, a) + (if c.status == "pending" then [c] else []) + PendingOf(y, a)
  {
    PendingConcat(x + [c], y, a);
    PendingAppend(x, c, a);
  }

  /** Acknowledging another agent's command leaves the pending list alone. */
  lemma {:induction false} AckForeign(commands: seq<Command>, a: string, id: nat, status: string)
    requires forall c :: c in commands && c.id == id ==> c.agent != a
    ensures PendingOf(SetStatus(commands, id, status), a) == PendingOf(commands, a)
  {
    if commands != [] {
      AckForeign(commands[1..], a, id, status);
      assert SetStatus(commands, id, status)[1..] == SetStatus(commands[1..], id, status);
      assert commands[0] in commands;
    }
  }

  // ---------------------------------------------------------------------------
  // One step
  // ---------------------------------------------------------------------------

  /** An acknowledgement is safe when its command was really carried out and no older
      command still pending for the agent conflicts with it. */
  predicate SafeStep(s: System, step: Step) {
    step.Run? && step.acked && step.agent in s.agents && s.agents[step.agent].todo != [] ==>
      var c := s.agents[step.agent].todo[0];
      && step.available
      && forall d :: d in Before(PendingOf(s.server.commands, step.agent), c.id) ==> !Conflicts(d.order, c.order)
  }

  predicate SafeRun(s: System, steps: seq<Step>)
    decreases |steps|
  {
    steps == [] || (SafeStep(s, steps[0]) && SafeRun(Apply(s, steps[0]), steps[1..]))
  }

  /** The orders administrators issue for an agent, in order. */
  function Issued(steps: seq<Step>, a: string): seq<Order> {
    if steps == [] then []
    else IssuedBy(steps[0], a) + Issued(steps[1..], a)
  }

  function IssuedBy(step: Step, a: string): seq<Order> {
    match step
    case AdminBlock(b, ip, _) => if a == b then [Order("block_ip", ip)] else []
    case AdminUnblock(b, ip) => if a == b then [Order("unblock_ip", ip)] else []
    case _ => []
  }

  /** No local block in the run inserts the rule `t` at the agent. */
  predicate NotLocal(steps: seq<Step>, a: string, t: string) {
    forall i :: 0 <= i < |steps| ==> NotLocalStep(steps[i], a, t)
  }

  predicate NotLocalStep(step: Step, a: string, t: string) {
    step.LocalBlock? && step.agent == a ==> !Affects(Order("block_ip", step.ip), t)
  }

  lemma InvKept(s: System, step: Step)
    requires Inv(s)
    ensures Inv(Apply(s, step))
    ensures Apply(s, step).agents.Keys == s.agents.Keys
  {
    var s' := Apply(s, step);
    match step {
      case AdminBlock(a, ip, _) => InsertKeepsInv(s, a, Order("block_ip", ip));
      case AdminUnblock(a, ip) => InsertKeepsInv(s, a, Order("unblock_ip", ip));
      case Poll(a) => PendingMembers(s.server.commands, a);
      case Run(a, available, acked) =>
        if a in s.agents && s.agents[a].todo != [] {
          RunKeepsInv(s, a, available, acked);
        }
      case _ =>
    }
  }

  lemma InsertKeepsInv(s: System, a: string, o: Order)
    requires Inv(s)
    ensures var cmds := s.server.commands + [Command(s.server.nextId, a, o, "pending")];
            && DistinctIds(cmds) && (forall c :: c in cmds ==> c.id < s.server.nextId + 1)
            && forall b :: PendingOf(s.server.commands, b) <= PendingOf(cmds, b)
  {
    var c := Command(s.server.nextId, a, o, "pending");
    forall b ensures PendingOf(s.server.commands, b) <= PendingOf(s.server.commands + [c], b) {
      PendingAppend(s.server.commands, c, b);
    }
    assert forall i :: 0 <= i < |s.server.commands| ==> s.server.commands[i] in s.server.commands;
  }

  lemma RunKeepsInv(s: System, a: string, available: bool, acked: bool)
    requires Inv(s) && a in s.agents && s.agents[a].todo != []
    ensures Inv(Apply(s, Run(a, available, acked)))
  {
    var s' := Apply(s, Run(a, available, acked));
    var todo := s.agents[a].todo;
    var c := todo[0];
    assert c in todo;
    PendingMembers(s.server.commands, a);
    var (_, outcome) := ExecuteIf(available, s.agents[a].rules, c.order.action, c.order.ip);
    forall b, d | b in s'.agents && d in s'.agents[b].todo
      ensures d in PendingOf(s'.server.commands, b)
    {
      assert d in s.agents[b].todo;
      PendingMembers(s.server.commands, b);
      if b == a {
        var k :| 0 <= k < |todo[1..]| && todo[1..][k] == d;
        assert todo[k + 1] == d;
      }
      SameId(s.server.commands, c, d);
      if acked {
        AckKeepsOther(s.server.commands, b, c.id, StatusOf(outcome), d);
      }
    }
    forall x | x in s'.server.commands ensures x.id < s'.server.nextId {
      var i :| 0 <= i < |s'.server.commands| && s'.server.commands[i] == x;
      assert s.server.commands[i] in s.server.commands;
    }
  }

  lemma AckKeepsOther(commands: seq<Command>, a: string, id: nat, status: string, d: Command)
    requires d in PendingOf(commands, a) && d.id != id
    ensures d in PendingOf(SetStatus(commands, id, status), a)
  {
    PendingMembers(commands, a);
    PendingMembers(SetStatus(commands, id, status), a);
    var j :| 0 <= j < |commands| && commands[j] == d;
    assert SetStatus(commands, id, status)[j] == d;
  }

  /** Verdict of the agent's rule list followed by everything still pending for it. */
  function Outlook(s: System, a: string, t: string): bool
    requires a in s.agents
  {
    Decide(t in s.agents[a].rules, Orders(PendingOf(s.server.commands, a)), t)
  }

  /** One step moves the outlook only by the orders it issues. */
  lemma OutlookStep(s: System, step: Step, a: string, t: string)
    requires Inv(s) && a in s.agents && SafeStep(s, step) && NotLocalStep(step, a, t)
    ensures a in Apply(s, step).agents
    ensures Outlook(Apply(s, step), a, t) == Decide(Outlook(s, a, t), IssuedBy(step, a), t)
  {
    match step {
      case AdminBlock(b, ip, _) => OutlookIssue(s, b, Order("block_ip", ip), a, t);
      case AdminUnblock(b, ip) => OutlookIssue(s, b, Order("unblock_ip", ip), a, t);
      case Run(b, available, acked) =>
        if b in s.agents && s.agents[b].todo != [] {
          if b == a {
            OutlookRun(s, a, available, acked, t);
          } else if acked {
            var c := s.agents[b].todo[0];
            assert c in s.agents[b].todo;
            PendingMembers(s.server.commands, b);
            forall d | d in s.server.commands && d.id == c.id ensures d.agent != a {
              SameId(s.server.commands, c, d);
            }
            var (_, outcome) := ExecuteIf(available, s.agents[b].rules, c.order.action, c.order.ip);
            AckForeign(s.server.commands, a, c.id, StatusOf(outcome));
          }
        }
      case LocalBlock(b, ip) =>
        if b == a {
          ExecutePresence(s.agents[a].rules, Order("block_ip", ip), t);
        }
      case _ =>
    }
  }

  lemma OutlookIssue(s: System, b: string, o: Order, a: string, t: string)
    requires a in s.agents
    ensures var cmds := s.server.commands + [Command(s.server.nextId, b, o, "pending")];
            Decide(t in s.agents[a].rules, Orders(PendingOf(cmds, a)), t) ==
            Decide(Outlook(s, a, t), if a == b then [o] else [], t)
  {
    var c := Command(s.server.nextId, b, o, "pending");
    PendingAppend(s.server.commands, c, a);
    var p := PendingOf(s.server.commands, a);
    if a == b {
      assert Orders(p + [c]) == Orders(p) + [o];
      assert PendingOf(s.server.commands + [c], a) == p + [c];
      DecideAppend(t in s.agents[a].rules, Orders(p), [o], t);
    } else {
      assert p + [] == p;
    }
  }

  /** Executing a command leaves the outlook alone: if it stays pending it will be absorbed
      by its own replay, and if it is acknowledged it commutes past the older ones. */
  lemma OutlookRun(s: System, a: string, available: bool, acked: bool, t: string)
    requires Inv(s) && a in s.agents && s.agents[a].todo != [] && SafeStep(s, Run(a, available, acked))
    ensures Outlook(Apply(s, Run(a, available, acked)), a, t) == Outlook(s, a, t)
  {
    var s' := Apply(s, Run(a, available, acked));
    var rules, c := s.agents[a].rules, s.agents[a].todo[0];
    var p := PendingOf(s.server.commands, a);
    assert c in s.agents[a].todo && c in p;
    ExecuteIfPresence(available, rules, c.order, t);
    if acked {
      var (_, outcome) := ExecuteIf(available, rules, c.order.action, c.order.ip);
      var older := Before(p, c.id);
      var rest := AckPending(s.server.commands, a, c, StatusOf(outcome));
      assert p == older + [c] + rest && PendingOf(s'.server.commands, a) == older + rest;
      AckedOutlook(t in rules, older, c, rest, t);
    } else if available {
      var i :| 0 <= i < |p| && p[i] == c;
      assert Orders(p)[i] == c.order;
      Absorb(t in rules, c.order, Orders(p), t);
    }
  }

  lemma AckedOutlook(p: bool, older: seq<Command>, c: Command, rest: seq<Command>, t: string)
    requires forall d :: d in older ==> !Conflicts(d.order, c.order)
    ensures Decide(Decide(p, [c.order], t), Orders(older + rest), t) == Decide(p, Orders(older + [c] + rest), t)
  {
    forall d | d in Orders(older) ensures !Conflicts(d, c.order) {
      var i :| 0 <= i < |older| && Orders(older)[i] == d;
      assert older[i] in older;
    }
    Commute(p, c.order, Orders(older), t);
    OrdersAppend(older, rest);
    OrdersAppend(older, [c]);
    OrdersAppend(older + [c], rest);
    assert Orders([c]) == [c.order];
    DecideAppend(p, Orders(older) + [c.order], Orders(rest), t);
    DecideAppend(p, Orders(older), [c.order], t);
    DecideAppend(Decide(p, [c.order], t), Orders(older), Orders(rest), t);
  }

  // ---------------------------------------------------------------------------
  // Whole runs
  // ---------------------------------------------------------------------------

  lemma {:induction false} OutlookRunAll(s: System, steps: seq<Step>, a: string, t: string)
    requires Inv(s) && a in s.agents && SafeRun(s, steps) && NotLocal(steps, a, t)
    ensures Inv(ApplyAll(s, steps)) && a in ApplyAll(s, steps).agents
    ensures Outlook(ApplyAll(s, steps), a, t) == Decide(Outlook(s, a, t), Issued(steps, a), t)
    decreases |steps|
  {
    if steps != [] {
      assert NotLocalStep(steps[0], a, t);
      InvKept(s, steps[0]);
      OutlookStep(s, steps[0], a, t);
      forall i | 0 <= i < |steps[1..]| ensures NotLocalStep(steps[1..][i], a, t) {
        assert steps[1..][i] == steps[i + 1];
      }
      OutlookRunAll(Apply(s, steps[0]), steps[1..], a, t);
      DecideAppend(Outlook(s, a, t), IssuedBy(steps[0], a), Issued(steps[1..], a), t);
    }
  }

  /** Every order the agent has to answer for: those pending at the start, then those
      issued during the run. */
  function History(s: System, steps: seq<Step>, a: string): seq<Order> {
    Orders(PendingOf(s.server.commands, a)) + Issued(steps, a)
  }

  /** CONVERGENCE. In every interleaving whose acknowledgements are safe, once the agent's
      queue is drained a rule text is in its list exactly when the latest order affecting
      it was a block, or none affected it and it was there at the start. */
  lemma Convergence(s: System, steps: seq<Step>, a: string, t: string)
    requires Inv(s) && a in s.agents && SafeRun(s, steps) && NotLocal(steps, a, t)
    requires PendingOf(ApplyAll(s, steps).server.commands, a) == []
    ensures a in ApplyAll(s, steps).agents
    ensures t in ApplyAll(s, steps).agents[a].rules <==>
            LatestSays(t in s.agents[a].rules, History(s, steps, a), t)
  {
    OutlookRunAll(s, steps, a, t);
    DecideAppend(t in s.agents[a].rules, Orders(PendingOf(s.server.commands, a)), Issued(steps, a), t);
    DecideIsLatest(t in s.agents[a].rules, History(s, steps, a), t);
  }

  /** Once an acknowledgement of a batch is lost, the later ones of the batch are lost too
      (none is lost in the ideal case), and only executed commands are acknowledged. */
  predicate PrefixAcks(s: System, steps: seq<Step>, lost: set<string>)
    decreases |steps|
  {
    if steps == [] then true
    else
      var step := steps[0];
      var busy := (step.Run? || step.Poll? || step.Restart?) && step.agent in s.agents && s.agents[step.agent].todo != [];
      && (step.Run? && busy && step.acked ==> step.available && step.agent !in lost)
      && PrefixAcks(Apply(s, step), steps[1..],
           if busy && ((step.Run? && !step.acked) || step.Restart?) then lost + {step.agent}
           else if step.Poll? && !busy then lost - {step.agent}
           else lost)
  }

  /** A snapshot none of whose acknowledgements was lost is the head of the pending list. */
  ghost predicate Aligned(s: System, lost: set<string>) {
    forall a :: a in s.agents && a !in lost ==> s.agents[a].todo <= PendingOf(s.server.commands, a)
  }

  /** Acknowledgements that arrive as a prefix of each batch are harmless. */
  lemma {:induction false} PrefixAcksSafe(s: System, steps: seq<Step>, lost: set<string>)
    requires Inv(s) && Aligned(s, lost) && PrefixAcks(s, steps, lost)
    ensures SafeRun(s, steps)
    decreases |steps|
  {
    if steps != [] {
      var step := steps[0];
      InvKept(s, step);
      var busy := (step.Run? || step.Poll? || step.Restart?) && step.agent in s.agents && s.agents[step.agent].todo != [];
      var lost' := if busy && ((step.Run? && !step.acked) || step.Restart?) then lost + {step.agent}
                   else if step.Poll? && !busy then lost - {step.agent}
                   else lost;
      if step.Run? && busy {
        var p := PendingOf(s.server.commands, step.agent);
        if step.acked {
          assert p[0] == s.agents[step.agent].todo[0];
          assert Before(p, p[0].id) == [];
        }
        RunKeepsAligned(s, step, lost, lost');
      } else if step.AdminBlock? || step.AdminUnblock? {
        InsertKeepsInv(s, step.agent, if step.AdminBlock? then Order("block_ip", step.ip) else Order("unblock_ip", step.ip));
      }
      PrefixAcksSafe(Apply(s, step), steps[1..], lost');
    }
  }

  /** The ideal case: every acknowledgement arrives, every command can be run and no agent
      restarts. */
  lemma {:induction false} IdealRun(s: System, steps: seq<Step>)
    requires forall i :: 0 <= i < |steps| ==> !steps[i].Restart? && (steps[i].Run? ==> steps[i].available && steps[i].acked)
    ensures PrefixAcks(s, steps, {})
    decreases |steps|
  {
    if steps != [] {
      assert forall i :: 0 <= i < |steps[1..]| ==> steps[1..][i] == steps[i + 1];
      var none: set<string> := {};
      assert none - {steps[0].agent} == none;
      IdealRun(Apply(s, steps[0]), steps[1..]);
    }
  }

  lemma BeforeHead(p: seq<Command>)
    requires p != []
    ensures Before(p, p[0].id) == []
  {
  }

  lemma RunKeepsAligned(s: System, step: Step, lost: set<string>, lost': set<string>)
    requires Inv(s) && Aligned(s, lost) && step.Run? && step.agent in s.agents && s.agents[step.agent].todo != []
    requires step.acked ==> step.agent !in lost
    requires lost' == if step.acked then lost else lost + {step.agent}
    ensures Aligned(Apply(s, step), lost')
  {
    hide PendingOf, SetStatus, Before, ExecuteIf;
    if step.acked {
      var a := step.agent;
      var s' := Apply(s, step);
      var todo := s.agents[a].todo;
      var c := todo[0];
      assert c in todo;
      var (_, outcome) := ExecuteIf(step.available, s.agents[a].rules, c.order.action, c.order.ip);
      forall b | b in s'.agents && b !in lost'
        ensures s'.agents[b].todo <= PendingOf(s'.server.commands, b)
      {
        if b == a {
          var p := PendingOf(s.server.commands, a);
          var rest := AckPending(s.server.commands, a, c, StatusOf(outcome));
          assert p[0] == c;
          BeforeHead(p);
          assert p == [c] + rest && rest == p[1..];
        } else {
          PendingMembers(s.server.commands, a);
          forall d | d in s.server.commands && d.id == c.id ensures d.agent != b {
            SameId(s.server.commands, c, d);
          }
          AckForeign(s.server.commands, b, c.id, StatusOf(outcome));
        }
      }
    }
  }

  /** No local block of the address in the run. */
  predicate NoLocalBlockOf(steps: seq<Step>, a: string, ip: string) {
    forall step :: step in steps ==> !(step.LocalBlock? && step.agent == a && step.ip == ip)
  }

  /** A local block only touches rules reported under its own address. */
  lemma LocalBlocksOwnSource(steps: seq<Step>, a: string, ip: string, r: string)
    requires NoLocalBlockOf(steps, a, ip) && Reported(r) == Some(ip)
    ensures NotLocal(steps, a, r)
  {
    forall i | 0 <= i < |steps| ensures NotLocalStep(steps[i], a, r) {
      var step := steps[i];
      assert step in steps;
      if step.LocalBlock? && step.agent == a && Affects(Order("block_ip", step.ip), r) {
        BlockRuleReported(step.ip);
        assert false;
      }
    }
  }

  /** END TO END. After any run with prefix acknowledgements, drained and followed by one
      report, the server's table lists for the agent exactly the sources of the rules that
      orders and local blocks leave in force (the orders alone, for every address the local
      detector did not block itself), and other agents' rows are as before the report. */
  lemma TableAgrees(s: System, steps: seq<Step>, a: string, ip: string)
    requires Inv(s) && a in s.agents && Aligned(s, {}) && PrefixAcks(s, steps, {})
    requires PendingOf(ApplyAll(s, steps).server.commands, a) == []
    ensures var end := ApplyAll(s, steps);
            var synced := Apply(end, Report(a)).server.blocked;
            && a in end.agents
            && ((a, ip) in synced <==> ip in Collected(end.agents[a].rules))
            && ((a, ip) in synced <==> exists r :: Reported(r) == Some(ip) && InForce(s, steps, a, r))
            && (NoLocalBlockOf(steps, a, ip) ==>
                  ((a, ip) in synced <==>
                   exists r :: Reported(r) == Some(ip) && LatestSays(r in s.agents[a].rules, History(s, steps, a), r)))
            && (forall k: (string, string) :: k.0 != a ==>
                  (k in synced <==> k in end.server.blocked) && (k in synced ==> synced[k] == end.server.blocked[k]))
  {
    hide Reported, LatestSays, ApplyAll, PrefixAcks, NoLocalBlockOf, InForce, Inv, SafeRun, Collected, Synced, Aligned;
    PrefixAcksSafe(s, steps, {});
    OutlookLeast(s, steps, a, "");
    var end := ApplyAll(s, steps);
    SyncedExact(end.server.blocked, a, Collected(end.agents[a].rules));
    SourcesInForce(s, steps, a, ip);
    if NoLocalBlockOf(steps, a, ip) {
      forall r | Reported(r) == Some(ip)
        ensures r in end.agents[a].rules <==> LatestSays(r in s.agents[a].rules, History(s, steps, a), r)
      {
        LocalBlocksOwnSource(steps, a, ip, r);
        Convergence(s, steps, a, r);
      }
      SourcesAgree(end.agents[a].rules, s.agents[a].rules, History(s, steps, a), ip);
    }
  }

  lemma SourcesInForce(s: System, steps: seq<Step>, a: string, ip: string)
    requires Inv(s) && a in s.agents && SafeRun(s, steps)
    requires PendingOf(ApplyAll(s, steps).server.commands, a) == []
    ensures a in ApplyAll(s, steps).agents
    ensures ip in Collected(ApplyAll(s, steps).agents[a].rules) <==> exists r :: Reported(r) == Some(ip) && InForce(s, steps, a, r)
  {
    hide Reported, ApplyAll, InForce, Inv, SafeRun, Collected, PendingOf;
    ConvergenceExact(s, steps, a, "");
    forall r ensures r in ApplyAll(s, steps).agents[a].rules <==> InForce(s, steps, a, r) {
      ConvergenceExact(s, steps, a, r);
    }
    CollectedExact(ApplyAll(s, steps).agents[a].rules);
  }

  lemma SourcesAgree(rules: seq<string>, start: seq<string>, history: seq<Order>, ip: string)
    requires forall r :: Reported(r) == Some(ip) ==> (r in rules <==> LatestSays(r in start, history, r))
    ensures ip in Collected(rules) <==> exists r :: Reported(r) == Some(ip) && LatestSays(r in start, history, r)
  {
    hide Reported, LatestSays;
    CollectedExact(rules);
  }

  /** Local blocks only ever add rules: with any number of them the outlook is at least what
      the issued orders make it. */
  lemma {:induction false} OutlookLeast(s: System, steps: seq<Step>, a: string, t: string)
    requires Inv(s) && a in s.agents && SafeRun(s, steps)
    ensures Inv(ApplyAll(s, steps)) && a in ApplyAll(s, steps).agents
    ensures Decide(Outlook(s, a, t), Issued(steps, a), t) ==> Outlook(ApplyAll(s, steps), a, t)
    decreases |steps|
  {
    if steps != [] {
      var step, s' := steps[0], Apply(s, steps[0]);
      InvKept(s, step);
      OutlookLeast(s', steps[1..], a, t);
      DecideAppend(Outlook(s, a, t), IssuedBy(step, a), Issued(steps[1..], a), t);
      if NotLocalStep(step, a, t) {
        OutlookStep(s, step, a, t);
      } else {
        LocalBlockAdds(s, a, step.ip, t);
        DecideMonotone(Outlook(s, a, t), Issued(steps[1..], a), t);
      }
    }
  }

  lemma LocalBlockAdds(s: System, a: string, ip: string, t: string)
    requires a in s.agents
    ensures Outlook(s, a, t) ==> Outlook(Apply(s, LocalBlock(a, ip)), a, t)
  {
    var rules := s.agents[a].rules;
    var pending := Orders(PendingOf(s.server.commands, a));
    ExecutePresence(rules, Order("block_ip", ip), t);
    DecideMonotone(t in rules, pending, t);
  }

  /** A local block of `t` at step `k` that still stands at the end of the run: it acts as a
      block ordered before everything then pending, and no order from there on undoes it. */
  ghost predicate LocalStands(s: System, steps: seq<Step>, a: string, t: string, k: nat)
    requires k < |steps|
  {
    && !NotLocalStep(steps[k], a, t)
    && LatestSays(true, History(ApplyAll(s, steps[..k]), steps[k + 1..], a), t)
  }

  /** What the orders and the local blocks of the run leave in force. */
  ghost predicate InForce(s: System, steps: seq<Step>, a: string, t: string)
    requires a in s.agents
  {
    || LatestSays(t in s.agents[a].rules, History(s, steps, a), t)
    || exists k :: 0 <= k < |steps| && LocalStands(s, steps, a, t, k)
  }

  lemma LocalStandsLater(s: System, steps: seq<Step>, a: string, t: string, k: nat)
    requires 0 < k < |steps|
    ensures LocalStands(s, steps, a, t, k) <==> LocalStands(Apply(s, steps[0]), steps[1..], a, t, k - 1)
  {
    hide LatestSays, History, Apply;
    assert steps[..k][1..] == steps[1..][..k - 1] && steps[..k][0] == steps[0];
    assert steps[k + 1..] == steps[1..][k..];
  }

  lemma InForceNext(s: System, steps: seq<Step>, a: string, t: string)
    requires steps != []
    ensures (exists k :: 0 <= k < |steps| && LocalStands(s, steps, a, t, k)) <==>
            || LocalStands(s, steps, a, t, 0)
            || exists k :: 0 <= k < |steps[1..]| && LocalStands(Apply(s, steps[0]), steps[1..], a, t, k)
  {
    hide LocalStands, Apply;
    forall k | 0 < k < |steps|
      ensures LocalStands(s, steps, a, t, k) <==> LocalStands(Apply(s, steps[0]), steps[1..], a, t, k - 1)
    {
      LocalStandsLater(s, steps, a, t, k);
    }
    if k :| 0 <= k < |steps[1..]| && LocalStands(Apply(s, steps[0]), steps[1..], a, t, k) {
      assert LocalStands(s, steps, a, t, k + 1);
    }
  }

  /** A block ordered locally is a block ordered before what is pending. */
  lemma LocalStandsNow(s: System, steps: seq<Step>, a: string, t: string)
    requires steps != [] && a in s.agents && !NotLocalStep(steps[0], a, t)
    ensures LocalStands(s, steps, a, t, 0) <==> Decide(Outlook(Apply(s, steps[0]), a, t), Issued(steps[1..], a), t)
  {
    hide LatestSays;
    var rules, o := s.agents[a].rules, Order("block_ip", steps[0].ip);
    var pending, issued := Orders(PendingOf(s.server.commands, a)), Issued(steps[1..], a);
    ExecutePresence(rules, o, t);
    DecideOne(t in rules, o, t);
    DecideAppend(true, pending, issued, t);
    DecideIsLatest(true, pending + issued, t);
    assert ApplyAll(s, steps[..0]) == s;
  }

  /** EXACT WITH LOCAL BLOCKS. At any moment of a run with safe acknowledgements, rules plus
      pending queue come to what the orders and the local blocks leave in force. */
  lemma {:induction false} OutlookExact(s: System, steps: seq<Step>, a: string, t: string)
    requires Inv(s) && a in s.agents && SafeRun(s, steps)
    ensures Inv(ApplyAll(s, steps)) && a in ApplyAll(s, steps).agents
    ensures Outlook(ApplyAll(s, steps), a, t) <==>
            || Decide(Outlook(s, a, t), Issued(steps, a), t)
            || exists k :: 0 <= k < |steps| && LocalStands(s, steps, a, t, k)
    decreases |steps|
  {
    hide LocalStands, Inv, Apply, Outlook;
    if steps != [] {
      var step, s' := steps[0], Apply(s, steps[0]);
      InvKept(s, step);
      OutlookExact(s', steps[1..], a, t);
      DecideAppend(Outlook(s, a, t), IssuedBy(step, a), Issued(steps[1..], a), t);
      InForceNext(s, steps, a, t);
      if NotLocalStep(step, a, t) {
        OutlookStep(s, step, a, t);
        NotLocalNow(s, steps, a, t);
      } else {
        LocalStandsNow(s, steps, a, t);
        LocalBlockAdds(s, a, step.ip, t);
        DecideMonotone(Outlook(s, a, t), Issued(steps[1..], a), t);
        DecideMonotone(Outlook(s', a, t), Issued(steps[1..], a), t);
      }
    }
  }

  lemma NotLocalNow(s: System, steps: seq<Step>, a: string, t: string)
    requires steps != [] && NotLocalStep(steps[0], a, t)
    ensures !LocalStands(s, steps, a, t, 0)
  {
  }

  /** CONVERGENCE WITH THE DETECTOR. In every interleaving whose acknowledgements are safe,
      whatever the local detector does, once the agent's queue is drained its list holds
      exactly the rule texts that orders and local blocks leave in force. */
  lemma ConvergenceExact(s: System, steps: seq<Step>, a: string, t: string)
    requires Inv(s) && a in s.agents && SafeRun(s, steps)
    requires PendingOf(ApplyAll(s, steps).server.commands, a) == []
    ensures a in ApplyAll(s, steps).agents
    ensures t in ApplyAll(s, steps).agents[a].rules <==> InForce(s, steps, a, t)
  {
    hide LatestSays, LocalStands, ApplyAll, SafeRun, Issued;
    OutlookExact(s, steps, a, t);
    DecideAppend(t in s.agents[a].rules, Orders(PendingOf(s.server.commands, a)), Issued(steps, a), t);
    DecideIsLatest(t in s.agents[a].rules, History(s, steps, a), t);
  }

  /** An address whose block no later unblock can remove is listed after the report,
      whatever the local detector does meanwhile. */
  lemma BlockHonoured(s: System, steps: seq<Step>, a: string, ip: string, i: nat)
    requires Inv(s) && a in s.agents && Aligned(s, {}) && PrefixAcks(s, steps, {})
    requires PendingOf(ApplyAll(s, steps).server.commands, a) == []
    requires IsAddress(ip) && Reportable(ip)
    requires i < |History(s, steps, a)| && History(s, steps, a)[i] == Order("block_ip", ip)
    requires forall j :: i < j < |History(s, steps, a)| ==> !Conflicts(Order("block_ip", ip), History(s, steps, a)[j])
    ensures (a, ip) in Apply(ApplyAll(s, steps), Report(a)).server.blocked
  {
    hide Reported, LatestSays, ApplyAll, PrefixAcks, Conflicts, IsAddress;
    var t, p := BlockRule(ip), BlockRule(ip) in s.agents[a].rules;
    TableAgrees(s, steps, a, ip);
    PrefixAcksSafe(s, steps, {});
    OutlookLeast(s, steps, a, t);
    BlockStands(p, History(s, steps, a), ip, i);
    DecideIsLatest(p, History(s, steps, a), t);
    DecideAppend(p, Orders(PendingOf(s.server.commands, a)), Issued(steps, a), t);
    assert t in ApplyAll(s, steps).agents[a].rules;
    BlockRuleReported(ip);
    CollectedExact(ApplyAll(s, steps).agents[a].rules);
  }

  /** An address unblocked after its last block is not listed after the report, unless the
      local detector blocks it or a rule reported under it was there from the start and
      holds a quoted argument. */
  lemma UnblockHonoured(s: System, steps: seq<Step>, a: string, ip: string, i: nat)
    requires Inv(s) && a in s.agents && Aligned(s, {}) && PrefixAcks(s, steps, {})
    requires NoLocalBlockOf(steps, a, ip)
    requires PendingOf(ApplyAll(s, steps).server.commands, a) == []
    requires AreRules(s.agents[a].rules)
    requires forall r :: r in s.agents[a].rules && Reported(r) == Some(ip) ==> Deletable(r)
    requires i < |History(s, steps, a)| && History(s, steps, a)[i] == Order("unblock_ip", ip)
    requires forall j :: i < j < |History(s, steps, a)| ==> History(s, steps, a)[j] != Order("block_ip", ip)
    ensures (a, ip) !in Apply(ApplyAll(s, steps), Report(a)).server.blocked
  {
    hide Reported, LatestSays, ApplyAll, PrefixAcks, NoLocalBlockOf, IsRule, Deletable, Apply;
    TableAgrees(s, steps, a, ip);
    forall r | Reported(r) == Some(ip)
      ensures !LatestSays(r in s.agents[a].rules, History(s, steps, a), r)
    {
      UnblockStands(r in s.agents[a].rules, History(s, steps, a), ip, i, r);
    }
  }
}
