/** What becomes of the firewall control loop when acknowledgements are lost and commands
    cannot be run: the exact outcome of an agent's ticks and of arbitrary runs. */
module CommandReplay {
  import opened Text
  import opened Firewall
  import opened CommandStore
  import opened OrderHistory
  import opened ControlLoop
  import opened Wrappers

  /** `n` commands of a batch run one after the other. */
  function RunBatch(s: System, a: string, available: nat -> bool, acked: nat -> bool, n: nat): System {
    if n == 0 then s
    else Apply(RunBatch(s, a, available, acked, n - 1), Run(a, available(n - 1), acked(n - 1)))
  }

  /** One tick of the command loop: `available(i)` and `acked(i)` say whether iptables could
      be run and the acknowledgement arrived for the i-th command of the batch. */
  datatype Tick = Tick(available: nat -> bool, acked: nat -> bool)

  function Ticked(s: System, a: string, tick: Tick): System {
    RunBatch(Apply(s, Poll(a)), a, tick.available, tick.acked, |PendingOf(s.server.commands, a)|)
  }

  /** The elements of a batch at the chosen positions, in order. */
  function Chosen<T>(batch: seq<T>, choice: nat -> bool): seq<T> {
    if batch == [] then []
    else Chosen(batch[..|batch| - 1], choice) + if choice(|batch| - 1) then [batch[|batch| - 1]] else []
  }

  function Not(choice: nat -> bool): nat -> bool {
    (i: nat) => !choice(i)
  }

  lemma {:induction false} ChosenMembers<T>(batch: seq<T>, choice: nat -> bool)
    ensures forall x :: x in Chosen(batch, choice) <==> exists i :: 0 <= i < |batch| && choice(i) && batch[i] == x
  {
    if batch != [] {
      var n := |batch| - 1;
      ChosenMembers(batch[..n], choice);
      assert forall i :: 0 <= i < n ==> batch[..n][i] == batch[i];
    }
  }

  lemma ChosenNext<T>(batch: seq<T>, choice: nat -> bool, n: nat)
    requires n < |batch|
    ensures Chosen(batch[..n + 1], choice) == Chosen(batch[..n], choice) + if choice(n) then [batch[n]] else []
  {
    assert batch[..n + 1][..n] == batch[..n];
  }

  lemma PollEffect(s: System, a: string) returns (s': System)
    requires Inv(s) && a in s.agents && s.agents[a].todo == []
    ensures s' == Apply(s, Poll(a)) && Inv(s') && a in s'.agents && s'.server == s.server
    ensures s'.agents[a] == Agent(s.agents[a].rules, PendingOf(s.server.commands, a))
  {
    s' := Apply(s, Poll(a));
    InvKept(s, Poll(a));
  }

  lemma RunEffect(s: System, a: string, x: seq<Command>, c: Command, y: seq<Command>, rest: seq<Command>,
                  available: bool, acked: bool)
    returns (s': System)
    requires Inv(s) && a in s.agents && s.agents[a].todo == [c] + rest
    requires PendingOf(s.server.commands, a) == x + [c] + y && forall d :: d in x ==> d.id != c.id
    ensures s' == Apply(s, Run(a, available, acked)) && Inv(s') && a in s'.agents && s'.agents[a].todo == rest
    ensures PendingOf(s'.server.commands, a) == if acked then x + y else x + [c] + y
    ensures s'.agents[a].rules ==
            if available then Execute(s.agents[a].rules, c.order.action, c.order.ip).0 else s.agents[a].rules
  {
    hide PendingOf, SetStatus, Before, Kept, BlockRule, UnblockOutcome, LastStuck, IsAddress;
    s' := Apply(s, Run(a, available, acked));
    RunKeepsInv(s, a, available, acked);
    if acked {
      var (_, outcome) := ExecuteIf(available, s.agents[a].rules, c.order.action, c.order.ip);
      BeforeFirst(x, c, y);
      var after := AckPending(s.server.commands, a, c, StatusOf(outcome));
      assert x + [c] + y == x + [c] + after;
      assert y == (x + [c] + y)[|x| + 1..] == after;
    }
  }

  /** The state of a tick after `n` commands of the batch: the rest is still to run, the
      unacknowledged ones stay pending, and those that could run have been carried out. */
  lemma {:induction false} BatchEffect(s: System, a: string, tick: Tick, n: nat)
    requires Inv(s) && a in s.agents && s.agents[a].todo == PendingOf(s.server.commands, a)
    requires n <= |PendingOf(s.server.commands, a)|
    ensures var batch := PendingOf(s.server.commands, a);
            var s' := RunBatch(s, a, tick.available, tick.acked, n);
            && Inv(s') && a in s'.agents && s'.agents[a].todo == batch[n..]
            && PendingOf(s'.server.commands, a) == Chosen(batch[..n], Not(tick.acked)) + batch[n..]
            && s'.agents[a].rules == ExecuteAll(s.agents[a].rules, Orders(Chosen(batch[..n], tick.available)))
  {
    hide Inv, Apply, PendingOf, Execute, ExecuteAll, Chosen, RunBatch;
    BatchNext(s, a, tick, n);
    var batch := PendingOf(s.server.commands, a);
    if n == 0 {
      NothingChosen(s.agents[a].rules, tick.available);
      NothingChosen(s.agents[a].rules, Not(tick.acked));
      assert batch[..0] == [] && batch[0..] == batch && [] + batch == batch;
    } else {
      var k := n - 1;
      BatchEffect(s, a, tick, k);
      var s1 := RunBatch(s, a, tick.available, tick.acked, k);
      var older, c, younger := Chosen(batch[..k], Not(tick.acked)), batch[k], batch[n..];
      assert batch[k..] == [c] + younger && older + batch[k..] == older + [c] + younger;
      OlderIds(s, a, Not(tick.acked), k);
      var s2 := RunEffect(s1, a, older, c, younger, younger, tick.available(k), tick.acked(k));
      ChosenNext(batch, tick.available, k);
      ChosenNext(batch, Not(tick.acked), k);
      BatchLists(s.agents[a].rules, batch, tick, k);
    }
  }

  lemma BatchNext(s: System, a: string, tick: Tick, n: nat)
    ensures RunBatch(s, a, tick.available, tick.acked, n) ==
            if n == 0 then s
            else Apply(RunBatch(s, a, tick.available, tick.acked, n - 1), Run(a, tick.available(n - 1), tick.acked(n - 1)))
  {
  }

  lemma NothingChosen(rules: seq<string>, choice: nat -> bool)
    ensures Chosen<Command>([], choice) == [] && ExecuteAll(rules, Orders([])) == rules
  {
  }

  lemma OlderIds(s: System, a: string, choice: nat -> bool, k: nat)
    requires Inv(s) && k < |PendingOf(s.server.commands, a)|
    ensures var batch := PendingOf(s.server.commands, a);
            forall d :: d in Chosen(batch[..k], choice) ==> d.id != batch[k].id
  {
    hide PendingOf, Chosen;
    var batch := PendingOf(s.server.commands, a);
    PendingMembers(s.server.commands, a);
    ChosenMembers(batch[..k], choice);
  }

  lemma BatchLists(rules: seq<string>, batch: seq<Command>, tick: Tick, k: nat)
    requires k < |batch|
    ensures var ran, c := Chosen(batch[..k], tick.available), batch[k];
            && ExecuteAll(rules, Orders(ran + [c])) == Execute(ExecuteAll(rules, Orders(ran)), c.order.action, c.order.ip).0
            && ran + [] == ran
    ensures var left, c := Chosen(batch[..k], Not(tick.acked)), batch[k];
            left + (if !tick.acked(k) then [c] else []) + batch[k + 1..] ==
            if tick.acked(k) then left + batch[k + 1..] else left + [c] + batch[k + 1..]
  {
    hide Chosen, Execute, ExecuteAll;
    var ran, c := Chosen(batch[..k], tick.available), batch[k];
    OrdersAppend(ran, [c]);
    assert Orders([c]) == [c.order];
    ExecuteAllNext(rules, Orders(ran), c.order);
  }

  /** One tick carries out, in queue order, the pending commands that iptables could be run
      for, and leaves pending exactly those whose acknowledgement was lost. */
  lemma TickEffect(s: System, a: string, tick: Tick)
    requires Inv(s) && a in s.agents && s.agents[a].todo == []
    ensures var batch, s' := PendingOf(s.server.commands, a), Ticked(s, a, tick);
            && Inv(s') && a in s'.agents && s'.agents[a].todo == []
            && PendingOf(s'.server.commands, a) == Chosen(batch, Not(tick.acked))
            && s'.agents[a].rules == ExecuteAll(s.agents[a].rules, Orders(Chosen(batch, tick.available)))
  {
    hide Inv, PendingOf, Execute, ExecuteAll, Chosen, Not;
    var batch := PendingOf(s.server.commands, a);
    var s1 := PollEffect(s, a);
    assert batch[..|batch|] == batch && batch[|batch|..] == [];
    BatchEffect(s1, a, tick, |batch|);
    assert Chosen(batch, Not(tick.acked)) + [] == Chosen(batch, Not(tick.acked));
  }

  function Ticks(s: System, a: string, ticks: seq<Tick>): System
    decreases |ticks|
  {
    if ticks == [] then s else Ticks(Ticked(s, a, ticks[0]), a, ticks[1..])
  }

  /** The commands the ticks carry out, starting from the given pending ones. */
  function CarriedOut(batch: seq<Command>, ticks: seq<Tick>): seq<Command>
    decreases |ticks|
  {
    if ticks == [] then []
    else Chosen(batch, ticks[0].available) + CarriedOut(Chosen(batch, Not(ticks[0].acked)), ticks[1..])
  }

  /** The commands still pending after the ticks. */
  function StillPending(batch: seq<Command>, ticks: seq<Tick>): seq<Command>
    decreases |ticks|
  {
    if ticks == [] then batch else StillPending(Chosen(batch, Not(ticks[0].acked)), ticks[1..])
  }

  /** Any number of ticks of the agent alone, with any losses and failures. */
  lemma {:induction false} TicksEffect(s: System, a: string, ticks: seq<Tick>)
    requires Inv(s) && a in s.agents && s.agents[a].todo == []
    ensures var batch, s' := PendingOf(s.server.commands, a), Ticks(s, a, ticks);
            && a in s'.agents && PendingOf(s'.server.commands, a) == StillPending(batch, ticks)
            && s'.agents[a].rules == ExecuteAll(s.agents[a].rules, Orders(CarriedOut(batch, ticks)))
    decreases |ticks|
  {
    hide Inv, PendingOf, Ticked, Execute, ExecuteAll, Chosen, Not;
    var batch, rules := PendingOf(s.server.commands, a), s.agents[a].rules;
    if ticks == [] {
      NothingChosen(rules, _ => true);
    } else {
      TickEffect(s, a, ticks[0]);
      TicksEffect(Ticked(s, a, ticks[0]), a, ticks[1..]);
      var first, later := Chosen(batch, ticks[0].available), CarriedOut(Chosen(batch, Not(ticks[0].acked)), ticks[1..]);
      OrdersAppend(first, later);
      ExecuteAllAppend(rules, Orders(first), Orders(later));
    }
  }

  lemma {:induction false} CarriedFromBatch(batch: seq<Command>, ticks: seq<Tick>)
    ensures forall c :: c in CarriedOut(batch, ticks) ==> c in batch
    decreases |ticks|
  {
    hide Chosen;
    if ticks != [] {
      ChosenMembers(batch, ticks[0].available);
      ChosenMembers(batch, Not(ticks[0].acked));
      CarriedFromBatch(Chosen(batch, Not(ticks[0].acked)), ticks[1..]);
    }
  }

  lemma OrdersMembers(some: seq<Command>, all: seq<Command>)
    requires forall c :: c in some ==> c in all
    ensures forall o :: o in Orders(some) ==> o in Orders(all)
  {
    forall o | o in Orders(some) ensures o in Orders(all) {
      var i :| 0 <= i < |some| && Orders(some)[i] == o;
      assert some[i] in all;
      var j :| 0 <= j < |all| && all[j] == some[i];
      assert Orders(all)[j] == o;
    }
  }

  /** The orders really carried out at the agent in a run, in order and with repetitions: the
      commands it runs and the detector's own blocks. */
  function Executed(s: System, steps: seq<Step>, a: string): seq<Order>
    decreases |steps|
  {
    if steps == [] then [] else ExecutedBy(s, steps[0], a) + Executed(Apply(s, steps[0]), steps[1..], a)
  }

  function ExecutedBy(s: System, step: Step, a: string): seq<Order> {
    if step.Run? && step.agent == a && step.available && a in s.agents && s.agents[a].todo != []
    then [s.agents[a].todo[0].order]
    else LocalBy(step, a)
  }

  function LocalBy(step: Step, a: string): seq<Order> {
    if step.LocalBlock? && step.agent == a then [Order("block_ip", step.ip)] else []
  }

  /** The detector's own blocks of a run. */
  function LocalBlocks(steps: seq<Step>, a: string): seq<Order> {
    if steps == [] then [] else LocalBy(steps[0], a) + LocalBlocks(steps[1..], a)
  }

  lemma ExecutedStep(s: System, step: Step, a: string, t: string)
    requires a in s.agents
    ensures a in Apply(s, step).agents
    ensures t in Apply(s, step).agents[a].rules <==> Decide(t in s.agents[a].rules, ExecutedBy(s, step, a), t)
  {
    hide Execute, Affects;
    if step.Run? && step.agent == a && s.agents[a].todo != [] {
      ExecuteIfPresence(step.available, s.agents[a].rules, s.agents[a].todo[0].order, t);
    } else if step.LocalBlock? && step.agent == a {
      ExecutePresence(s.agents[a].rules, Order("block_ip", step.ip), t);
    }
  }

  lemma {:induction false} ExecutedPresence(s: System, steps: seq<Step>, a: string, t: string)
    requires a in s.agents
    ensures a in ApplyAll(s, steps).agents
    ensures t in ApplyAll(s, steps).agents[a].rules <==> Decide(t in s.agents[a].rules, Executed(s, steps, a), t)
    decreases |steps|
  {
    hide Apply, ExecutedBy;
    if steps != [] {
      ExecutedStep(s, steps[0], a, t);
      ExecutedPresence(Apply(s, steps[0]), steps[1..], a, t);
      DecideAppend(t in s.agents[a].rules, ExecutedBy(s, steps[0], a), Executed(Apply(s, steps[0]), steps[1..], a), t);
    }
  }

  /** Nothing becomes pending that was not pending or issued. */
  lemma PendingFrom(s: System, step: Step, a: string)
    ensures forall c :: c in PendingOf(Apply(s, step).server.commands, a) ==>
              c in PendingOf(s.server.commands, a) || c.order in IssuedBy(step, a)
  {
    hide PendingOf, ExecuteIf;
    match step {
      case AdminBlock(b, ip, _) =>
        PendingAppend(s.server.commands, Command(s.server.nextId, b, Order("block_ip", ip), "pending"), a);
      case AdminUnblock(b, ip) =>
        PendingAppend(s.server.commands, Command(s.server.nextId, b, Order("unblock_ip", ip), "pending"), a);
      case Run(b, available, acked) =>
        if acked && b in s.agents && s.agents[b].todo != [] {
          var c := s.agents[b].todo[0];
          var (_, outcome) := ExecuteIf(available, s.agents[b].rules, c.order.action, c.order.ip);
          AckOnlyRemoves(s.server.commands, a, c.id, StatusOf(outcome));
        }
      case _ =>
    }
  }

  lemma AckOnlyRemoves(commands: seq<Command>, a: string, id: nat, status: string)
    requires status != "pending"
    ensures forall c :: c in PendingOf(SetStatus(commands, id, status), a) ==> c in PendingOf(commands, a)
  {
    hide PendingOf;
    PendingMembers(commands, a);
    PendingMembers(SetStatus(commands, id, status), a);
    forall c | c in PendingOf(SetStatus(commands, id, status), a) ensures c in PendingOf(commands, a) {
      var i :| 0 <= i < |commands| && SetStatus(commands, id, status)[i] == c;
      assert commands[i] == c && commands[i] in commands;
    }
  }

  /** Every order carried out was pending at the start, issued during the run, or is one of
      the detector's own blocks. */
  lemma {:induction false} ExecutedFrom(s: System, steps: seq<Step>, a: string)
    requires Inv(s)
    ensures forall o :: o in Executed(s, steps, a) ==> o in History(s, steps, a) || o in LocalBlocks(steps, a)
    decreases |steps|
  {
    hide Apply, PendingOf, IssuedBy;
    if steps != [] {
      var step, s' := steps[0], Apply(s, steps[0]);
      InvKept(s, step);
      ExecutedFrom(s', steps[1..], a);
      PendingFrom(s, step, a);
      assert Issued(steps, a) == IssuedBy(step, a) + Issued(steps[1..], a);
      assert Executed(s, steps, a) == ExecutedBy(s, step, a) + Executed(s', steps[1..], a);
      var pending, pending' := PendingOf(s.server.commands, a), PendingOf(s'.server.commands, a);
      forall o | o in ExecutedBy(s, step, a) ensures o in Orders(pending) || o in LocalBlocks(steps, a) {
        if step.Run? {
          assert s.agents[a].todo[0] in s.agents[a].todo;
          OrderIn(pending, s.agents[a].todo[0]);
        }
      }
      forall o | o in Orders(pending') ensures o in Orders(pending) || o in IssuedBy(step, a) {
        var i :| 0 <= i < |pending'| && Orders(pending')[i] == o;
        assert pending'[i] in pending';
        if pending'[i] in pending { OrderIn(pending, pending'[i]); }
      }
    }
  }

  lemma OrderIn(commands: seq<Command>, c: Command)
    requires c in commands
    ensures c.order in Orders(commands)
  {
    var i :| 0 <= i < |commands| && commands[i] == c;
    assert Orders(commands)[i] == c.order;
  }

  /** CONVERGENCE, EXACTLY. In every run whatsoever, with any acknowledgements lost or out of
      turn, any commands that could not run, any restarts and any blocks of the local
      detector, the rule list agrees with the history about a rule text if and only if the
      latest order really carried out that affects the text points the way of the latest
      order of the history, presence at the start standing in where there is none. */
  lemma ConvergesIff(s: System, steps: seq<Step>, a: string, t: string)
    requires a in s.agents
    ensures a in ApplyAll(s, steps).agents
    ensures (t in ApplyAll(s, steps).agents[a].rules <==> LatestSays(t in s.agents[a].rules, History(s, steps, a), t)) <==>
            SameLatest(t in s.agents[a].rules, Executed(s, steps, a), History(s, steps, a), t)
  {
    hide ApplyAll, Executed, History, LatestSays, SameLatest;
    ExecutedPresence(s, steps, a, t);
    DecideIsLatest(t in s.agents[a].rules, Executed(s, steps, a), t);
    SameOutcome(t in s.agents[a].rules, Executed(s, steps, a), History(s, steps, a), t);
  }

  /** ANY LOSSES AND FAILURES, EXACTLY. Whatever acknowledgements of any batch are lost and
      whatever commands of it cannot be run, over any number of ticks, the outcome for a rule
      text is the one the queue meant exactly when the latest command carried out that
      affects the text (or its presence before, when none was) points the way of the latest
      one queued. */
  lemma TicksOutcome(s: System, a: string, ticks: seq<Tick>, t: string)
    requires Inv(s) && a in s.agents && s.agents[a].todo == []
    ensures var batch, s' := PendingOf(s.server.commands, a), Ticks(s, a, ticks);
            var p := t in s.agents[a].rules;
            && a in s'.agents && PendingOf(s'.server.commands, a) == StillPending(batch, ticks)
            && ((t in s'.agents[a].rules <==> LatestSays(p, Orders(batch), t)) <==>
                  SameLatest(p, Orders(CarriedOut(batch, ticks)), Orders(batch), t))
  {
    hide Inv, PendingOf, Ticks, CarriedOut, StillPending, LatestSays, SameLatest, ExecuteAll;
    var batch, rules := PendingOf(s.server.commands, a), s.agents[a].rules;
    var ran := Orders(CarriedOut(batch, ticks));
    TicksEffect(s, a, ticks);
    ExecuteAllPresence(rules, ran, t);
    DecideIsLatest(t in rules, ran, t);
    SameOutcome(t in rules, ran, Orders(batch), t);
  }

  ghost predicate AllAvailable(ticks: seq<Tick>) {
    forall i, n: nat :: 0 <= i < |ticks| ==> ticks[i].available(n)
  }

  lemma {:induction false} ChosenAll<T>(batch: seq<T>, choice: nat -> bool)
    requires forall n: nat :: n < |batch| ==> choice(n)
    ensures Chosen(batch, choice) == batch
  {
    if batch != [] { ChosenAll(batch[..|batch| - 1], choice); }
  }

  /** The commands that run again because their acknowledgements were lost. */
  function Replayed(batch: seq<Command>, ticks: seq<Tick>): seq<Command>
    requires ticks != []
  {
    CarriedOut(Chosen(batch, Not(ticks[0].acked)), ticks[1..])
  }

  /** WHY THE ORDER OF ACKNOWLEDGEMENTS MATTERS. When every command can be run but any set of
      acknowledgements is lost, over any number of ticks, the outcome for a rule text is the
      meant one exactly when the latest replayed command affecting the text, if any, points
      the way of the latest one queued. */
  lemma LostAckReplay(s: System, a: string, ticks: seq<Tick>, t: string)
    requires Inv(s) && a in s.agents && s.agents[a].todo == []
    requires ticks != [] && AllAvailable(ticks)
    ensures var batch, s' := PendingOf(s.server.commands, a), Ticks(s, a, ticks);
            var meant, again := Orders(batch), Orders(Replayed(batch, ticks));
            && a in s'.agents
            && ((t in s'.agents[a].rules <==> LatestSays(t in s.agents[a].rules, meant, t)) <==>
                  forall i: nat, j: nat :: IsLatest(again, t, i) && IsLatest(meant, t, j) ==> IsBlock(again[i]) == IsBlock(meant[j]))
  {
    hide Inv, PendingOf, Ticks, StillPending, LatestSays, SameLatest, Affects;
    var batch := PendingOf(s.server.commands, a);
    var meant, again := Orders(batch), Orders(Replayed(batch, ticks));
    TicksOutcome(s, a, ticks, t);
    forall n: nat ensures ticks[0].available(n) {}
    ChosenAll(batch, ticks[0].available);
    OrdersAppend(batch, Replayed(batch, ticks));
    assert Orders(CarriedOut(batch, ticks)) == meant + again;
    ReplayedFromBatch(batch, ticks);
    ReplaySame(t in s.agents[a].rules, meant, again, t);
  }

  lemma ReplayedFromBatch(batch: seq<Command>, ticks: seq<Tick>)
    requires ticks != []
    ensures forall o :: o in Orders(Replayed(batch, ticks)) ==> o in Orders(batch)
  {
    hide Chosen, CarriedOut;
    ChosenMembers(batch, Not(ticks[0].acked));
    CarriedFromBatch(Chosen(batch, Not(ticks[0].acked)), ticks[1..]);
    OrdersMembers(Replayed(batch, ticks), batch);
  }

  /** WHY FAILED COMMANDS MATTER. A command whose iptables call could not run is still
      acknowledged (as failed) and never retried. When every acknowledgement arrives but any
      set of commands could not be run, one tick drains the queue, and the outcome for a rule
      text is the meant one exactly when the latest command that did run and affects the text
      (or its presence before, when none did) points the way of the latest one queued. */
  lemma FailedCommandDropped(s: System, a: string, tick: Tick, t: string)
    requires Inv(s) && a in s.agents && s.agents[a].todo == []
    requires forall n: nat :: tick.acked(n)
    ensures var batch, s' := PendingOf(s.server.commands, a), Ticked(s, a, tick);
            var p, ran := t in s.agents[a].rules, Orders(Chosen(batch, tick.available));
            && a in s'.agents && PendingOf(s'.server.commands, a) == []
            && ((t in s'.agents[a].rules <==> LatestSays(p, Orders(batch), t)) <==> SameLatest(p, ran, Orders(batch), t))
  {
    hide Inv, PendingOf, LatestSays, SameLatest, Ticked, Chosen;
    var batch := PendingOf(s.server.commands, a);
    TicksOutcome(s, a, [tick], t);
    assert [tick][1..] == [];
    OneTick(s, a, tick);
    NoneChosen(batch, Not(tick.acked));
    assert CarriedOut(batch, [tick]) == Chosen(batch, tick.available) + CarriedOut(Chosen(batch, Not(tick.acked)), []);
    assert CarriedOut(batch, [tick]) == Chosen(batch, tick.available);
    assert StillPending(batch, [tick]) == StillPending([], []) == [];
  }

  /** The first of two acknowledgements is lost, then everything arrives. */
  function FirstAckLost(): seq<Tick> {
    [Tick(_ => true, (i: nat) => i != 0), Tick(_ => true, _ => true)]
  }

  /** A concrete case: a block and an unblock of one address are pending, the block's
      acknowledgement is lost and the unblock's is not; in the end the rule is back. */
  lemma UnblockUndone(s: System, a: string, c: Command, d: Command, ip: string)
    requires Inv(s) && a in s.agents && s.agents[a].todo == [] && IsAddress(ip)
    requires PendingOf(s.server.commands, a) == [c, d]
    requires c.order == Order("block_ip", ip) && d.order == Order("unblock_ip", ip)
    ensures var s', meant := Ticks(s, a, FirstAckLost()), Orders([c, d]);
            && a in s'.agents && PendingOf(s'.server.commands, a) == []
            && BlockRule(ip) in s'.agents[a].rules && !LatestSays(BlockRule(ip) in s.agents[a].rules, meant, BlockRule(ip))
  {
    hide Inv, PendingOf, Ticks, ExecuteAll, LatestSays, BlockRule, Removable, IsAddress, IsLatest;
    var t, rules := BlockRule(ip), s.agents[a].rules;
    BlockRuleReadBack(ip);
    TicksEffect(s, a, FirstAckLost());
    FirstAckLostCarries(c, d);
    ExecuteAllPresence(rules, Orders([c, d, c]), t);
    DecideIsLatest(t in rules, Orders([c, d, c]), t);
    DecideIsLatest(t in rules, Orders([c, d]), t);
    assert IsLatest(Orders([c, d, c]), t, 2) && IsLatest(Orders([c, d]), t, 1) by { LastIsLatest(c, d, t); }
    LatestAlone(t in rules, Orders([c, d, c]), t, 2);
    LatestAlone(t in rules, Orders([c, d]), t, 1);
  }

  lemma LastIsLatest(c: Command, d: Command, t: string)
    requires Affects(c.order, t) && Affects(d.order, t)
    ensures IsLatest(Orders([c, d, c]), t, 2) && IsLatest(Orders([c, d]), t, 1)
  {
  }

  lemma FirstAckLostCarries(c: Command, d: Command)
    ensures CarriedOut([c, d], FirstAckLost()) == [c, d, c] && StillPending([c, d], FirstAckLost()) == []
  {
    var ticks := FirstAckLost();
    assert ticks[1..] == [ticks[1]] && ticks[1..][1..] == [];
    ChosenAll([c, d], ticks[0].available);
    assert [c, d][..1] == [c] && [c][..0] == [];
    assert Chosen([c], Not(ticks[0].acked)) == [c];
    assert Chosen([c, d], Not(ticks[0].acked)) == [c];
    ChosenAll([c], ticks[1].available);
    NoneChosen([c], Not(ticks[1].acked));
    assert CarriedOut([c], ticks[1..]) == [c] + [];
  }

  /** A concrete case: a block that could not run leaves the queue and no rule. */
  lemma BlockNeverRan(s: System, a: string, c: Command, ip: string)
    requires Inv(s) && a in s.agents && s.agents[a].todo == [] && IsAddress(ip) && BlockRule(ip) !in s.agents[a].rules
    requires PendingOf(s.server.commands, a) == [c] && c.order == Order("block_ip", ip)
    ensures var s' := Ticked(s, a, Tick(_ => false, _ => true));
            && a in s'.agents && PendingOf(s'.server.commands, a) == []
            && BlockRule(ip) !in s'.agents[a].rules && LatestSays(false, Orders([c]), BlockRule(ip))
  {
    hide Inv, PendingOf, Ticked, LatestSays, BlockRule, IsAddress;
    var tick := Tick(_ => false, _ => true);
    TickEffect(s, a, tick);
    NoneChosen([c], tick.available);
    NoneChosen([c], Not(tick.acked));
    LatestAlone(false, Orders([c]), BlockRule(ip), 0);
  }

  lemma OneTick(s: System, a: string, tick: Tick)
    ensures Ticks(s, a, [tick]) == Ticked(s, a, tick)
  {
    hide Ticked;
    assert [tick][1..] == [];
  }

  lemma {:induction false} NoneChosen<T>(batch: seq<T>, choice: nat -> bool)
    requires forall n: nat :: !choice(n)
    ensures Chosen(batch, choice) == []
  {
    if batch != [] { NoneChosen(batch[..|batch| - 1], choice); }
  }

  // ---------------------------------------------------------------------------
  // What an acknowledgement says
  // ---------------------------------------------------------------------------

  /** The order can be carried out on the rules: a block of a canonical address, or an unblock
      of an address that some unquoted rule names and drops or rejects by its text. */
  ghost predicate Doable(rules: seq<string>, o: Order) {
    || (o.action == "block_ip" && IsAddress(o.ip))
    || (o.action == "unblock_ip" && exists r :: r in rules && SaysDrop(r, o.ip) && !Quoted(r))
  }

  lemma StatusMeans(available: bool, rules: seq<string>, o: Order)
    ensures StatusOf(ExecuteIf(available, rules, o.action, o.ip).1) ==
            if available && Doable(rules, o) then "completed" else "failed"
  {
    hide SaysDrop, Quoted, Kept, LastStuck, IsAddress;
    if o.action == "unblock_ip" {
      UnblockAnswers(rules, o.ip);
      KeptLetters(rules, o.ip);
      assert Execute(rules, o.action, o.ip) == Execute(rules, "unblock_ip", o.ip);
    }
  }

  /** The status the k-th command of a batch is acknowledged with. */
  ghost function StatusAt(rules: seq<string>, batch: seq<Command>, tick: Tick, k: nat): string
    requires k < |batch|
  {
    if tick.available(k) && Doable(ExecuteAll(rules, Orders(Chosen(batch[..k], tick.available))), batch[k].order)
    then "completed" else "failed"
  }

  /** The queue after `n` commands of the batch: the acknowledged ones carry their status, and
      nothing else has changed. */
  ghost predicate Acknowledged(before: seq<Command>, after: seq<Command>, rules: seq<string>, batch: seq<Command>, tick: Tick, n: nat)
    requires n <= |batch|
  {
    && |after| == |before|
    && (forall k, i :: 0 <= k < |before| && 0 <= i < n && before[k].id == batch[i].id && tick.acked(i) ==>
          after[k] == before[k].(status := StatusAt(rules, batch, tick, i)))
    && (forall k :: 0 <= k < |before| && (forall i :: 0 <= i < n && tick.acked(i) ==> before[k].id != batch[i].id) ==>
          after[k] == before[k])
  }

  lemma AcknowledgedNext(before: seq<Command>, mid: seq<Command>, rules: seq<string>, batch: seq<Command>, tick: Tick, n: nat)
    requires n < |batch| && Acknowledged(before, mid, rules, batch, tick, n) && DistinctIds(batch)
    ensures var after := if tick.acked(n) then SetStatus(mid, batch[n].id, StatusAt(rules, batch, tick, n)) else mid;
            Acknowledged(before, after, rules, batch, tick, n + 1)
  {
    hide StatusAt, SetStatus;
    forall k | 0 <= k < |before| ensures mid[k].id == before[k].id {
      if i :| 0 <= i < n && tick.acked(i) && before[k].id == batch[i].id {
        assert mid[k] == before[k].(status := StatusAt(rules, batch, tick, i));
      }
    }
  }

  /** WHAT IS ACKNOWLEDGED. After a tick every command of the batch whose acknowledgement arrived
      is completed exactly when iptables could be run and the order could be carried out on the
      rules as they then were, and failed otherwise; every other command keeps its status. */
  lemma {:induction false} TickStatuses(s: System, a: string, tick: Tick, n: nat)
    requires Inv(s) && a in s.agents && s.agents[a].todo == PendingOf(s.server.commands, a)
    requires n <= |PendingOf(s.server.commands, a)|
    ensures var batch := PendingOf(s.server.commands, a);
            var s' := RunBatch(s, a, tick.available, tick.acked, n);
            Acknowledged(s.server.commands, s'.server.commands, s.agents[a].rules, batch, tick, n)
  {
    hide Inv, PendingOf, ExecuteAll, Chosen, Acknowledged, StatusOf, ExecuteIf, RunBatch, Doable;
    var batch, rules := PendingOf(s.server.commands, a), s.agents[a].rules;
    BatchNext(s, a, tick, n);
    if n == 0 {
      NothingAcknowledged(s.server.commands, rules, batch, tick);
    } else {
      var k := n - 1;
      TickStatuses(s, a, tick, k);
      BatchEffect(s, a, tick, k);
      var s1 := RunBatch(s, a, tick.available, tick.acked, k);
      assert s1.agents[a].todo == batch[k..] && batch[k..][0] == batch[k];
      StatusMeans(tick.available(k), s1.agents[a].rules, batch[k].order);
      BatchIds(s, a);
      AcknowledgedNext(s.server.commands, s1.server.commands, rules, batch, tick, k);
    }
  }

  lemma BatchIds(s: System, a: string)
    requires Inv(s)
    ensures DistinctIds(PendingOf(s.server.commands, a))
  {
    PendingMembers(s.server.commands, a);
  }

  lemma NothingAcknowledged(commands: seq<Command>, rules: seq<string>, batch: seq<Command>, tick: Tick)
    ensures Acknowledged(commands, commands, rules, batch, tick, 0)
  {
  }

  /** The same of a whole tick, from the fetch on. */
  lemma TickAcknowledges(s: System, a: string, tick: Tick)
    requires Inv(s) && a in s.agents && s.agents[a].todo == []
    ensures var batch := PendingOf(s.server.commands, a);
            Acknowledged(s.server.commands, Ticked(s, a, tick).server.commands, s.agents[a].rules, batch, tick, |batch|)
  {
    hide Inv, PendingOf, Acknowledged, RunBatch;
    var s1 := PollEffect(s, a);
    TickStatuses(s1, a, tick, |PendingOf(s.server.commands, a)|);
  }
}
