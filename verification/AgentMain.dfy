/** The agent's command and sync loops, each tied to steps of the control-loop protocol. */
module AgentMain {
  import opened Firewall
  import opened CommandStore
  import opened ControlLoop
  import opened CommandReplay

  lemma StartInv(s: System, id: string)
    requires s.agents.Keys == {id} && s.agents[id].todo == [] && DistinctIds(s.server.commands)
    requires forall c :: c in s.server.commands ==> c.id < s.server.nextId
    ensures Inv(s)
  {
  }

  class AgentLoops {
    const id: string
    const collector: FirewallCollector
    const store: Store

    constructor (id: string, collector: FirewallCollector, store: Store)
      ensures this.id == id && this.collector == collector && this.store == store
    {
      this.id, this.collector, this.store := id, collector, store;
    }

    /** The protocol state seen from this agent with the given commands still to run. */
    ghost function View(todo: seq<Command>): System
      reads this, store, collector.kernel
    {
      System(store.View(), map[id := Agent(collector.kernel.rules, todo)])
    }

    /** One tick of the command loop: fetch the pending commands, then execute and
        acknowledge each in turn. `reachable` says whether the fetch succeeded;
        `available(i)` and `acked(i)` whether iptables ran and the acknowledgement arrived
        for the i-th command. */
    method PollOnce(reachable: bool, available: nat -> bool, acked: nat -> bool)
      requires collector.kernel.Valid() && store.Valid()
      modifies collector.kernel`rules, store
      ensures collector.kernel.Valid() && store.Valid()
      ensures View([]) == if !reachable then old(View([])) else Ticked(old(View([])), id, Tick(available, acked))
      ensures reachable ==>
                var batch := PendingOf(old(store.commands), id);
                Acknowledged(old(store.commands), store.commands, old(collector.kernel.rules), batch, Tick(available, acked), |batch|)
    {
      hide Apply, PendingOf, DistinctIds, AreRules, Acknowledged, Inv, RunBatch;
      if !reachable { return; }
      ghost var start := View([]);
      TickSays(start, Tick(available, acked));
      var commands := Fetch();
      RunAll(commands, available, acked);
    }

    /** What a tick does to the statuses, seen from the store. */
    lemma TickSays(s: System, tick: Tick)
      requires s.agents.Keys == {id} && s.agents[id].todo == [] && DistinctIds(s.server.commands)
      requires forall c :: c in s.server.commands ==> c.id < s.server.nextId
      ensures var batch := PendingOf(s.server.commands, id);
              Acknowledged(s.server.commands, Ticked(s, id, tick).server.commands, s.agents[id].rules, batch, tick, |batch|)
    {
      hide Acknowledged, PendingOf, Ticked;
      StartInv(s, id);
      TickAcknowledges(s, id, tick);
    }

    method RunAll(commands: seq<Command>, available: nat -> bool, acked: nat -> bool)
      requires collector.kernel.Valid() && store.Valid()
      modifies collector.kernel`rules, store
      ensures collector.kernel.Valid() && store.Valid()
      ensures View([]) == RunBatch(old(View(commands)), id, available, acked, |commands|)
    {
      hide Apply, PendingOf, DistinctIds, AreRules;
      ghost var fetched := View(commands);
      assert commands[0..] == commands;
      for i := 0 to |commands|
        invariant collector.kernel.Valid() && store.Valid()
        invariant View(commands[i..]) == RunBatch(fetched, id, available, acked, i)
      {
        assert commands[i..] == [commands[i]] + commands[i + 1..];
        RunOne(commands[i], commands[i + 1..], available(i), acked(i));
      }
      assert commands[|commands|..] == [];
    }

    method Fetch() returns (commands: seq<Command>)
      ensures commands == PendingOf(store.commands, id)
      ensures View(commands) == Apply(View([]), Poll(id))
    {
      commands := store.GetPendingCommands(id);
    }

    /** Executes one command of the batch and sends its acknowledgement. */
    method RunOne(c: Command, ghost rest: seq<Command>, available: bool, acked: bool)
      requires collector.kernel.Valid() && store.Valid()
      modifies collector.kernel`rules, store
      ensures collector.kernel.Valid() && store.Valid()
      ensures View(rest) == Apply(old(View([c] + rest)), Run(id, available, acked))
    {
      hide Execute, SetStatus, DistinctIds, AreRules, PendingOf;
      var outcome := collector.ExecuteIPTablesCommand(c.order.action, c.order.ip, available);
      if acked {
        store.AckCommand(c.id, StatusOf(outcome));
      }
      assert ([c] + rest)[1..] == rest;
    }

    /** One tick of the sync loop: report the sources currently dropped. */
    method SyncOnce(available: bool, delivered: bool)
      requires collector.kernel.Valid()
      modifies store`blocked
      ensures View([]) == if available && delivered then Apply(old(View([])), Report(id)) else old(View([]))
    {
      hide SaysSource, Synced, IsRule;
      var ok, blocked := collector.CollectBlockedIPs(available);
      if ok && delivered {
        store.SyncBlockedIPs(id, blocked);
      }
    }
  }
}
