/** The server's side of the firewall control loop: the `blocked_ips` table, replaced by
    key, and the `agent_commands` queue. */
module CommandStore {
  import opened Firewall

  datatype Order = Order(action: string, ip: string)

  datatype Command = Command(id: nat, agent: string, order: Order, status: string)

  datatype BlockRow = BlockRow(blockedBy: string, reason: string)

  /** Rows are keyed by (agent, address); commands stand in creation order. */
  datatype Server = Server(blocked: map<(string, string), BlockRow>, commands: seq<Command>, nextId: nat)

  function InsertCommand(sv: Server, agent: string, action: string, ip: string): Server {
    sv.(commands := sv.commands + [Command(sv.nextId, agent, Order(action, ip), "pending")], nextId := sv.nextId + 1)
  }

  function BlockIP(sv: Server, ip: string, agent: string, reason: string): Server {
    InsertCommand(sv.(blocked := sv.blocked[(agent, ip) := BlockRow("admin", reason)]), agent, "block_ip", ip)
  }

  function UnblockIP(sv: Server, ip: string, agent: string): Server {
    InsertCommand(sv.(blocked := sv.blocked - {(agent, ip)}), agent, "unblock_ip", ip)
  }

  function PendingOf(commands: seq<Command>, agent: string): seq<Command> {
    if commands == [] then []
    else
      (if commands[0].agent == agent && commands[0].status == "pending" then [commands[0]] else [])
      + PendingOf(commands[1..], agent)
  }

  predicate DistinctIds(commands: seq<Command>) {
    forall i, j :: 0 <= i < j < |commands| ==> commands[i].id != commands[j].id
  }

  function SetStatus(commands: seq<Command>, id: nat, status: string): (r: seq<Command>)
    ensures |r| == |commands|
    ensures forall i :: 0 <= i < |r| ==>
              r[i] == if commands[i].id == id then commands[i].(status := status) else commands[i]
  {
    if commands == [] then []
    else
      [if commands[0].id == id then commands[0].(status := status) else commands[0]]
      + SetStatus(commands[1..], id, status)
  }

  /** The commands with any other id. */
  function Minus(commands: seq<Command>, id: nat): seq<Command> {
    if commands == [] then []
    else (if commands[0].id == id then [] else [commands[0]]) + Minus(commands[1..], id)
  }

  /** An acknowledgement takes its command out of the pending list and does nothing else. */
  lemma {:induction false} AckedPending(commands: seq<Command>, id: nat, status: string, a: string)
    requires status != "pending"
    ensures PendingOf(SetStatus(commands, id, status), a) == Minus(PendingOf(commands, a), id)
  {
    if commands != [] {
      AckedPending(commands[1..], id, status, a);
      assert SetStatus(commands, id, status)[1..] == SetStatus(commands[1..], id, status);
      var c := commands[0];
      if c.agent == a && c.status == "pending" {
        assert PendingOf(commands, a)[1..] == PendingOf(commands[1..], a) && PendingOf(commands, a)[0] == c;
      } else {
        assert PendingOf(commands, a) == PendingOf(commands[1..], a);
      }
    }
  }

  lemma AckKeepsIds(commands: seq<Command>, id: nat, status: string, next: nat)
    requires DistinctIds(commands) && forall c :: c in commands ==> c.id < next
    ensures DistinctIds(SetStatus(commands, id, status)) && forall c :: c in SetStatus(commands, id, status) ==> c.id < next
  {
    hide SetStatus;
    assert forall i :: 0 <= i < |commands| ==> commands[i] in commands;
  }

  function Ack(sv: Server, id: nat, status: string): Server {
    sv.(commands := SetStatus(sv.commands, id, status))
  }

  lemma {:induction false} PendingConcat(x: seq<Command>, y: seq<Command>, a: string)
    ensures PendingOf(x + y, a) == PendingOf(x, a) + PendingOf(y, a)
  {
    if x == [] {
      assert x + y == y && [] + PendingOf(y, a) == PendingOf(y, a);
    } else {
      PendingConcat(x[1..], y, a);
      assert (x + y)[1..] == x[1..] + y && (x + y)[0] == x[0];
      var first := if x[0].agent == a && x[0].status == "pending" then [x[0]] else [];
      assert PendingOf(x + y, a) == first + (PendingOf(x[1..], a) + PendingOf(y, a));
    }
  }

  lemma PendingAppend(commands: seq<Command>, c: Command, a: string)
    ensures PendingOf(commands + [c], a) ==
            PendingOf(commands, a) + if c.agent == a && c.status == "pending" then [c] else []
  {
    PendingConcat(commands, [c], a);
    assert PendingOf([c][1..], a) == [];
  }

  predicate SameRow(before: map<(string, string), BlockRow>, after: map<(string, string), BlockRow>, k: (string, string)) {
    (k in after <==> k in before) && (k in before ==> after[k] == before[k])
  }

  /** One order has been added at the end of one agent's pending list, under an id no command
      had before, and no other agent's pending list has changed. */
  ghost predicate Queued(before: seq<Command>, after: seq<Command>, agent: string, o: Order) {
    exists id :: (forall c :: c in before ==> c.id != id) && QueuedAs(before, after, Command(id, agent, o, "pending"))
  }

  ghost predicate QueuedAs(before: seq<Command>, after: seq<Command>, c: Command) {
    forall a :: PendingOf(after, a) == PendingOf(before, a) + if a == c.agent then [c] else []
  }

  const SYNC_ROW := BlockRow("firewall_sync", "Detected in iptables")

  /** The table after an agent's report: its own rows replaced by the report, others kept. */
  function Synced(blocked: map<(string, string), BlockRow>, agent: string, ips: seq<string>): map<(string, string), BlockRow> {
    var others := map k | k in blocked && k.0 != agent :: blocked[k];
    others + map ip | ip in ips :: (agent, ip) := SYNC_ROW
  }

  function Sync(sv: Server, agent: string, ips: seq<string>): Server {
    sv.(blocked := Synced(sv.blocked, agent, ips))
  }

  /** The report replaces the reporting agent's rows and leaves every other row alone. */
  lemma SyncedExact(blocked: map<(string, string), BlockRow>, agent: string, ips: seq<string>)
    ensures forall ip :: (agent, ip) in Synced(blocked, agent, ips) <==> ip in ips
    ensures forall k: (string, string) :: k.0 != agent ==> (k in Synced(blocked, agent, ips) <==> k in blocked)
    ensures forall k: (string, string) :: k.0 != agent && k in blocked ==> Synced(blocked, agent, ips)[k] == blocked[k]
    ensures forall ip :: ip in ips ==> Synced(blocked, agent, ips)[(agent, ip)] == BlockRow("firewall_sync", "Detected in iptables")
  {
  }

  lemma SyncedNext(blocked: map<(string, string), BlockRow>, agent: string, ips: seq<string>, i: nat)
    requires i < |ips|
    ensures Synced(blocked, agent, ips[..i + 1]) == Synced(blocked, agent, ips[..i])[(agent, ips[i]) := SYNC_ROW]
  {
    var before, after := ips[..i], ips[..i + 1];
    assert after == before + [ips[i]];
    forall ip ensures ip in after <==> ip in before || ip == ips[i] {}
  }

  class Store {
    var blocked: map<(string, string), BlockRow>
    var commands: seq<Command>
    var nextId: nat

    function View(): Server
      reads this
    {
      Server(blocked, commands, nextId)
    }

    constructor ()
      ensures View() == Server(map[], [], 0) && Valid()
    {
      blocked, commands, nextId := map[], [], 0;
    }

    /** Ids are distinct and the next one is fresh. */
    ghost predicate Valid()
      reads this
    {
      DistinctIds(commands) && forall c :: c in commands ==> c.id < nextId
    }

    method Insert(agent: string, action: string, ip: string)
      requires Valid()
      modifies this`commands, this`nextId
      ensures Valid() && View() == InsertCommand(old(View()), agent, action, ip)
      ensures forall c :: c in old(commands) ==> c.id != commands[|commands| - 1].id
      ensures forall a :: PendingOf(commands, a) ==
                PendingOf(old(commands), a) + if a == agent then [commands[|commands| - 1]] else []
    {
      forall a { PendingAppend(commands, Command(nextId, agent, Order(action, ip), "pending"), a); }
      assert forall i :: 0 <= i < |commands| ==> commands[i] in commands;
      commands := commands + [Command(nextId, agent, Order(action, ip), "pending")];
      nextId := nextId + 1;
    }

    /** Lists the address for the agent at once and queues one block for it alone. */
    method Block(ip: string, agent: string, reason: string)
      requires Valid()
      modifies this
      ensures Valid() && View() == BlockIP(old(View()), ip, agent, reason)
      ensures Listed(ip, agent) && blocked[(agent, ip)] == BlockRow("admin", reason)
      ensures forall k :: k != (agent, ip) ==> SameRow(old(blocked), blocked, k)
      ensures Queued(old(commands), commands, agent, Order("block_ip", ip))
    {
      blocked := blocked[(agent, ip) := BlockRow("admin", reason)];
      Insert(agent, "block_ip", ip);
    }

    /** Takes the address off the agent's list at once and queues one unblock for it alone. */
    method Unblock(ip: string, agent: string)
      requires Valid()
      modifies this
      ensures Valid() && View() == UnblockIP(old(View()), ip, agent)
      ensures !Listed(ip, agent) && forall k :: k != (agent, ip) ==> SameRow(old(blocked), blocked, k)
      ensures Queued(old(commands), commands, agent, Order("unblock_ip", ip))
    {
      blocked := blocked - {(agent, ip)};
      Insert(agent, "unblock_ip", ip);
    }

    /** The address is in the table for the agent. */
    predicate Listed(ip: string, agent: string)
      reads this
    {
      (agent, ip) in blocked
    }

    method GetPendingCommands(agent: string) returns (pending: seq<Command>)
      ensures pending == PendingOf(commands, agent)
    {
      pending := [];
      for i := 0 to |commands|
        invariant pending + PendingOf(commands[i..], agent) == PendingOf(commands, agent)
      {
        var c := commands[i];
        assert commands[i..][1..] == commands[i + 1..];
        if c.agent == agent && c.status == "pending" {
          assert pending + PendingOf(commands[i..], agent) == pending + [c] + PendingOf(commands[i + 1..], agent);
          pending := pending + [c];
        }
      }
    }

    method AckCommand(id: nat, status: string)
      requires Valid()
      modifies this`commands
      ensures Valid() && View() == Ack(old(View()), id, status)
      ensures status != "pending" ==> forall a :: PendingOf(commands, a) == Minus(PendingOf(old(commands), a), id)
    {
      hide PendingOf, Minus, SetStatus, DistinctIds;
      if status != "pending" {
        forall a { AckedPending(commands, id, status, a); }
      }
      AckKeepsIds(commands, id, status, nextId);
      commands := SetStatus(commands, id, status);
    }

    /** Clears the agent's rows, then appends the report as one batch. */
    method SyncBlockedIPs(agent: string, ips: seq<string>)
      modifies this`blocked
      ensures View() == Sync(old(View()), agent, ips)
    {
      ghost var was := blocked;
      blocked := map k | k in blocked && k.0 != agent :: blocked[k];
      assert blocked == Synced(was, agent, ips[..0]);
      for i := 0 to |ips|
        invariant blocked == Synced(was, agent, ips[..i])
      {
        SyncedNext(was, agent, ips, i);
        blocked := blocked[(agent, ips[i]) := SYNC_ROW];
      }
      assert ips[..|ips|] == ips;
    }

    /** Counts the rows for an address; an empty agent or "all" asks about every agent. */
    method IsIPBlocked(ip: string, agent: string) returns (found: bool)
      ensures found <==>
              if agent != "" && agent != "all" then Listed(ip, agent)
              else exists k :: k in blocked && k.1 == ip
    {
      var rows := set k | k in blocked && k.1 == ip && (agent == "" || agent == "all" || k.0 == agent);
      found := |rows| > 0;
      assert forall k :: k in rows ==> k in blocked;
      if found {
        var k :| k in rows;
        assert k == (k.0, ip);
      }
      assert (agent, ip) in blocked ==> (agent, ip) in rows;
      assert forall k :: k in blocked && k.1 == ip && (agent == "" || agent == "all") ==> k in rows;
    }
  }
}
