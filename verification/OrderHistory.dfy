/** Histories of block and unblock orders for one rule list: what the latest order affecting a
    rule text says, when orders may be repeated or exchanged, and when orders carried out
    instead of the meant ones come to the same. */
module OrderHistory {
  import opened Text
  import opened Firewall
  import opened CommandStore
  import opened Wrappers

  /** A block affects the rule it inserts, an unblock every rule it can remove. */
  predicate Affects(o: Order, t: string) {
    || (o.action == "block_ip" && IsAddress(o.ip) && t == BlockRule(o.ip))
    || (o.action == "unblock_ip" && Removable(t, o.ip))
  }

  predicate IsBlock(o: Order) { o.action == "block_ip" }

  /** Presence of `t` after executing the orders in turn, starting from presence `p`. */
  function Decide(p: bool, orders: seq<Order>, t: string): bool
    decreases |orders|
  {
    if orders == [] then p
    else Decide(if Affects(orders[0], t) then IsBlock(orders[0]) else p, orders[1..], t)
  }

  ghost predicate IsLatest(orders: seq<Order>, t: string, i: nat) {
    i < |orders| && Affects(orders[i], t) && forall j :: i < j < |orders| ==> !Affects(orders[j], t)
  }

  /** The verdict of the history: the latest order affecting `t` is a block, or no order
      affects it and it was there at the start. */
  ghost predicate LatestSays(p: bool, orders: seq<Order>, t: string) {
    || (exists i: nat :: IsLatest(orders, t, i) && IsBlock(orders[i]))
    || (p && forall o :: o in orders ==> !Affects(o, t))
  }

  lemma {:induction false} DecideAppend(p: bool, a: seq<Order>, b: seq<Order>, t: string)
    ensures Decide(p, a + b, t) == Decide(Decide(p, a, t), b, t)
    decreases |a|
  {
    if a == [] {
      assert a + b == b;
    } else {
      DecideAppend(if Affects(a[0], t) then IsBlock(a[0]) else p, a[1..], b, t);
      assert (a + b)[1..] == a[1..] + b;
    }
  }

  /** Executing orders one after the other agrees with looking for the latest one. */
  lemma {:induction false} DecideIsLatest(p: bool, orders: seq<Order>, t: string)
    ensures Decide(p, orders, t) <==> LatestSays(p, orders, t)
    decreases |orders|
  {
    if orders != [] {
      var n := |orders| - 1;
      var init, last := orders[..n], orders[n];
      assert orders == init + [last];
      DecideAppend(p, init, [last], t);
      DecideIsLatest(p, init, t);
      if Affects(last, t) {
        assert IsLatest(orders, t, n);
        forall i: nat | IsLatest(orders, t, i) ensures i == n {}
        assert last in orders;
      } else {
        forall i: nat ensures IsLatest(orders, t, i) <==> IsLatest(init, t, i) {
          if IsLatest(init, t, i) {
            assert Affects(orders[i], t);
            assert forall j :: i < j < n ==> orders[j] == init[j];
          }
          if IsLatest(orders, t, i) {
            assert i < n && forall j :: i < j < n ==> orders[j] == init[j];
          }
        }
        assert forall i: nat :: IsLatest(init, t, i) ==> init[i] == orders[i];
        assert forall o :: o in orders <==> o in init || o == last;
      }
    }
  }

  /** Executing an order before a history that contains it changes nothing in the end. */
  lemma {:induction false} Absorb(p: bool, o: Order, orders: seq<Order>, t: string)
    requires o in orders
    ensures Decide(Decide(p, [o], t), orders, t) == Decide(p, orders, t)
  {
    if orders[0] != o && !Affects(orders[0], t) {
      Absorb(p, o, orders[1..], t);
    }
  }

  /** A block and an unblock that removes the blocked rule, in either order. */
  predicate Conflicts(c: Order, d: Order) {
    || (IsBlock(c) && IsAddress(c.ip) && d.action == "unblock_ip" && Removable(BlockRule(c.ip), d.ip))
    || (IsBlock(d) && IsAddress(d.ip) && c.action == "unblock_ip" && Removable(BlockRule(d.ip), c.ip))
  }

  /** An order may be moved to the front of orders it does not conflict with. */
  lemma {:induction false} Commute(p: bool, o: Order, orders: seq<Order>, t: string)
    requires forall d :: d in orders ==> !Conflicts(d, o)
    ensures Decide(Decide(p, [o], t), orders, t) == Decide(Decide(p, orders, t), [o], t)
    decreases |orders|
  {
    if orders != [] {
      assert orders[0] in orders;
      Commute(if Affects(orders[0], t) then IsBlock(orders[0]) else p, o, orders[1..], t);
    }
  }

  /** The rule list after a command holds a text exactly when the order says so. */
  lemma ExecutePresence(rules: seq<string>, o: Order, t: string)
    ensures t in Execute(rules, o.action, o.ip).0 <==> Decide(t in rules, [o], t)
  {
    KeptMembers(rules, o.ip);
    assert Decide(t in rules, [o], t) == if Affects(o, t) then IsBlock(o) else t in rules;
  }

  /** The rule list after executing the orders one by one. */
  function ExecuteAll(rules: seq<string>, orders: seq<Order>): seq<string>
    decreases |orders|
  {
    if orders == [] then rules
    else ExecuteAll(Execute(rules, orders[0].action, orders[0].ip).0, orders[1..])
  }

  lemma {:induction false} ExecuteAllPresence(rules: seq<string>, orders: seq<Order>, t: string)
    ensures t in ExecuteAll(rules, orders) <==> Decide(t in rules, orders, t)
    decreases |orders|
  {
    if orders != [] {
      ExecutePresence(rules, orders[0], t);
      ExecuteAllPresence(Execute(rules, orders[0].action, orders[0].ip).0, orders[1..], t);
      assert orders == [orders[0]] + orders[1..];
      DecideAppend(t in rules, [orders[0]], orders[1..], t);
    }
  }

  /** Executing a history a second time changes nothing. */
  lemma {:induction false} Twice(p: bool, done: seq<Order>, all: seq<Order>, t: string)
    requires forall o :: o in done ==> o in all
    ensures Decide(Decide(p, done, t), all, t) == Decide(p, all, t)
    decreases |done|
  {
    if done != [] {
      var n := |done| - 1;
      var init, last := done[..n], done[n];
      assert done == init + [last];
      DecideAppend(p, init, [last], t);
      Absorb(Decide(p, init, t), last, all, t);
      Twice(p, init, all, t);
    }
  }

  /** REPLAY. Executing a batch and then any suffix of it again leaves the same rule texts,
      and so the same blocked sources, as executing it once. */
  lemma ReplaySuffix(rules: seq<string>, batch: seq<Order>, k: nat)
    requires k <= |batch|
    ensures var once := ExecuteAll(rules, batch);
            var twice := ExecuteAll(once, batch[k..]);
            && (forall t :: t in twice <==> t in once)
            && (forall ip :: ip in Collected(twice) <==> ip in Collected(once))
  {
    hide Reported;
    var once := ExecuteAll(rules, batch);
    var twice := ExecuteAll(once, batch[k..]);
    forall t ensures t in twice <==> t in once {
      ExecuteAllPresence(rules, batch, t);
      ExecuteAllPresence(once, batch[k..], t);
      var p := Decide(t in rules, batch[..k], t);
      assert batch == batch[..k] + batch[k..];
      DecideAppend(t in rules, batch[..k], batch[k..], t);
      Twice(p, batch[k..], batch[k..], t);
    }
    CollectedExact(once);
    CollectedExact(twice);
  }

  lemma ExecuteIfPresence(available: bool, rules: seq<string>, o: Order, t: string)
    ensures t in ExecuteIf(available, rules, o.action, o.ip).0 <==>
            if available then Decide(t in rules, [o], t) else t in rules
  {
    if available || o.action !in ["block_ip", "unblock_ip"] {
      ExecutePresence(rules, o, t);
    }
  }

  lemma {:induction false} DecideMonotone(p: bool, orders: seq<Order>, t: string)
    ensures Decide(p, orders, t) ==> Decide(true, orders, t)
    decreases |orders|
  {
    if orders != [] && !Affects(orders[0], t) {
      DecideMonotone(p, orders[1..], t);
    }
  }

  lemma BlockStands(p: bool, history: seq<Order>, ip: string, i: nat)
    requires IsAddress(ip) && i < |history| && history[i] == Order("block_ip", ip)
    requires forall j :: i < j < |history| ==> !Conflicts(Order("block_ip", ip), history[j])
    ensures LatestSays(p, history, BlockRule(ip))
  {
    hide LatestSays, Conflicts, Removable, IsAddress, BlockRule;
    var t := BlockRule(ip);
    DecideIsLatest(p, history, t);
    DecideAppend(p, history[..i + 1], history[i + 1..], t);
    DecideAppend(p, history[..i], [history[i]], t);
    assert history == history[..i + 1] + history[i + 1..] && history[..i + 1] == history[..i] + [history[i]];
    StaysPresent(history[i + 1..], ip);
  }

  lemma {:induction false} StaysPresent(later: seq<Order>, ip: string)
    requires IsAddress(ip)
    requires forall j :: 0 <= j < |later| ==> !Conflicts(Order("block_ip", ip), later[j])
    ensures Decide(true, later, BlockRule(ip))
  {
    if later != [] {
      assert !Conflicts(Order("block_ip", ip), later[0]);
      StaysPresent(later[1..], ip);
    }
  }

  lemma UnblockStands(p: bool, history: seq<Order>, ip: string, i: nat, r: string)
    requires Reported(r) == Some(ip) && (p ==> IsRule(r) && Deletable(r))
    requires i < |history| && history[i] == Order("unblock_ip", ip)
    requires forall j :: i < j < |history| ==> history[j] != Order("block_ip", ip)
    ensures !LatestSays(p, history, r)
  {
    forall o: Order | IsBlock(o) && Affects(o, r) ensures o == Order("block_ip", ip) && Affects(history[i], r) {
      BlockRuleReported(o.ip);
      BlockRuleReadBack(o.ip);
    }
    if p {
      ReportedOccurs(r, ip);
      assert Affects(history[i], r) && history[i] in history;
    }
  }

  lemma {:induction false} ExecuteAllNext(rules: seq<string>, done: seq<Order>, o: Order)
    ensures ExecuteAll(rules, done + [o]) == Execute(ExecuteAll(rules, done), o.action, o.ip).0
    decreases |done|
  {
    hide Execute;
    if done == [] {
      assert [] + [o] == [o] && [o][1..] == [];
    } else {
      ExecuteAllNext(Execute(rules, done[0].action, done[0].ip).0, done[1..], o);
      assert (done + [o])[1..] == done[1..] + [o];
    }
  }

  lemma DecideOne(p: bool, c: Order, t: string)
    ensures Decide(p, [c], t) == if Affects(c, t) then IsBlock(c) else p
  {
  }

  lemma {:induction false} ExecuteAllAppend(rules: seq<string>, x: seq<Order>, y: seq<Order>)
    ensures ExecuteAll(rules, x + y) == ExecuteAll(ExecuteAll(rules, x), y)
    decreases |x|
  {
    hide Execute;
    if x == [] {
      assert x + y == y;
    } else {
      ExecuteAllAppend(Execute(rules, x[0].action, x[0].ip).0, x[1..], y);
      assert (x + y)[1..] == x[1..] + y;
    }
  }

  /** The latest order of `ran` affecting `t` points the way of the latest one of `meant`,
      presence `p` standing in where there is none. */
  ghost predicate SameLatest(p: bool, ran: seq<Order>, meant: seq<Order>, t: string) {
    && (forall i: nat, j: nat :: IsLatest(ran, t, i) && IsLatest(meant, t, j) ==> IsBlock(ran[i]) == IsBlock(meant[j]))
    && (Unaffected(ran, t) ==> forall j: nat :: IsLatest(meant, t, j) ==> IsBlock(meant[j]) == p)
    && (Unaffected(meant, t) ==> forall i: nat :: IsLatest(ran, t, i) ==> IsBlock(ran[i]) == p)
  }

  ghost predicate Unaffected(orders: seq<Order>, t: string) {
    forall o :: o in orders ==> !Affects(o, t)
  }

  lemma {:induction false} LatestExists(orders: seq<Order>, t: string) returns (i: nat)
    requires exists o :: o in orders && Affects(o, t)
    ensures IsLatest(orders, t, i)
  {
    hide Affects;
    var n := |orders| - 1;
    if Affects(orders[n], t) {
      i := n;
    } else {
      assert forall k :: 0 <= k < n ==> orders[..n][k] == orders[k];
      i := LatestExists(orders[..n], t);
    }
  }

  /** Carrying out any orders instead of the meant ones gives the meant outcome for a rule
      text exactly when the latest orders affecting it agree. */
  lemma SameOutcome(p: bool, ran: seq<Order>, meant: seq<Order>, t: string)
    ensures (LatestSays(p, ran, t) <==> LatestSays(p, meant, t)) <==> SameLatest(p, ran, meant, t)
  {
    hide Affects, LatestSays, IsLatest;
    Verdict(p, ran, t);
    Verdict(p, meant, t);
  }

  /** The verdict of a history, with or without an order that affects the text. */
  lemma Verdict(p: bool, orders: seq<Order>, t: string)
    ensures Unaffected(orders, t) ==> (LatestSays(p, orders, t) <==> p) && forall i: nat :: !IsLatest(orders, t, i)
    ensures !Unaffected(orders, t) ==> exists i: nat :: IsLatest(orders, t, i)
    ensures forall i: nat :: IsLatest(orders, t, i) ==> (LatestSays(p, orders, t) <==> IsBlock(orders[i]))
  {
    hide Affects;
    if Unaffected(orders, t) {
      forall i: nat ensures !IsLatest(orders, t, i) {
        assert i < |orders| ==> orders[i] in orders;
      }
    } else {
      var k := LatestExists(orders, t);
      LatestAlone(p, orders, t, k);
    }
  }

  lemma LatestAlone(p: bool, orders: seq<Order>, t: string, i: nat)
    requires IsLatest(orders, t, i)
    ensures LatestSays(p, orders, t) <==> IsBlock(orders[i])
    ensures forall k: nat :: IsLatest(orders, t, k) ==> k == i
  {
    assert orders[i] in orders;
  }

  lemma ReplaySame(p: bool, meant: seq<Order>, again: seq<Order>, t: string)
    requires forall o :: o in again ==> o in meant
    ensures SameLatest(p, meant + again, meant, t) <==>
            forall i: nat, j: nat :: IsLatest(again, t, i) && IsLatest(meant, t, j) ==> IsBlock(again[i]) == IsBlock(meant[j])
  {
    hide Affects;
    var ran := meant + again;
    forall i: nat | IsLatest(again, t, i) ensures IsLatest(ran, t, |meant| + i) {
      assert forall j :: |meant| + i < j < |ran| ==> ran[j] == again[j - |meant|];
    }
    if exists o :: o in again && Affects(o, t) {
      var i := LatestExists(again, t);
      LatestAlone(p, again, t, i);
      LatestAlone(p, ran, t, |meant| + i);
    } else {
      forall j: nat | IsLatest(meant, t, j) ensures IsLatest(ran, t, j) {
        assert forall k :: |meant| <= k < |ran| ==> ran[k] in again;
      }
      forall j: nat | IsLatest(meant, t, j)
        ensures meant[j] in ran && forall i: nat :: IsLatest(ran, t, i) ==> i == j
      {
        LatestAlone(p, ran, t, j);
      }
    }
    assert forall i: nat :: IsLatest(again, t, i) ==> again[i] in again;
  }
}
