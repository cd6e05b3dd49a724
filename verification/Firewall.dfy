/** The agent's firewall collector over the kernel's rule list (filter table only):
    reading the blocked sources out of `iptables-save`, and applying block and unblock
    commands by editing the list one `iptables` call at a time. */
module Firewall {
  import opened Text
  import opened Wrappers

  datatype Error =
    | Unavailable                 // the iptables process could not be run
    | BadAddress                  // iptables refused the source address
    | NoMatchingRule
    | DeleteFailed(rule: string)  // the last rule iptables would not delete
    | UnknownAction

  /** What a command reports back: the number of rules removed, or why it failed. */
  datatype Outcome = Completed(removed: nat) | Failed(error: Error)

  // ---------------------------------------------------------------------------
  // Rule lines
  // ---------------------------------------------------------------------------

  predicate IsDigit(c: char) { '0' <= c <= '9' }

  predicate IsOctet(p: string) {
    && 1 <= |p| <= 3
    && (forall i :: 0 <= i < |p| ==> IsDigit(p[i]))
    && (|p| > 1 ==> p[0] != '0')
    && (|p| == 3 ==> p[0] < '2' || (p[0] == '2' && (p[1] < '5' || (p[1] == '5' && p[2] <= '5'))))
  }

  /** A canonical dotted IPv4 address, the form iptables prints. */
  predicate IsAddress(ip: string) {
    var parts := Split(ip, {'.'});
    && |parts| == 4
    && (forall i :: 0 <= i < 4 ==> IsOctet(parts[i]))
    && (forall i :: 0 <= i < |ip| ==> IsDigit(ip[i]) || ip[i] == '.')
  }

  /** A rule as iptables-save prints it: `-A` first, single spaces between the words. */
  predicate IsRule(line: string) {
    "-A " <= line && Fields(line) != [] && Join(Fields(line), " ") == line
  }

  predicate IsDrop(line: string) {
    Contains(line, "-j DROP") || Contains(line, "-j REJECT")
  }

  /** A line holding a quoted argument cannot be replayed word by word as a delete. */
  predicate Deletable(line: string) {
    '"' !in line
  }

  /** The unblock filter: a DROP or REJECT rule whose text contains the address. */
  predicate Matches(line: string, ip: string) {
    "-A " <= line && Contains(line, ip) && IsDrop(line)
  }

  predicate Removable(line: string, ip: string) {
    Matches(line, ip) && Deletable(line)
  }

  function BlockWords(ip: string): seq<string> {
    ["-A", "INPUT", "-s", ip + "/32", "-j", "DROP"]
  }

  /** How iptables-save prints the rule that `-I INPUT -s ip -j DROP` inserts. */
  function BlockRule(ip: string): string {
    Join(BlockWords(ip), " ")
  }

  /** The arguments of the delete call built from a rule line. */
  function DeleteArgs(line: string): seq<string>
    requires |line| >= 3
  {
    Fields("-D " + line[3..])
  }

  // ---------------------------------------------------------------------------
  // Reading the blocked sources
  // ---------------------------------------------------------------------------

  function StripMask(s: string): string {
    if s != "" && s[0] == '/' then s else Split(s, {'/'})[0]
  }

  /** The argument of the first `-s` that has one, without its mask. */
  function SourceArg(parts: seq<string>): Option<string> {
    if |parts| < 2 then None
    else if parts[0] == "-s" then Some(StripMask(parts[1]))
    else SourceArg(parts[1..])
  }

  predicate Reportable(ip: string) {
    ip != "0.0.0.0" && !("127." <= ip)
  }

  /** The source that a line contributes to the blocked list, if any. */
  function Reported(line: string): Option<string> {
    var trimmed := TrimSpace(line);
    if "-A " <= trimmed && IsDrop(trimmed) then
      match SourceArg(Fields(trimmed))
      case None => None
      case Some(ip) => if Reportable(ip) then Some(ip) else None
    else None
  }

  /** Reported sources in order of first appearance, each once. */
  function Collected(lines: seq<string>): seq<string> {
    if lines == [] then []
    else
      var before := Collected(lines[..|lines| - 1]);
      match Reported(lines[|lines| - 1])
      case None => before
      case Some(ip) => if ip in before then before else before + [ip]
  }

  /** The collected list holds exactly the reported sources, each of them once. */
  lemma {:induction false} CollectedExact(lines: seq<string>)
    ensures forall ip :: ip in Collected(lines) <==> exists r :: r in lines && Reported(r) == Some(ip)
    ensures forall i, j :: 0 <= i < j < |Collected(lines)| ==> Collected(lines)[i] != Collected(lines)[j]
  {
    if lines != [] {
      var init, last := lines[..|lines| - 1], lines[|lines| - 1];
      CollectedExact(init);
      assert lines == init + [last];
    }
  }

  lemma {:induction false} CollectedSkips(a: seq<string>, b: seq<string>)
    requires forall r :: r in b ==> Reported(r) == None
    ensures Collected(a + b) == Collected(a)
  {
    if b == [] {
      assert a + b == a;
    } else {
      var init := b[..|b| - 1];
      CollectedSkips(a, init);
      assert (a + b)[..|a + b| - 1] == a + init;
      assert (a + b)[|a + b| - 1] == b[|b| - 1] && b[|b| - 1] in b;
    }
  }

  lemma {:induction false} CollectedDropsHeader(a: seq<string>, b: seq<string>)
    requires forall r :: r in a ==> Reported(r) == None
    ensures Collected(a + b) == Collected(b)
  {
    if b == [] {
      CollectedSkips([], a);
      assert a + b == [] + a;
    } else {
      CollectedDropsHeader(a, b[..|b| - 1]);
      assert (a + b)[..|a + b| - 1] == a + b[..|b| - 1];
    }
  }

  // ---------------------------------------------------------------------------
  // Editing the rule list
  // ---------------------------------------------------------------------------

  /** The rules an unblock of `ip` leaves behind, in order. */
  function Kept(rules: seq<string>, ip: string): seq<string> {
    if rules == [] then []
    else (if Removable(rules[0], ip) then [] else [rules[0]]) + Kept(rules[1..], ip)
  }

  /** The last matching rule iptables refuses to delete. */
  function LastStuck(rules: seq<string>, ip: string): Option<string> {
    if rules == [] then None
    else
      var last := rules[|rules| - 1];
      if Matches(last, ip) && !Deletable(last) then Some(last)
      else LastStuck(rules[..|rules| - 1], ip)
  }

  function UnblockOutcome(removed: int, stuck: Option<string>): Outcome {
    if removed > 0 then Completed(removed)
    else match stuck
         case Some(r) => Failed(DeleteFailed(r))
         case None => Failed(NoMatchingRule)
  }

  /** The rule list after a command and what the command reports. */
  function Execute(rules: seq<string>, action: string, ip: string): (seq<string>, Outcome) {
    if action == "block_ip" then
      if IsAddress(ip) then ([BlockRule(ip)] + rules, Completed(0)) else (rules, Failed(BadAddress))
    else if action == "unblock_ip" then
      var kept := Kept(rules, ip);
      var removed := |rules| - |kept|;
      (kept, UnblockOutcome(removed, LastStuck(rules, ip)))
    else (rules, Failed(UnknownAction))
  }

  /** The same when the iptables processes may fail to run at all. */
  function ExecuteIf(available: bool, rules: seq<string>, action: string, ip: string): (seq<string>, Outcome) {
    if action in ["block_ip", "unblock_ip"] && !available then (rules, Failed(Unavailable))
    else Execute(rules, action, ip)
  }

  lemma {:induction false} KeptAppend(a: seq<string>, b: seq<string>, ip: string)
    ensures Kept(a + b, ip) == Kept(a, ip) + Kept(b, ip)
  {
    hide Removable;
    if a == [] {
      assert a + b == b;
    } else {
      KeptAppend(a[1..], b, ip);
      assert (a + b)[1..] == a[1..] + b && (a + b)[0] == a[0];
      var first := if Removable(a[0], ip) then [] else [a[0]];
      assert Kept(a + b, ip) == first + (Kept(a[1..], ip) + Kept(b, ip));
    }
  }

  /** An unblock removes every copy of every removable rule and nothing else: the count
      of each rule text is either untouched or brought to zero. */
  lemma {:induction false} KeptCounts(rules: seq<string>, ip: string)
    ensures forall r :: multiset(Kept(rules, ip))[r] == if Removable(r, ip) then 0 else multiset(rules)[r]
    ensures |Kept(rules, ip)| <= |rules|
  {
    if rules != [] {
      KeptCounts(rules[1..], ip);
      assert rules == [rules[0]] + rules[1..];
    }
  }

  lemma {:induction false} KeptMembers(rules: seq<string>, ip: string)
    ensures forall r :: r in Kept(rules, ip) <==> r in rules && !Removable(r, ip)
  {
    KeptCounts(rules, ip);
    forall r ensures r in Kept(rules, ip) <==> r in rules && !Removable(r, ip) {
      assert r in Kept(rules, ip) <==> multiset(Kept(rules, ip))[r] > 0;
      assert r in rules <==> multiset(rules)[r] > 0;
    }
  }

  // ---------------------------------------------------------------------------
  // Facts about rule lines
  // ---------------------------------------------------------------------------

  lemma AddressFree(ip: string)
    requires IsAddress(ip)
    ensures ip != "" && Free(ip, WHITESPACE) && Free(ip, {'/', '"', '\n'})
    ensures Free(ip + "/32", WHITESPACE)
  {
    assert forall c :: IsDigit(c) || c == '.' ==> c !in WHITESPACE;
  }

  lemma BlockRuleText(ip: string)
    ensures BlockRule(ip) == "-A INPUT -s " + ip + "/32 -j DROP"
  {
    hide Join;
    var tail := ["-j", "DROP"];
    var src := [ip + "/32"] + tail;
    TargetText();
    JoinCons(ip + "/32", tail, " ");
    JoinCons("-s", src, " ");
    JoinCons("INPUT", ["-s"] + src, " ");
    JoinCons("-A", ["INPUT"] + (["-s"] + src), " ");
    assert BlockWords(ip) == ["-A"] + (["INPUT"] + (["-s"] + src));
    assert Join(src, " ") == ip + "/32 -j DROP";
    assert Join(["-s"] + src, " ") == "-s " + ip + "/32 -j DROP";
    assert Join(["INPUT"] + (["-s"] + src), " ") == "INPUT -s " + ip + "/32 -j DROP";
  }

  lemma TargetText()
    ensures Join(["-j", "DROP"], " ") == "-j DROP"
  {
    JoinCons("-j", ["DROP"], " ");
    assert ["-j"] + ["DROP"] == ["-j", "DROP"];
  }

  /** A block inserts a canonical, deletable DROP rule that is read back as its address
      and that an unblock of the same address removes. */
  lemma BlockRuleReadBack(ip: string)
    requires IsAddress(ip)
    ensures IsRule(BlockRule(ip)) && Fields(BlockRule(ip)) == BlockWords(ip)
    ensures IsDrop(BlockRule(ip)) && SourceArg(Fields(BlockRule(ip))) == Some(ip)
    ensures Removable(BlockRule(ip), ip)
  {
    hide Join, Fields, IsAddress, Removable, SourceArg;
    AddressFree(ip);
    var rule, w := BlockRule(ip), BlockWords(ip);
    assert forall i :: 0 <= i < |w| ==> w[i] != "" && Free(w[i], WHITESPACE);
    FieldsJoin(w);
    SourceAt(w, ip);
    BlockRuleRemovable(ip);
  }

  lemma BlockRuleRemovable(ip: string)
    requires IsAddress(ip)
    ensures Removable(BlockRule(ip), ip) && IsDrop(BlockRule(ip)) && "-A " <= BlockRule(ip)
  {
    hide BlockRule, Contains, IsAddress;
    AddressFree(ip);
    BlockRuleText(ip);
    var rule := BlockRule(ip);
    ContainsMiddle("-A INPUT -s " + ip + "/32 ", "-j DROP", "");
    assert rule == ("-A INPUT -s " + ip + "/32 ") + "-j DROP" + "";
    ContainsMiddle("-A INPUT -s ", ip, "/32 -j DROP");
    assert "-A " == rule[..3];
  }

  /** Words joined by single spaces make a rule line that is read back as the same words. */
  lemma RuleText(w: seq<string>)
    requires |w| >= 2 && w[0] == "-A" && forall i :: 0 <= i < |w| ==> w[i] != "" && Free(w[i], WHITESPACE)
    ensures IsRule(Join(w, " ")) && Fields(Join(w, " ")) == w
  {
    hide Join, Fields, Free;
    FieldsJoin(w);
    JoinCons("-A", w[1..], " ");
    assert ["-A"] + w[1..] == w;
    assert Join(w, " ")[..3] == "-A ";
  }

  lemma BlockRuleReported(ip: string)
    requires IsAddress(ip)
    ensures Reported(BlockRule(ip)) == if Reportable(ip) then Some(ip) else None
  {
    BlockRuleReadBack(ip);
    RuleShape(BlockRule(ip));
  }

  lemma SourceAt(w: seq<string>, ip: string)
    requires |w| >= 4 && ip != "" && Free(ip, {'/'})
    requires w[0] != "-s" && w[1] != "-s" && w[2] == "-s" && w[3] == ip + "/32"
    ensures SourceArg(w) == Some(ip)
  {
    SplitWord(ip, '/', "32", {'/'});
    assert ip + ['/'] + "32" == ip + "/32";
    assert StripMask(w[3]) == ip;
    assert SourceArg(w[2..]) == Some(ip);
    assert w[1..][1..] == w[2..];
    assert SourceArg(w[1..]) == Some(ip);
  }

  lemma {:induction false} JoinedEnds(words: seq<string>)
    requires |words| >= 1
    requires forall i :: 0 <= i < |words| ==> words[i] != "" && Free(words[i], WHITESPACE)
    ensures var s := Join(words, " ");
            s != "" && s[|s| - 1] !in WHITESPACE && s[0] !in WHITESPACE && Free(s, {'\n'})
  {
    if |words| > 1 {
      JoinedEnds(words[1..]);
    }
  }

  /** A rule line is its own trimmed form and holds no line break. */
  lemma RuleShape(r: string)
    requires IsRule(r)
    ensures TrimSpace(r) == r && Free(r, {'\n'})
  {
    var w := Fields(r);
    forall i | 0 <= i < |w| ensures w[i] != "" && Free(w[i], WHITESPACE) {
      FieldOccurs(r, w[i]);
    }
    JoinedEnds(w);
    TrimNothing(r);
  }

  lemma RuleFields(r: string)
    requires IsRule(r)
    ensures Fields(r) == ["-A"] + Fields(r[3..])
    ensures DeleteArgs(r) == ["-D"] + Fields(r[3..])
  {
    SplitWord("-A", ' ', r[3..], WHITESPACE);
    SplitWord("-D", ' ', r[3..], WHITESPACE);
    assert r == "-A" + [' '] + r[3..];
    assert "-D " + r[3..] == "-D" + [' '] + r[3..];
  }

  /** Two rules with the same delete call are the same rule. */
  lemma DeleteArgsInjective(r: string, q: string)
    requires IsRule(r) && IsRule(q) && DeleteArgs(r) == DeleteArgs(q)
    ensures r == q
  {
    RuleFields(r);
    RuleFields(q);
    assert (["-D"] + Fields(r[3..]))[1..] == Fields(r[3..]);
    assert (["-D"] + Fields(q[3..]))[1..] == Fields(q[3..]);
  }

  lemma {:induction false} SourceIsField(parts: seq<string>)
    requires SourceArg(parts).Some?
    ensures exists w :: w in parts && SourceArg(parts).value == StripMask(w)
  {
    if parts[0] != "-s" {
      SourceIsField(parts[1..]);
    }
  }

  lemma SourceOccurs(r: string, ip: string)
    requires SourceArg(Fields(r)) == Some(ip)
    ensures Contains(r, ip)
  {
    hide SourceArg, Fields;
    SourceIsField(Fields(r));
    var w :| w in Fields(r) && StripMask(w) == ip;
    FieldOccurs(r, w);
    SplitPieces(w, {'/'}, 0);
    assert ip <= w;
    ContainsMiddle("", ip, w[|ip|..]);
    assert w == "" + ip + w[|ip|..];
    ContainsTrans(r, w, ip);
  }

  /** The source a rule is reported under occurs in its text, so an unblock of that
      source matches the rule. */
  lemma ReportedOccurs(r: string, ip: string)
    requires IsRule(r) && Reported(r) == Some(ip)
    ensures Matches(r, ip)
  {
    hide IsDrop, Fields, SourceArg;
    RuleShape(r);
    SourceOccurs(r, ip);
  }

  /** WHAT AN UNBLOCK LIFTS. After an unblock of one address another (or the same) is still
      reported exactly when some rule reported under it does not name the unblocked address
      anywhere in its text, or holds a quoted argument, which no word-by-word delete can
      name. */
  lemma UnblockReach(rules: seq<string>, ip: string, other: string)
    requires AreRules(rules)
    ensures other in Collected(Kept(rules, ip)) <==>
            exists r :: r in rules && Reported(r) == Some(other) && !(Contains(r, ip) && Deletable(r))
  {
    hide Contains, Fields, SourceArg, Deletable;
    CollectedExact(Kept(rules, ip));
    KeptMembers(rules, ip);
    forall r | r in rules && Reported(r) == Some(other)
      ensures Removable(r, ip) <==> Contains(r, ip) && Deletable(r)
    {
      ReportedOccurs(r, other);
    }
  }

  /** The unblocked address itself is still reported exactly when a quoted rule reports it. */
  lemma UnblockedSource(rules: seq<string>, ip: string)
    requires AreRules(rules)
    ensures ip in Collected(Kept(rules, ip)) <==>
            exists r :: r in rules && Reported(r) == Some(ip) && !Deletable(r)
  {
    hide Reported, Deletable;
    UnblockReach(rules, ip, ip);
    forall r | r in rules && Reported(r) == Some(ip) ensures Contains(r, ip) {
      ReportedOccurs(r, ip);
    }
  }

  /** Another address stops being reported exactly when every rule reported under it names
      the unblocked address and can be deleted. */
  ghost predicate LiftedToo(rules: seq<string>, ip: string, other: string) {
    forall r :: r in rules && Reported(r) == Some(other) ==> Contains(r, ip) && Deletable(r)
  }

  /** EXACTLY WHEN THE LIST IS AS MEANT. An unblock takes the one address off the reported
      list, and no other, if and only if no rule reported under it holds a quoted argument
      and every other reported address has a rule that is quoted or does not name it. */
  lemma UnblockListAsMeant(rules: seq<string>, ip: string)
    requires AreRules(rules)
    ensures (forall other :: other in Collected(Kept(rules, ip)) <==> other in Collected(rules) && other != ip) <==>
            && (forall r :: r in rules && Reported(r) == Some(ip) ==> Deletable(r))
            && (forall other :: other in Collected(rules) && other != ip ==> !LiftedToo(rules, ip, other))
  {
    hide Reported, Deletable, Contains, Collected, Kept;
    CollectedExact(rules);
    UnblockedSource(rules, ip);
    forall other ensures other in Collected(Kept(rules, ip)) <==> other in Collected(rules) && !LiftedToo(rules, ip, other) {
      UnblockReach(rules, ip, other);
    }
  }

  /** The rules left when every rule that drops the address, and no other, is removed. */
  function WithoutDropsOf(rules: seq<string>, ip: string): seq<string> {
    if rules == [] then []
    else (if Dropped(rules[0]) == Some(ip) then [] else [rules[0]]) + WithoutDropsOf(rules[1..], ip)
  }

  lemma {:induction false} WithoutCounts(rules: seq<string>, ip: string)
    ensures forall r :: multiset(WithoutDropsOf(rules, ip))[r] == if Dropped(r) == Some(ip) then 0 else multiset(rules)[r]
  {
    hide Dropped;
    if rules != [] {
      WithoutCounts(rules[1..], ip);
      assert rules == [rules[0]] + rules[1..];
    }
  }

  lemma {:induction false} SameFilter(rules: seq<string>, ip: string)
    requires forall r :: r in rules ==> (Removable(r, ip) <==> Dropped(r) == Some(ip))
    ensures Kept(rules, ip) == WithoutDropsOf(rules, ip)
  {
    hide Removable, Dropped;
    if rules != [] {
      assert rules[0] in rules;
      SameFilter(rules[1..], ip);
    }
  }

  lemma DroppedMatches(r: string, ip: string)
    requires IsRule(r) && IsAddress(ip) && Dropped(r) == Some(ip)
    ensures Matches(r, ip)
  {
    hide Contains, IsAddress, IsDrop, SourceOf, ReallyDrops, Fields, Join;
    AddressFree(ip);
    DropNamed(r);
    SourceNamed(r, ip);
  }

  /** EXACTLY WHEN THE RULES ARE AS MEANT. An unblock removes every rule that drops the
      address, in whatever chain, and nothing else, if and only if no such rule holds a quoted
      argument and every removable DROP or REJECT rule that names the address drops it. */
  lemma UnblockAsMeant(rules: seq<string>, ip: string)
    requires AreRules(rules) && IsAddress(ip)
    ensures Kept(rules, ip) == WithoutDropsOf(rules, ip) <==>
            forall r :: r in rules ==>
              (Dropped(r) == Some(ip) ==> Deletable(r)) && (Removable(r, ip) ==> Dropped(r) == Some(ip))
  {
    hide IsAddress, Dropped, Matches, Deletable, IsRule, Kept, WithoutDropsOf;
    forall r | r in rules && Dropped(r) == Some(ip) ensures Matches(r, ip) {
      DroppedMatches(r, ip);
    }
    if Kept(rules, ip) == WithoutDropsOf(rules, ip) {
      KeptCounts(rules, ip);
      WithoutCounts(rules, ip);
      forall r | r in rules ensures Removable(r, ip) <==> Dropped(r) == Some(ip) {
        assert multiset(rules)[r] > 0;
        assert multiset(Kept(rules, ip))[r] == multiset(WithoutDropsOf(rules, ip))[r];
      }
    } else if forall r :: r in rules ==> (Removable(r, ip) <==> Dropped(r) == Some(ip)) {
      SameFilter(rules, ip);
      assert false;
    }
  }

  /** A concrete case: among the rules that blocks insert, unblocking one address also removes
      those of every address whose text contains it (1.2.3.4 and 11.2.3.45), and no others. */
  lemma BlockRuleReach(ip: string, other: string)
    requires IsAddress(ip) && IsAddress(other)
    ensures Kept([BlockRule(other)], ip) == (if Contains(other, ip) then [] else [BlockRule(other)])
  {
    BlockRuleReadBack(other);
    BlockRuleText(other);
    var front, back := "-A INPUT -s ", "/32 -j DROP";
    if Contains(other, ip) {
      ContainsMiddle(front, other, back);
      ContainsTrans(BlockRule(other), other, ip);
    } else if Contains(BlockRule(other), ip) {
      var p, q := ContainsWitness(front + other + back, ip);
      HasDot(ip);
      OccursInside(front, other, back, p, ip, q);
      assert false;
    }
    assert Kept([BlockRule(other)], ip) == if Removable(BlockRule(other), ip) then [] else [BlockRule(other)];
  }

  function DestinationRule(other: string, ip: string): string {
    Join(["-A", "FORWARD", "-s", other + "/32", "-d", ip + "/32", "-j", "DROP"], " ")
  }

  lemma DestinationRuleText(other: string, ip: string)
    requires IsAddress(ip) && IsAddress(other)
    ensures var rule := DestinationRule(other, ip);
            && IsRule(rule) && Fields(rule) == ["-A", "FORWARD", "-s", other + "/32", "-d", ip + "/32", "-j", "DROP"]
            && IsDrop(rule) && Contains(rule, ip) && Deletable(rule)
  {
    hide Join, Fields, IsAddress, Contains;
    var w := ["-A", "FORWARD", "-s", other + "/32", "-d", ip + "/32", "-j", "DROP"];
    AddressFree(ip);
    AddressFree(other);
    assert forall i :: 0 <= i < |w| ==> Plain(w[i]);
    RuleText(w);
    QuoteFreeJoin(w);
    JoinedPair(w, 6);
    assert w[6] + " " + w[7] == "-j DROP";
    JoinedPair(w, 4);
    var pair := w[4] + " " + w[5];
    assert pair == "-d " + ip + "/32";
    ContainsMiddle("-d ", ip, "/32");
    ContainsTrans(DestinationRule(other, ip), pair, ip);
  }

  /** Another: a rule about traffic from one address to the unblocked one goes as well. */
  lemma DestinationRuleRemoved(ip: string, other: string)
    requires IsAddress(ip) && IsAddress(other) && Reportable(other)
    ensures IsRule(DestinationRule(other, ip)) && Reported(DestinationRule(other, ip)) == Some(other)
    ensures Kept([DestinationRule(other, ip)], ip) == []
  {
    hide DestinationRule, Fields, IsAddress, Contains, Reportable, IsDrop, Deletable, StripMask;
    var rule := DestinationRule(other, ip);
    AddressFree(other);
    DestinationRuleText(other, ip);
    SourceAt(Fields(rule), other);
    ReportedNoticed(rule);
    assert Kept([rule], ip) == if Removable(rule, ip) then [] else [rule];
  }

  lemma HasDot(ip: string)
    requires IsAddress(ip)
    ensures '.' in ip
  {
    if '.' !in ip {
      SplitLast(ip, {'.'});
    }
  }

  lemma OccursInside(front: string, x: string, back: string, p: string, t: string, q: string)
    requires front == "-A INPUT -s " && back == "/32 -j DROP"
    requires front + x + back == p + t + q && '.' in t
    requires forall c :: c in t ==> IsDigit(c) || c == '.'
    ensures Contains(x, t)
  {
    hide Contains;
    OccursBetween(front, x, back, p, t, q);
    var k := |p| - |front|;
    var s := front + x + back;
    assert t == s[|p|..|p| + |t|] == x[k..k + |t|];
    ContainsMiddle(x[..k], t, x[k + |t|..]);
    assert x == x[..k] + t + x[k + |t|..];
  }

  lemma OccursBetween(front: string, x: string, back: string, p: string, t: string, q: string)
    requires front == "-A INPUT -s " && back == "/32 -j DROP"
    requires front + x + back == p + t + q && '.' in t
    requires forall c :: c in t ==> IsDigit(c) || c == '.'
    ensures |front| <= |p| && |p| + |t| <= |front| + |x|
  {
    var s := front + x + back;
    var d :| 0 <= d < |t| && t[d] == '.';
    forall j | |p| <= j < |p| + |t| ensures s[j] == t[j - |p|] && (IsDigit(s[j]) || s[j] == '.') {
      assert s[j] == t[j - |p|] && t[j - |p|] in t;
    }
    var b := |front| + |x|;
    assert s[|p| + d] == '.';
    assert forall j :: 0 <= j < |front| ==> s[j] == front[j] && s[j] != '.';
    assert forall j :: b <= j < |s| ==> s[j] == back[j - b] && s[j] != '.';
    assert s[|front| - 1] == ' ' && s[b] == '/';
  }

  // ---------------------------------------------------------------------------
  // What a rule says, read independently of the text tests
  // ---------------------------------------------------------------------------

  /** What follows the closing quote; a backslash protects the next character. */
  function AfterQuote(s: string): (rest: string)
    ensures |rest| <= |s|
  {
    if s == [] then []
    else if s[0] == '"' then s[1..]
    else if s[0] == '\\' && |s| >= 2 then AfterQuote(s[2..])
    else AfterQuote(s[1..])
  }

  /** The line with every quoted text reduced to a single quote character. */
  function Blanked(s: string): string
    decreases |s|
  {
    if s == [] then []
    else if s[0] == '"' then ['"'] + Blanked(AfterQuote(s[1..]))
    else [s[0]] + Blanked(s[1..])
  }

  /** The words of a rule as iptables understands them: a quoted text is never a flag. */
  function Words(line: string): seq<string> {
    Split(Blanked(line), {' '})
  }

  /** Position of the first occurrence of a flag that has an argument, or the number of words. */
  function FlagIndex(words: seq<string>, flag: string): (i: nat)
    ensures i <= |words|
    ensures i < |words| ==> i + 1 < |words| && words[i] == flag
    ensures forall j :: 0 <= j < i && j + 1 < |words| ==> words[j] != flag
  {
    if |words| < 2 then |words|
    else if words[0] == flag then 0
    else 1 + FlagIndex(words[1..], flag)
  }

  function FlagArg(words: seq<string>, flag: string): Option<string> {
    var i := FlagIndex(words, flag);
    if i == |words| then None else Some(words[i + 1])
  }

  /** The source match of a rule: the address, whether a `!` negates it, and whether its mask
      admits more than that one address. */
  datatype Source = Source(ip: string, negated: bool, wide: bool)

  function SourceOf(line: string): Option<Source> {
    var words := Words(line);
    var i := FlagIndex(words, "-s");
    if i == |words| then None
    else
      var ip := StripMask(words[i + 1]);
      Some(Source(ip, i > 0 && words[i - 1] == "!", words[i + 1] != ip && words[i + 1] != ip + "/32"))
  }

  /** The rule's target is DROP or REJECT. */
  predicate ReallyDrops(line: string) {
    FlagArg(Words(line), "-j") in {Some("DROP"), Some("REJECT")}
  }

  /** The one address whose packets the rule drops, if it drops those of a single reportable
      address. Further conditions such as a port may narrow the rule; the collector means to
      report it all the same. */
  function Dropped(line: string): Option<string> {
    match SourceOf(line)
    case None => None
    case Some(src) =>
      if ReallyDrops(line) && !src.negated && !src.wide && Reportable(src.ip) then Some(src.ip) else None
  }

  /** The reader finds a reportable source in a line that names DROP or REJECT. */
  predicate Noticed(line: string) {
    IsDrop(line) && SourceArg(Fields(line)).Some? && Reportable(SourceArg(Fields(line)).value)
  }

  /** The first `-s` among the words is not the rule's source match: it stands in a quoted text. */
  predicate SourceQuoted(line: string) {
    SourceArg(Fields(line)) != match SourceOf(line) case None => None case Some(src) => Some(src.ip)
  }

  /** The target is only named in the text: a chain such as DROPLOG, or a quoted comment. */
  predicate TargetOnlyNamed(line: string) {
    IsDrop(line) && !ReallyDrops(line)
  }

  predicate OtherSources(line: string) {
    SourceOf(line).Some? && (SourceOf(line).value.negated || SourceOf(line).value.wide)
  }

  /** The four ways in which the reader goes wrong about a rule: its source is negated or
      wider than one address, its target is only named in the text, or the `-s` that was read
      stands in a quoted text (which may also hide the real source). */
  predicate Misread(line: string) {
    || (Noticed(line) && (OtherSources(line) || TargetOnlyNamed(line) || SourceQuoted(line)))
    || (Dropped(line).Some? && SourceQuoted(line))
  }

  lemma {:induction false} SourceAtIndex(words: seq<string>)
    ensures SourceArg(words) == match FlagArg(words, "-s") case None => None case Some(arg) => Some(StripMask(arg))
  {
    if |words| >= 2 && words[0] != "-s" {
      SourceAtIndex(words[1..]);
    }
  }

  lemma {:induction false} AfterQuoteInside(s: string, t: string)
    requires Contains(AfterQuote(s), t)
    ensures Contains(s, t)
  {
    if s != [] && s[0] != '"' {
      if s[0] == '\\' && |s| >= 2 {
        AfterQuoteInside(s[2..], t);
        assert s[1..][1..] == s[2..];
      } else {
        AfterQuoteInside(s[1..], t);
      }
    }
  }

  lemma {:induction false} BlankedPrefix(s: string, t: string)
    requires Deletable(t) && t <= Blanked(s)
    ensures t <= s
    decreases |s|
  {
    if t != [] {
      assert t[0] == Blanked(s)[0];
      assert s[0] != '"';
      assert Blanked(s)[1..] == Blanked(s[1..]);
      BlankedPrefix(s[1..], t[1..]);
    }
  }

  /** A text without quotes that survives the blanking stands in the line. */
  lemma {:induction false} BlankedInside(s: string, t: string)
    requires Deletable(t) && t != [] && Contains(Blanked(s), t)
    ensures Contains(s, t)
    decreases |s|
  {
    if t <= Blanked(s) {
      BlankedPrefix(s, t);
    } else if s[0] == '"' {
      assert Blanked(s)[1..] == Blanked(AfterQuote(s[1..]));
      BlankedInside(AfterQuote(s[1..]), t);
      AfterQuoteInside(s[1..], t);
    } else {
      assert Blanked(s)[1..] == Blanked(s[1..]);
      BlankedInside(s[1..], t);
    }
  }

  lemma {:induction false} BlankedSame(s: string)
    requires Deletable(s)
    ensures Blanked(s) == s
  {
    if s != [] { BlankedSame(s[1..]); }
  }

  lemma JoinedPair(words: seq<string>, i: nat)
    requires i + 1 < |words|
    ensures Contains(Join(words, " "), words[i] + " " + words[i + 1])
  {
    hide Contains, Join;
    JoinSuffix(words, " ", i);
    var rest, pair := words[i..], words[i] + " " + words[i + 1];
    assert rest[..2] == [words[i]] + [words[i + 1]];
    JoinAppend([words[i]], [words[i + 1]]);
    JoinOne(words[i]);
    JoinOne(words[i + 1]);
    var more := if |rest| == 2 then "" else " " + Join(rest[2..], " ");
    if |rest| == 2 { assert rest == rest[..2]; } else { JoinAppend(rest[..2], rest[2..]); assert rest == rest[..2] + rest[2..]; }
    assert Join(rest, " ") == "" + pair + more;
    ContainsMiddle("", pair, more);
    ContainsTrans(Join(words, " "), Join(rest, " "), pair);
  }

  /** A rule that really drops says so in its text. */
  lemma DropNamed(line: string)
    requires ReallyDrops(line)
    ensures IsDrop(line)
  {
    hide Contains, Split, Join, Blanked;
    var words, i := Words(line), FlagIndex(Words(line), "-j");
    JoinSplit(Blanked(line), ' ');
    JoinedPair(words, i);
    var pair := words[i] + " " + words[i + 1];
    assert pair == "-j DROP" || pair == "-j REJECT";
    BlankedInside(line, pair);
  }

  /** The address of the source match stands in the text. */
  lemma SourceNamed(line: string, ip: string)
    requires SourceOf(line).Some? && SourceOf(line).value.ip == ip && ip != "" && Deletable(ip)
    ensures Contains(line, ip)
  {
    hide Contains, Split, Blanked;
    var words, i := Words(line), FlagIndex(Words(line), "-s");
    var arg := words[i + 1];
    SplitPieces(Blanked(line), {' '}, i + 1);
    SplitPieces(arg, {'/'}, 0);
    assert ip <= arg;
    ContainsMiddle("", ip, arg[|ip|..]);
    assert arg == "" + ip + arg[|ip|..];
    ContainsTrans(Blanked(line), arg, ip);
    BlankedInside(line, ip);
  }

  lemma ReportedNoticed(line: string)
    requires IsRule(line)
    ensures Reported(line) == if Noticed(line) then SourceArg(Fields(line)) else None
  {
    hide Fields, IsDrop, SourceArg, Reportable;
    RuleShape(line);
  }

  /** EXACTLY WHEN. What the reader reports of a rule is the address the rule drops, for
      every rule but those misread. */
  lemma ReportedTruthful(line: string)
    requires IsRule(line)
    ensures Reported(line) == Dropped(line) <==> !Misread(line)
  {
    hide Fields, IsDrop, SourceArg, Reportable, ReallyDrops, SourceOf, IsRule;
    ReportedNoticed(line);
    if ReallyDrops(line) { DropNamed(line); }
  }

  /** Without quotes only the first three ways remain. */
  lemma UnquotedReading(line: string)
    requires IsRule(line) && Deletable(line)
    ensures !SourceQuoted(line)
    ensures Misread(line) <==> Noticed(line) && (OtherSources(line) || TargetOnlyNamed(line))
  {
    hide Split, Join, IsDrop, Reportable, ReallyDrops, StripMask, Contains;
    BlankedSame(line);
    var words := Fields(line);
    forall i | 0 <= i < |words| ensures Free(words[i], {' '}) {
      FieldOccurs(line, words[i]);
    }
    SplitJoin(words, ' ', {' '});
    SourceAtIndex(words);
  }

  /** The collected list is right about an address exactly when every misread rule reported
      under it stands beside a rule that drops it, and every misread rule that drops it
      beside a rule reported under it. */
  lemma CollectedTruthful(rules: seq<string>, ip: string)
    requires AreRules(rules)
    ensures (ip in Collected(rules) <==> exists r :: r in rules && Dropped(r) == Some(ip)) <==>
            && ((exists r :: r in rules && Misread(r) && Reported(r) == Some(ip)) ==>
                  exists r :: r in rules && Dropped(r) == Some(ip))
            && ((exists r :: r in rules && Misread(r) && Dropped(r) == Some(ip)) ==>
                  exists r :: r in rules && Reported(r) == Some(ip))
  {
    hide Reported, Dropped, Misread;
    CollectedExact(rules);
    forall r | r in rules ensures Reported(r) == Dropped(r) <==> !Misread(r) {
      ReportedTruthful(r);
    }
  }

  // ---------------------------------------------------------------------------
  // Which addresses a block accepts
  // ---------------------------------------------------------------------------

  lemma OctetDigits(n: nat)
    requires n < 256
    ensures IsOctet(Decimal(n))
  {
    var d := Decimal(n);
    if n < 10 {
      assert d == [('0' as int + n) as char];
    } else if n < 100 {
      assert Decimal(n / 10) == [('0' as int + n / 10) as char];
      assert d == [('0' as int + n / 10) as char, ('0' as int + n % 10) as char];
    } else {
      assert Decimal(n / 10 / 10) == [('0' as int + n / 100) as char];
      assert Decimal(n / 10) == [('0' as int + n / 100) as char, ('0' as int + n / 10 % 10) as char];
      assert d == [('0' as int + n / 100) as char, ('0' as int + n / 10 % 10) as char, ('0' as int + n % 10) as char];
    }
  }

  function Digit(c: char): int {
    c as int - '0' as int
  }

  lemma OctetNumber(p: string) returns (n: nat)
    requires IsOctet(p)
    ensures n < 256 && p == Decimal(n)
  {
    if |p| == 1 {
      n := Digit(p[0]);
    } else if |p| == 2 {
      n := 10 * Digit(p[0]) + Digit(p[1]);
      assert Decimal(n / 10) == [p[0]];
    } else {
      n := 100 * Digit(p[0]) + 10 * Digit(p[1]) + Digit(p[2]);
      assert Decimal(n / 100) == [p[0]] && n / 10 / 10 == n / 100;
      assert Decimal(n / 10) == [p[0], p[1]];
    }
  }

  /** The dotted form of four numbers. */
  function Dotted(a: nat, b: nat, c: nat, d: nat): string {
    Decimal(a) + "." + (Decimal(b) + "." + (Decimal(c) + "." + Decimal(d)))
  }

  /** A block accepts exactly the dotted decimal forms of four numbers below 256. */
  lemma AddressMeans(ip: string)
    ensures IsAddress(ip) <==> exists a: nat, b: nat, c: nat, d: nat :: a < 256 && b < 256 && c < 256 && d < 256 && ip == Dotted(a, b, c, d)
  {
    hide IsOctet, Split, Decimal;
    if IsAddress(ip) {
      var parts := Split(ip, {'.'});
      var a := OctetNumber(parts[0]);
      var b := OctetNumber(parts[1]);
      var c := OctetNumber(parts[2]);
      var d := OctetNumber(parts[3]);
      JoinSplit(ip, '.');
      JoinFour(parts[0], parts[1], parts[2], parts[3]);
      assert parts == [parts[0], parts[1], parts[2], parts[3]];
      assert ip == Dotted(a, b, c, d);
    }
    forall a: nat, b: nat, c: nat, d: nat | a < 256 && b < 256 && c < 256 && d < 256 && ip == Dotted(a, b, c, d)
      ensures IsAddress(ip)
    {
      DottedAddress(a, b, c, d);
    }
  }

  lemma JoinFour(a: string, b: string, c: string, d: string)
    ensures Join([a, b, c, d], ".") == a + "." + (b + "." + (c + "." + d))
  {
    hide Join;
    JoinCons(c, [d], ".");
    JoinCons(b, [c, d], ".");
    JoinCons(a, [b, c, d], ".");
    assert [c] + [d] == [c, d] && [b] + [c, d] == [b, c, d] && [a] + [b, c, d] == [a, b, c, d];
    assert Join([d], ".") == d by { JoinSingle(d); }
  }

  lemma JoinSingle(d: string)
    ensures Join([d], ".") == d
  {
  }

  lemma DottedAddress(a: nat, b: nat, c: nat, d: nat)
    requires a < 256 && b < 256 && c < 256 && d < 256
    ensures IsAddress(Dotted(a, b, c, d))
  {
    hide Split, Join, Decimal, IsOctet;
    var parts := [Decimal(a), Decimal(b), Decimal(c), Decimal(d)];
    OctetDigits(a);
    OctetDigits(b);
    OctetDigits(c);
    OctetDigits(d);
    forall i | 0 <= i < 4 ensures Free(parts[i], {'.'}) && OnlyDigits(parts[i]) {
      OctetFree(parts[i]);
    }
    JoinFour(parts[0], parts[1], parts[2], parts[3]);
    SplitJoin(parts, '.', {'.'});
    DigitsAndDots(parts[0], parts[1], parts[2], parts[3]);
  }

  predicate OnlyDigits(s: string) {
    forall i :: 0 <= i < |s| ==> IsDigit(s[i])
  }

  lemma OctetFree(p: string)
    requires IsOctet(p)
    ensures Free(p, {'.'}) && OnlyDigits(p)
  {
  }

  lemma DigitsAndDots(a: string, b: string, c: string, d: string)
    requires OnlyDigits(a) && OnlyDigits(b) && OnlyDigits(c) && OnlyDigits(d)
    ensures var s := a + "." + (b + "." + (c + "." + d));
            forall i :: 0 <= i < |s| ==> IsDigit(s[i]) || s[i] == '.'
  {
  }

  // ---------------------------------------------------------------------------
  // What is removed and what is reported, letter by letter
  // ---------------------------------------------------------------------------

  /** A rule line that names the address and says `-j DROP` or `-j REJECT` somewhere. */
  ghost predicate SaysDrop(r: string, ip: string) {
    "-A " <= r && Occurs(ip, r) && (Occurs("-j DROP", r) || Occurs("-j REJECT", r))
  }

  ghost predicate Quoted(r: string) {
    exists i :: 0 <= i < |r| && r[i] == '"'
  }

  lemma RemovedLetters(r: string, ip: string)
    ensures Matches(r, ip) <==> SaysDrop(r, ip)
    ensures Removable(r, ip) <==> SaysDrop(r, ip) && !Quoted(r)
  {
    hide Contains, Occurs;
    ContainsOccurs(r, ip);
    ContainsOccurs(r, "-j DROP");
    ContainsOccurs(r, "-j REJECT");
  }

  /** WHAT AN UNBLOCK REMOVES. Every copy of every unquoted rule that names the address and
      says `-j DROP` or `-j REJECT`, and no copy of any other. */
  lemma KeptLetters(rules: seq<string>, ip: string)
    ensures forall r :: multiset(Kept(rules, ip))[r] == if SaysDrop(r, ip) && !Quoted(r) then 0 else multiset(rules)[r]
    ensures |Kept(rules, ip)| <= |rules|
    ensures |Kept(rules, ip)| == |rules| <==> forall r :: r in rules && SaysDrop(r, ip) ==> Quoted(r)
  {
    hide Removable, SaysDrop, Quoted, Kept;
    KeptCounts(rules, ip);
    forall r ensures Removable(r, ip) <==> SaysDrop(r, ip) && !Quoted(r) { RemovedLetters(r, ip); }
    KeptAll(rules, ip);
  }

  lemma {:induction false} KeptAll(rules: seq<string>, ip: string)
    ensures |Kept(rules, ip)| <= |rules|
    ensures |Kept(rules, ip)| == |rules| <==> forall r :: r in rules ==> !Removable(r, ip)
  {
    hide Removable;
    if rules != [] {
      KeptAll(rules[1..], ip);
      assert rules == [rules[0]] + rules[1..];
    }
  }

  /** WHAT AN UNBLOCK ANSWERS. The number of rules removed when there are any; otherwise the
      last rule that names the address and says DROP or REJECT, all of which are quoted; and
      that none matched when there is none. */
  ghost predicate Answers(before: seq<string>, after: seq<string>, ip: string, outcome: Outcome) {
    match outcome
    case Completed(removed) => removed == |before| - |after| > 0
    case Failed(DeleteFailed(stuck)) =>
      && |after| == |before|
      && exists i :: 0 <= i < |before| && before[i] == stuck && SaysDrop(stuck, ip) && Quoted(stuck)
                     && forall j :: i < j < |before| ==> !SaysDrop(before[j], ip)
    case Failed(NoMatchingRule) => |after| == |before| && forall r :: r in before ==> !SaysDrop(r, ip)
    case Failed(_) => false
  }

  lemma {:induction false} LastStuckLetters(rules: seq<string>, ip: string)
    ensures match LastStuck(rules, ip)
            case None => forall r :: r in rules && SaysDrop(r, ip) ==> !Quoted(r)
            case Some(stuck) =>
              exists i :: 0 <= i < |rules| && rules[i] == stuck && SaysDrop(stuck, ip) && Quoted(stuck)
                          && forall j :: i < j < |rules| ==> !(SaysDrop(rules[j], ip) && Quoted(rules[j]))
  {
    hide SaysDrop, Quoted, Matches, Deletable;
    if rules != [] {
      var n := |rules| - 1;
      var init, last := rules[..n], rules[n];
      LastStuckLetters(init, ip);
      StuckLetters(last, ip);
      if Matches(last, ip) && !Deletable(last) {
        assert rules[n] == last;
      } else if LastStuck(init, ip).Some? {
        var stuck := LastStuck(init, ip).value;
        var i :| 0 <= i < |init| && init[i] == stuck && SaysDrop(stuck, ip) && Quoted(stuck)
                 && forall j :: i < j < |init| ==> !(SaysDrop(init[j], ip) && Quoted(init[j]));
        assert rules[i] == stuck && forall j :: i < j < |rules| ==> rules[j] == if j < n then init[j] else last;
      } else {
        assert rules == init + [last];
      }
    }
  }

  lemma StuckLetters(r: string, ip: string)
    ensures Matches(r, ip) && !Deletable(r) <==> SaysDrop(r, ip) && Quoted(r)
  {
    hide SaysDrop, Matches;
    RemovedLetters(r, ip);
  }

  lemma UnblockOutcomeAnswers(rules: seq<string>, ip: string)
    ensures Answers(rules, Kept(rules, ip), ip, UnblockOutcome(|rules| - |Kept(rules, ip)|, LastStuck(rules, ip)))
  {
    hide SaysDrop, Quoted, Kept, LastStuck, Answers;
    UnblockAnswers(rules, ip);
  }

  lemma UnblockAnswers(rules: seq<string>, ip: string)
    ensures var (after, outcome) := Execute(rules, "unblock_ip", ip);
            after == Kept(rules, ip) && Answers(rules, after, ip, outcome)
  {
    hide SaysDrop, Quoted, Kept, LastStuck;
    KeptLetters(rules, ip);
    LastStuckLetters(rules, ip);
  }

  /** The text in front of the mask: all of it, up to a first slash that is not the very
      first character. */
  lemma MaskLetters(arg: string, ip: string)
    ensures StripMask(arg) == ip <==> UpToMask(arg, ip)
  {
    hide Split;
    if !("/" <= arg) {
      if '/' in arg {
        var p, q := SplitFirst(arg, '/');
        assert StripMask(arg) == p && arg[|p|] == '/';
        if Free(ip, {'/'}) && (arg == ip || ip + "/" <= arg) {
          assert ip + "/" <= arg ==> arg[|ip|] == '/';
          assert |ip| == |p| by { SlashAt(arg, p, ip); }
          assert ip == arg[..|ip|] == p;
        }
        assert p + "/" <= arg;
      } else {
        SplitLast(arg, {'/'});
        SlashInside(ip, arg);
      }
    }
  }

  lemma SlashInside(ip: string, arg: string)
    ensures ip + "/" <= arg ==> '/' in arg
  {
    assert (ip + "/")[|ip|] == '/';
  }

  lemma SlashAt(arg: string, p: string, ip: string)
    requires '/' in arg && Free(p, {'/'}) && p + "/" <= arg
    requires Free(ip, {'/'}) && (arg == ip || ip + "/" <= arg)
    ensures |ip| == |p|
  {
    assert arg[|p|] == '/' && forall i :: 0 <= i < |p| ==> arg[i] == p[i];
    if arg == ip {
      assert false;
    }
    assert arg[|ip|] == '/' && forall i :: 0 <= i < |ip| ==> arg[i] == ip[i];
  }

  /** Position `i` holds the first `-s` that a word follows. */
  ghost predicate FirstSource(words: seq<string>, i: nat) {
    i + 1 < |words| && words[i] == "-s" && forall j :: 0 <= j < i ==> words[j] != "-s"
  }

  lemma SourceLetters(words: seq<string>, ip: string)
    ensures SourceArg(words) == Some(ip) <==> exists i: nat :: FirstSource(words, i) && UpToMask(words[i + 1], ip)
  {
    hide StripMask, UpToMask;
    SourceAtIndex(words);
    var i := FlagIndex(words, "-s");
    if i < |words| {
      assert FirstSource(words, i);
      MaskLetters(words[i + 1], ip);
      forall k: nat | FirstSource(words, k) ensures k == i {
        OneFirstSource(words, i, k);
      }
    }
  }

  lemma OneFirstSource(words: seq<string>, i: nat, k: nat)
    requires FirstSource(words, i) && FirstSource(words, k)
    ensures i == k
  {
  }

  /** The rule says `-j DROP` or `-j REJECT` somewhere, its first `-s` with a word after it
      names the address up to the mask, and the address is neither 0.0.0.0 nor begins with
      127. */
  ghost predicate SaysSource(r: string, ip: string) {
    && (Occurs("-j DROP", r) || Occurs("-j REJECT", r))
    && (exists i: nat :: FirstSource(Fields(r), i) && UpToMask(Fields(r)[i + 1], ip))
    && ip != "0.0.0.0" && !("127." <= ip)
  }

  ghost predicate UpToMask(arg: string, ip: string) {
    if "/" <= arg then ip == arg else Free(ip, {'/'}) && (arg == ip || ip + "/" <= arg)
  }

  /** WHAT IS REPORTED of a rule, letter by letter. */
  lemma ReportedLetters(r: string, ip: string)
    requires IsRule(r)
    ensures Reported(r) == Some(ip) <==> SaysSource(r, ip)
  {
    hide Contains, Occurs, Fields, SourceArg, StripMask, FirstSource, UpToMask;
    RuleShape(r);
    ContainsOccurs(r, "-j DROP");
    ContainsOccurs(r, "-j REJECT");
    SourceLetters(Fields(r), ip);
  }

  lemma CollectedLetters(rules: seq<string>)
    requires AreRules(rules)
    ensures forall ip :: ip in Collected(rules) <==> exists r :: r in rules && SaysSource(r, ip)
    ensures forall i, j :: 0 <= i < j < |Collected(rules)| ==> Collected(rules)[i] != Collected(rules)[j]
  {
    hide Reported, SaysSource, IsRule, Collected;
    CollectedExact(rules);
    forall r, ip | r in rules ensures Reported(r) == Some(ip) <==> SaysSource(r, ip) {
      ReportedLetters(r, ip);
    }
  }

  /** The words joined by single spaces hold `a b` (neither with a space) exactly when one
      word ends in `a` and the next begins with `b`. */
  ghost predicate Meet(words: seq<string>, a: string, b: string, k: nat) {
    k + 1 < |words| && |a| <= |words[k]| && words[k][|words[k]| - |a|..] == a && b <= words[k + 1]
  }

  lemma PairInWords(words: seq<string>, a: string, b: string)
    requires forall i :: 0 <= i < |words| ==> Free(words[i], {' '})
    requires Free(a, {' '}) && Free(b, {' '}) && Occurs(a + " " + b, Join(words, " "))
    ensures exists k: nat :: Meet(words, a, b, k)
  {
    hide Free, Meet, Join;
    var s, pair := Join(words, " "), a + " " + b;
    var i, j :| 0 <= i <= j <= |s| && s[i..j] == pair;
    assert j == i + |pair|;
    PairAt(words, a, b, i);
  }

  ghost predicate StandsAt(s: string, a: string, b: string, i: nat) {
    i + |a| + 1 + |b| <= |s| && s[i..i + |a| + 1 + |b|] == a + " " + b
  }

  lemma {:induction false} PairAt(words: seq<string>, a: string, b: string, i: nat)
    requires forall i :: 0 <= i < |words| ==> Free(words[i], {' '})
    requires Free(a, {' '}) && Free(b, {' '}) && StandsAt(Join(words, " "), a, b, i)
    ensures exists k: nat :: Meet(words, a, b, k)
  {
    hide Free, Meet, Join, StandsAt;
    if |words| <= 1 {
      NoPairIn(words, a, b, i);
      assert false;
    } else {
      var w, rest := words[0], words[1..];
      var tail := Join(rest, " ");
      JoinCons(w, rest, " ");
      assert [w] + rest == words;
      if i + |a| == |w| {
        PairHere(w, tail, a, b, i);
        StartsWord(rest, b);
        MeetFirst(words, a, b);
      } else {
        PairAfter(w, tail, a, b, i);
        PairAt(rest, a, b, i - |w| - 1);
        var k: nat :| Meet(rest, a, b, k);
        MeetLater(words, a, b, k);
      }
    }
  }

  lemma NoPairIn(words: seq<string>, a: string, b: string, i: nat)
    requires |words| <= 1 && forall i :: 0 <= i < |words| ==> Free(words[i], {' '})
    ensures !StandsAt(Join(words, " "), a, b, i)
  {
    var s, pair := Join(words, " "), a + " " + b;
    assert pair[|a|] == ' ';
    assert i + |pair| <= |s| ==> s[i..i + |pair|][|a|] == s[i + |a|] != ' ';
  }

  lemma PairHere(w: string, tail: string, a: string, b: string, i: nat)
    requires i + |a| == |w| && StandsAt(w + " " + tail, a, b, i)
    ensures w[i..] == a && b <= tail
  {
    var s, pair := w + " " + tail, a + " " + b;
    var part := s[i..i + |pair|];
    assert part == pair;
    forall x | 0 <= x < |a| ensures w[i..][x] == a[x] {
      assert part[x] == s[i + x] && pair[x] == a[x];
    }
    assert w[i..] == a;
    forall x | 0 <= x < |b| ensures tail[x] == b[x] {
      assert part[|a| + 1 + x] == s[|w| + 1 + x] && pair[|a| + 1 + x] == b[x];
    }
    assert tail[..|b|] == b;
  }

  lemma PairAfter(w: string, tail: string, a: string, b: string, i: nat)
    requires Free(w, {' '}) && Free(a, {' '}) && i + |a| != |w| && StandsAt(w + " " + tail, a, b, i)
    ensures i > |w| && StandsAt(tail, a, b, i - |w| - 1)
  {
    var s, pair := w + " " + tail, a + " " + b;
    var part := s[i..i + |pair|];
    assert part == pair && part[|a|] == ' ';
    assert s[i + |a|] == ' ' && s[|w|] == ' ';
    assert forall x :: 0 <= x < |w| ==> s[x] == w[x] && s[x] != ' ';
    assert forall x :: i <= x < i + |a| ==> s[x] == part[x - i] && part[x - i] == a[x - i] && s[x] != ' ';
    if i <= |w| {
      assert false;
    }
    var k := i - |w| - 1;
    assert tail[k..k + |pair|] == part;
  }

  lemma StartsWord(words: seq<string>, b: string)
    requires words != [] && Free(b, {' '}) && b <= Join(words, " ")
    ensures b <= words[0]
  {
    hide Join, Free;
    var w := words[0];
    if |words| == 1 {
      assert words == [w];
      JoinOne(w);
    } else {
      var rest := words[1..];
      JoinCons(w, rest, " ");
      assert [w] + rest == words;
      var tail := " " + Join(rest, " ");
      assert Join(words, " ") == w + tail;
      WithinWord(w, tail, b);
    }
  }

  lemma WithinWord(w: string, tail: string, b: string)
    requires tail != "" && tail[0] == ' ' && Free(b, {' '}) && b <= w + tail
    ensures b <= w
  {
    var s := w + tail;
    assert forall x :: 0 <= x < |b| ==> b[x] == s[x] && s[x] != ' ';
    assert s[|w|] == ' ';
    if |b| > |w| {
      assert false;
    }
    assert b == s[..|b|] == w[..|b|];
  }

  lemma MeetFirst(words: seq<string>, a: string, b: string)
    requires |words| > 1 && |a| <= |words[0]| && words[0][|words[0]| - |a|..] == a && b <= words[1]
    ensures Meet(words, a, b, 0)
  {
  }

  lemma MeetLater(words: seq<string>, a: string, b: string, k: nat)
    requires words != [] && Meet(words[1..], a, b, k)
    ensures Meet(words, a, b, k + 1)
  {
  }

  /** No other rule is touched: a rule of plain words whose target begins with neither DROP nor
      REJECT is not reported and outlives every unblock. */
  lemma OtherTargetsLeft(ip: string, mask: string, target: string, rules: seq<string>, unblocked: string)
    requires IsAddress(ip) && (mask == "" || mask[0] == '/') && Plain(ip + mask) && Plain(target)
    requires !("DROP" <= target) && !("REJECT" <= target)
    ensures var rule := Join(SimpleWords(ip, mask, target), " ");
            && IsRule(rule) && Reported(rule) == None
            && (rule in rules ==> rule in Kept(rules, unblocked))
  {
    hide Join, Fields, IsAddress, Occurs, Words, SourceArg, StripMask;
    var w := SimpleWords(ip, mask, target);
    var rule := Join(w, " ");
    AddressFree(ip);
    AddressStart(ip);
    SimpleRuleText(ip, mask, target);
    assert w[3][0] == ip[0];
    forall i | 0 <= i < |w| ensures Free(w[i], {' '}) {}
    if Occurs("-j DROP", rule) {
      assert "-j DROP" == "-j" + " " + "DROP";
      PairInWords(w, "-j", "DROP");
      NoneMeets(w, "DROP");
      assert false;
    }
    if Occurs("-j REJECT", rule) {
      assert "-j REJECT" == "-j" + " " + "REJECT";
      PairInWords(w, "-j", "REJECT");
      NoneMeets(w, "REJECT");
      assert false;
    }
    RemovedLetters(rule, unblocked);
    assert !SaysDrop(rule, unblocked);
    KeptMembers(rules, unblocked);
    NotNoticed(rule);
  }

  lemma NotNoticed(rule: string)
    requires IsRule(rule) && !Occurs("-j DROP", rule) && !Occurs("-j REJECT", rule)
    ensures Reported(rule) == None
  {
    hide Contains, Occurs, Fields, SourceArg;
    RuleShape(rule);
    ContainsOccurs(rule, "-j DROP");
    ContainsOccurs(rule, "-j REJECT");
  }

  lemma NoneMeets(w: seq<string>, b: string)
    requires |w| == 6 && w[0] == "-A" && w[1] == "INPUT" && w[2] == "-s" && w[4] == "-j" && w[3] != ""
    requires '0' <= w[3][0] <= '9' || w[3][0] == '.'
    requires b == "DROP" || b == "REJECT"
    requires !(b <= w[5])
    ensures forall k: nat :: !Meet(w, "-j", b, k)
  {
    forall k: nat ensures !Meet(w, "-j", b, k) {
      assert k + 1 < |w| && k != 4 ==> w[k + 1][0] != b[0];
    }
  }

  /** A concrete case: the rule that drops everyone but `ip`, reported as a block of `ip`. */
  lemma NegatedSourceReported(ip: string)
    requires IsAddress(ip) && Reportable(ip)
    ensures var rule := Join(["-A", "INPUT", "!", "-s", ip + "/32", "-j", "DROP"], " ");
            IsRule(rule) && Reported(rule) == Some(ip) && OtherSources(rule) && Misread(rule)
  {
    hide Join, Fields, IsAddress, Contains, Reportable, Words, StripMask;
    var w := ["-A", "INPUT", "!", "-s", ip + "/32", "-j", "DROP"];
    AddressFree(ip);
    assert forall i :: 0 <= i < |w| ==> Plain(w[i]);
    RuleText(w);
    PlainWords(w);
    JoinedPair(w, 5);
    assert w[5] + " " + w[6] == "-j DROP";
    MaskStripped(ip, "/32");
    NegatedAtThree(w);
    ReportedNoticed(Join(w, " "));
  }

  lemma NegatedAtThree(w: seq<string>)
    requires |w| > 4 && w[0] == "-A" && w[1] == "INPUT" && w[2] == "!" && w[3] == "-s"
    ensures FlagIndex(w, "-s") == 3 && SourceArg(w) == Some(StripMask(w[4]))
  {
    var i := FlagIndex(w, "-s");
    assert i >= 3 && i <= 3;
    SourceAtIndex(w);
  }

  lemma PlainWords(w: seq<string>)
    requires w != [] && forall i :: 0 <= i < |w| ==> Plain(w[i])
    ensures Words(Join(w, " ")) == w && Deletable(Join(w, " "))
  {
    hide Join, Split, Blanked;
    QuoteFreeJoin(w);
    BlankedSame(Join(w, " "));
    forall i | 0 <= i < |w| ensures Free(w[i], {' '}) {}
    SplitJoin(w, ' ', {' '});
  }

  predicate Plain(word: string) {
    word != "" && Free(word, WHITESPACE) && Deletable(word)
  }

  function SimpleWords(ip: string, mask: string, target: string): seq<string> {
    ["-A", "INPUT", "-s", ip + mask, "-j", target]
  }

  /** The text of a rule with these words, none of them quoted. */
  lemma SimpleRuleText(ip: string, mask: string, target: string)
    requires Plain(ip + mask) && Plain(target)
    ensures var w := SimpleWords(ip, mask, target);
            var rule := Join(w, " ");
            IsRule(rule) && Fields(rule) == w && Words(rule) == w && Contains(rule, "-j " + target)
  {
    hide Join, Fields, Contains, Split, Blanked;
    var w := SimpleWords(ip, mask, target);
    var rule := Join(w, " ");
    assert forall i :: 0 <= i < |w| ==> Plain(w[i]);
    RuleText(w);
    JoinedPair(w, 4);
    assert w[4] + " " + w[5] == "-j " + target;
    PlainWords(w);
  }

  /** Concrete cases: a rule that drops a whole network (mask /8, say) or jumps to a chain of
      the user's whose name begins with DROP is reported as a block of the one address. */
  lemma SimpleRuleReported(ip: string, mask: string, target: string)
    requires IsAddress(ip) && Reportable(ip)
    requires mask == "" || mask[0] == '/'
    requires Free(mask, WHITESPACE) && Deletable(mask) && Plain(target) && "DROP" <= target
    ensures var rule := Join(SimpleWords(ip, mask, target), " ");
            && IsRule(rule) && Reported(rule) == Some(ip)
            && (Misread(rule) <==> !(mask in {"", "/32"} && target == "DROP"))
  {
    hide Join, Fields, IsAddress, Contains, Reportable, Words, StripMask;
    var w := SimpleWords(ip, mask, target);
    var rule := Join(w, " ");
    AddressFree(ip);
    SimpleRuleText(ip, mask, target);
    assert "-j " + target == "" + "-j DROP" + target[4..];
    ContainsMiddle("", "-j DROP", target[4..]);
    ContainsTrans(rule, "-j " + target, "-j DROP");
    MaskStripped(ip, mask);
    SourceThird(w);
    ReportedNoticed(rule);
    AddressStart(ip);
    assert w[3][0] == ip[0];
    FlagAtFive(w);
    assert target[0] == 'D' && target != "REJECT";
    assert ReallyDrops(rule) <==> target == "DROP";
    assert SourceOf(rule) == Some(Source(ip, false, ip + mask != ip && ip + mask != ip + "/32"));
    MaskTold(ip, mask);
  }

  lemma MaskTold(ip: string, mask: string)
    ensures ip + mask == ip <==> mask == ""
    ensures ip + mask == ip + "/32" <==> mask == "/32"
  {
    assert (ip + mask)[|ip|..] == mask && (ip + "/32")[|ip|..] == "/32";
  }

  function CommentedHead(ip: string): seq<string> {
    ["-A", "INPUT", "-s", ip + "/32", "-m", "comment", "--comment"]
  }

  function CommentedRule(ip: string): string {
    Join(CommentedHead(ip) + ["\"not", "-j", "DROP\"", "-j", "ACCEPT"], " ")
  }

  lemma CommentedFree(ip: string)
    requires IsAddress(ip)
    ensures var w := CommentedHead(ip) + ["\"not", "-j", "DROP\"", "-j", "ACCEPT"];
            forall i :: 0 <= i < |w| ==> w[i] != "" && Free(w[i], WHITESPACE)
  {
    hide IsAddress;
    AddressFree(ip);
  }

  lemma CommentedText(ip: string)
    requires IsAddress(ip)
    ensures IsRule(CommentedRule(ip)) && Contains(CommentedRule(ip), "-j DROP")
    ensures Fields(CommentedRule(ip)) == CommentedHead(ip) + ["\"not", "-j", "DROP\"", "-j", "ACCEPT"]
  {
    hide Join, Fields, IsAddress, Contains, Free;
    var w := CommentedHead(ip) + ["\"not", "-j", "DROP\"", "-j", "ACCEPT"];
    var rule := CommentedRule(ip);
    CommentedFree(ip);
    RuleText(w);
    JoinedPair(w, 8);
    var pair := w[8] + " " + w[9];
    assert pair == "" + "-j DROP" + "\"";
    ContainsMiddle("", "-j DROP", "\"");
    ContainsTrans(rule, pair, "-j DROP");
  }

  /** A third: a rule that accepts an address but speaks of `-j DROP` in its comment is
      reported as a block of the address. */
  lemma QuotedTargetReported(ip: string)
    requires IsAddress(ip) && Reportable(ip)
    ensures var rule := CommentedRule(ip);
            IsRule(rule) && Reported(rule) == Some(ip) && TargetOnlyNamed(rule) && Misread(rule)
  {
    hide CommentedRule, Fields, IsAddress, IsRule, Contains, Reportable, Words, StripMask, FlagIndex, SourceArg, SourceOf;
    var rule := CommentedRule(ip);
    CommentedText(ip);
    AddressFree(ip);
    AddressStart(ip);
    MaskStripped(ip, "/32");
    SourceThird(Fields(rule));
    ReportedNoticed(rule);
    CommentedWords(ip);
    JumpLast(Words(rule));
  }

  lemma JumpLast(v: seq<string>)
    requires |v| == 10 && v[8] == "-j" && v[9] == "ACCEPT" && forall i :: 0 <= i < 8 ==> v[i] != "-j"
    ensures FlagArg(v, "-j") == Some("ACCEPT")
  {
    var i := FlagIndex(v, "-j");
  }

  lemma CommentedWords(ip: string)
    requires IsAddress(ip)
    ensures Words(CommentedRule(ip)) == CommentedHead(ip) + ["\"", "-j", "ACCEPT"]
  {
    hide Join, Split, IsAddress, Blanked, AfterQuote;
    var head, tail, short := CommentedHead(ip), ["\"not", "-j", "DROP\"", "-j", "ACCEPT"], ["\"", "-j", "ACCEPT"];
    AddressFree(ip);
    JoinAppend(head, tail);
    JoinAppend(head, short);
    QuoteFreeJoin(head);
    var front := Join(head, " ") + " ";
    CommentText();
    BlankedAppend(front, Join(tail, " "));
    var v := head + short;
    forall i | 0 <= i < |v| ensures Free(v[i], {' '}) {}
    SplitJoin(v, ' ', {' '});
  }

  lemma CommentText()
    ensures Blanked(Join(["\"not", "-j", "DROP\"", "-j", "ACCEPT"], " ")) == Join(["\"", "-j", "ACCEPT"], " ")
  {
    hide Blanked, AfterQuote, Join;
    var last := Join(["-j", "ACCEPT"], " ");
    var jump := ["-j", "ACCEPT"];
    JumpText();
    JoinAppend(["\""], jump);
    JoinAppend(["\"not", "-j", "DROP\""], jump);
    assert ["\""] + jump == ["\"", "-j", "ACCEPT"];
    assert ["\"not", "-j", "DROP\""] + jump == ["\"not", "-j", "DROP\"", "-j", "ACCEPT"];
    assert "\"not -j DROP\"" + " " + last == "\"" + ("not -j DROP" + "\"" + (" " + last));
    QuotedAway("not -j DROP", " " + last);
  }

  lemma JumpText()
    ensures Join(["-j", "ACCEPT"], " ") == "-j ACCEPT" && Join(["\""], " ") == "\""
    ensures Join(["\"not", "-j", "DROP\""], " ") == "\"not -j DROP\""
  {
    hide Join;
    JoinOne("ACCEPT");
    JoinOne("\"");
    JoinOne("DROP\"");
    JoinAppend(["-j"], ["ACCEPT"]);
    JoinOne("-j");
    JoinAppend(["\"not"], ["-j"]);
    JoinOne("\"not");
    JoinAppend(["\"not", "-j"], ["DROP\""]);
    assert ["-j"] + ["ACCEPT"] == ["-j", "ACCEPT"];
    assert ["\"not"] + ["-j"] == ["\"not", "-j"];
    assert ["\"not", "-j"] + ["DROP\""] == ["\"not", "-j", "DROP\""];
  }

  lemma JoinOne(word: string)
    ensures Join([word], " ") == word
  {
  }

  lemma {:induction false} QuoteCloses(quoted: string, rest: string)
    requires Deletable(quoted) && '\\' !in quoted
    ensures AfterQuote(quoted + "\"" + rest) == rest
  {
    if quoted == [] {
      assert quoted + "\"" + rest == "\"" + rest;
    } else {
      QuoteCloses(quoted[1..], rest);
      assert (quoted + "\"" + rest)[1..] == quoted[1..] + "\"" + rest;
    }
  }

  lemma QuotedAway(quoted: string, rest: string)
    requires Deletable(quoted) && '\\' !in quoted && Deletable(rest)
    ensures Blanked("\"" + (quoted + "\"" + rest)) == "\"" + rest
  {
    QuoteCloses(quoted, rest);
    BlankedSame(rest);
    assert ("\"" + (quoted + "\"" + rest))[1..] == quoted + "\"" + rest;
  }

  lemma {:induction false} BlankedAppend(front: string, rest: string)
    requires Deletable(front)
    ensures Blanked(front + rest) == front + Blanked(rest)
  {
    if front == [] {
      assert front + rest == rest;
    } else {
      BlankedAppend(front[1..], rest);
      assert (front + rest)[1..] == front[1..] + rest;
    }
  }

  lemma {:induction false} JoinAppend(x: seq<string>, y: seq<string>)
    requires x != [] && y != []
    ensures Join(x + y, " ") == Join(x, " ") + " " + Join(y, " ")
  {
    if |x| == 1 {
      assert (x + y)[1..] == y;
    } else {
      JoinAppend(x[1..], y);
      assert (x + y)[1..] == x[1..] + y;
    }
  }

  lemma AddressStart(ip: string)
    requires IsAddress(ip) && ip != ""
    ensures ip[0] != '-' && ('0' <= ip[0] <= '9' || ip[0] == '.')
  {
  }

  lemma MaskStripped(ip: string, mask: string)
    requires ip != "" && Free(ip, {'/'}) && (mask == "" || mask[0] == '/')
    ensures StripMask(ip + mask) == ip
  {
    if mask == "" {
      SplitLast(ip, {'/'});
      assert ip + mask == ip;
    } else {
      SplitWord(ip, '/', mask[1..], {'/'});
      assert ip + ['/'] + mask[1..] == ip + mask;
    }
  }

  lemma SourceThird(w: seq<string>)
    requires |w| >= 4 && w[0] == "-A" && w[1] == "INPUT" && w[2] == "-s"
    ensures SourceArg(w) == Some(StripMask(w[3])) && FlagIndex(w, "-s") == 2
  {
    assert w[1..][1..] == w[2..];
    assert SourceArg(w[2..]) == Some(StripMask(w[3])) && FlagIndex(w[2..], "-s") == 0;
    assert SourceArg(w[1..]) == SourceArg(w[2..]);
  }

  lemma FlagAtFive(w: seq<string>)
    requires |w| == 6 && w[4] == "-j" && forall i :: 0 <= i < 4 ==> w[i] != "-j"
    ensures FlagIndex(w, "-j") == 4
  {
    var i := FlagIndex(w, "-j");
  }

  lemma {:induction false} QuoteFreeJoin(words: seq<string>)
    requires forall i :: 0 <= i < |words| ==> Deletable(words[i])
    ensures Deletable(Join(words, " "))
  {
    if |words| > 1 { QuoteFreeJoin(words[1..]); }
  }

  // ---------------------------------------------------------------------------
  // The kernel and the collector
  // ---------------------------------------------------------------------------

  /** The text iptables-save prints: table and chain lines, the rules, the trailer. */
  function SaveText(header: seq<string>, rules: seq<string>): string {
    Join(header + rules + ["COMMIT", ""], "\n")
  }

  /** Table and chain lines such as `*filter` and `:INPUT ACCEPT [0:0]`. */
  predicate IsHeader(header: seq<string>) {
    forall h :: h in header ==> Free(h, {'\n'}) && !("-A " <= TrimSpace(h))
  }

  predicate AreRules(rules: seq<string>) {
    forall r :: r in rules ==> IsRule(r)
  }

  lemma SaveLines(header: seq<string>, rules: seq<string>)
    requires IsHeader(header) && AreRules(rules)
    ensures Split(SaveText(header, rules), {'\n'}) == SavedLines(header, rules)
  {
    var lines := header + rules + ["COMMIT", ""];
    forall i | 0 <= i < |lines| ensures Free(lines[i], {'\n'}) {
      if |header| <= i < |header| + |rules| {
        assert lines[i] in rules;
        RuleShape(lines[i]);
      } else if i < |header| {
        assert lines[i] in header;
      }
    }
    SplitJoin(lines, '\n', {'\n'});
  }

  /** Position of the first rule the given delete call names, or the list's length. */
  function FirstMatch(rules: seq<string>, args: seq<string>): (i: nat)
    ensures i <= |rules|
  {
    if rules == [] then 0
    else if |rules[0]| >= 3 && Deletable(rules[0]) && DeleteArgs(rules[0]) == args then 0
    else 1 + FirstMatch(rules[1..], args)
  }

  /** Position of the first copy of a rule, or the list's length. */
  function Position(rules: seq<string>, r: string): (i: nat)
    ensures i <= |rules| && r !in rules[..i] && (i < |rules| <==> r in rules)
    ensures i < |rules| ==> rules[i] == r
  {
    if rules == [] || rules[0] == r then 0 else 1 + Position(rules[1..], r)
  }

  /** A deletable rule that is in the list loses its first copy; otherwise nothing changes. */
  ghost predicate DropsFirst(before: seq<string>, after: seq<string>, r: string) {
    if r in before && Deletable(r) then
      exists i :: 0 <= i < |before| && before[i] == r && r !in before[..i] && after == before[..i] + before[i + 1..]
    else after == before
  }

  function SavedLines(header: seq<string>, rules: seq<string>): seq<string> {
    header + rules + ["COMMIT", ""]
  }

  lemma TrailerLines(line: string)
    requires line == "COMMIT" || line == ""
    ensures TrimSpace(line) == line && !("-A " <= line) && Reported(line) == None && Free(line, {'\n'})
  {
    if line == "COMMIT" {
      assert line[0] == 'C' && line[5] == 'T';
    }
    TrimNothing(line);
  }

  /** Only the rules of a dump contribute to the blocked list. */
  lemma SaveCollected(header: seq<string>, rules: seq<string>)
    requires IsHeader(header) && AreRules(rules)
    ensures Collected(Split(SaveText(header, rules), {'\n'})) == Collected(rules)
  {
    SaveLines(header, rules);
    TrailerLines("COMMIT");
    TrailerLines("");
    CollectedSkips(header + rules, ["COMMIT", ""]);
    CollectedDropsHeader(header, rules);
  }

  /** The delete call built from a rule names the first copy of that very rule. */
  lemma FirstMatchNames(rules: seq<string>, r: string)
    requires AreRules(rules) && IsRule(r)
    ensures FirstMatch(rules, DeleteArgs(r)) == if r in rules && Deletable(r) then Position(rules, r) else |rules|
  {
    hide IsRule, Deletable, DeleteArgs, FirstMatch, Position;
    var i := Position(rules, r);
    NoneNamed();
    if r in rules && Deletable(r) {
      assert rules[..i] + rules[i..] == rules && rules[i..][0] == r;
      forall q | q in rules[..i] || q in rules[i..] ensures q in rules {}
      FirstMatchAfter(rules[..i], rules[i..], r);
    } else {
      assert rules + [] == rules;
      FirstMatchAfter(rules, [], r);
    }
  }

  lemma NoneNamed()
    ensures forall args :: FirstMatch([], args) == 0
  {
  }

  class IPTables {
    const header: seq<string>
    var rules: seq<string>

    ghost predicate Valid()
      reads this
    {
      IsHeader(header) && AreRules(rules)
    }

    constructor (header: seq<string>, rules: seq<string>)
      requires IsHeader(header) && AreRules(rules)
      ensures Valid() && this.header == header && this.rules == rules
    {
      this.header := header;
      this.rules := rules;
    }

    /** `iptables -I INPUT -s ip -j DROP`. */
    method Insert(ip: string) returns (ok: bool)
      requires Valid()
      modifies this`rules
      ensures Valid() && ok == IsAddress(ip)
      ensures rules == if ok then [BlockRule(ip)] + old(rules) else old(rules)
      ensures ok ==> rules != [] && rules[0] == "-A INPUT -s " + ip + "/32 -j DROP" && rules[1..] == old(rules)
      ensures ok ==> Kept(rules, ip) == Kept(old(rules), ip)
      ensures ok ==> forall a :: a in Collected(rules) <==> a in Collected(old(rules)) || (a == ip && Reportable(ip))
    {
      hide IsAddress, BlockRule, Removable, Reported, IsRule, Reportable;
      ok := IsAddress(ip);
      if ok {
        BlockRuleText(ip);
        BlockRuleReadBack(ip);
        BlockRuleReported(ip);
        CollectedExact(rules);
        CollectedExact([BlockRule(ip)] + rules);
        rules := [BlockRule(ip)] + rules;
      }
    }

    /** `iptables -D ...`: drops the first rule the arguments name. */
    method Delete(args: seq<string>) returns (ok: bool)
      requires Valid()
      modifies this`rules
      ensures Valid()
      ensures var i := FirstMatch(old(rules), args);
              && ok == (i < |old(rules)|)
              && rules == if ok then old(rules)[..i] + old(rules)[i + 1..] else old(rules)
      ensures forall r :: IsRule(r) && DeleteArgs(r) == args ==>
                ok == (r in old(rules) && Deletable(r)) && DropsFirst(old(rules), rules, r)
    {
      var i := FirstMatch(rules, args);
      forall r | IsRule(r) && DeleteArgs(r) == args
        ensures i == if r in rules && Deletable(r) then Position(rules, r) else |rules|
      {
        FirstMatchNames(rules, r);
      }
      ok := i < |rules|;
      if ok {
        rules := rules[..i] + rules[i + 1..];
      }
    }
  }

  lemma {:induction false} FirstMatchAfter(front: seq<string>, back: seq<string>, line: string)
    requires AreRules(front) && AreRules(back) && IsRule(line)
    requires line !in front || !Deletable(line)
    ensures var i := FirstMatch(front + back, DeleteArgs(line));
            i == if Deletable(line) && back != [] && back[0] == line then |front|
                 else |front| + FirstMatch(back, DeleteArgs(line))
    ensures !Deletable(line) ==> FirstMatch(front + back, DeleteArgs(line)) == |front + back|
    decreases |front| + |back|
  {
    if front == [] {
      assert front + back == back;
      if back != [] {
        assert back[0] in back;
        if Deletable(back[0]) && DeleteArgs(back[0]) == DeleteArgs(line) {
          DeleteArgsInjective(back[0], line);
        }
        if !Deletable(line) {
          FirstMatchAfter([], back[1..], line);
          assert [] + back[1..] == back[1..];
        }
      }
    } else {
      assert front[0] in front;
      if Deletable(front[0]) && DeleteArgs(front[0]) == DeleteArgs(line) {
        DeleteArgsInjective(front[0], line);
      }
      FirstMatchAfter(front[1..], back, line);
      assert (front + back)[1..] == front[1..] + back;
    }
  }

  /** State of the unblock loop after `k` lines of the dump: the rules, the number removed
      and the last rule that could not be deleted. */
  ghost function Progress(header: seq<string>, was: seq<string>, ip: string, k: nat): (seq<string>, int, Option<string>)
    requires k <= |SavedLines(header, was)|
  {
    var j := if k <= |header| then 0 else if k <= |header| + |was| then k - |header| else |was|;
    (Kept(was[..j], ip) + was[j..], j - |Kept(was[..j], ip)|, LastStuck(was[..j], ip))
  }

  lemma KeptNext(was: seq<string>, ip: string, j: nat)
    requires j < |was|
    ensures Kept(was[..j + 1], ip) == Kept(was[..j], ip) + if Removable(was[j], ip) then [] else [was[j]]
    ensures LastStuck(was[..j + 1], ip) ==
            if Matches(was[j], ip) && !Deletable(was[j]) then Some(was[j]) else LastStuck(was[..j], ip)
  {
    assert was[..j + 1] == was[..j] + [was[j]] && was[..j + 1][..j] == was[..j];
    KeptAppend(was[..j], [was[j]], ip);
  }

  /** After the first `j` rules have been treated, the delete call of a matching rule
      names that very rule, and a rule that is stuck is named by none. */
  lemma DeleteHits(was: seq<string>, ip: string, j: nat)
    requires AreRules(was) && j < |was| && Matches(was[j], ip)
    ensures var front := Kept(was[..j], ip);
            FirstMatch(front + was[j..], DeleteArgs(was[j])) ==
            if Deletable(was[j]) then |front| else |front + was[j..]|
  {
    KeptMembers(was[..j], ip);
    var front := Kept(was[..j], ip);
    forall r | r in front ensures r in was {}
    FirstMatchAfter(front, was[j..], was[j]);
  }

  /** What one line of the dump does to the loop's state. */
  ghost function LineEffect(st: (seq<string>, int, Option<string>), line: string, ip: string): (seq<string>, int, Option<string>) {
    if !Matches(line, ip) then st
    else
      var i := FirstMatch(st.0, DeleteArgs(line));
      if i < |st.0| then (st.0[..i] + st.0[i + 1..], st.1 + 1, st.2)
      else (st.0, st.1, Some(line))
  }

  /** One line of the unblock loop. */
  lemma ProgressStep(header: seq<string>, was: seq<string>, ip: string, k: nat)
    requires IsHeader(header) && AreRules(was) && k < |SavedLines(header, was)|
    ensures Progress(header, was, ip, k + 1) ==
            LineEffect(Progress(header, was, ip, k), TrimSpace(SavedLines(header, was)[k]), ip)
  {
    hide IsDrop, Contains, Kept, LastStuck, FirstMatch, DeleteArgs, Fields, Join, Deletable;
    var h := |header|;
    var line := SavedLines(header, was)[k];
    if k < h {
      assert line in header;
    } else if k < h + |was| {
      var j := k - h;
      assert line == was[j] && was[j] in was;
      RuleShape(line);
      KeptNext(was, ip, j);
      var front := Kept(was[..j], ip);
      if Removable(line, ip) {
        DeleteHits(was, ip, j);
        var rules := front + was[j..];
        assert Kept(was[..j + 1], ip) == front + [] == front;
        assert rules[..|front|] + rules[|front| + 1..] == front + was[j + 1..];
      } else {
        if Matches(line, ip) { DeleteHits(was, ip, j); }
        assert front + was[j..] == (front + [line]) + was[j + 1..];
      }
    } else {
      TrailerLines(line);
    }
  }

  /** The unblock loop starts from the snapshot and ends with the kept rules. */
  lemma ProgressEnds(header: seq<string>, was: seq<string>, ip: string)
    ensures Progress(header, was, ip, 0) == (was, 0, None)
    ensures Progress(header, was, ip, |SavedLines(header, was)|) ==
            (Kept(was, ip), |was| - |Kept(was, ip)|, LastStuck(was, ip))
  {
    assert was[..0] == [] && was[0..] == was && [] + was == was;
    assert was[..|was|] == was && was[|was|..] == [];
    assert Kept(was, ip) + [] == Kept(was, ip);
  }

  class FirewallCollector {
    const kernel: IPTables

    constructor (kernel: IPTables)
      ensures this.kernel == kernel
    {
      this.kernel := kernel;
    }

    /** The source address of one rule's words. */
    method FindSource(parts: seq<string>) returns (source: Option<string>)
      ensures source == SourceArg(parts)
    {
      for i := 0 to |parts|
        invariant SourceArg(parts) == SourceArg(parts[i..])
      {
        if parts[i] == "-s" && i + 1 < |parts| {
          return Some(StripMask(parts[i + 1]));
        }
        assert parts[i..][1..] == parts[i + 1..];
      }
      return None;
    }

    /** The blocked sources, read line by line; `available` says whether iptables-save ran. */
    method CollectBlockedIPs(available: bool) returns (ok: bool, blocked: seq<string>)
      requires kernel.Valid()
      ensures ok == available
      ensures blocked == if ok then Collected(kernel.rules) else []
      ensures ok ==> forall ip :: ip in blocked <==> exists r :: r in kernel.rules && SaysSource(r, ip)
      ensures forall i, j :: 0 <= i < j < |blocked| ==> blocked[i] != blocked[j]
    {
      ok, blocked := available, [];
      if !available { return; }
      CollectedLetters(kernel.rules);
      var lines := Split(SaveText(kernel.header, kernel.rules), {'\n'});
      var seen: set<string> := {};
      for k := 0 to |lines|
        invariant blocked == Collected(lines[..k])
        invariant forall ip :: ip in seen <==> ip in blocked
      {
        assert lines[..k + 1][..k] == lines[..k];
        var trimmed := TrimSpace(lines[k]);
        if !("-A " <= trimmed) || !IsDrop(trimmed) { continue; }
        var source := FindSource(Fields(trimmed));
        if source.Some? && Reportable(source.value) && source.value !in seen {
          seen := seen + {source.value};
          blocked := blocked + [source.value];
        }
      }
      assert lines[..|lines|] == lines;
      SaveCollected(kernel.header, kernel.rules);
    }

    /** Applies one command; the unblock deletes the matching lines of a snapshot one by one. */
    method ExecuteIPTablesCommand(action: string, ip: string, available: bool) returns (outcome: Outcome)
      requires kernel.Valid()
      modifies kernel`rules
      ensures kernel.Valid()
      ensures (kernel.rules, outcome) == ExecuteIf(available, old(kernel.rules), action, ip)
    {
      if action == "block_ip" {
        if !available { return Failed(Unavailable); }
        var ok := kernel.Insert(ip);
        return if ok then Completed(0) else Failed(BadAddress);
      }
      if action == "unblock_ip" {
        if !available { return Failed(Unavailable); }
        outcome := Unblock(ip);
        return;
      }
      return Failed(UnknownAction);
    }

    method Unblock(ip: string) returns (outcome: Outcome)
      requires kernel.Valid()
      modifies kernel`rules
      ensures kernel.Valid()
      ensures kernel.rules == Kept(old(kernel.rules), ip)
      ensures forall r :: multiset(kernel.rules)[r] == if SaysDrop(r, ip) && !Quoted(r) then 0 else multiset(old(kernel.rules))[r]
      ensures outcome == UnblockOutcome(|old(kernel.rules)| - |kernel.rules|, LastStuck(old(kernel.rules), ip))
      ensures Answers(old(kernel.rules), kernel.rules, ip, outcome)
    {
      hide Kept, LastStuck, SaveText, Split, SavedLines, UnblockOutcome, LineEffect, Progress, SaysDrop, Quoted, Answers;
      KeptLetters(kernel.rules, ip);
      UnblockOutcomeAnswers(kernel.rules, ip);
      ghost var was := kernel.rules;
      var lines := Split(SaveText(kernel.header, kernel.rules), {'\n'});
      SaveLines(kernel.header, kernel.rules);
      assert lines == SavedLines(kernel.header, was);
      var removed := 0;
      var lastErr: Option<string> := None;
      ProgressEnds(kernel.header, was, ip);
      for k := 0 to |lines|
        invariant kernel.Valid()
        invariant (kernel.rules, removed, lastErr) == Progress(kernel.header, was, ip, k)
      {
        ProgressStep(kernel.header, was, ip, k);
        removed, lastErr := UnblockLine(TrimSpace(lines[k]), ip, removed, lastErr);
      }
      outcome := UnblockOutcome(removed, lastErr);
    }

    /** One line of the snapshot: delete the rule it shows if the unblock matches it. */
    method UnblockLine(trimmed: string, ip: string, removed: int, lastErr: Option<string>)
      returns (removed': int, lastErr': Option<string>)
      requires kernel.Valid()
      modifies kernel`rules
      ensures kernel.Valid()
      ensures (kernel.rules, removed', lastErr') == LineEffect((old(kernel.rules), removed, lastErr), trimmed, ip)
      ensures removed' + |kernel.rules| == removed + |old(kernel.rules)|
      ensures IsRule(trimmed) && Matches(trimmed, ip) ==>
                && DropsFirst(old(kernel.rules), kernel.rules, trimmed)
                && lastErr' == if trimmed in old(kernel.rules) && Deletable(trimmed) then lastErr else Some(trimmed)
    {
      removed', lastErr' := removed, lastErr;
      if "-A " <= trimmed && Contains(trimmed, ip) && IsDrop(trimmed) {
        var ok := kernel.Delete(DeleteArgs(trimmed));
        if ok {
          removed' := removed + 1;
        } else {
          lastErr' := Some(trimmed);
        }
      }
    }
  }
}
