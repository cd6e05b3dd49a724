# Verified models of VaSTLogs

VaSTLogs watches a fleet of Linux hosts. An agent on every host ships logs and metrics to a
central server, blocks addresses in the host's firewall on command, and reports back; the
server runs monitors and alert rules; a browser console searches logs and shows
notifications. This project models the parts of that system that are protocols, state
machines, small languages or in-place algorithms, and proves what they keep over whole runs.

Code that works by changing things step by step is modelled by classes, methods and loops,
each proved against a specification function; what the system promises is then proved about
those functions. `dafny verify dfyconfig.toml` checks everything.

| file | models |
|---|---|
| `Firewall.dfy` | reading blocked sources out of `iptables-save`; block and unblock over the rule list |
| `CommandStore.dfy`, `OrderHistory.dfy` | the server's table and command queue; histories of block and unblock orders |
| `ControlLoop.dfy`, `CommandReplay.dfy`, `AgentMain.dfy` | the distributed control loop of administrators, agents, lost acknowledgements, restarts and reports; replays and failures; the agent's loops |
| `Bruteforce.dfy` | the SSH brute-force detector, a second writer into the rule list |
| `Monitor.dfy` | the monitor status machine, scheduler, heartbeats and probes |
| `AlertEngine.dfy` | alert rules, silences and the per-(rule, host) cooldown map |
| `Notifications.dfy` | the browser poller and its feed |
| `LogSearch.dfy`, `LogQuery.dfy`, `CsvExport.dfy` | the search box language, filter compilation, the CSV export |
| `ActivityRollup.dfy` | the per-address rollup against the raw access log |
| `RedisDiagnostics.dfy`, `WebServerStats.dfy`, `DiskTotals.dfy`, `Telemetry.dfy` | in-place sorting and cutting, histograms, device totals, the telemetry queue |
| `Text.dfy`, `Wrappers.dfy` | string operations with their round-trip laws; the optional value |

## How to read the models

* Time is an integer passed to each step. One processed result, one rule evaluation, one
  tick, one log line and one poll are each atomic and see one clock reading.
* Processes and the network are inputs: whether `iptables` could run, whether a request or
  an acknowledgement arrived.
* `iptables` is modelled on the filter table. A rule is the line `iptables-save` prints. An
  insert accepts a canonical dotted IPv4 address and goes to the top of the list. A delete
  names a rule word by word, as the agent builds it from the line, so a line with a quoted
  argument can never be named; that is the only reason a single delete fails.
* Command ids come from a counter that stands for UUIDs; creation order is queue order.
* ClickHouse is modelled by the semantics the code relies on: rows replaced by key,
  summing merges at unpredictable moments, deletes that take effect at once.

Each operation is also described once more in the plainest terms, beside the definitions it is
computed by: the letters of a rule, the fields of an entry, the numbers of a configuration
(`Firewall.KeptLetters`, `AlertEngine.FiresExactly`, `Monitor.ConfiguredThreshold`,
`ActivityRollup.TotalsByFields`, `CommandReplay.TickAcknowledges` and their like).

## Where the code differs from what it is said to do

The models follow the code. For each difference a theorem says, for all inputs, when the code
does what was meant; lemmas with concrete cases stand beside them.

* An unblock is meant to remove every DROP or REJECT rule of the address. It matches rules by
  text and cannot delete rules with quoted arguments, so it removes exactly those rules if and
  only if none of them is quoted and every removable rule that names the address drops it
  (`Firewall.UnblockAsMeant`). What it does to the reported list is `Firewall.UnblockReach`,
  and that list is as meant exactly as `Firewall.UnblockListAsMeant` says (cases:
  `Firewall.BlockRuleReach`, `Firewall.DestinationRuleRemoved`).
* The reader of the rule list goes by the text of a rule. What it reports is the one address
  the rule drops, except when the source is negated or wider than one address, when DROP or
  REJECT is only named in the text (a chain DROPLOG, a comment), or when the `-s` it read
  stands in a quoted text (`Firewall.ReportedTruthful`, for the whole list
  `Firewall.CollectedTruthful`; cases: `Firewall.NegatedSourceReported`,
  `Firewall.SimpleRuleReported`, `Firewall.QuotedTargetReported`).
* A lost acknowledgement followed by a delivered one replays the older command after the
  newer, and a command that could not run is acknowledged as failed and never retried. Over
  any run at all the rule list follows the orders exactly when, for each rule, the latest
  order carried out agrees with the latest one issued (`CommandReplay.ConvergesIff`); for one
  agent's ticks `CommandReplay.LostAckReplay` and `CommandReplay.FailedCommandDropped` say which
  losses and failures do harm (cases: `CommandReplay.UnblockUndone`, `CommandReplay.BlockNeverRan`).
* "5 failed attempts in 10 minutes" is not what the detector enforces. Five failures in ten
  minutes trigger a block exactly when the count stands below five at the first of them,
  which it does not while the record of a failed block is kept
  (`Bruteforce.FiveInTenMinutes`, a case is `Bruteforce.PromiseBroken`); and the five behind a block may span an hour
  (`Bruteforce.FiveWithinTheHour`, tight by `Bruteforce.SlowAttackBlocked`).
* Silencing trims the host and reads an empty one as every host, unsilencing does neither
  (`AlertEngine.UnsilenceUndoes`). Rule ids come from the client and need not differ: every
  rule has cooldowns of its own exactly when no two ids are equal and none is another followed
  by `|` and anything more (`AlertEngine.OwnCooldownsExact`; cases:
  `AlertEngine.EqualIdsSuppress`, `AlertEngine.EntangledSuppress`).
* Alert ids are whole-second timestamps. A poll misses nothing exactly when at most five
  alerts arrived and none in the second of the newest one seen before
  (`Notifications.SameSecondMissed`, over whole runs `Notifications.ExactlyOnce`).
* A time of day typed in the search box is cut at its colon (`LogSearch.TimeOfDayLost`);
  `%`, `_` and some backslashes in a search term act as wildcards
  (`LogQuery.SubstringSearch`); unquoted CSV columns break on separators
  (`CsvExport.CsvRoundTrip`).
* Merged rollup rows may report a first request later than the real one; each merge that
  does is characterised (`ActivityRollup.FirstSeenAfterMerge`, a case is
  `ActivityRollup.FirstSeenLost`), and the times are true throughout a run exactly when it has
  no such merge (`ActivityRollup.AlwaysTrueTimes`).
* Device totals take one whole device for a partition of another whose name begins its own
  (`DiskTotals.WholeCounted`), so a numbered series is counted in full exactly up to ten
  devices (`DiskTotals.SeriesCounted`).

## Model

| member | source | states |
|---|---|---|
| `Firewall.CollectedExact` | agent/collector/firewall.go:53-82 | The blocked list holds exactly the sources of DROP/REJECT rules that are not loopback or 0.0.0.0, each once |
| `Firewall.SaveCollected` | agent/collector/firewall.go:51-59 | Table, chain and trailer lines of the dump contribute nothing |
| `Firewall.FirewallCollector.FindSource` | agent/collector/firewall.go:67-81 | The loop finds the argument of the first `-s` that has one, mask stripped |
| `Firewall.FirewallCollector.CollectBlockedIPs` | agent/collector/firewall.go:43-85 | The list holds, each once, exactly the addresses that a rule saying `-j DROP` or `-j REJECT` names by its first `-s`, but 0.0.0.0 and 127.*; an error when the dump fails |
| `Firewall.KeptCounts` | agent/collector/firewall.go:102-140 | An unblock brings the count of every matching deletable rule text to zero, duplicates included, and leaves every other count alone |
| `Firewall.KeptLetters` | agent/collector/firewall.go:112-140 | What an unblock removes, by the letters of a rule: all copies of unquoted `-A ` lines that contain the address and `-j DROP` or `-j REJECT`, and nothing else |
| `Firewall.UnblockAnswers` | agent/collector/firewall.go:142-148 | What it answers: the number removed, the last matching rule when all are quoted, or no matching rule |
| `Firewall.ReportedLetters` | agent/collector/firewall.go:53-82 | What is reported of a rule, by its letters and words |
| `Firewall.OtherTargetsLeft` | agent/collector/firewall.go:60-62 | A rule of plain words whose target begins with neither DROP nor REJECT is not reported and outlives every unblock |
| `Firewall.AddressMeans` | agent/collector/firewall.go:93-100 | A block accepts exactly the dotted decimal forms of four numbers below 256 |
| `Firewall.KeptAppend` | agent/collector/firewall.go:112-140 | The rules left behind keep their order: an unblock of a concatenation is the concatenation of the unblocks |
| `Firewall.DeleteHits` | agent/collector/firewall.go:128-139 | In the unblock loop the delete call built from a line names that very rule first, or no rule when it is quoted |
| `Firewall.ProgressStep` | agent/collector/firewall.go:112-140 | Each line of the snapshot advances rules, removed count and last error as the loop does |
| `Firewall.DeleteArgsInjective` | agent/collector/firewall.go:131-132 | The delete call identifies the rule |
| `Firewall.FirewallCollector.UnblockLine` | agent/collector/firewall.go:112-140 | Rules removed so far plus rules left stay constant; a matching rule line costs the list the first copy of that very rule, or is recorded as the last failure when it is quoted or gone |
| `Firewall.FirewallCollector.Unblock` | agent/collector/firewall.go:102-148 | Exactly the unquoted rules that name the address and say `-j DROP` or `-j REJECT` are removed, every copy and in order; the answer is the number removed, the last quoted rule that matched, or that none matched |
| `Firewall.FirewallCollector.ExecuteIPTablesCommand` | agent/collector/firewall.go:91-155 | Block inserts one rule on top, unblock removes, unknown actions and refused addresses fail, and a failed run changes nothing |
| `Firewall.IPTables.Insert` | agent/collector/firewall.go:93-100 | Accepts canonical addresses only; the rule `-A INPUT -s ip/32 -j DROP` goes on top, adds the address, if reportable, and no other to the reported list, and an unblock of it leaves what it would have left before |
| `Firewall.IPTables.Delete` | agent/collector/firewall.go:134-139 | The call built from a rule removes the first copy of that rule and nothing else, exactly when the rule is in the list and unquoted |
| `Firewall.FirstMatchNames` | agent/collector/firewall.go:128-139 | Over any rule list the delete call built from a rule names the first copy of that rule, or none when it is quoted or absent |
| `Firewall.BlockRuleReadBack` | agent/collector/firewall.go:93-100 | An inserted rule is read back as its address and an unblock of the address removes it |
| `Firewall.ReportedOccurs` | agent/collector/firewall.go:119-126 | The source a rule is reported under occurs in its text, so its unblock matches it |
| `Firewall.UnblockedSource` | agent/collector/firewall.go:102-148 | After an unblock the address is still reported exactly when a quoted rule reports it |
| `Firewall.UnblockReach` | agent/collector/firewall.go:102-148 | For any rule list and any two addresses, the other is still reported exactly when some rule reported under it does not name the unblocked one or is quoted |
| `Firewall.UnblockListAsMeant` | agent/collector/firewall.go:87-148 | The unblocked address and no other leaves the reported list exactly when no rule reported under it is quoted and every other reported address has a rule that is quoted or does not name it |
| `Firewall.UnblockAsMeant` | agent/collector/firewall.go:87-148 | Exactly the rules that drop the address are removed, over all chains, if and only if none of them is quoted and every removable rule naming the address drops it |
| `Firewall.ReportedTruthful` | agent/collector/firewall.go:66-81 | For every rule line, what is reported is the one address the rule drops (target, mask, negation and quotes read independently) exactly when it is not misread in one of four ways |
| `Firewall.DropNamed` | agent/collector/firewall.go:60-62 | A rule whose target is DROP or REJECT passes the text test |
| `Firewall.UnquotedReading` | agent/collector/firewall.go:60-81 | For rules without quotes only negation, a wide mask and a target named in the text mislead the reader |
| `Firewall.CollectedTruthful` | agent/collector/firewall.go:53-82 | The blocked list is right about an address exactly when each misread rule reported under it stands beside one that drops it, and each misread rule that drops it beside one reported under it |
| `CommandStore.Store.Block` | server/storage/clickhouse.go:948-956 | The address is listed for the agent at once, no other row changes, and one block with a fresh id joins the end of that agent's pending list alone |
| `CommandStore.Store.Unblock` | server/storage/clickhouse.go:958-966 | The address is no longer listed for the agent, no other row changes, and one unblock with a fresh id joins the end of that agent's pending list alone |
| `CommandStore.Store.Insert` | server/storage/clickhouse.go:978-981 | Appends a pending command under an id no command had before; ids stay distinct and other agents' pending lists do not change |
| `CommandStore.Store.GetPendingCommands` | server/storage/clickhouse.go:983-1000 | Returns the agent's pending commands in creation order |
| `CommandStore.Store.AckCommand` | server/storage/clickhouse.go:1002-1006 | Sets the status of the command with the id; it leaves its agent's pending list and no pending list changes otherwise |
| `CommandStore.Store.SyncBlockedIPs` | server/storage/clickhouse.go:1008-1036 | Replaces the agent's rows by the report |
| `CommandStore.SyncedExact` | server/storage/clickhouse.go:1008-1036 | After a report the agent's rows are exactly the reported addresses and other agents' rows are untouched |
| `CommandStore.Store.IsIPBlocked` | server/storage/clickhouse.go:892-916 | True exactly when a row for the address exists for the agent, or for any agent when none is named |
| `ControlLoop.Convergence` | agent/main.go:357-384 | In every interleaving with safe acknowledgements, once the queue is drained a rule is present exactly when the latest order affecting it is a block, or none affects it and it was there at the start |
| `CommandReplay.ConvergesIff` | agent/main.go:357-384 | In every run whatsoever (acknowledgements lost or out of turn, failures, restarts, local blocks) the rule list agrees with the history about a rule exactly when the latest order carried out that affects it points the way of the latest order of the history, presence at the start standing in where there is none |
| `CommandReplay.ExecutedFrom` | agent/main.go:365-382 | Every order carried out was pending at the start, issued during the run, or is a local block |
| `ControlLoop.OutlookStep` | agent/main.go:357-384 | Every step of every party leaves the verdict of rules plus pending queue alone, except for the orders it issues |
| `ControlLoop.OutlookRun` | agent/main.go:365-382 | Executing a command is absorbed by its own replay when it stays pending, and commutes past older non-conflicting ones when acknowledged |
| `OrderHistory.Absorb` | agent/main.go:365-382 | Executing an order before a history that contains it changes nothing in the end |
| `OrderHistory.Commute` | agent/main.go:365-382 | Orders that do not conflict may be reordered |
| `OrderHistory.DecideIsLatest` | agent/collector/firewall.go:91-148 | Executing orders in turn agrees with looking for the latest one affecting a rule |
| `OrderHistory.ExecutePresence` | agent/collector/firewall.go:91-148 | One command sets or clears exactly the rule texts it affects |
| `ControlLoop.InvKept` | agent/main.go:357-384 | Queue ids stay fresh and distinct, and a snapshot in progress only holds the agent's own pending commands |
| `ControlLoop.AckPending` | server/storage/clickhouse.go:983-1006 | An acknowledged command leaves the pending list and the others keep their order |
| `OrderHistory.ReplaySuffix` | agent/main.go:365-382 | Executing a batch and then any suffix of it again leaves the same rule texts and blocked sources |
| `ControlLoop.PrefixAcksSafe` | agent/main.go:378-381 | Acknowledgements that arrive as a prefix of each batch, all of them in the ideal case, are safe |
| `ControlLoop.IdealRun` | agent/main.go:378-381 | Runs in which every command can be run and every acknowledgement arrives acknowledge prefixes |
| `ControlLoop.OutlookLeast` | agent/modules/ssh_bruteforce/bruteforce.go:144-152 | The detector's own blocks only ever add rules to what the issued orders leave in force |
| `ControlLoop.ConvergenceExact` | agent/modules/ssh_bruteforce/bruteforce.go:144-152 | Convergence with any local blocks: drained, a rule is present exactly when the orders leave it in force or some local block of it, taken as ordered before everything then pending, is undone by nothing later |
| `ControlLoop.OutlookExact` | agent/modules/ssh_bruteforce/bruteforce.go:144-152 | The same verdict for rules plus pending queue at any moment of the run |
| `ControlLoop.TableAgrees` | agent/main.go:332-341 | Drained and reported, the server lists exactly the sources of the rules that orders and local blocks leave in force (the orders alone for addresses the detector did not block); other agents' rows are as before the report |
| `ControlLoop.BlockHonoured` | server/storage/clickhouse.go:948-956 | A block no later unblock conflicts with is listed after drain and report |
| `ControlLoop.UnblockHonoured` | server/storage/clickhouse.go:958-966 | An address unblocked after its last block is not listed, unless the detector blocks it or a quoted rule was there from the start |
| `CommandReplay.LostAckReplay` | agent/main.go:378-381 | For any pending batch, any lost acknowledgements and any number of ticks the outcome is the meant one exactly when the latest replayed command affecting the rule agrees with the latest one queued |
| `CommandReplay.FailedCommandDropped` | agent/main.go:369-381 | For any pending batch and any commands that could not run, one tick drains the queue, and the outcome is the meant one exactly when the latest command that ran and affects the rule, or its presence before when none did, agrees with the latest one queued |
| `CommandReplay.TicksOutcome` | agent/main.go:357-384 | The exact condition for any mixture of lost acknowledgements and commands that could not run, over any number of ticks |
| `CommandReplay.TickEffect` | agent/main.go:357-384 | One tick carries out in queue order the commands that could run and leaves pending exactly those whose acknowledgement was lost |
| `CommandReplay.TickAcknowledges` | agent/main.go:365-382 | After a tick a command whose acknowledgement arrived is completed exactly when iptables could run and it was a block of a canonical address or an unblock with a rule to remove, and failed otherwise; every other command keeps its status |
| `CommandReplay.StatusMeans` | agent/main.go:369-377 | When the status is completed and when failed |
| `OrderHistory.SameOutcome` | agent/collector/firewall.go:91-148 | Carrying out any orders instead of the meant ones gives the meant outcome exactly when the latest affecting orders agree |
| `AgentMain.AgentLoops.PollOnce` | agent/main.go:357-384 | The command loop's tick is the protocol's poll followed by one run step per fetched command, and the statuses it leaves are those of the commands carried out |
| `AgentMain.AgentLoops.RunOne` | agent/main.go:365-382 | One command is executed and acknowledged as the protocol's run step says |
| `AgentMain.AgentLoops.SyncOnce` | agent/main.go:332-341 | The sync tick is the protocol's report step, or nothing when the dump or the request fails |
| `Bruteforce.Accounting` | agent/modules/ssh_bruteforce/bruteforce.go:94-176 | Failures of an address = 5 times successful blocks + current count + counts lost to eviction, over any run |
| `Bruteforce.CountedSpaced` | agent/modules/ssh_bruteforce/bruteforce.go:97-115 | Consecutive failures counted in one record are at most 15 minutes apart |
| `Bruteforce.TrackedStep` | agent/modules/ssh_bruteforce/bruteforce.go:94-176 | Every event keeps each record's count, last time and spacing in step with the failures counted |
| `Bruteforce.FiveWithinTheHour` | agent/modules/ssh_bruteforce/bruteforce.go:144-152 | The five failures behind a block command span at most 60 minutes |
| `Bruteforce.SlowAttackBlocked` | agent/modules/ssh_bruteforce/bruteforce.go:144-152 | The 60 minutes are attained: the documented ten-minute window is not enforced |
| `Bruteforce.SlowAttackTimes` | agent/modules/ssh_bruteforce/bruteforce.go:144-152 | The five failures of that run are 15 minutes apart |
| `Bruteforce.FailedBlockNotRetried` | agent/modules/ssh_bruteforce/bruteforce.go:145-149 | After a failed block no failure triggers another until the record is evicted |
| `Bruteforce.FiveInTenMinutes` | agent/modules/ssh_bruteforce/bruteforce.go:144-152 | In any ten-minute window that opens with a failure and holds at least five, some failure issues a block exactly when the count stands below five as the window opens |
| `Bruteforce.WindowAttempts` | agent/modules/ssh_bruteforce/bruteforce.go:97-152 | Within ten minutes of the record's last touch a block is issued exactly when the failures of the window bring the count from below five to five |
| `Bruteforce.BruteforceModule.OnLine` | agent/modules/ssh_bruteforce/bruteforce.go:126-176 | A failure updates the record, and at the fifth puts the block rule on top of the rule list when the command succeeds |
| `Bruteforce.BruteforceModule.Cleanup` | agent/modules/ssh_bruteforce/bruteforce.go:104-114 | A tick evicts exactly the records silent for over ten minutes, in any visiting order |
| `Monitor.NeverPendingAgain` | server/monitor/poller.go:143-168 | PENDING is never re-entered |
| `Monitor.AlertsAlternate` | server/monitor/poller.go:179-215 | Status-change alerts strictly alternate even if thresholds change, and the last one names the current status |
| `Monitor.StatusClosedForm` | server/monitor/poller.go:155-168 | With a fixed threshold the status is a closed function of initial state, trailing failures and whether any result succeeded |
| `Monitor.DownAlertsPaidFor` | server/monitor/poller.go:155-215 | Threshold times the number of DOWN alerts is at most the number of failed results plus the failures counted at the start |
| `Monitor.ServiceRunsMachines` | server/monitor/poller.go:143-215 | Whatever results of other monitors come between, a monitor's status, failure count and status-change alerts are those of its own history |
| `Monitor.ServiceRun` | server/monitor/poller.go:46-168 | Over any run of ticks, beats and probe answers of all monitors each monitor's state is that of its own machine |
| `Monitor.ServiceAlerts` | server/monitor/poller.go:46-215 | The status changes the running service announces for a monitor are the alerts of the results its machine processed |
| `Monitor.ServiceAlternates` | server/monitor/poller.go:179-215 | The status changes the running service announces for a monitor alternate and end in its status |
| `Monitor.SilenceDetected` | server/monitor/poller.go:57-77 | After the last beat, the failure count and status at each tick follow from how overdue the beat is |
| `Monitor.HeartbeatLatency` | server/monitor/poller.go:57-77 | DOWN is first seen later than t+I+5(T-1) and no later than t+I+5T seconds |
| `Monitor.ConfiguredLatency` | server/monitor/poller.go:57-77 | The same from the configured threshold and interval in seconds, with their defaults |
| `Monitor.ConfiguredThreshold` | server/monitor/poller.go:155-215 | Failed results in a row take an UP monitor DOWN, with one alert, exactly from the configured number on, or from the first on when that is not positive |
| `Monitor.FirstSight` | server/monitor/poller.go:46-99 | A tick that meets a monitor for the first time starts a heartbeat monitor DOWN, checked an hour ago, and probes an active one |
| `Monitor.PunctualNeverFails` | server/monitor/poller.go:57-118 | At no moment of a run of ticks and beats is a failure recorded, exactly when no tick comes more than an interval after the last beat; the monitor is then UP throughout |
| `Monitor.ConfiguredPunctual` | server/monitor/poller.go:57-118 | The same from the configured interval in seconds |
| `Monitor.ServiceHeartbeat` | server/monitor/poller.go:46-118 | A heartbeat monitor of the running service goes through the ticks and its own beats, whatever other monitors do |
| `Monitor.ServiceSilence` | server/monitor/poller.go:57-77 | The latency result holds of the running service |
| `Monitor.ProbeSpacing` | server/monitor/poller.go:79-97 | Probes start at least an interval and less than an interval plus one tick apart |
| `Monitor.ConfiguredSpacing` | server/monitor/poller.go:91-97 | The same from the configured interval in seconds |
| `Monitor.ServiceProbes` | server/monitor/poller.go:79-97 | The running service starts the probes of a monitor when its own machine is due |
| `Monitor.ServiceProbeSpacing` | server/monitor/poller.go:79-97 | Probes the running service starts for a new monitor keep that spacing |
| `Monitor.TickIsPerMonitor` | server/monitor/poller.go:52-97 | With distinct ids a tick moves each monitor by its own rule and leaves disabled ones alone |
| `Monitor.MonitorService.ProcessResult` | server/monitor/poller.go:143-232 | The new state and the alerts raised by one result |
| `Monitor.ResultAnnounces` | server/monitor/poller.go:179-232 | A status change is announced when there was a status and it changed, a slow response when the answer took longer than a positive threshold |
| `Monitor.MonitorService.CheckMonitor` | server/monitor/poller.go:52-97 | One monitor's turn in a tick |
| `Monitor.MonitorService.RunTick` | server/monitor/poller.go:46-99 | A tick over all monitors: states, probes started, alerts raised |
| `Monitor.MonitorService.ReceiveHeartbeat` | server/monitor/poller.go:102-118 | A beat counts exactly when the first monitor of that id is enabled and of heartbeat kind |
| `AlertEngine.EngineRefines` | server/alert/service.go:79-175 | Over every run whose rule ids are not entangled the engine with the cooldown map fires exactly what a reference engine that looks back over the trace fires |
| `AlertEngine.EvaluationRefines` | server/alert/service.go:90-175 | One evaluation keeps the map equal to the latest fires of the trace and fires the same alerts |
| `AlertEngine.FiresExactly` | server/alert/service.go:90-175 | What one evaluation fires, rule by rule and operator by operator |
| `AlertEngine.SilenceMeans` | server/api/handler.go:1655-1696 | Until it runs out a silence stops its rule on the named host, or on all, and nowhere else |
| `AlertEngine.LatestDecides` | server/alert/service.go:126-139 | In a trace in time order the latest fire alone decides whether the pair has been quiet for 60 s |
| `AlertEngine.RateLimited` | server/alert/service.go:81-139 | In every run, with any rule ids, fires of a pair are at least 60 s apart, so a window W holds at most W/60+1 |
| `AlertEngine.KeyInjective` | server/alert/service.go:128 | The text key identifies (rule, host) when the rule ids are not entangled |
| `AlertEngine.KeyCollision` | server/alert/service.go:128 | Two different rule ids share a key for some hosts exactly when one is the other followed by a bar and anything more |
| `AlertEngine.EntangledSuppress` | server/alert/service.go:126-139 | With any two entangled ids an alert of one rule is lost to the cooldown of the other |
| `AlertEngine.UntangledExact` | server/alert/service.go:79-175 | A set of rule ids has no entangled pair exactly when map engine and by-id reference engine agree in every run using only those ids |
| `AlertEngine.OwnCooldownsExact` | server/alert/service.go:79-175 | For rules bearing given ids the engine fires in every run what an engine with a cooldown per rule and host fires, exactly when no two ids are equal or entangled |
| `AlertEngine.MeetingSuppress` | server/alert/service.go:126-139 | Of any two rules whose ids meet in one key the second loses its alert |
| `AlertEngine.UnsilenceUndoes` | server/api/handler.go:1655-1747 | Unsilencing with the silenced text lifts the silence exactly when the text is non-empty and trimmed; other rules are untouched |
| `AlertEngine.AlertService.EvaluateRules` | server/alert/service.go:79-175 | One alert is fired for every id with a rule that is enabled, for this host, under no running silence and past its threshold by its operator, unless the pair fired less than 60 s ago; the map marks exactly those |
| `AlertEngine.AlertConfig.SilenceRule` | server/api/handler.go:1655-1696 | Silences the first rule with the id under the normalised host and says whether there was one |
| `AlertEngine.AlertConfig.SilenceEverything` | server/api/handler.go:1698-1725 | Silences every rule for every host |
| `AlertEngine.AlertConfig.UnsilenceRule` | server/api/handler.go:1727-1747 | Deletes the silence of the first rule with the id under the host as given |
| `AlertEngine.AlertConfig.UnsilenceEverything` | server/api/handler.go:1749-1759 | Clears every silence |
| `Notifications.ExactlyOnce` | web/src/contexts/NotificationContext.jsx:119-177 | Each alert after the first non-empty poll is notified exactly once, in order, if and only if every later batch has at most five alerts and none with the id at the head of the history before it; none is ever notified more often than recorded, and the feed is the newest fifty |
| `Notifications.DistinctExactlyOnce` | web/src/contexts/NotificationContext.jsx:119-177 | With distinct ids that means at most five alerts between polls, and no alert is notified twice |
| `Notifications.PollNotifies` | web/src/contexts/NotificationContext.jsx:132-141 | A poll notifies a run of the newest new alerts, exactly those among the five fetched that no alert with the last seen id precedes |
| `Notifications.NextPoll` | web/src/contexts/NotificationContext.jsx:132-177 | In a run a poll notifies a run of its batch, all of it exactly when the batch is complete |
| `Notifications.SameSecondMissed` | server/api/handler.go:1791-1804 | A poll misses nothing exactly when at most five alerts arrived and none bears the id at the head of the history before them |
| `Notifications.FeedNext` | web/src/contexts/NotificationContext.jsx:83-93 | Cutting the feed at each insertion equals cutting it once |
| `Notifications.NotificationProvider.CheckAlerts` | web/src/contexts/NotificationContext.jsx:119-177 | One poll: newest id, notifications passed on, feed |
| `Notifications.NotificationProvider.AddNotification` | web/src/contexts/NotificationContext.jsx:83-93 | Keeps the feed equal to the newest fifty alerts notified since it was last cleared, with the new one on top |
| `Notifications.NotificationProvider.ClearAll` | web/src/contexts/NotificationContext.jsx:110-113 | Empties the feed for good: only alerts notified later are shown again |
| `Notifications.FeedIsNewest` | web/src/contexts/NotificationContext.jsx:83-93 | Over any run the feed is the newest fifty of all alerts notified |
| `LogSearch.ParseSearchQuery` | web/src/pages/Logs.jsx:43-60 | Free text is the query with recognised tokens removed in order, and the last token of a key wins |
| `LogSearch.TokenMeans` | web/src/pages/Logs.jsx:47-57 | A token sets a key to a value exactly when it is one of six keys in any case, a colon, and the value up to its end or next colon |
| `LogSearch.SearchRoundTrip` | web/src/pages/Logs.jsx:43-60 | Rendered fields and free text are read back: the text exactly, each value up to its first colon, so all fields exactly when none holds a colon |
| `LogSearch.TimeOfDayLost` | web/src/pages/Logs.jsx:49-54 | A value with a time of day loses everything from its first colon |
| `LogQuery.BuildQuery` | server/storage/clickhouse.go:662-708 | Evaluated left to right the built clause uses up its arguments exactly and accepts exactly the rows meeting every set field; limit and order default as the code does |
| `LogQuery.ClauseExtend` | server/storage/clickhouse.go:673-701 | Appending a conjunct and its arguments conjoins its meaning |
| `LogQuery.AnyLikeConjunct` | server/storage/clickhouse.go:683-701 | A parenthesised ILIKE chain takes one argument per column and means their disjunction |
| `LogQuery.SubstringSearch` | server/storage/clickhouse.go:683-701 | The `%term%` match is case-insensitive substring search on every text exactly when the term has no wildcard, no double backslash and none at its end |
| `CsvExport.CsvRoundTrip` | web/src/pages/Logs.jsx:182-194 | For arbitrary messages a reader for section 2 of RFC 4180 returns header and rows exactly when host, level and source path hold no comma, quote, CR or LF |
| `CsvExport.CsvColumns` | web/src/pages/Logs.jsx:182-194 | The same column by column, under the five header names |
| `CsvExport.ExportText` | web/src/pages/Logs.jsx:182-194 | The exported text, character by character |
| `CsvExport.RowReadBack` | web/src/pages/Logs.jsx:187-193 | One exported line is read back as its five fields exactly when its unquoted fields are clean |
| `CsvExport.QuotedReadBack` | web/src/pages/Logs.jsx:192 | A message with doubled quotes is read back as itself |
| `CsvExport.UnquotedField` | web/src/pages/Logs.jsx:187-193 | An unquoted field is read back as itself exactly when it is clean |
| `ActivityRollup.RollupAgrees` | server/storage/clickhouse.go:276-305 | After any inserts, merges and purges the summed totals of any selection of keys equal the number of selected access-log rows |
| `ActivityRollup.TotalsByFields` | server/storage/clickhouse.go:1045-1058 | The summed total of an address, agent and service is the number of log entries with these fields |
| `ActivityRollup.TotalsByDay` | server/storage/clickhouse.go:291-305 | The totals of a day count exactly the requests from midnight to midnight |
| `ActivityRollup.GroupedBounds` | server/storage/clickhouse.go:291-305 | A batch adds one row a key whose times are the earliest and latest of the key in the batch |
| `ActivityRollup.MergeKeepsSum` | server/storage/clickhouse.go:277-287 | A background merge keeps every total |
| `ActivityRollup.PurgeSums` | server/storage/clickhouse.go:1267-1301 | A purge removes the same keys from both tables |
| `ActivityRollup.TimesAttested` | server/storage/clickhouse.go:276-305 | Reported first and last times are times of real requests |
| `ActivityRollup.FirstSeenAfterMerge` | server/storage/clickhouse.go:277-287 | In any run a merge leaves the first time reported for a selection as it was exactly when the row let go is not selected or a surviving selected row is as early, and the last time when one is as late |
| `ActivityRollup.TimesExact` | server/storage/clickhouse.go:276-305 | In runs whose merges keep a row as early and as late, in particular without merges, reported first and last times are those of the raw log |
| `ActivityRollup.TimesByFields` | server/storage/clickhouse.go:1045-1058 | In such runs the reported times of an address, agent and service are those of its earliest and latest request |
| `ActivityRollup.AlwaysTrueTimes` | server/storage/clickhouse.go:276-305 | Reported times are true at every moment of a run, for every selection, if and only if every merge leaves a row of its key as early and one as late as the row let go |
| `ActivityRollup.TimesInside` | server/storage/clickhouse.go:276-305 | In any run reported times lie within the true ones, and something is reported exactly when something is there |
| `ActivityRollup.ActivityStore.InsertBatch` | server/storage/clickhouse.go:291-305 | Stores a batch and adds its grouped rows |
| `ActivityRollup.ActivityStore.MergeRows` | server/storage/clickhouse.go:277-287 | Merging two rows of equal key leaves one row fewer and every selected total as it was |
| `ActivityRollup.ActivityStore.PurgeHost` | server/storage/clickhouse.go:1267-1301 | No row of the host is left in either table, every other row is, and the totals are those of the other hosts |
| `ActivityRollup.ActivityStore.TotalRequests` | server/storage/clickhouse.go:1045-1058 | The summed total of an address and service, for one agent or all, is the number of raw log entries with these fields on every reachable store |
| `RedisDiagnostics.BubbleSort` | agent/collector/services/redis_diagnostics.go:64-71 | The in-place sort is descending and stable |
| `RedisDiagnostics.BubbleStep` | agent/collector/services/redis_diagnostics.go:65-70 | One comparison keeps stability, the sunk tail and the running minimum |
| `RedisDiagnostics.StableSortUnique` | agent/collector/services/redis_diagnostics.go:64-71 | Descending order and stability determine the result |
| `RedisDiagnostics.StableSortedCorrect` | agent/collector/services/redis_diagnostics.go:64-71 | The reference insertion sort is a stable descending permutation |
| `RedisDiagnostics.TopKeepsLargest` | agent/collector/services/redis_diagnostics.go:73-89 | The cut keeps min(20, n) elements, ties in scan order, and no dropped element exceeds a kept one |
| `RedisDiagnostics.SortAndCut` | agent/collector/services/redis_diagnostics.go:64-89 | Sorting in place and cutting yields the first twenty of the stable descending sort |
| `RedisDiagnostics.GetLargestKeys` | agent/collector/services/redis_diagnostics.go:64-89 | The min(20, n) largest sampled keys by descending size, equal sizes in scan order, none left out larger than one kept |
| `RedisDiagnostics.GetExpensiveCommands` | agent/collector/services/redis_diagnostics.go:139-154 | The min(20, n) commands of highest cost per call, in descending order, equal costs in scan order |
| `WebServerStats.GetTopIPs` | agent/collector/services/webserver.go:161-211 | Distinct addresses with exact counts and bytes, descending, as many as there are up to the limit, with no busier address left out |
| `WebServerStats.NothingLost` | agent/collector/services/webserver.go:161-211 | The listed requests add up to the number of entries exactly when there are at most limit addresses, and the bytes then to the total |
| `WebServerStats.TopCovers` | agent/collector/services/webserver.go:161-211 | Every address is listed exactly when there are at most limit of them |
| `WebServerStats.ExchangeSort` | agent/collector/services/webserver.go:187-193 | The in-place exchange sort is a descending rearrangement |
| `WebServerStats.CountByIp` | agent/collector/services/webserver.go:162-168 | The two maps count requests and bytes of every address |
| `WebServerStats.ListStats` | agent/collector/services/webserver.go:177-184 | Each address becomes one entry, in any map order |
| `WebServerStats.GetStats` | agent/collector/services/webserver.go:114-147 | Totals, and for each class the number of entries with a status in 200-299, 300-399, 400-499 and 500-599 |
| `WebServerStats.ClassCounts` | agent/collector/services/webserver.go:128-140 | Each class count is the number of entries of that class |
| `Telemetry.FifoConservation` | server/telemetry/sender.go:51-91 | Accepted events in order = flushed batches, then batch, then queue; queue at most 1000, batch under 100, flushes of 1 to 100 |
| `Telemetry.LostOnlyWhenFull` | server/telemetry/sender.go:58-67 | Every offered event is accepted exactly when no offer met a full queue |
| `Telemetry.TelemetryService.Track` | server/telemetry/sender.go:52-68 | The line of accepted events (flushed, batch, queue) grows by the event at its end, or stays as it was exactly when telemetry is off or the channel is full; the bounds are kept |
| `Telemetry.TelemetryService.OnEvent` | server/telemetry/sender.go:78-83 | Takes one event off the channel without losing or reordering any accepted event, and flushes exactly at a hundred |
| `Telemetry.TelemetryService.OnTick` | server/telemetry/sender.go:84-88 | Empties the batch without losing or reordering any accepted event, and flushes exactly when it held something |
| `DiskTotals.CountedOnce` | agent/collector/system.go:139-157 | Every device that is not skipped has exactly one counted name as a prefix |
| `DiskTotals.CountedMeans` | agent/collector/system.go:139-151 | Counted are the devices not named loop, ram or sr of whose name no other is a prefix |
| `DiskTotals.CountedPrefixFree` | agent/collector/system.go:139-157 | Counted names are pairwise prefix-free |
| `DiskTotals.WholeCounted` | agent/collector/system.go:144-151 | The totals are over exactly the whole devices if and only if no whole device's name begins another's |
| `DiskTotals.SeriesCounted` | agent/collector/system.go:144-151 | A series of devices numbered from 0, with any partitions, is counted in full exactly when it has at most ten |
| `DiskTotals.SumRemove` | agent/collector/system.go:139-157 | The total does not depend on the visiting order |
| `DiskTotals.HasParent` | agent/collector/system.go:144-150 | The inner loop finds a parent exactly when another name is a prefix |
| `DiskTotals.Aggregate` | agent/collector/system.go:138-157 | In any map order each total is the 64-bit sum of its field over the counted devices |

## Left out

- Changes of the monitor configuration during a run of the whole service; the status-machine theorems (`Monitor.AlertsAlternate`, `Monitor.ServiceRunsMachines`) do allow thresholds to change.
- iptables tables other than filter, address syntax other than canonical dotted IPv4, and transient lock failures of single deletes.
- Firewall rules whose quoted text holds runs of white space; a rule line has single spaces between its words. Conditions of a rule besides source and target (ports, protocols, destinations) do not count towards what it drops.
- Column `blocked_at`, the listing `GetBlockedIPs` ordered by it, and expiry (TTL) of every table.
- A report is collected and delivered in one step; reports that arrive late are not modelled.
- PurgeHost on the firewall tables; it is modelled for the rollup only.
- The regular expressions that extract an address from an auth log line; the address is an input.
- The probes themselves (HTTP, TCP, TLS, DNS, ping), the heartbeat history table, message texts, mail, webhooks and telemetry uploads.
- Unlocked reads and check-then-act races in the Go code: the functions are atomic here.
- NaN and rounding: metric values and command costs are reals.
- `LogQuery.BuildQuery`: the SELECT list and the engine's ORDER BY and LIMIT are outside; only the direction and the limit handed over are stated, and the clause is a token sequence rather than text.
- Case folding beyond ASCII in ILIKE and in search keys.
- How the page merges dropdowns, time range and search fields into one request, and the date formats the server accepts.
- The unread counter and read marks of the notification feed, and browser popups.
- Sampling keys from Redis and parsing its statistics text; parsing access-log lines and the request rate.
- `WebServerStats.GetTopIPs`: requires a non-negative limit, because a negative one is out of range for Go's slice expression.
- 64-bit overflow of byte sums in the web-server statistics.
- Network rates and the per-second disk rates computed from the totals.
- Authentication, single sign-on, configuration CRUD, database stats collectors, charts: field copying or library calls.
