/** The browser's alert poller: each poll sees the five newest fired alerts, takes those
    newer than the newest one it saw last time, and puts each into a feed of at most fifty
    entries. Alerts stand newest first. */
module Notifications {
  import opened Wrappers

  const LIMIT: nat := 5
  const FEED: nat := 50

  datatype Alert = Alert(id: string, rule: string, host: string, severity: string, message: string)

  function Min(a: nat, b: nat): nat {
    if a < b then a else b
  }

  /** What the endpoint returns: the head of the alert history. */
  function Fired(history: seq<Alert>): seq<Alert> {
    history[..Min(LIMIT, |history|)]
  }

  /** The alerts in front of the one last seen; all of them when it is not in the list. */
  function NewerThan(fired: seq<Alert>, last: string): seq<Alert> {
    if fired == [] || fired[0].id == last then [] else [fired[0]] + NewerThan(fired[1..], last)
  }

  /** JavaScript treats the empty string like a missing id. */
  function Fresh(fired: seq<Alert>, last: Option<string>): seq<Alert> {
    if last == None || last.value == "" || fired == [] then [] else NewerThan(fired, last.value)
  }

  function Seen(fired: seq<Alert>, last: Option<string>): Option<string> {
    if fired == [] then last else Some(fired[0].id)
  }

  function Reverse<T>(s: seq<T>): (r: seq<T>)
    ensures |r| == |s|
  {
    if s == [] then [] else Reverse(s[1..]) + [s[0]]
  }

  /** The feed after the alerts have been put in front of it one by one. */
  function Feed(feed: seq<Alert>, newer: seq<Alert>): seq<Alert> {
    var all := Reverse(newer) + feed;
    if newer == [] then feed else all[..Min(FEED, |all|)]
  }

  /** The newest fifty of the alerts notified so far, newest first. */
  function Newest(notified: seq<Alert>): seq<Alert> {
    Reverse(notified)[..Min(FEED, |notified|)]
  }

  // ---------------------------------------------------------------------------
  // One poll
  // ---------------------------------------------------------------------------

  predicate DistinctIds(history: seq<Alert>) {
    && (forall i, j :: 0 <= i < j < |history| ==> history[i].id != history[j].id)
    && (forall i :: 0 <= i < |history| ==> history[i].id != "")
  }

  lemma {:induction false} NewerStops(fired: seq<Alert>, last: string, k: nat)
    requires k <= |fired| && forall i :: 0 <= i < k ==> fired[i].id != last
    requires k < |fired| ==> fired[k].id == last
    ensures NewerThan(fired, last) == fired[..k]
  {
    if k > 0 {
      NewerStops(fired[1..], last, k - 1);
      assert fired[..k] == [fired[0]] + fired[1..][..k - 1];
    }
  }

  /** The poll gets as far as the `k`-th of the new alerts: it is among the five fetched, and
      neither it nor a newer one bears the id last seen. */
  predicate Reaches(past: seq<Alert>, batch: seq<Alert>, k: nat)
    requires past != [] && k < |batch|
  {
    past[0].id != "" && k < LIMIT && forall j :: 0 <= j <= k ==> batch[j].id != past[0].id
  }

  /** A batch that the next poll notifies in full: at most five alerts, none of them bearing
      the id at the head of the history before it. */
  predicate Complete(past: seq<Alert>, batch: seq<Alert>)
    requires past != []
  {
    batch == [] || (past[0].id != "" && |batch| <= LIMIT && forall j :: 0 <= j < |batch| ==> batch[j].id != past[0].id)
  }

  function FirstWith(batch: seq<Alert>, id: string): (n: nat)
    ensures n <= |batch| && (n < |batch| ==> batch[n].id == id)
    ensures forall j :: 0 <= j < n ==> batch[j].id != id
  {
    if batch == [] || batch[0].id == id then 0 else 1 + FirstWith(batch[1..], id)
  }

  /** ONE POLL. Of the alerts recorded since the last poll the next one notifies a run of the
      newest, exactly those it reaches, whatever ids alerts share. */
  lemma PollNotifies(past: seq<Alert>, batch: seq<Alert>)
    requires past != []
    ensures var newer := Fresh(Fired(batch + past), Some(past[0].id));
            && newer <= batch
            && (forall k :: 0 <= k < |batch| ==> (Reaches(past, batch, k) <==> k < |newer|))
            && (forall a :: a in newer ==> a.id != past[0].id)
  {
    var fired, last := Fired(batch + past), past[0].id;
    if last != "" {
      var n := Min(LIMIT, FirstWith(batch, last));
      assert forall i :: 0 <= i < n ==> fired[i] == batch[i];
      assert n < LIMIT ==> fired[n] == (batch + past)[n];
      NewerStops(fired, last, if n < LIMIT then n else |fired|);
      assert fired[..n] == batch[..n];
    }
  }

  /** WHAT IS MISSED. Alert ids are whole-second timestamps, so alerts of one second share
      one. The next poll misses nothing exactly when at most five alerts arrived and none of
      them in the second of the newest alert seen before. */
  lemma SameSecondMissed(past: seq<Alert>, batch: seq<Alert>)
    requires past != []
    ensures Fresh(Fired(batch + past), Some(past[0].id)) == batch <==> Complete(past, batch)
    ensures forall a :: a in batch && a.id == past[0].id ==> a !in Fresh(Fired(batch + past), Some(past[0].id))
  {
    hide Fresh;
    var newer := Fresh(Fired(batch + past), Some(past[0].id));
    PollNotifies(past, batch);
    if batch != [] {
      assert newer == batch <==> |newer| == |batch|;
      assert Reaches(past, batch, |batch| - 1) <==> |newer| == |batch|;
    }
  }

  /** With distinct ids a poll notifies the newest min(5, n) of n new alerts. */
  lemma DistinctNotified(past: seq<Alert>, batch: seq<Alert>)
    requires past != [] && DistinctIds(batch + past)
    ensures Fresh(Fired(batch + past), Some(past[0].id)) == if |batch| < 5 then batch else batch[..5]
    ensures Complete(past, batch) <==> |batch| <= LIMIT
  {
    hide Fresh;
    var history := batch + past;
    assert history[|batch|] == past[0];
    assert forall i :: 0 <= i < |batch| ==> history[i] == batch[i];
    var newer := Fresh(Fired(history), Some(past[0].id));
    PollNotifies(past, batch);
    var n := Min(LIMIT, |batch|);
    assert n < |batch| ==> !Reaches(past, batch, n);
    assert n > 0 ==> Reaches(past, batch, n - 1);
  }

  // ---------------------------------------------------------------------------
  // Whole runs
  // ---------------------------------------------------------------------------

  /** The alerts (newest first) recorded before each poll. */
  function History(added: seq<seq<Alert>>): seq<Alert> {
    if added == [] then [] else added[|added| - 1] + History(added[..|added| - 1])
  }

  /** The newest id seen, everything passed to the feed in order, and the feed itself. */
  datatype Client = Client(last: Option<string>, notified: seq<Alert>, feed: seq<Alert>)

  function Poll(c: Client, history: seq<Alert>): Client {
    var fired := Fired(history);
    var newer := Fresh(fired, c.last);
    Client(Seen(fired, c.last), c.notified + newer, Feed(c.feed, newer))
  }

  /** One poll after each batch of new alerts. */
  function Polls(added: seq<seq<Alert>>): Client {
    if added == [] then Client(None, [], []) else Poll(Polls(added[..|added| - 1]), History(added))
  }

  /** Batches in the order in which they were polled. */
  function Concat(batches: seq<seq<Alert>>): seq<Alert> {
    if batches == [] then [] else Concat(batches[..|batches| - 1]) + batches[|batches| - 1]
  }

  /** Once there is any history the client remembers the id at its head. */
  lemma LastSeen(added: seq<seq<Alert>>)
    requires History(added) != []
    ensures Polls(added).last == Some(History(added)[0].id)
  {
  }

  /** A poll notifies a run of the newest alerts of its batch, all of it exactly when the
      batch is complete. */
  lemma NextPoll(added: seq<seq<Alert>>)
    requires added != [] && History(added[..|added| - 1]) != []
    ensures var past, batch := added[..|added| - 1], added[|added| - 1];
            var newer := Fresh(Fired(History(added)), Polls(past).last);
            && Polls(added).notified == Polls(past).notified + newer
            && newer <= batch && (newer == batch <==> Complete(History(past), batch))
  {
    var past, batch := added[..|added| - 1], added[|added| - 1];
    LastSeen(past);
    PollNotifies(History(past), batch);
    SameSecondMissed(History(past), batch);
  }

  /** Every batch after the one at `first` is complete. */
  ghost predicate AllComplete(added: seq<seq<Alert>>, first: nat) {
    forall i :: first < i < |added| ==> CompleteAt(added, i)
  }

  ghost predicate CompleteAt(added: seq<seq<Alert>>, i: nat)
    requires i < |added|
  {
    History(added[..i]) != [] && Complete(History(added[..i]), added[i])
  }

  lemma AllCompleteNext(added: seq<seq<Alert>>, first: nat)
    requires first + 1 < |added|
    ensures var n := |added| - 1;
            AllComplete(added, first) <==> AllComplete(added[..n], first) && CompleteAt(added, n)
  {
    hide History, Complete;
    var n := |added| - 1;
    forall i | 0 <= i < n ensures CompleteAt(added, i) <==> CompleteAt(added[..n], i) {
      assert added[..n][..i] == added[..i];
    }
  }

  /** After the first `first` polls found nothing, what has been notified is drawn from the
      batches after the one that ended the silence, and is all of them, batch by batch,
      exactly when they are complete. */
  lemma {:induction false} BatchesNotified(added: seq<seq<Alert>>, first: nat)
    requires first < |added| && added[first] != [] && History(added[..first]) == []
    ensures History(added) != []
    ensures var notified, all := Polls(added).notified, Concat(added[first + 1..]);
            && |notified| <= |all| && multiset(notified) <= multiset(all)
            && (|notified| == |all| ==> notified == all)
            && (notified == all <==> AllComplete(added, first))
  {
    hide Polls, History, Fresh, Complete, CompleteAt;
    var n := |added| - 1;
    var init := added[..n];
    if first == n {
      SilentPolls(init);
      FirstPoll(added);
      assert added[first + 1..] == [];
    } else {
      assert init[..first] == added[..first];
      BatchesNotified(init, first);
      HistoryNext(added);
      NextPoll(added);
      AllCompleteNext(added, first);
      var tail := added[first + 1..];
      assert tail[..|tail| - 1] == init[first + 1..] && tail[|tail| - 1] == added[n];
      var newer := Fresh(Fired(History(added)), Polls(init).last);
      DrawnNext(Polls(init).notified, Concat(init[first + 1..]), newer, added[n]);
      assert CompleteAt(added, n) <==> Complete(History(init), added[n]) by { UnfoldCompleteAt(added, n); }
    }
  }

  lemma UnfoldCompleteAt(added: seq<seq<Alert>>, i: nat)
    requires i < |added| && History(added[..i]) != []
    ensures CompleteAt(added, i) <==> Complete(History(added[..i]), added[i])
  {
  }

  lemma HistoryNext(added: seq<seq<Alert>>)
    requires added != []
    ensures History(added) == added[|added| - 1] + History(added[..|added| - 1])
  {
  }

  lemma DrawnNext(notified: seq<Alert>, all: seq<Alert>, newer: seq<Alert>, batch: seq<Alert>)
    requires |notified| <= |all| && multiset(notified) <= multiset(all) && (|notified| == |all| ==> notified == all)
    requires newer <= batch
    ensures |notified + newer| <= |all + batch| && multiset(notified + newer) <= multiset(all + batch)
    ensures |notified + newer| == |all + batch| ==> notified + newer == all + batch
    ensures notified + newer == all + batch <==> notified == all && newer == batch
  {
    assert batch == newer + batch[|newer|..];
    assert multiset(all + batch) == multiset(all) + multiset(newer) + multiset(batch[|newer|..]);
    assert multiset(notified + newer) == multiset(notified) + multiset(newer);
    if notified + newer == all + batch {
      assert |notified| + |newer| == |all| + |batch|;
    }
  }

  lemma FirstPoll(added: seq<seq<Alert>>)
    requires added != [] && added[|added| - 1] != [] && Polls(added[..|added| - 1]) == Client(None, [], [])
    ensures History(added) != [] && Polls(added).notified == []
  {
  }

  lemma {:induction false} SilentPolls(added: seq<seq<Alert>>)
    requires History(added) == []
    ensures Polls(added) == Client(None, [], [])
  {
    if added != [] {
      SilentPolls(added[..|added| - 1]);
    }
  }

  lemma {:induction false} ConcatAndHistory(batches: seq<seq<Alert>>, a: Alert)
    ensures a in Concat(batches) <==> exists i :: 0 <= i < |batches| && a in batches[i]
    ensures |Concat(batches)| == |History(batches)|
    ensures multiset(Concat(batches)) == multiset(History(batches))
  {
    if batches != [] {
      var n := |batches| - 1;
      ConcatAndHistory(batches[..n], a);
      assert batches == batches[..n] + [batches[n]];
    }
  }

  /** EXACTLY ONCE. The alerts recorded after the first poll that found any are passed to
      the feed exactly once each, in the order of their batches, if and only if every batch
      is complete; no alert is ever passed more often than it was recorded, and the feed
      always shows the newest fifty. */
  lemma ExactlyOnce(added: seq<seq<Alert>>, first: nat)
    requires first < |added| && added[first] != [] && History(added[..first]) == []
    ensures multiset(Polls(added).notified) == multiset(History(added[first + 1..])) <==> AllComplete(added, first)
    ensures Polls(added).notified == Concat(added[first + 1..]) <==> AllComplete(added, first)
    ensures multiset(Polls(added).notified) <= multiset(History(added[first + 1..]))
    ensures Polls(added).feed == Newest(Polls(added).notified) && |Polls(added).feed| <= FEED
  {
    hide Polls, AllComplete;
    BatchesNotified(added, first);
    var tail := added[first + 1..];
    ConcatAndHistory(tail, added[first][0]);
    FeedIsNewest(added);
    var notified, all := Polls(added).notified, Concat(tail);
    if multiset(notified) == multiset(all) {
      assert |notified| == |multiset(notified)| == |multiset(all)| == |all|;
    }
  }

  /** In particular distinct ids and at most five alerts between polls suffice, and then no
      alert is passed to the feed twice. */
  lemma DistinctExactlyOnce(added: seq<seq<Alert>>, first: nat)
    requires first < |added| && added[first] != [] && History(added[..first]) == []
    requires DistinctIds(History(added))
    ensures AllComplete(added, first) <==> forall i :: first < i < |added| ==> |added[i]| <= 5
    ensures forall a :: a in Polls(added).notified ==> multiset(Polls(added).notified)[a] == 1
  {
    hide Polls, DistinctIds, History, Complete;
    forall i | first < i < |added| ensures CompleteAt(added, i) <==> |added[i]| <= LIMIT {
      HistoryStarts(added[..i], first);
      BatchDistinct(added, i);
      DistinctNotified(History(added[..i]), added[i]);
    }
    ExactlyOnce(added, first);
    var tail := added[first + 1..];
    HistorySplit(added, first + 1);
    DistinctOnce(History(tail), History(added[..first + 1]));
    forall a | a in Polls(added).notified ensures multiset(Polls(added).notified)[a] == 1 {
      assert a in multiset(Polls(added).notified);
      assert multiset(Polls(added).notified)[a] <= multiset(History(tail))[a];
      assert a in History(tail);
    }
  }

  lemma {:induction false} HistoryStarts(added: seq<seq<Alert>>, first: nat)
    requires first < |added| && added[first] != []
    ensures History(added) != []
  {
    var n := |added| - 1;
    if first < n {
      HistoryStarts(added[..n], first);
    }
  }

  /** Ids that are distinct over a whole history are distinct at each poll. */
  lemma BatchDistinct(added: seq<seq<Alert>>, i: nat)
    requires i < |added| && DistinctIds(History(added))
    ensures DistinctIds(added[i] + History(added[..i]))
  {
    hide History, DistinctIds;
    HistorySplit(added, i + 1);
    DistinctTail(History(added[i + 1..]), History(added[..i + 1]));
    assert added[..i + 1][..i] == added[..i];
    HistoryNext(added[..i + 1]);
  }

  lemma DistinctTail(x: seq<Alert>, y: seq<Alert>)
    requires DistinctIds(x + y)
    ensures DistinctIds(y)
  {
    forall i | 0 <= i < |y| ensures y[i] == (x + y)[|x| + i] {}
  }

  lemma {:induction false} HistorySplit(added: seq<seq<Alert>>, n: nat)
    requires n <= |added|
    ensures History(added) == History(added[n..]) + History(added[..n])
  {
    if n == |added| {
      assert added[n..] == [] && added[..n] == added;
    } else {
      var m := |added| - 1;
      HistorySplit(added[..m], n);
      assert added[..m][n..] == added[n..][..m - n] && added[..m][..n] == added[..n];
      assert added[n..][|added[n..]| - 1] == added[m];
    }
  }

  lemma {:induction false} DistinctOnce(h: seq<Alert>, rest: seq<Alert>)
    requires DistinctIds(h + rest)
    ensures forall a :: a in h ==> multiset(h)[a] == 1
  {
    if h != [] {
      var tail := h[1..];
      assert forall i :: 0 <= i < |tail + rest| ==> (tail + rest)[i] == (h + rest)[i + 1];
      DistinctOnce(tail, rest);
      assert h == [h[0]] + tail;
      forall i | 0 <= i < |tail| ensures tail[i] != h[0] {
        assert (h + rest)[0].id != (h + rest)[i + 1].id;
      }
    }
  }

  lemma {:induction false} ReverseAppend<T>(x: seq<T>, y: seq<T>)
    ensures Reverse(x + y) == Reverse(y) + Reverse(x)
  {
    if x == [] {
      assert x + y == y;
    } else {
      ReverseAppend(x[1..], y);
      assert (x + y)[1..] == x[1..] + y;
    }
  }

  /** Feeding more alerts into a feed of the newest fifty leaves the newest fifty. */
  lemma FeedNewest(notified: seq<Alert>, newer: seq<Alert>)
    ensures Feed(Newest(notified), newer) == Newest(notified + newer)
  {
    ReverseAppend(notified, newer);
    if newer == [] {
      assert notified + newer == notified;
    }
  }

  lemma {:induction false} FeedIsNewest(added: seq<seq<Alert>>)
    ensures Polls(added).feed == Newest(Polls(added).notified)
    ensures |Polls(added).feed| == if |Polls(added).notified| < 50 then |Polls(added).notified| else 50
  {
    hide Newest, Feed, Fresh;
    if added == [] {
      EmptyFeed();
    } else {
      FeedIsNewest(added[..|added| - 1]);
      var before := Polls(added[..|added| - 1]);
      FeedNewest(before.notified, Fresh(Fired(History(added)), before.last));
    }
    NewestLength(Polls(added).notified);
  }

  lemma NewestLength(notified: seq<Alert>)
    ensures |Newest(notified)| == if |notified| < 50 then |notified| else 50
  {
  }

  lemma EmptyFeed()
    ensures Newest([]) == []
  {
  }

  // ---------------------------------------------------------------------------
  // The provider
  // ---------------------------------------------------------------------------

  class NotificationProvider {
    var lastAlertId: Option<string>
    var notifications: seq<Alert>
    ghost var notified: seq<Alert>
    ghost var cleared: nat   // how many had been notified when the user last cleared the feed

    ghost function View(): Client
      reads this
    {
      Client(lastAlertId, notified, notifications)
    }

    /** The feed shows the newest fifty alerts notified since it was last cleared. */
    ghost predicate Valid()
      reads this
    {
      cleared <= |notified| && notifications == Newest(notified[cleared..])
    }

    constructor ()
      ensures View() == Client(None, [], []) && Valid()
    {
      lastAlertId, notifications, notified, cleared := None, [], [], 0;
    }

    method AddNotification(a: Alert)
      requires Valid()
      modifies this`notifications, this`notified
      ensures Valid() && notified == old(notified) + [a]
      ensures notifications == Feed(old(notifications), [a])
      ensures a == notifications[0] && notifications[1..] <= old(notifications)
      ensures |notifications| == if |old(notifications)| < 50 then |old(notifications)| + 1 else 50
    {
      ghost var shown := notified[cleared..];
      FeedNewest(shown, [a]);
      assert (notified + [a])[cleared..] == shown + [a];
      FeedNext(notifications, [a], 0);
      assert [a][..0] == [] && [a][..1] == [a];
      var all := [a] + notifications;
      notifications := all[..Min(50, |all|)];
      notified := notified + [a];
    }

    method FindNew(fired: seq<Alert>, last: string) returns (newAlerts: seq<Alert>)
      ensures newAlerts == NewerThan(fired, last)
    {
      newAlerts := [];
      for i := 0 to |fired|
        invariant newAlerts + NewerThan(fired[i..], last) == NewerThan(fired, last)
      {
        if fired[i].id == last {
          assert newAlerts + [] == newAlerts;
          return;
        }
        assert fired[i..][1..] == fired[i + 1..];
        assert newAlerts + NewerThan(fired[i..], last) == newAlerts + [fired[i]] + NewerThan(fired[i + 1..], last);
        newAlerts := newAlerts + [fired[i]];
      }
    }

    /** One poll, given the alert history at that moment. */
    method CheckAlerts(history: seq<Alert>)
      requires Valid()
      modifies this`lastAlertId, this`notifications, this`notified
      ensures Valid() && View() == Poll(old(View()), history)
    {
      var fired := history[..Min(5, |history|)];
      assert notified + [] == notified;
      if fired == [] { return; }
      var latestId := fired[0].id;
      if lastAlertId != None && lastAlertId.value != "" && latestId != lastAlertId.value {
        var newAlerts := FindNew(fired, lastAlertId.value);
        ghost var was := notifications;
        for i := 0 to |newAlerts|
          invariant Valid() && notified == old(notified) + newAlerts[..i]
          invariant notifications == Feed(was, newAlerts[..i])
          invariant lastAlertId == old(lastAlertId)
        {
          FeedNext(was, newAlerts, i);
          assert newAlerts[..i + 1] == newAlerts[..i] + [newAlerts[i]];
          AddNotification(newAlerts[i]);
        }
        assert newAlerts[..|newAlerts|] == newAlerts;
      }
      lastAlertId := Some(latestId);
    }

    /** Empties the feed; what was notified before is not shown again. */
    method ClearAll()
      requires Valid()
      modifies this`notifications, this`cleared
      ensures Valid() && notifications == [] && cleared == |notified|
    {
      notifications := [];
      cleared := |notified|;
    }
  }

  lemma {:induction false} ReverseSnoc<T>(s: seq<T>, x: T)
    ensures Reverse(s + [x]) == [x] + Reverse(s)
  {
    if s == [] {
      assert s + [x] == [x] && Reverse([x][1..]) == [];
    } else {
      ReverseSnoc(s[1..], x);
      assert (s + [x])[1..] == s[1..] + [x];
    }
  }

  /** Cutting the feed after every insertion gives the same feed as cutting it once. */
  lemma FeedNext(feed: seq<Alert>, newer: seq<Alert>, i: nat)
    requires i < |newer| && |feed| <= FEED
    ensures var before := Feed(feed, newer[..i]);
            && Feed(feed, newer[..i + 1]) == ([newer[i]] + before)[..Min(FEED, |before| + 1)]
            && Feed(feed, newer[..i + 1]) == Feed(before, [newer[i]])
  {
    assert newer[..i + 1] == newer[..i] + [newer[i]];
    FeedSnoc(feed, newer[..i], newer[i]);
    FeedOne(Feed(feed, newer[..i]), newer[i]);
  }

  lemma FeedOne(feed: seq<Alert>, a: Alert)
    ensures Feed(feed, [a]) == ([a] + feed)[..Min(FEED, |feed| + 1)]
  {
    assert Reverse([a]) == [a];
  }

  lemma FeedSnoc(feed: seq<Alert>, newer: seq<Alert>, a: Alert)
    requires |feed| <= FEED
    ensures var before := Feed(feed, newer);
            Feed(feed, newer + [a]) == ([a] + before)[..Min(FEED, |before| + 1)]
  {
    hide Reverse;
    ReverseSnoc(newer, a);
    var all := Reverse(newer) + feed;
    assert Reverse(newer + [a]) + feed == [a] + all;
    if newer == [] {
      EmptyReverse();
      assert all == feed;
    }
  }

  lemma EmptyReverse()
    ensures Reverse<Alert>([]) == []
  {
  }
}
