/** The per-address activity rollup: a materialised view groups every inserted batch of
    access-log rows by (day, agent, address, service), a summing table merges rows of equal
    key in the background at unpredictable moments, and a host purge deletes from both
    tables. Times are whole seconds. */
module ActivityRollup {
  import opened Wrappers

  datatype Access = Access(timestamp: nat, service: string, host: string, ip: string)

  datatype Key = Key(day: nat, agent: string, ip: string, service: string)

  datatype DailyRow = DailyRow(key: Key, total: nat, firstSeen: nat, lastSeen: nat)

  datatype Tables = Tables(access: seq<Access>, daily: seq<DailyRow>)

  function KeyOf(e: Access): Key {
    Key(e.timestamp / 86400, e.host, e.ip, e.service)
  }

  function Min(a: nat, b: nat): nat { if a < b then a else b }

  function Max(a: nat, b: nat): nat { if a < b then b else a }

  // ---------------------------------------------------------------------------
  // Grouping a batch
  // ---------------------------------------------------------------------------

  /** One entry counted into the rows of its batch. */
  function AddEntry(rows: seq<DailyRow>, e: Access): seq<DailyRow> {
    if rows == [] then [DailyRow(KeyOf(e), 1, e.timestamp, e.timestamp)]
    else if rows[0].key == KeyOf(e) then
      [DailyRow(rows[0].key, rows[0].total + 1, Min(rows[0].firstSeen, e.timestamp), Max(rows[0].lastSeen, e.timestamp))]
      + rows[1..]
    else [rows[0]] + AddEntry(rows[1..], e)
  }

  function Grouped(batch: seq<Access>): seq<DailyRow> {
    if batch == [] then [] else AddEntry(Grouped(batch[..|batch| - 1]), batch[|batch| - 1])
  }

  // ---------------------------------------------------------------------------
  // Totals and counts
  // ---------------------------------------------------------------------------

  function SumIf(rows: seq<DailyRow>, p: Key -> bool): nat {
    if rows == [] then 0 else (if p(rows[0].key) then rows[0].total else 0) + SumIf(rows[1..], p)
  }

  function CountIf(entries: seq<Access>, p: Key -> bool): nat {
    if entries == [] then 0 else (if p(KeyOf(entries[0])) then 1 else 0) + CountIf(entries[1..], p)
  }

  lemma {:induction false} SumAppend(a: seq<DailyRow>, b: seq<DailyRow>, p: Key -> bool)
    ensures SumIf(a + b, p) == SumIf(a, p) + SumIf(b, p)
  {
    if a == [] {
      assert a + b == b;
    } else {
      SumAppend(a[1..], b, p);
      assert (a + b)[1..] == a[1..] + b;
    }
  }

  lemma {:induction false} CountAppend(a: seq<Access>, b: seq<Access>, p: Key -> bool)
    ensures CountIf(a + b, p) == CountIf(a, p) + CountIf(b, p)
  {
    if a == [] {
      assert a + b == b;
    } else {
      CountAppend(a[1..], b, p);
      assert (a + b)[1..] == a[1..] + b;
    }
  }

  lemma {:induction false} AddEntryCounts(rows: seq<DailyRow>, e: Access, p: Key -> bool)
    ensures SumIf(AddEntry(rows, e), p) == SumIf(rows, p) + if p(KeyOf(e)) then 1 else 0
  {
    if rows != [] {
      var rest := rows[1..];
      if rows[0].key == KeyOf(e) {
        assert AddEntry(rows, e)[1..] == rest;
      } else {
        AddEntryCounts(rest, e, p);
        assert AddEntry(rows, e)[1..] == AddEntry(rest, e);
      }
    }
  }

  lemma {:induction false} GroupedCounts(batch: seq<Access>, p: Key -> bool)
    ensures SumIf(Grouped(batch), p) == CountIf(batch, p)
  {
    if batch != [] {
      var n := |batch| - 1;
      GroupedCounts(batch[..n], p);
      AddEntryCounts(Grouped(batch[..n]), batch[n], p);
      CountAppend(batch[..n], [batch[n]], p);
      assert batch == batch[..n] + [batch[n]];
      assert CountIf([batch[n]], p) == (if p(KeyOf(batch[n])) then 1 else 0) + CountIf([batch[n]][1..], p);
    }
  }

  // ---------------------------------------------------------------------------
  // The operations
  // ---------------------------------------------------------------------------

  /** `keepFirst` says which of the two merged rows lends its first and last times: the
      engine sums the totals and keeps the other columns of either. A merge of rows that
      are not two of equal key does nothing. */
  datatype Op = Insert(batch: seq<Access>) | Merge(i: nat, j: nat, keepFirst: bool) | Purge(host: string)

  predicate Mergeable(daily: seq<DailyRow>, i: nat, j: nat) {
    i < j < |daily| && daily[i].key == daily[j].key
  }

  function Merged(daily: seq<DailyRow>, i: nat, j: nat, keepFirst: bool): seq<DailyRow>
    requires Mergeable(daily, i, j)
  {
    var kept := if keepFirst then daily[i] else daily[j];
    daily[..i] + [kept.(total := daily[i].total + daily[j].total)] + daily[i + 1..j] + daily[j + 1..]
  }

  function AccessWithout(entries: seq<Access>, host: string): seq<Access> {
    if entries == [] then []
    else (if entries[0].host == host then [] else [entries[0]]) + AccessWithout(entries[1..], host)
  }

  function DailyWithout(rows: seq<DailyRow>, agent: string): seq<DailyRow> {
    if rows == [] then []
    else (if rows[0].key.agent == agent then [] else [rows[0]]) + DailyWithout(rows[1..], agent)
  }

  function Apply(t: Tables, op: Op): Tables {
    match op
    case Insert(batch) => Tables(t.access + batch, t.daily + Grouped(batch))
    case Merge(i, j, keepFirst) => if Mergeable(t.daily, i, j) then t.(daily := Merged(t.daily, i, j, keepFirst)) else t
    case Purge(host) => Tables(AccessWithout(t.access, host), DailyWithout(t.daily, host))
  }

  function Run(ops: seq<Op>): Tables {
    if ops == [] then Tables([], []) else Apply(Run(ops[..|ops| - 1]), ops[|ops| - 1])
  }

  lemma MergeKeepsSum(daily: seq<DailyRow>, i: nat, j: nat, keepFirst: bool, p: Key -> bool)
    requires Mergeable(daily, i, j)
    ensures SumIf(Merged(daily, i, j, keepFirst), p) == SumIf(daily, p)
  {
    var a, b, c := daily[..i], daily[i + 1..j], daily[j + 1..];
    var kept := (if keepFirst then daily[i] else daily[j]).(total := daily[i].total + daily[j].total);
    assert daily == a + ([daily[i]] + (b + ([daily[j]] + c)));
    assert Merged(daily, i, j, keepFirst) == a + ([kept] + (b + c));
    SumAppend(a, [daily[i]] + (b + ([daily[j]] + c)), p);
    SumAppend([daily[i]], b + ([daily[j]] + c), p);
    SumAppend(b, [daily[j]] + c, p);
    SumAppend([daily[j]], c, p);
    SumAppend(a, [kept] + (b + c), p);
    SumAppend([kept], b + c, p);
    SumAppend(b, c, p);
    SumOne(daily[i], p);
    SumOne(daily[j], p);
    SumOne(kept, p);
  }

  lemma SumOne(row: DailyRow, p: Key -> bool)
    ensures SumIf([row], p) == if p(row.key) then row.total else 0
  {
    assert [row][1..] == [];
  }

  function Outside(p: Key -> bool, host: string): Key -> bool {
    (k: Key) => k.agent != host && p(k)
  }

  lemma {:induction false} PurgeSums(rows: seq<DailyRow>, entries: seq<Access>, host: string, p: Key -> bool)
    ensures SumIf(DailyWithout(rows, host), p) == SumIf(rows, Outside(p, host))
    ensures CountIf(AccessWithout(entries, host), p) == CountIf(entries, Outside(p, host))
    decreases |rows| + |entries|
  {
    if rows != [] {
      PurgeSums(rows[1..], entries, host, p);
      if rows[0].key.agent != host {
        assert DailyWithout(rows, host)[1..] == DailyWithout(rows[1..], host);
      } else {
        assert DailyWithout(rows, host) == DailyWithout(rows[1..], host);
      }
    }
    if entries != [] {
      PurgeSums(rows, entries[1..], host, p);
      if entries[0].host != host {
        assert AccessWithout(entries, host)[1..] == AccessWithout(entries[1..], host);
      } else {
        assert AccessWithout(entries, host) == AccessWithout(entries[1..], host);
      }
    }
  }

  /** THE ROLLUP AGREES WITH THE RAW LOG. After any sequence of inserts, merges and purges,
      and for any way of selecting keys, the summed totals of the selected rows equal the
      number of access-log rows whose key is selected. */
  lemma {:induction false} RollupAgrees(ops: seq<Op>, p: Key -> bool)
    ensures SumIf(Run(ops).daily, p) == CountIf(Run(ops).access, p)
  {
    if ops != [] {
      var n := |ops| - 1;
      var t := Run(ops[..n]);
      RollupAgrees(ops[..n], p);
      match ops[n] {
        case Insert(batch) =>
          SumAppend(t.daily, Grouped(batch), p);
          CountAppend(t.access, batch, p);
          GroupedCounts(batch, p);
        case Merge(i, j, keepFirst) =>
          if Mergeable(t.daily, i, j) {
            MergeKeepsSum(t.daily, i, j, keepFirst, p);
          }
        case Purge(host) =>
          PurgeSums(t.daily, t.access, host, p);
          RollupAgrees(ops[..n], Outside(p, host));
      }
    }
  }

  // ---------------------------------------------------------------------------
  // First and last times
  // ---------------------------------------------------------------------------

  /** The row's times are those of some requests of its key. */
  ghost predicate Attested(row: DailyRow, entries: seq<Access>) {
    && (exists e :: e in entries && KeyOf(e) == row.key && e.timestamp == row.firstSeen)
    && (exists e :: e in entries && KeyOf(e) == row.key && e.timestamp == row.lastSeen)
  }

  lemma {:induction false} AddEntryAttested(rows: seq<DailyRow>, e: Access, entries: seq<Access>)
    requires e in entries && forall r :: r in rows ==> Attested(r, entries)
    ensures forall r :: r in AddEntry(rows, e) ==> Attested(r, entries)
  {
    if rows != [] {
      assert rows[0] in rows;
      if rows[0].key != KeyOf(e) {
        AddEntryAttested(rows[1..], e, entries);
      }
    }
  }

  lemma {:induction false} GroupedAttested(batch: seq<Access>)
    ensures forall r :: r in Grouped(batch) ==> Attested(r, batch)
  {
    if batch != [] {
      var n := |batch| - 1;
      GroupedAttested(batch[..n]);
      forall r | r in Grouped(batch[..n]) ensures Attested(r, batch) {
        AttestedGrows(r, batch[..n], batch);
      }
      AddEntryAttested(Grouped(batch[..n]), batch[n], batch);
    }
  }

  /** Rows of one key only, whose times enclose every request of the key. */
  ghost predicate Bounds(rows: seq<DailyRow>, batch: seq<Access>) {
    && (forall i, j :: 0 <= i < j < |rows| ==> rows[i].key != rows[j].key)
    && forall r, e :: r in rows && e in batch && KeyOf(e) == r.key ==> r.firstSeen <= e.timestamp <= r.lastSeen
  }

  lemma {:induction false} AddEntryRows(rows: seq<DailyRow>, e: Access)
    requires forall i, j :: 0 <= i < j < |rows| ==> rows[i].key != rows[j].key
    ensures var rows' := AddEntry(rows, e);
            && (forall i, j :: 0 <= i < j < |rows'| ==> rows'[i].key != rows'[j].key)
            && forall r' :: r' in rows' ==>
                 if r'.key == KeyOf(e) then
                   && r'.firstSeen <= e.timestamp <= r'.lastSeen
                   && forall r :: r in rows && r.key == r'.key ==> r'.firstSeen <= r.firstSeen && r.lastSeen <= r'.lastSeen
                 else r' in rows
  {
    if rows != [] {
      var rest := rows[1..];
      assert rows == [rows[0]] + rest;
      if rows[0].key == KeyOf(e) {
        assert forall r :: r in rest ==> r.key != rows[0].key;
      } else {
        AddEntryRows(rest, e);
        assert forall r :: r in rest ==> r.key != rows[0].key;
        assert forall r' :: r' in AddEntry(rest, e) ==> r'.key != rows[0].key;
      }
    }
  }

  /** A batch contributes one row a key, and its first and last times are the earliest and
      latest of the key's requests in the batch. */
  lemma {:induction false} GroupedBounds(batch: seq<Access>)
    ensures Bounds(Grouped(batch), batch)
    ensures forall r :: r in Grouped(batch) ==> Attested(r, batch)
  {
    hide AddEntry, Attested, KeyOf;
    GroupedAttested(batch);
    if batch != [] {
      var n := |batch| - 1;
      GroupedBounds(batch[..n]);
      BoundsNext(batch[..n], batch[n]);
      assert batch == batch[..n] + [batch[n]];
    }
  }

  lemma BoundsNext(init: seq<Access>, e: Access)
    requires Bounds(Grouped(init), init)
    ensures Bounds(AddEntry(Grouped(init), e), init + [e])
  {
    hide AddEntry, KeyOf, Grouped;
    AddEntryRows(Grouped(init), e);
    forall r', d | r' in AddEntry(Grouped(init), e) && d in init + [e] && KeyOf(d) == r'.key
      ensures r'.firstSeen <= d.timestamp <= r'.lastSeen
    {
      if d in init {
        GroupedCovers(init, d);
        var r :| r in Grouped(init) && r.key == KeyOf(d);
      }
    }
  }

  lemma {:induction false} GroupedCovers(batch: seq<Access>, d: Access)
    requires d in batch
    ensures exists r :: r in Grouped(batch) && r.key == KeyOf(d)
  {
    var n := |batch| - 1;
    AddEntryKeys(Grouped(batch[..n]), batch[n]);
    assert batch == batch[..n] + [batch[n]];
    if d in batch[..n] {
      GroupedCovers(batch[..n], d);
      var r :| r in Grouped(batch[..n]) && r.key == KeyOf(d);
      assert exists r' :: r' in AddEntry(Grouped(batch[..n]), batch[n]) && r'.key == r.key;
    }
  }

  lemma {:induction false} AddEntryKeys(rows: seq<DailyRow>, e: Access)
    ensures forall r :: r in rows ==> exists r' :: r' in AddEntry(rows, e) && r'.key == r.key
    ensures exists r' :: r' in AddEntry(rows, e) && r'.key == KeyOf(e)
  {
    var rows' := AddEntry(rows, e);
    if rows == [] {
      assert DailyRow(KeyOf(e), 1, e.timestamp, e.timestamp) in rows';
    } else {
      assert rows'[0] in rows' && rows'[0].key == rows[0].key;
      if rows[0].key != KeyOf(e) {
        AddEntryKeys(rows[1..], e);
        assert forall r' :: r' in AddEntry(rows[1..], e) ==> r' in rows';
      } else {
        assert forall r' :: r' in rows[1..] ==> r' in rows';
      }
    }
  }

  lemma AttestedGrows(r: DailyRow, entries: seq<Access>, more: seq<Access>)
    requires Attested(r, entries) && forall e :: e in entries && KeyOf(e) == r.key ==> e in more
    ensures Attested(r, more)
  {
  }

  lemma {:induction false} PurgeMembers(rows: seq<DailyRow>, entries: seq<Access>, host: string)
    ensures forall r :: r in DailyWithout(rows, host) <==> r in rows && r.key.agent != host
    ensures forall e :: e in AccessWithout(entries, host) <==> e in entries && e.host != host
    decreases |rows| + |entries|
  {
    if rows != [] { PurgeMembers(rows[1..], entries, host); }
    if entries != [] { PurgeMembers(rows, entries[1..], host); }
  }

  /** Over any run the reported first and last times are times of real requests: a reported
      first time is never too early and a last time never too late. */
  lemma {:induction false} TimesAttested(ops: seq<Op>)
    ensures forall r :: r in Run(ops).daily ==> Attested(r, Run(ops).access)
  {
    if ops != [] {
      var n := |ops| - 1;
      var t, t' := Run(ops[..n]), Run(ops);
      TimesAttested(ops[..n]);
      forall r | r in t'.daily ensures Attested(r, t'.access) {
        match ops[n] {
          case Insert(batch) =>
            GroupedAttested(batch);
            if r in t.daily { AttestedGrows(r, t.access, t'.access); } else { AttestedGrows(r, batch, t'.access); }
          case Merge(i, j, keepFirst) =>
            if r !in t.daily {
              var kept := if keepFirst then t.daily[i] else t.daily[j];
              assert kept in t.daily;
              assert r.key == kept.key && r.firstSeen == kept.firstSeen && r.lastSeen == kept.lastSeen;
            }
          case Purge(host) =>
            PurgeMembers(t.daily, t.access, host);
            AttestedGrows(r, t.access, t'.access);
        }
      }
    }
  }

  /** The first and last times a query reports for a selection of keys; None when nothing is
      selected. */
  datatype Span = Span(first: nat, last: nat)

  /** The smallest span holding both. */
  function Cover(a: Option<Span>, b: Option<Span>): Option<Span> {
    if a == None then b
    else if b == None then a
    else Some(Span(Min(a.value.first, b.value.first), Max(a.value.last, b.value.last)))
  }

  function RowSpan(row: DailyRow, p: Key -> bool): Option<Span> {
    if p(row.key) then Some(Span(row.firstSeen, row.lastSeen)) else None
  }

  function EntrySpan(e: Access, p: Key -> bool): Option<Span> {
    if p(KeyOf(e)) then Some(Span(e.timestamp, e.timestamp)) else None
  }

  function SpanIf(rows: seq<DailyRow>, p: Key -> bool): Option<Span> {
    if rows == [] then None else Cover(RowSpan(rows[0], p), SpanIf(rows[1..], p))
  }

  /** The times of the selected requests themselves. */
  function TrueSpan(entries: seq<Access>, p: Key -> bool): Option<Span> {
    if entries == [] then None else Cover(EntrySpan(entries[0], p), TrueSpan(entries[1..], p))
  }

  lemma {:induction false} SpanAppend(a: seq<DailyRow>, b: seq<DailyRow>, p: Key -> bool)
    ensures SpanIf(a + b, p) == Cover(SpanIf(a, p), SpanIf(b, p))
  {
    hide RowSpan;
    if a == [] {
      assert a + b == b;
    } else {
      SpanAppend(a[1..], b, p);
      assert (a + b)[1..] == a[1..] + b;
    }
  }

  lemma {:induction false} TrueSpanAppend(a: seq<Access>, b: seq<Access>, p: Key -> bool)
    ensures TrueSpan(a + b, p) == Cover(TrueSpan(a, p), TrueSpan(b, p))
  {
    hide EntrySpan;
    if a == [] {
      assert a + b == b;
    } else {
      TrueSpanAppend(a[1..], b, p);
      assert (a + b)[1..] == a[1..] + b;
    }
  }

  lemma {:induction false} AddEntrySpans(rows: seq<DailyRow>, e: Access, p: Key -> bool)
    requires forall r :: r in rows ==> r.firstSeen <= r.lastSeen
    ensures SpanIf(AddEntry(rows, e), p) == Cover(SpanIf(rows, p), EntrySpan(e, p))
    ensures forall r :: r in AddEntry(rows, e) ==> r.firstSeen <= r.lastSeen
  {
    var rows' := AddEntry(rows, e);
    if rows == [] {
      assert rows'[1..] == [];
    } else {
      assert rows[0] in rows;
      if rows[0].key == KeyOf(e) {
        assert rows'[1..] == rows[1..];
      } else {
        AddEntrySpans(rows[1..], e, p);
        assert rows'[1..] == AddEntry(rows[1..], e);
      }
    }
  }

  /** The rows of a batch report exactly the times of its requests. */
  lemma {:induction false} GroupedSpans(batch: seq<Access>, p: Key -> bool)
    ensures SpanIf(Grouped(batch), p) == TrueSpan(batch, p)
    ensures forall r :: r in Grouped(batch) ==> r.firstSeen <= r.lastSeen
  {
    hide EntrySpan, RowSpan;
    if batch != [] {
      var n := |batch| - 1;
      GroupedSpans(batch[..n], p);
      AddEntrySpans(Grouped(batch[..n]), batch[n], p);
      TrueSpanAppend(batch[..n], [batch[n]], p);
      assert batch == batch[..n] + [batch[n]] && [batch[n]][1..] == [];
    }
  }

  lemma {:induction false} PurgeSpans(rows: seq<DailyRow>, entries: seq<Access>, host: string, p: Key -> bool)
    ensures SpanIf(DailyWithout(rows, host), p) == SpanIf(rows, Outside(p, host))
    ensures TrueSpan(AccessWithout(entries, host), p) == TrueSpan(entries, Outside(p, host))
    decreases |rows| + |entries|
  {
    if rows != [] {
      PurgeSpans(rows[1..], entries, host, p);
      if rows[0].key.agent != host {
        assert DailyWithout(rows, host)[1..] == DailyWithout(rows[1..], host);
      } else {
        assert DailyWithout(rows, host) == DailyWithout(rows[1..], host);
      }
    }
    if entries != [] {
      PurgeSpans(rows, entries[1..], host, p);
      if entries[0].host != host {
        assert AccessWithout(entries, host)[1..] == AccessWithout(entries[1..], host);
      } else {
        assert AccessWithout(entries, host) == AccessWithout(entries[1..], host);
      }
    }
  }

  /** The row a merge lets go of. */
  function Released(daily: seq<DailyRow>, i: nat, j: nat, keepFirst: bool): DailyRow
    requires Mergeable(daily, i, j)
  {
    if keepFirst then daily[j] else daily[i]
  }

  /** A merge takes the times of the row it lets go of, and nothing else, out of what is
      reported. */
  lemma MergeSpan(daily: seq<DailyRow>, i: nat, j: nat, keepFirst: bool, p: Key -> bool)
    requires Mergeable(daily, i, j)
    ensures SpanIf(daily, p) == Cover(SpanIf(Merged(daily, i, j, keepFirst), p), RowSpan(Released(daily, i, j, keepFirst), p))
  {
    hide RowSpan, SpanIf, Cover;
    var a, b, c := daily[..i], daily[i + 1..j], daily[j + 1..];
    var one := if keepFirst then daily[i] else daily[j];
    var kept := one.(total := daily[i].total + daily[j].total);
    assert daily == a + ([daily[i]] + (b + ([daily[j]] + c)));
    assert Merged(daily, i, j, keepFirst) == a + ([kept] + (b + c));
    SpanAround(a, daily[i], b + ([daily[j]] + c), p);
    SpanAround(b, daily[j], c, p);
    SpanAround(a, kept, b + c, p);
    SpanAppend(b, c, p);
    SameSpan(kept, one, p);
    TakeOut(SpanIf(a, p), RowSpan(daily[i], p), SpanIf(b, p), RowSpan(daily[j], p), SpanIf(c, p));
  }

  lemma SpanAround(a: seq<DailyRow>, row: DailyRow, b: seq<DailyRow>, p: Key -> bool)
    ensures SpanIf(a + ([row] + b), p) == Cover(SpanIf(a, p), Cover(RowSpan(row, p), SpanIf(b, p)))
  {
    hide RowSpan, Cover;
    SpanAppend(a, [row] + b, p);
    assert ([row] + b)[1..] == b;
  }

  lemma TakeOut(a: Option<Span>, x: Option<Span>, b: Option<Span>, y: Option<Span>, c: Option<Span>)
    ensures Cover(a, Cover(x, Cover(b, Cover(y, c)))) == Cover(Cover(a, Cover(x, Cover(b, c))), y)
    ensures Cover(a, Cover(x, Cover(b, Cover(y, c)))) == Cover(Cover(a, Cover(y, Cover(b, c))), x)
  {
    hide Cover;
    MoveOut(a, Cover(b, c), x);
    MoveOut(b, c, y);
    MoveOut(x, Cover(b, c), y);
    MoveOut(a, Cover(x, Cover(b, c)), y);
    MoveOut(a, Cover(y, Cover(b, c)), x);
    CoverCommutes(x, Cover(y, Cover(b, c)));
    CoverCommutes(y, Cover(b, c));
  }

  lemma CoverCommutes(a: Option<Span>, b: Option<Span>)
    ensures Cover(a, b) == Cover(b, a)
  {
  }

  lemma MoveOut(a: Option<Span>, c: Option<Span>, y: Option<Span>)
    ensures Cover(a, Cover(y, c)) == Cover(Cover(a, c), y) == Cover(a, Cover(c, y))
  {
  }

  lemma SameSpan(x: DailyRow, y: DailyRow, p: Key -> bool)
    requires x.key == y.key && x.firstSeen == y.firstSeen && x.lastSeen == y.lastSeen
    ensures RowSpan(x, p) == RowSpan(y, p)
  {
  }

  lemma {:induction false} SpanBounds(rows: seq<DailyRow>, p: Key -> bool)
    ensures SpanIf(rows, p) == None <==> forall r :: r in rows ==> !p(r.key)
    ensures SpanIf(rows, p).Some? ==>
              && (exists r :: r in rows && p(r.key) && r.firstSeen == SpanIf(rows, p).value.first)
              && (exists r :: r in rows && p(r.key) && r.lastSeen == SpanIf(rows, p).value.last)
              && forall r :: r in rows && p(r.key) ==> SpanIf(rows, p).value.first <= r.firstSeen && r.lastSeen <= SpanIf(rows, p).value.last
  {
    if rows != [] {
      SpanBounds(rows[1..], p);
      assert rows == [rows[0]] + rows[1..];
    }
  }

  /** Rows of the selection reach at least as far back, or as far on, as the given row. */
  ghost predicate ReachesBack(rows: seq<DailyRow>, p: Key -> bool, gone: DailyRow) {
    exists r :: r in rows && p(r.key) && r.firstSeen <= gone.firstSeen
  }

  ghost predicate ReachesOn(rows: seq<DailyRow>, p: Key -> bool, gone: DailyRow) {
    exists r :: r in rows && p(r.key) && gone.lastSeen <= r.lastSeen
  }

  function FirstOf(span: Option<Span>): Option<nat> {
    if span == None then None else Some(span.value.first)
  }

  function LastOf(span: Option<Span>): Option<nat> {
    if span == None then None else Some(span.value.last)
  }

  /** EXACTLY WHEN A MERGE LOSES A TIME. In any run, a merge leaves the first time reported
      for a selection as it was exactly when the row it lets go of is not selected or some
      surviving selected row is as early; the last time, when one is as late. */
  lemma FirstSeenAfterMerge(ops: seq<Op>, i: nat, j: nat, keepFirst: bool, p: Key -> bool)
    requires Mergeable(Run(ops).daily, i, j)
    ensures var daily, after := Run(ops).daily, Run(ops + [Merge(i, j, keepFirst)]).daily;
            var gone := Released(daily, i, j, keepFirst);
            && (FirstOf(SpanIf(after, p)) == FirstOf(SpanIf(daily, p)) <==> !p(gone.key) || ReachesBack(after, p, gone))
            && (LastOf(SpanIf(after, p)) == LastOf(SpanIf(daily, p)) <==> !p(gone.key) || ReachesOn(after, p, gone))
  {
    hide Run, SpanIf, Merged;
    var daily := Run(ops).daily;
    RunNext(ops, Merge(i, j, keepFirst));
    MergeSpan(daily, i, j, keepFirst, p);
    SpanBounds(Merged(daily, i, j, keepFirst), p);
  }

  lemma RunNext(ops: seq<Op>, op: Op)
    ensures Run(ops + [op]) == Apply(Run(ops), op)
  {
    assert (ops + [op])[..|ops + [op]| - 1] == ops;
  }

  /** A concrete case: two requests of one key in different batches, merged keeping the
      later row's times, report a first time later than the first request. */
  lemma FirstSeenLost(e: Access, later: Access)
    requires KeyOf(e) == KeyOf(later) && e.timestamp < later.timestamp
    ensures var t := Run([Insert([e]), Insert([later])] + [Merge(0, 1, false)]);
            && FirstOf(SpanIf(t.daily, OfKey(KeyOf(e)))) == Some(later.timestamp)
            && FirstOf(TrueSpan(t.access, OfKey(KeyOf(e)))) == Some(e.timestamp)
  {
    var two, p := [Insert([e]), Insert([later])], OfKey(KeyOf(e));
    assert two == [] + [Insert([e])] + [Insert([later])];
    RunNext([], Insert([e]));
    RunNext([] + [Insert([e])], Insert([later]));
    RunNext(two, Merge(0, 1, false));
    GroupedOne(e);
    GroupedOne(later);
    var d := [DailyRow(KeyOf(e), 1, e.timestamp, e.timestamp), DailyRow(KeyOf(later), 1, later.timestamp, later.timestamp)];
    assert Run(two).daily == d && Run(two).access == [e, later];
    assert Merged(d, 0, 1, false) == [DailyRow(KeyOf(later), 2, later.timestamp, later.timestamp)];
    assert SpanIf(Merged(d, 0, 1, false)[1..], p) == None;
    assert TrueSpan([e, later][1..][1..], p) == None && [e, later][1..] == [later];
  }

  lemma GroupedOne(e: Access)
    ensures Grouped([e]) == [DailyRow(KeyOf(e), 1, e.timestamp, e.timestamp)]
  {
    assert [e][..0] == [];
  }

  /** Every merge of the run leaves a row of its key as early, and one as late, as the row it
      lets go of. A run without merges is one. */
  ghost predicate Gentle(ops: seq<Op>) {
    forall n :: 0 <= n < |ops| ==> GentleStep(Run(ops[..n]), ops[n])
  }

  ghost predicate GentleStep(t: Tables, op: Op) {
    op.Merge? && Mergeable(t.daily, op.i, op.j) ==>
      var gone := Released(t.daily, op.i, op.j, op.keepFirst);
      var after := Apply(t, op).daily;
      ReachesBack(after, OfKey(gone.key), gone) && ReachesOn(after, OfKey(gone.key), gone)
  }

  function OfKey(key: Key): Key -> bool {
    (k: Key) => k == key
  }

  lemma GentlePrefix(ops: seq<Op>)
    requires ops != [] && Gentle(ops)
    ensures Gentle(ops[..|ops| - 1]) && GentleStep(Run(ops[..|ops| - 1]), ops[|ops| - 1])
  {
    hide Run, GentleStep;
    var init := ops[..|ops| - 1];
    forall n | 0 <= n < |init| ensures GentleStep(Run(init[..n]), init[n]) {
      assert init[..n] == ops[..n];
      assert GentleStep(Run(ops[..n]), ops[n]);
    }
  }

  lemma GentleMerge(t: Tables, op: Op, p: Key -> bool)
    requires GentleStep(t, op) && op.Merge? && Mergeable(t.daily, op.i, op.j)
    ensures SpanIf(Apply(t, op).daily, p) == SpanIf(t.daily, p)
  {
    hide SpanIf, Merged;
    var gone, after := Released(t.daily, op.i, op.j, op.keepFirst), Apply(t, op).daily;
    MergeSpan(t.daily, op.i, op.j, op.keepFirst, p);
    SpanBounds(after, p);
    if p(gone.key) {
      var r :| r in after && OfKey(gone.key)(r.key) && r.firstSeen <= gone.firstSeen;
      var r' :| r' in after && OfKey(gone.key)(r'.key) && gone.lastSeen <= r'.lastSeen;
      assert p(r.key) && p(r'.key);
    }
  }

  /** EXACT TIMES. In every run whose merges are gentle, any run without merges among them,
      the first and last times reported for any selection of keys are those of the selected
      requests in the raw log. */
  lemma {:induction false} TimesExact(ops: seq<Op>, p: Key -> bool)
    requires Gentle(ops)
    ensures SpanIf(Run(ops).daily, p) == TrueSpan(Run(ops).access, p)
  {
    hide GentleStep, RowSpan, EntrySpan, Gentle;
    if ops != [] {
      var n := |ops| - 1;
      var t := Run(ops[..n]);
      GentlePrefix(ops);
      TimesExact(ops[..n], p);
      match ops[n] {
        case Insert(batch) =>
          SpanAppend(t.daily, Grouped(batch), p);
          TrueSpanAppend(t.access, batch, p);
          GroupedSpans(batch, p);
        case Merge(i, j, keepFirst) =>
          if Mergeable(t.daily, i, j) {
            GentleMerge(t, ops[n], p);
          }
        case Purge(host) =>
          PurgeSpans(t.daily, t.access, host, p);
          TimesExact(ops[..n], Outside(p, host));
      }
    }
  }

  /** The reported times are true for every selection. */
  ghost predicate TrueTimes(t: Tables) {
    forall p :: SpanIf(t.daily, p) == TrueSpan(t.access, p)
  }

  /** EXACTLY WHEN. The reported times are true at every moment of a run, for every selection
      of keys, if and only if all its merges are gentle. */
  lemma AlwaysTrueTimes(ops: seq<Op>)
    ensures (forall n :: 0 <= n <= |ops| ==> TrueTimes(Run(ops[..n]))) <==> Gentle(ops)
  {
    hide Run, SpanIf, TrueSpan, GentleStep;
    if Gentle(ops) {
      forall n | 0 <= n <= |ops| ensures TrueTimes(Run(ops[..n])) {
        forall i | 0 <= i < n ensures GentleStep(Run(ops[..n][..i]), ops[..n][i]) {
          assert ops[..n][..i] == ops[..i];
        }
        forall p ensures SpanIf(Run(ops[..n]).daily, p) == TrueSpan(Run(ops[..n]).access, p) {
          TimesExact(ops[..n], p);
        }
      }
    } else {
      var n :| 0 <= n < |ops| && !GentleStep(Run(ops[..n]), ops[n]);
      assert ops[..n + 1] == ops[..n] + [ops[n]];
      HarshMerge(ops[..n], ops[n]);
    }
  }

  /** A merge that is not gentle falsifies a time that was true. */
  lemma HarshMerge(ops: seq<Op>, op: Op)
    requires !GentleStep(Run(ops), op)
    ensures !(TrueTimes(Run(ops)) && TrueTimes(Run(ops + [op])))
  {
    hide Run, SpanIf, TrueSpan, Merged;
    RunNext(ops, op);
    var t := Run(ops);
    var gone := Released(t.daily, op.i, op.j, op.keepFirst);
    FirstSeenAfterMerge(ops, op.i, op.j, op.keepFirst, OfKey(gone.key));
    assert Run(ops + [op]).access == t.access;
    assert SpanIf(t.daily, OfKey(gone.key)) != SpanIf(Run(ops + [op]).daily, OfKey(gone.key));
  }

  lemma NoMergesGentle(ops: seq<Op>)
    requires forall n :: 0 <= n < |ops| ==> !ops[n].Merge?
    ensures Gentle(ops)
  {
  }

  /** The reported times never lie outside the true ones, and something is reported exactly
      when something is there. */
  ghost predicate Inside(reported: Option<Span>, actual: Option<Span>) {
    (reported == None <==> actual == None)
    && (reported.Some? ==> actual.value.first <= reported.value.first && reported.value.last <= actual.value.last)
  }

  lemma {:induction false} TimesInside(ops: seq<Op>, p: Key -> bool)
    ensures Inside(SpanIf(Run(ops).daily, p), TrueSpan(Run(ops).access, p))
  {
    hide RowSpan, EntrySpan;
    if ops != [] {
      var n := |ops| - 1;
      var t := Run(ops[..n]);
      TimesInside(ops[..n], p);
      match ops[n] {
        case Insert(batch) =>
          SpanAppend(t.daily, Grouped(batch), p);
          TrueSpanAppend(t.access, batch, p);
          GroupedSpans(batch, p);
        case Merge(i, j, keepFirst) =>
          if Mergeable(t.daily, i, j) {
            MergeInside(t.daily, i, j, keepFirst, p);
          }
        case Purge(host) =>
          PurgeSpans(t.daily, t.access, host, p);
          TimesInside(ops[..n], Outside(p, host));
      }
    }
  }

  lemma MergeInside(daily: seq<DailyRow>, i: nat, j: nat, keepFirst: bool, p: Key -> bool)
    requires Mergeable(daily, i, j)
    ensures Inside(SpanIf(Merged(daily, i, j, keepFirst), p), SpanIf(daily, p))
  {
    var after := Merged(daily, i, j, keepFirst);
    MergeSpan(daily, i, j, keepFirst, p);
    SpanBounds(after, p);
    assert after[i] in after && after[i].key == Released(daily, i, j, keepFirst).key;
  }

  // ---------------------------------------------------------------------------
  // The store
  // ---------------------------------------------------------------------------

  /** Keys of one address and service, for one agent or, with "" or "all", for every agent. */
  function Selects(ip: string, agent: string, service: string): Key -> bool {
    (k: Key) => k.ip == ip && (agent == "" || agent == "all" || k.agent == agent) && k.service == service
  }

  /** The entry is a request of the address to the service on the agent's host, or on any host
      when the agent is "" or "all". */
  predicate RequestOf(e: Access, ip: string, agent: string, service: string) {
    e.ip == ip && e.service == service && (agent in {"", "all"} || e.host == agent)
  }

  /** Number of such requests in the raw log. */
  function CountRequests(entries: seq<Access>, ip: string, agent: string, service: string): nat {
    if entries == [] then 0
    else CountRequests(entries[1..], ip, agent, service) + if RequestOf(entries[0], ip, agent, service) then 1 else 0
  }

  lemma {:induction false} SelectsRequests(entries: seq<Access>, ip: string, agent: string, service: string)
    ensures CountIf(entries, Selects(ip, agent, service)) == CountRequests(entries, ip, agent, service)
  {
    if entries != [] {
      SelectsRequests(entries[1..], ip, agent, service);
    }
  }

  /** TOTALS BY FIELDS. Over any run the summed total of an address, agent and service is the
      number of its requests in the raw log. */
  lemma TotalsByFields(ops: seq<Op>, ip: string, agent: string, service: string)
    ensures SumIf(Run(ops).daily, Selects(ip, agent, service)) == CountRequests(Run(ops).access, ip, agent, service)
  {
    RollupAgrees(ops, Selects(ip, agent, service));
    SelectsRequests(Run(ops).access, ip, agent, service);
  }

  function TotalOfDay(rows: seq<DailyRow>, day: nat): nat {
    if rows == [] then 0 else TotalOfDay(rows[1..], day) + if rows[0].key.day == day then rows[0].total else 0
  }

  /** Requests from midnight to midnight, a day having 86400 seconds. */
  function CountDay(entries: seq<Access>, day: nat): nat {
    if entries == [] then 0
    else CountDay(entries[1..], day) + if 86400 * day <= entries[0].timestamp < 86400 * (day + 1) then 1 else 0
  }

  lemma {:induction false} DaySums(rows: seq<DailyRow>, entries: seq<Access>, day: nat)
    ensures TotalOfDay(rows, day) == SumIf(rows, (k: Key) => k.day == day)
    ensures CountDay(entries, day) == CountIf(entries, (k: Key) => k.day == day)
    decreases |rows| + |entries|
  {
    if rows != [] { DaySums(rows[1..], entries, day); }
    if entries != [] {
      DaySums(rows, entries[1..], day);
      DayOf(entries[0].timestamp, day);
    }
  }

  lemma DayOf(t: nat, day: nat)
    ensures t / 86400 == day <==> 86400 * day <= t < 86400 * (day + 1)
  {
  }

  /** TOTALS BY DAY. Over any run the totals of a day count exactly its requests. */
  lemma TotalsByDay(ops: seq<Op>, day: nat)
    ensures TotalOfDay(Run(ops).daily, day) == CountDay(Run(ops).access, day)
  {
    DaySums(Run(ops).daily, Run(ops).access, day);
    RollupAgrees(ops, (k: Key) => k.day == day);
  }

  lemma {:induction false} TrueSpanMeans(entries: seq<Access>, ip: string, agent: string, service: string)
    ensures var span := TrueSpan(entries, Selects(ip, agent, service));
            && (span == None <==> forall e :: e in entries ==> !RequestOf(e, ip, agent, service))
            && (span.Some? ==>
                  && (exists e :: e in entries && RequestOf(e, ip, agent, service) && e.timestamp == span.value.first)
                  && (exists e :: e in entries && RequestOf(e, ip, agent, service) && e.timestamp == span.value.last)
                  && forall e :: e in entries && RequestOf(e, ip, agent, service) ==> span.value.first <= e.timestamp <= span.value.last)
  {
    if entries != [] {
      var first := entries[0];
      TrueSpanMeans(entries[1..], ip, agent, service);
      assert EntrySpan(first, Selects(ip, agent, service)) ==
             if RequestOf(first, ip, agent, service) then Some(Span(first.timestamp, first.timestamp)) else None;
      hide RequestOf, EntrySpan;
      assert entries == [first] + entries[1..] && first in entries;
    }
  }

  /** FIRST AND LAST BY FIELDS. In runs with gentle merges the reported times of an address,
      agent and service are those of its earliest and latest request in the raw log. */
  lemma TimesByFields(ops: seq<Op>, ip: string, agent: string, service: string)
    requires Gentle(ops)
    ensures var span, access := SpanIf(Run(ops).daily, Selects(ip, agent, service)), Run(ops).access;
            && (span == None <==> forall e :: e in access ==> !RequestOf(e, ip, agent, service))
            && (span.Some? ==>
                  && (exists e :: e in access && RequestOf(e, ip, agent, service) && e.timestamp == span.value.first)
                  && (exists e :: e in access && RequestOf(e, ip, agent, service) && e.timestamp == span.value.last)
                  && forall e :: e in access && RequestOf(e, ip, agent, service) ==> span.value.first <= e.timestamp <= span.value.last)
  {
    hide Run, SpanIf, TrueSpan, Gentle, RequestOf;
    TimesExact(ops, Selects(ip, agent, service));
    TrueSpanMeans(Run(ops).access, ip, agent, service);
  }

  class ActivityStore {
    var access: seq<Access>
    var daily: seq<DailyRow>

    function View(): Tables
      reads this
    {
      Tables(access, daily)
    }

    constructor ()
      ensures View() == Run([])
    {
      access, daily := [], [];
    }

    /** Stores a batch; the view adds the batch's grouped rows. */
    method InsertBatch(batch: seq<Access>)
      modifies this
      ensures View() == Apply(old(View()), Insert(batch))
    {
      access := access + batch;
      var rows := [];
      for i := 0 to |batch|
        invariant rows == Grouped(batch[..i]) && access == old(access) + batch && daily == old(daily)
      {
        assert batch[..i + 1][..i] == batch[..i];
        rows := AddEntry(rows, batch[i]);
      }
      assert batch[..|batch|] == batch;
      daily := daily + rows;
    }

    method MergeRows(i: nat, j: nat, keepFirst: bool)
      modifies this`daily
      ensures View() == Apply(old(View()), Merge(i, j, keepFirst))
      ensures forall p :: SumIf(daily, p) == SumIf(old(daily), p)
      ensures |daily| == |old(daily)| - if Mergeable(old(daily), i, j) then 1 else 0
    {
      if Mergeable(daily, i, j) {
        forall p ensures SumIf(Merged(daily, i, j, keepFirst), p) == SumIf(daily, p) {
          MergeKeepsSum(daily, i, j, keepFirst, p);
        }
        daily := Merged(daily, i, j, keepFirst);
      }
    }

    method PurgeHost(host: string)
      modifies this
      ensures View() == Apply(old(View()), Purge(host))
      ensures forall e :: e in access <==> e in old(access) && e.host != host
      ensures forall r :: r in daily <==> r in old(daily) && r.key.agent != host
      ensures forall p :: SumIf(daily, p) == SumIf(old(daily), Outside(p, host))
    {
      PurgeMembers(daily, access, host);
      forall p ensures SumIf(DailyWithout(daily, host), p) == SumIf(daily, Outside(p, host)) {
        PurgeSums(daily, access, host, p);
      }
      access := AccessWithout(access, host);
      daily := DailyWithout(daily, host);
    }

    /** Requests of an address to one service, as summed from the rollup. */
    method TotalRequests(ip: string, agent: string, service: string) returns (total: nat)
      ensures total == SumIf(daily, Selects(ip, agent, service))
      ensures forall ops :: View() == Run(ops) ==> total == CountRequests(access, ip, agent, service)
    {
      total := 0;
      var p := Selects(ip, agent, service);
      for i := 0 to |daily|
        invariant total + SumIf(daily[i..], p) == SumIf(daily, p)
      {
        assert daily[i..][1..] == daily[i + 1..];
        if p(daily[i].key) {
          total := total + daily[i].total;
        }
      }
      forall ops | View() == Run(ops) ensures total == CountRequests(access, ip, agent, service) {
        TotalsByFields(ops, ip, agent, service);
      }
    }
  }
}
