/** The Redis collector's rankings: an in-place bubble sort, largest first, and a cut after
    twenty entries, for sampled keys by size and for commands by cost. Costs are reals. */
module RedisDiagnostics {

  const TOP: nat := 20

  ghost predicate SortedDown<T(!new)>(s: seq<T>, key: T -> real) {
    forall i, j :: 0 <= i < j < |s| ==> key(s[i]) >= key(s[j])
  }

  /** The elements of one key value, in order. */
  function WithKey<T>(s: seq<T>, key: T -> real, v: real): seq<T> {
    if s == [] then [] else (if key(s[0]) == v then [s[0]] else []) + WithKey(s[1..], key, v)
  }

  /** `t` rearranges `s` without reordering elements of equal key. */
  ghost predicate StableRearrangement<T>(s: seq<T>, t: seq<T>, key: T -> real) {
    forall v :: WithKey(s, key, v) == WithKey(t, key, v)
  }

  lemma {:induction false} WithKeyAppend<T>(a: seq<T>, b: seq<T>, key: T -> real, v: real)
    ensures WithKey(a + b, key, v) == WithKey(a, key, v) + WithKey(b, key, v)
  {
    if a == [] {
      assert a + b == b;
    } else {
      WithKeyAppend(a[1..], b, key, v);
      assert (a + b)[1..] == a[1..] + b && (a + b)[0] == a[0];
    }
  }

  /** Exchanging neighbours of different keys is invisible to every key's subsequence. */
  lemma SwapIsStable<T>(s: seq<T>, t: seq<T>, j: nat, key: T -> real)
    requires j + 1 < |s| && key(s[j]) != key(s[j + 1])
    requires t == s[j := s[j + 1]][j + 1 := s[j]]
    ensures StableRearrangement(s, t, key)
  {
    var a, x, y, b := s[..j], s[j], s[j + 1], s[j + 2..];
    forall v ensures WithKey(s, key, v) == WithKey(t, key, v) {
      assert s == a + ([x, y] + b) && t == a + ([y, x] + b);
      WithKeyAppend(a, [x, y] + b, key, v);
      WithKeyAppend(a, [y, x] + b, key, v);
      WithKeyAppend([x, y], b, key, v);
      WithKeyAppend([y, x], b, key, v);
      TwoWithKey(x, y, key, v);
      TwoWithKey(y, x, key, v);
    }
  }

  lemma TwoWithKey<T>(x: T, y: T, key: T -> real, v: real)
    ensures WithKey([x, y], key, v) == (if key(x) == v then [x] else []) + (if key(y) == v then [y] else [])
  {
    OneWithKey(y, key, v);
    assert [x, y][1..] == [y];
    assert WithKey([x, y], key, v) == (if key(x) == v then [x] else []) + WithKey([y], key, v);
  }

  lemma OneWithKey<T>(x: T, key: T -> real, v: real)
    ensures WithKey([x], key, v) == if key(x) == v then [x] else []
  {
    assert [x][1..] == [];
  }

  /** The elements from `from` on are in order and no larger than anything before them. */
  ghost predicate SunkFrom<T(!new)>(s: seq<T>, from: int, key: T -> real) {
    forall k, m :: 0 <= k < m < |s| && from <= m ==> key(s[k]) >= key(s[m])
  }

  /** Place `j` holds the smallest of the elements up to it. */
  ghost predicate SmallestAt<T(!new)>(s: seq<T>, j: nat, key: T -> real)
    requires j < |s|
  {
    forall k :: 0 <= k < j ==> key(s[k]) >= key(s[j])
  }

  /** One comparison of the inner loop. */
  lemma BubbleStep<T(!new)>(start: seq<T>, s: seq<T>, t: seq<T>, j: nat, from: int, key: T -> real)
    requires j + 1 < |s| && j + 1 < from
    requires StableRearrangement(start, s, key) && SunkFrom(s, from, key) && SmallestAt(s, j, key)
    requires t == if key(s[j]) < key(s[j + 1]) then s[j := s[j + 1]][j + 1 := s[j]] else s
    ensures StableRearrangement(start, t, key) && SunkFrom(t, from, key) && SmallestAt(t, j + 1, key)
  {
    if key(s[j]) < key(s[j + 1]) {
      SwapIsStable(s, t, j, key);
      forall v ensures WithKey(start, key, v) == WithKey(t, key, v) {
        assert WithKey(start, key, v) == WithKey(s, key, v) && WithKey(s, key, v) == WithKey(t, key, v);
      }
    }
  }

  lemma SinkNext<T(!new)>(s: seq<T>, from: nat, key: T -> real)
    requires from < |s| && SunkFrom(s, from + 1, key) && SmallestAt(s, from, key)
    ensures SunkFrom(s, from, key)
  {
  }

  lemma SortStarts<T(!new)>(s: seq<T>, key: T -> real)
    ensures StableRearrangement(s, s, key) && SunkFrom(s, |s|, key)
    ensures s != [] ==> SmallestAt(s, 0, key)
    ensures |s| <= 1 ==> SortedDown(s, key)
  {
  }

  lemma SortEnds<T(!new)>(s: seq<T>, key: T -> real)
    requires SunkFrom(s, 1, key)
    ensures SortedDown(s, key)
  {
  }

  /** In-place bubble sort as the collector writes it: neighbours are exchanged when the
      left one is smaller. */
  method BubbleSort<T(!new)>(a: array<T>, key: T -> real)
    modifies a
    ensures SortedDown(a[..], key) && StableRearrangement(old(a[..]), a[..], key)
  {
    hide SunkFrom, SmallestAt, StableRearrangement, SortedDown;
    ghost var start := a[..];
    SortStarts(start, key);
    var i := 0;
    while i < a.Length - 1
      invariant 0 <= i && (a.Length > 0 ==> i <= a.Length - 1)
      invariant StableRearrangement(start, a[..], key) && SunkFrom(a[..], a.Length - i, key)
      invariant a.Length <= 1 ==> a[..] == start
    {
      SortStarts(a[..], key);
      var j := 0;
      while j < a.Length - i - 1
        invariant 0 <= j <= a.Length - i - 1
        invariant StableRearrangement(start, a[..], key) && SunkFrom(a[..], a.Length - i, key) && SmallestAt(a[..], j, key)
      {
        ghost var before := a[..];
        if key(a[j]) < key(a[j + 1]) {
          a[j], a[j + 1] := a[j + 1], a[j];
        }
        BubbleStep(start, before, a[..], j, a.Length - i, key);
        j := j + 1;
      }
      SinkNext(a[..], a.Length - i - 1, key);
      i := i + 1;
    }
    if a.Length > 1 {
      SortEnds(a[..], key);
    }
  }

  // ---------------------------------------------------------------------------
  // What the sort computes
  // ---------------------------------------------------------------------------

  function Insert<T>(x: T, s: seq<T>, key: T -> real): seq<T> {
    if s == [] || key(x) >= key(s[0]) then [x] + s else [s[0]] + Insert(x, s[1..], key)
  }

  /** The stable descending sort, by insertion from the end. */
  function StableSorted<T>(s: seq<T>, key: T -> real): seq<T> {
    if s == [] then [] else Insert(s[0], StableSorted(s[1..], key), key)
  }

  lemma {:induction false} InsertMembers<T>(x: T, s: seq<T>, key: T -> real)
    ensures multiset(Insert(x, s, key)) == multiset{x} + multiset(s) && |Insert(x, s, key)| == |s| + 1
  {
    if s != [] && key(x) < key(s[0]) {
      InsertMembers(x, s[1..], key);
      assert s == [s[0]] + s[1..];
    }
  }

  lemma {:induction false} InsertSorted<T(!new)>(x: T, s: seq<T>, key: T -> real)
    requires SortedDown(s, key)
    ensures SortedDown(Insert(x, s, key), key)
  {
    if s != [] && key(x) < key(s[0]) {
      var y, t := s[0], Insert(x, s[1..], key);
      InsertSorted(x, s[1..], key);
      InsertMembers(x, s[1..], key);
      forall k | 0 <= k < |t| ensures key(y) >= key(t[k]) {
        assert t[k] in multiset(t);
        if t[k] != x {
          var m :| 0 <= m < |s[1..]| && s[1..][m] == t[k];
          assert s[m + 1] == t[k];
        }
      }
    }
  }

  lemma {:induction false} InsertStable<T>(x: T, s: seq<T>, key: T -> real, v: real)
    ensures WithKey(Insert(x, s, key), key, v) == WithKey([x] + s, key, v)
  {
    if s != [] && key(x) < key(s[0]) {
      var y, rest := s[0], s[1..];
      InsertStable(x, rest, key, v);
      var t := Insert(x, rest, key);
      assert s == [y] + rest && [x] + s == [x, y] + rest && [y] + ([x] + rest) == [y, x] + rest;
      WithKeyAppend([y], t, key, v);
      WithKeyAppend([y], [x] + rest, key, v);
      WithKeyAppend([x, y], rest, key, v);
      WithKeyAppend([y, x], rest, key, v);
      TwoWithKey(x, y, key, v);
      TwoWithKey(y, x, key, v);
    }
  }

  lemma {:induction false} StableSortedCorrect<T(!new)>(s: seq<T>, key: T -> real)
    ensures SortedDown(StableSorted(s, key), key)
    ensures StableRearrangement(s, StableSorted(s, key), key)
    ensures multiset(StableSorted(s, key)) == multiset(s) && |StableSorted(s, key)| == |s|
  {
    if s != [] {
      var rest, sorted := s[1..], StableSorted(s[1..], key);
      StableSortedCorrect(rest, key);
      InsertSorted(s[0], sorted, key);
      InsertMembers(s[0], sorted, key);
      assert s == [s[0]] + rest;
      forall v ensures WithKey(s, key, v) == WithKey(StableSorted(s, key), key, v) {
        InsertStable(s[0], sorted, key, v);
        WithKeyAppend([s[0]], rest, key, v);
        WithKeyAppend([s[0]], sorted, key, v);
        assert WithKey(rest, key, v) == WithKey(sorted, key, v);
      }
    }
  }

  lemma {:induction false} WithKeyMembers<T>(s: seq<T>, key: T -> real, x: T)
    ensures x in s <==> x in WithKey(s, key, key(x))
    ensures forall y :: y in WithKey(s, key, key(x)) ==> key(y) == key(x)
  {
    if s != [] {
      WithKeyMembers(s[1..], key, x);
    }
  }

  lemma SameMembers<T(!new)>(s: seq<T>, t: seq<T>, key: T -> real)
    requires StableRearrangement(s, t, key)
    ensures forall x :: x in s <==> x in t
  {
    forall x ensures x in s <==> x in t {
      WithKeyMembers(s, key, x);
      WithKeyMembers(t, key, x);
      assert WithKey(s, key, key(x)) == WithKey(t, key, key(x));
    }
  }

  /** Sorted order and the order within each key determine the sequence. */
  lemma {:induction false} StableSortUnique<T(!new)>(s: seq<T>, t: seq<T>, key: T -> real)
    requires SortedDown(s, key) && SortedDown(t, key) && StableRearrangement(s, t, key)
    ensures s == t
  {
    SameMembers(s, t, key);
    assert (s != [] ==> s[0] in t) && (t != [] ==> t[0] in s);
    if s != [] && t != [] {
      assert key(s[0]) == key(t[0]);
      assert WithKey(s, key, key(s[0])) == WithKey(t, key, key(s[0]));
      assert WithKey(s, key, key(s[0]))[0] == s[0] && WithKey(t, key, key(s[0]))[0] == t[0];
      forall v ensures WithKey(s[1..], key, v) == WithKey(t[1..], key, v) {
        assert WithKey(s, key, v) == WithKey(t, key, v);
        HeadWithKey(s, key, v);
        HeadWithKey(t, key, v);
      }
      StableSortUnique(s[1..], t[1..], key);
      assert s == [s[0]] + s[1..] && t == [t[0]] + t[1..];
    }
  }

  lemma HeadWithKey<T>(s: seq<T>, key: T -> real, v: real)
    requires s != []
    ensures WithKey(s[1..], key, v) == if key(s[0]) == v then WithKey(s, key, v)[1..] else WithKey(s, key, v)
  {
  }

  // ---------------------------------------------------------------------------
  // The rankings
  // ---------------------------------------------------------------------------

  function Min(a: nat, b: nat): nat { if a < b then a else b }

  /** The first twenty of the stable descending sort. */
  function Top<T>(s: seq<T>, key: T -> real): seq<T> {
    var sorted := StableSorted(s, key);
    sorted[..Min(TOP, |sorted|)]
  }

  /** The cut keeps min(20, n) elements; with the dropped ones they are the input, and no
      dropped element beats a kept one. */
  lemma TopKeepsLargest<T(!new)>(s: seq<T>, key: T -> real) returns (dropped: seq<T>)
    ensures |Top(s, key)| == Min(TOP, |s|) && SortedDown(Top(s, key), key)
    ensures multiset(Top(s, key)) + multiset(dropped) == multiset(s)
    ensures forall x, y :: x in Top(s, key) && y in dropped ==> key(x) >= key(y)
    ensures forall v :: WithKey(Top(s, key), key, v) <= WithKey(s, key, v)
  {
    StableSortedCorrect(s, key);
    var sorted := StableSorted(s, key);
    var k := Min(TOP, |sorted|);
    dropped := sorted[k..];
    assert sorted == sorted[..k] + sorted[k..];
    forall v ensures WithKey(Top(s, key), key, v) <= WithKey(s, key, v) {
      WithKeyAppend(sorted[..k], sorted[k..], key, v);
      assert WithKey(s, key, v) == WithKey(sorted, key, v);
    }
  }

  /** Copies the input into a fresh slice, sorts it in place and cuts it. */
  method SortAndCut<T(0,!new)>(s: seq<T>, key: T -> real) returns (result: seq<T>)
    ensures result == Top(s, key)
  {
    var a := new T[|s|](i requires 0 <= i < |s| => s[i]);
    assert a[..] == s;
    BubbleSort(a, key);
    StableSortedCorrect(s, key);
    assert StableRearrangement(a[..], StableSorted(s, key), key) by {
      forall v ensures WithKey(a[..], key, v) == WithKey(StableSorted(s, key), key, v) {
        assert WithKey(s, key, v) == WithKey(a[..], key, v);
        assert WithKey(s, key, v) == WithKey(StableSorted(s, key), key, v);
      }
    }
    StableSortUnique(a[..], StableSorted(s, key), key);
    var limit := 20;
    if a.Length < limit {
      limit := a.Length;
    }
    result := a[..limit];
  }

  datatype KeyInfo = KeyInfo(key: string, size: int, kind: string, ttl: int)

  datatype CommandStat = CommandStat(command: string, calls: int, totalUsec: int, usecPerCall: real)

  function SizeOf(k: KeyInfo): real { k.size as real }

  function CostOf(c: CommandStat): real { c.usecPerCall }

  /** The sampled keys of one size, in scan order. */
  function OfSize(keys: seq<KeyInfo>, size: int): seq<KeyInfo> {
    if keys == [] then [] else (if keys[0].size == size then [keys[0]] else []) + OfSize(keys[1..], size)
  }

  /** The commands of one cost per call, in scan order. */
  function OfCost(commands: seq<CommandStat>, cost: real): seq<CommandStat> {
    if commands == [] then []
    else (if commands[0].usecPerCall == cost then [commands[0]] else []) + OfCost(commands[1..], cost)
  }

  lemma {:induction false} OfSizeIsWithKey(keys: seq<KeyInfo>, size: int)
    ensures WithKey(keys, SizeOf, size as real) == OfSize(keys, size)
  {
    if keys != [] { OfSizeIsWithKey(keys[1..], size); }
  }

  lemma {:induction false} OfCostIsWithKey(commands: seq<CommandStat>, cost: real)
    ensures WithKey(commands, CostOf, cost) == OfCost(commands, cost)
  {
    if commands != [] { OfCostIsWithKey(commands[1..], cost); }
  }

  /** The twenty largest: min(20, n) of the sampled keys by descending size, keys of one size in
      scan order, and none left out that is larger than one kept. */
  ghost predicate LargestKeys(sampled: seq<KeyInfo>, result: seq<KeyInfo>) {
    && |result| == (if |sampled| < 20 then |sampled| else 20)
    && multiset(result) <= multiset(sampled)
    && (forall i, j :: 0 <= i < j < |result| ==> result[i].size >= result[j].size)
    && (forall x, y :: x in result && y in multiset(sampled) - multiset(result) ==> x.size >= y.size)
    && (forall size :: OfSize(result, size) <= OfSize(sampled, size))
  }

  ghost predicate ExpensiveCommands(commands: seq<CommandStat>, result: seq<CommandStat>) {
    && |result| == (if |commands| < 20 then |commands| else 20)
    && multiset(result) <= multiset(commands)
    && (forall i, j :: 0 <= i < j < |result| ==> result[i].usecPerCall >= result[j].usecPerCall)
    && (forall x, y :: x in result && y in multiset(commands) - multiset(result) ==> x.usecPerCall >= y.usecPerCall)
    && (forall cost :: OfCost(result, cost) <= OfCost(commands, cost))
  }

  lemma TopKeys(sampled: seq<KeyInfo>)
    ensures LargestKeys(sampled, Top(sampled, SizeOf))
  {
    hide Top, WithKey, OfSize;
    var dropped := TopKeepsLargest(sampled, SizeOf);
    var result := Top(sampled, SizeOf);
    forall y | y in multiset(sampled) - multiset(result) ensures y in dropped {
      assert y in multiset(dropped);
    }
    forall size ensures OfSize(result, size) <= OfSize(sampled, size) {
      OfSizeIsWithKey(result, size);
      OfSizeIsWithKey(sampled, size);
    }
    forall x, y | x in result && y in dropped ensures x.size >= y.size { assert SizeOf(x) >= SizeOf(y); }
    forall i, j | 0 <= i < j < |result| ensures result[i].size >= result[j].size { assert SizeOf(result[i]) >= SizeOf(result[j]); }
  }

  lemma TopCommands(commands: seq<CommandStat>)
    ensures ExpensiveCommands(commands, Top(commands, CostOf))
  {
    hide Top, WithKey, OfCost;
    var dropped := TopKeepsLargest(commands, CostOf);
    var result := Top(commands, CostOf);
    forall y | y in multiset(commands) - multiset(result) ensures y in dropped {
      assert y in multiset(dropped);
    }
    forall cost ensures OfCost(result, cost) <= OfCost(commands, cost) {
      OfCostIsWithKey(result, cost);
      OfCostIsWithKey(commands, cost);
    }
    forall x, y | x in result && y in dropped ensures x.usecPerCall >= y.usecPerCall { assert CostOf(x) >= CostOf(y); }
    forall i, j | 0 <= i < j < |result| ensures result[i].usecPerCall >= result[j].usecPerCall { assert CostOf(result[i]) >= CostOf(result[j]); }
  }

  method GetLargestKeys(sampled: seq<KeyInfo>) returns (result: seq<KeyInfo>)
    ensures result == Top(sampled, SizeOf) && LargestKeys(sampled, result)
  {
    TopKeys(sampled);
    result := SortAndCut(sampled, SizeOf);
  }

  method GetExpensiveCommands(commands: seq<CommandStat>) returns (result: seq<CommandStat>)
    ensures result == Top(commands, CostOf) && ExpensiveCommands(commands, result)
  {
    TopCommands(commands);
    result := SortAndCut(commands, CostOf);
  }
}
