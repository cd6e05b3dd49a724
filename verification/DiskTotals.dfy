/** The system collector's disk totals: counters are added up over the device map, skipping
    loop, ram and optical devices and every device another device's name is a prefix of.
    Counters are unsigned 64-bit and wrap around. */
module DiskTotals {
  import opened Text

  const WORD: nat := 0x1_0000_0000_0000_0000

  datatype Counters = Counters(readBytes: nat, writeBytes: nat, readCount: nat, writeCount: nat)

  predicate Skipped(name: string) {
    "loop" <= name || "ram" <= name || "sr" <= name
  }

  /** Another name in the set is a prefix of this one. */
  predicate IsPartition(names: set<string>, name: string) {
    exists parent :: parent in names && parent != name && parent <= name
  }

  function Counted(names: set<string>): set<string> {
    set k | k in names && !Skipped(k) && !IsPartition(names, k)
  }

  /** WHAT IS COUNTED, name by name: a device not named loop..., ram... or sr... of whose name
      no other device's name is a prefix. */
  lemma CountedMeans(names: set<string>, k: string)
    ensures k in Counted(names) <==>
            && k in names && !("loop" <= k) && !("ram" <= k) && !("sr" <= k)
            && forall other :: other in names && other != k ==> !(other <= k)
  {
  }

  /** Counted names are pairwise prefix-free. */
  lemma CountedPrefixFree(names: set<string>, p: string, q: string)
    requires p in Counted(names) && q in Counted(names) && p <= q
    ensures p == q
  {
  }

  lemma PrefixesCompare(p: string, q: string, k: string)
    requires p <= k && q <= k
    ensures p <= q || q <= p
  {
    if |p| <= |q| {
      assert q[..|p|] == k[..|p|] == p;
    } else {
      assert p[..|q|] == k[..|q|] == q;
    }
  }

  lemma SkippedInherited(p: string, k: string)
    requires p <= k && Skipped(p)
    ensures Skipped(k)
  {
    assert k[..|p|] == p;
  }

  /** Every device that is not skipped has a counted name as a prefix... */
  lemma {:induction false} CountedPrefixExists(names: set<string>, k: string) returns (p: string)
    requires k in names && !Skipped(k)
    ensures p in Counted(names) && p <= k
    decreases |k|
  {
    if IsPartition(names, k) {
      var parent :| parent in names && parent != k && parent <= k;
      if Skipped(parent) {
        SkippedInherited(parent, k);
        assert false;
      }
      assert |parent| < |k|;
      p := CountedPrefixExists(names, parent);
    } else {
      p := k;
    }
  }

  /** ...and exactly one. */
  lemma CountedOnce(names: set<string>, k: string)
    requires k in names && !Skipped(k)
    ensures |set p | p in Counted(names) && p <= k| == 1
  {
    var p := CountedPrefixExists(names, k);
    var all := set q | q in Counted(names) && q <= k;
    forall q | q in all ensures q == p {
      PrefixesCompare(p, q, k);
      if p <= q { CountedPrefixFree(names, p, q); } else { CountedPrefixFree(names, q, p); }
    }
    assert all == {p};
  }

  // ---------------------------------------------------------------------------
  // Whole devices
  // ---------------------------------------------------------------------------

  function NotSkipped(names: set<string>): set<string> {
    set k | k in names && !Skipped(k)
  }

  /** `whole` are the whole devices among the names: every other device that is not skipped
      is named after one of them, as a partition is. */
  ghost predicate AreWhole(whole: set<string>, names: set<string>) {
    whole <= names && forall k :: k in names && !Skipped(k) && k !in whole ==> NamedAfter(whole, k)
  }

  ghost predicate NamedAfter(whole: set<string>, k: string) {
    exists w :: w in whole && w != k && w <= k
  }

  predicate PrefixFree(names: set<string>) {
    forall p, q :: p in names && q in names && p <= q ==> p == q
  }

  lemma PrefixTrans(p: string, q: string, k: string)
    requires p <= q && q <= k
    ensures p <= k
  {
    assert p == q[..|p|] == k[..|p|];
  }

  /** A whole device is left out exactly when another whole device's name begins its own. */
  lemma WholeLeftOut(names: set<string>, whole: set<string>, k: string)
    requires AreWhole(whole, names) && k in whole && !Skipped(k)
    ensures k !in Counted(names) <==> NamedAfter(NotSkipped(whole), k)
  {
    if IsPartition(names, k) {
      var parent :| parent in names && parent != k && parent <= k;
      if Skipped(parent) {
        SkippedInherited(parent, k);
        assert false;
      }
      if parent !in whole {
        var w :| w in whole && w != parent && w <= parent;
        PrefixTrans(w, parent, k);
        if Skipped(w) {
          SkippedInherited(w, k);
          assert false;
        }
        assert w in NotSkipped(whole);
      } else {
        assert parent in NotSkipped(whole);
      }
    }
  }

  /** EXACTLY WHEN. The totals are taken over exactly the whole devices (loop, ram and
      optical ones apart) if and only if none of their names begins another's. */
  lemma WholeCounted(names: set<string>, whole: set<string>)
    requires AreWhole(whole, names)
    ensures Counted(names) == NotSkipped(whole) <==> PrefixFree(NotSkipped(whole))
  {
    var own := NotSkipped(whole);
    forall k | k in own ensures k in Counted(names) <==> !NamedAfter(own, k) {
      WholeLeftOut(names, whole, k);
    }
    forall k | k in names && !Skipped(k) && k !in whole ensures IsPartition(names, k) {
      assert NamedAfter(whole, k);
    }
    assert PrefixFree(own) <==> forall k :: k in own ==> !NamedAfter(own, k);
  }

  /** The devices `series`0 to `series`(n-1). */
  function Series(series: string, n: nat): set<string> {
    set i | 0 <= i < n :: series + Decimal(i)
  }

  lemma BeforeNumber(word: string, series: string, d: string)
    requires word <= series + d && d != "" && '0' <= d[0] <= '9'
    requires forall i :: 0 <= i < |word| ==> !('0' <= word[i] <= '9')
    ensures word <= series
  {
    assert (series + d)[|series|] == d[0];
    if |word| > |series| {
      assert false;
    }
    assert word == (series + d)[..|word|] == series[..|word|];
  }

  lemma NumberedNotSkipped(series: string, d: string)
    requires !Skipped(series) && d != "" && '0' <= d[0] <= '9'
    ensures !Skipped(series + d)
  {
    if "loop" <= series + d {
      BeforeNumber("loop", series, d);
      assert false;
    }
    if "ram" <= series + d {
      BeforeNumber("ram", series, d);
      assert false;
    }
    if "sr" <= series + d {
      BeforeNumber("sr", series, d);
      assert false;
    }
  }

  /** The prefix test mistakes numbering for partitioning: the devices of a series numbered
      from 0, with whatever partitions they have, are counted in full exactly when there are
      at most ten. */
  lemma SeriesCounted(names: set<string>, series: string, n: nat)
    requires !Skipped(series) && AreWhole(Series(series, n), names)
    ensures Counted(names) == Series(series, n) <==> n <= 10
  {
    hide Skipped, Decimal, AreWhole;
    var whole := Series(series, n);
    forall k | k in whole ensures !Skipped(k) {
      var i :| 0 <= i < n && k == series + Decimal(i);
      NumberedNotSkipped(series, Decimal(i));
    }
    assert NotSkipped(whole) == whole;
    WholeCounted(names, whole);
    if n <= 10 {
      SameLength(series, n);
    } else {
      OneAndTen(series);
      assert series + Decimal(1) in whole && series + Decimal(10) in whole;
    }
  }

  lemma SameLength(series: string, n: nat)
    requires n <= 10
    ensures PrefixFree(Series(series, n))
  {
    forall p, q | p in Series(series, n) && q in Series(series, n) && p <= q ensures p == q {
      assert |p| == |series| + 1 == |q|;
    }
  }

  lemma OneAndTen(series: string)
    ensures series + Decimal(1) <= series + Decimal(10) && series + Decimal(1) != series + Decimal(10)
  {
    assert Decimal(10) == Decimal(1) + Decimal(0);
    assert series + Decimal(10) == series + Decimal(1) + Decimal(0);
  }

  /** A concrete case: beside a device whose name ends in 1 the tenth of the series is left
      out, whatever other devices there are. */
  lemma TenthDeviceDropped(names: set<string>, series: string)
    requires series + "1" in names && series + "10" in names
    ensures series + "10" !in Counted(names)
  {
    assert (series + "10")[..|series| + 1] == series + "1";
  }

  // ---------------------------------------------------------------------------
  // Adding up
  // ---------------------------------------------------------------------------

  /** Plain sum over a set of names; the order of choice does not matter. */
  ghost function Sum(f: string -> nat, s: set<string>): nat {
    if s == {} then 0 else var x :| x in s; f(x) + Sum(f, s - {x})
  }

  lemma {:induction false} SumRemove(f: string -> nat, s: set<string>, x: string)
    requires x in s
    ensures Sum(f, s) == f(x) + Sum(f, s - {x})
    decreases |s|
  {
    var y :| y in s && Sum(f, s) == f(y) + Sum(f, s - {y});
    if y != x {
      SumRemove(f, s - {y}, x);
      SumRemove(f, s - {x}, y);
      assert s - {y} - {x} == s - {x} - {y};
    }
  }

  lemma SumAdd(f: string -> nat, s: set<string>, x: string)
    requires x !in s
    ensures Sum(f, s + {x}) == f(x) + Sum(f, s)
  {
    SumRemove(f, s + {x}, x);
    assert s + {x} - {x} == s;
  }

  function Add(total: nat, value: nat): nat {
    (total + value) % WORD
  }

  lemma AddWraps(sum: nat, value: nat)
    ensures Add(sum % WORD, value) == (sum + value) % WORD
  {
    var q := sum / WORD;
    assert sum == WORD * q + sum % WORD;
    assert sum + value == WORD * q + (sum % WORD + value);
    ModShift(q, sum % WORD + value);
  }

  lemma {:induction false} ModShift(q: nat, r: nat)
    ensures (WORD * q + r) % WORD == r % WORD
    decreases q
  {
    if q > 0 {
      ModShift(q - 1, r);
      assert WORD * q + r == (WORD * (q - 1) + r) + WORD;
    }
  }

  type Devices = map<string, Counters>

  function ReadBytes(d: Devices): string -> nat { (k: string) => if k in d then d[k].readBytes else 0 }
  function WriteBytes(d: Devices): string -> nat { (k: string) => if k in d then d[k].writeBytes else 0 }
  function ReadCount(d: Devices): string -> nat { (k: string) => if k in d then d[k].readCount else 0 }
  function WriteCount(d: Devices): string -> nat { (k: string) => if k in d then d[k].writeCount else 0 }

  ghost predicate AreTotals(t: Counters, d: Devices, names: set<string>) {
    && t.readBytes == Sum(ReadBytes(d), names) % WORD
    && t.writeBytes == Sum(WriteBytes(d), names) % WORD
    && t.readCount == Sum(ReadCount(d), names) % WORD
    && t.writeCount == Sum(WriteCount(d), names) % WORD
  }

  lemma TotalsNext(t: Counters, d: Devices, names: set<string>, k: string)
    requires AreTotals(t, d, names) && k in d && k !in names
    ensures AreTotals(Counters(Add(t.readBytes, d[k].readBytes), Add(t.writeBytes, d[k].writeBytes),
                               Add(t.readCount, d[k].readCount), Add(t.writeCount, d[k].writeCount)), d, names + {k})
  {
    hide Add, Sum;
    SumAdd(ReadBytes(d), names, k);
    SumAdd(WriteBytes(d), names, k);
    SumAdd(ReadCount(d), names, k);
    SumAdd(WriteCount(d), names, k);
    AddWraps(Sum(ReadBytes(d), names), d[k].readBytes);
    AddWraps(Sum(WriteBytes(d), names), d[k].writeBytes);
    AddWraps(Sum(ReadCount(d), names), d[k].readCount);
    AddWraps(Sum(WriteCount(d), names), d[k].writeCount);
  }

  /** The four 64-bit sums, field by field. */
  ghost predicate FieldTotals(t: Counters, d: Devices, names: set<string>) {
    && t.readBytes == Sum((k: string) => if k in d then d[k].readBytes else 0, names) % 0x1_0000_0000_0000_0000
    && t.writeBytes == Sum((k: string) => if k in d then d[k].writeBytes else 0, names) % 0x1_0000_0000_0000_0000
    && t.readCount == Sum((k: string) => if k in d then d[k].readCount else 0, names) % 0x1_0000_0000_0000_0000
    && t.writeCount == Sum((k: string) => if k in d then d[k].writeCount else 0, names) % 0x1_0000_0000_0000_0000
  }

  lemma {:induction false} SameSums(f: string -> nat, g: string -> nat, s: set<string>)
    requires forall x :: x in s ==> f(x) == g(x)
    ensures Sum(f, s) == Sum(g, s)
    decreases |s|
  {
    if s != {} {
      var x :| x in s;
      SumRemove(f, s, x);
      SumRemove(g, s, x);
      SameSums(f, g, s - {x});
    }
  }

  lemma TotalsByField(t: Counters, d: Devices, names: set<string>)
    requires AreTotals(t, d, names)
    ensures FieldTotals(t, d, names)
  {
    hide Sum;
    SameSums(ReadBytes(d), (k: string) => if k in d then d[k].readBytes else 0, names);
    SameSums(WriteBytes(d), (k: string) => if k in d then d[k].writeBytes else 0, names);
    SameSums(ReadCount(d), (k: string) => if k in d then d[k].readCount else 0, names);
    SameSums(WriteCount(d), (k: string) => if k in d then d[k].writeCount else 0, names);
  }

  /** The parent search: visits the other names in any order. */
  method HasParent(names: set<string>, k: string) returns (found: bool)
    ensures found <==> IsPartition(names, k)
  {
    found := false;
    var pending := names;
    while pending != {}
      invariant pending <= names
      invariant forall parent :: parent in names && parent !in pending ==> !(parent != k && parent <= k)
      decreases pending
    {
      var parent :| parent in pending;
      if parent != k && parent <= k {
        found := true;
        return;
      }
      pending := pending - {parent};
    }
  }

  /** Whatever order the device map is visited in, the totals are the sums over the counted
      devices, each taken once. */
  method Aggregate(diskIO: Devices) returns (total: Counters)
    ensures AreTotals(total, diskIO, Counted(diskIO.Keys))
    ensures FieldTotals(total, diskIO, Counted(diskIO.Keys))
  {
    total := Counters(0, 0, 0, 0);
    var pending := diskIO.Keys;
    ghost var taken: set<string> := {};
    while pending != {}
      invariant pending <= diskIO.Keys
      invariant taken == Counted(diskIO.Keys) - pending
      invariant AreTotals(total, diskIO, taken)
      decreases pending
    {
      var k :| k in pending;
      ghost var left := pending;
      pending := pending - {k};
      if "loop" <= k || "ram" <= k || "sr" <= k { continue; }
      var isPartition := HasParent(diskIO.Keys, k);
      if isPartition { continue; }
      var stat := diskIO[k];
      TotalsNext(total, diskIO, taken, k);
      total := Counters(Add(total.readBytes, stat.readBytes), Add(total.writeBytes, stat.writeBytes),
                        Add(total.readCount, stat.readCount), Add(total.writeCount, stat.writeCount));
      taken := taken + {k};
    }
    assert taken == Counted(diskIO.Keys);
    TotalsByField(total, diskIO, taken);
  }
}
