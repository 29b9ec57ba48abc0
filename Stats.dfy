/** Grouped, count-weighted statistics: `computeStats`, the Sankey
    `adjustHoursAndSize`, and the "sort by Count descending, keep the first n"
    selection of `formatTopStats`, `formatCategoryStats` and `selectTopGroups`. */
module Stats {
  import opened Wrappers
  import opened Seqs
  import opened Sorting
  import opened Incidents

  /** The rows whose `col` value is `k`, in table order. */
  function RowsWith(rows: seq<Incident>, col: Column, k: string): (r: seq<Incident>)
    ensures forall i :: 0 <= i < |r| ==> Field(r[i], col) == k && r[i] in rows
  {
    if rows == [] then []
    else (if Field(rows[0], col) == k then [rows[0]] else []) + RowsWith(rows[1..], col, k)
  }

  /** The total incident count of the rows. */
  function SumCount(rows: seq<Incident>): nat {
    if rows == [] then 0 else rows[0].Count + SumCount(rows[1..])
  }

  /** The total duration of the rows: each row's hours times its count. */
  function SumWeighted(rows: seq<Incident>): real {
    if rows == [] then 0.0 else rows[0].Hours * (rows[0].Count as real) + SumWeighted(rows[1..])
  }

  /** Σ(Hours·Count) / ΣCount. JavaScript yields NaN (0/0) when the counts sum
      to zero; that is `None` here. */
  function WeightedAvg(rows: seq<Incident>): (avg: Option<real>)
    ensures avg.None? <==> SumCount(rows) == 0
    ensures avg.Some? ==> avg.value * (SumCount(rows) as real) == SumWeighted(rows)
  {
    if SumCount(rows) == 0 then None
    else Some(SumWeighted(rows) / (SumCount(rows) as real))
  }

  lemma {:induction false} SumsAppend(a: seq<Incident>, b: seq<Incident>)
    ensures SumCount(a + b) == SumCount(a) + SumCount(b)
    ensures SumWeighted(a + b) == SumWeighted(a) + SumWeighted(b)
  {
    if a != [] {
      SumsAppend(a[1..], b);
      assert (a + b)[1..] == a[1..] + b;
    } else {
      assert a + b == b;
    }
  }

  lemma {:induction false} RowsWithAppend(a: seq<Incident>, b: seq<Incident>, col: Column, k: string)
    ensures RowsWith(a + b, col, k) == RowsWith(a, col, k) + RowsWith(b, col, k)
  {
    if a == [] {
      assert a + b == b;
    } else {
      var head := if Field(a[0], col) == k then [a[0]] else [];
      var rest := RowsWith(a[1..], col, k);
      var tail := RowsWith(b, col, k);
      calc {
        RowsWith(a + b, col, k);
      == { assert (a + b)[0] == a[0]; assert (a + b)[1..] == a[1..] + b; }
        head + RowsWith(a[1..] + b, col, k);
      == { RowsWithAppend(a[1..], b, col, k); }
        head + (rest + tail);
      ==
        (head + rest) + tail;
      }
    }
  }


  lemma {:induction false} RowsWithAbsent(rows: seq<Incident>, col: Column, k: string)
    requires k !in ColumnValues(rows, col)
    ensures RowsWith(rows, col, k) == []
  {
    if rows != [] {
      assert ColumnValues(rows[1..], col) == ColumnValues(rows, col)[1..];
      RowsWithAbsent(rows[1..], col, k);
    }
  }

  lemma {:induction false} RowsWithPresent(rows: seq<Incident>, col: Column, k: string)
    requires k in ColumnValues(rows, col)
    ensures RowsWith(rows, col, k) != []
  {
    if Field(rows[0], col) != k {
      assert ColumnValues(rows[1..], col) == ColumnValues(rows, col)[1..];
      assert ColumnValues(rows, col) == [Field(rows[0], col)] + ColumnValues(rows[1..], col);
      RowsWithPresent(rows[1..], col, k);
    }
  }

  lemma RowsWithEmpty(rows: seq<Incident>, col: Column, k: string)
    ensures RowsWith(rows, col, k) == [] <==> k !in ColumnValues(rows, col)
  {
    if k in ColumnValues(rows, col) {
      RowsWithPresent(rows, col, k);
    } else {
      RowsWithAbsent(rows, col, k);
    }
  }

  /** The values of `col` in order of first appearance: the key order of the
      rollup d3 builds when it groups the rows by `col`. */
  function GroupKeys(rows: seq<Incident>, col: Column): seq<string> {
    Dedup(ColumnValues(rows, col))
  }

  /** One `computeStats` entry: `{[groupByKey]: key, Count, AvgHours}`. */
  datatype Stat = Stat(key: string, Count: nat, AvgHours: Option<real>)

  function StatOf(rows: seq<Incident>, col: Column, k: string): Stat {
    var group := RowsWith(rows, col, k);
    Stat(k, SumCount(group), WeightedAvg(group))
  }

  function StatsFor(rows: seq<Incident>, col: Column, ks: seq<string>): (r: seq<Stat>)
    ensures |r| == |ks|
    ensures forall i :: 0 <= i < |ks| ==> r[i] == StatOf(rows, col, ks[i])
  {
    if ks == [] then [] else [StatOf(rows, col, ks[0])] + StatsFor(rows, col, ks[1..])
  }

  function StatKeys(stats: seq<Stat>): (ks: seq<string>)
    ensures |ks| == |stats|
    ensures forall i :: 0 <= i < |stats| ==> ks[i] == stats[i].key
  {
    seq(|stats|, i requires 0 <= i < |stats| => stats[i].key)
  }

  /** `computeStats(rows, col)`: one entry per distinct value of `col`, in
      order of first appearance, holding that group's ΣCount and weighted
      average duration. */
  function ComputeStats(rows: seq<Incident>, col: Column): (r: seq<Stat>)
    ensures StatKeys(r) == GroupKeys(rows, col)
    ensures Distinct(StatKeys(r))
    ensures forall k :: k in StatKeys(r) <==> k in ColumnValues(rows, col)
    ensures forall i :: 0 <= i < |r| ==>
              var group := RowsWith(rows, col, r[i].key);
              r[i].Count == SumCount(group) && r[i].AvgHours == WeightedAvg(group)
  {
    var ks := GroupKeys(rows, col);
    var r := StatsFor(rows, col, ks);
    assert StatKeys(r) == ks;
    r
  }

  lemma StatCount(rows: seq<Incident>, col: Column, x: Stat)
    requires x in ComputeStats(rows, col)
    ensures x.Count == SumCount(RowsWith(rows, col, x.key))
  {
  }

  lemma StatFor(rows: seq<Incident>, col: Column, k: string) returns (x: Stat)
    requires k in ColumnValues(rows, col)
    ensures x in ComputeStats(rows, col) && x.key == k
  {
    var stats := ComputeStats(rows, col);
    assert k in StatKeys(stats);
    var q :| 0 <= q < |stats| && StatKeys(stats)[q] == k;
    x := stats[q];
  }

  function SumStatCounts(stats: seq<Stat>): nat {
    if stats == [] then 0 else stats[0].Count + SumStatCounts(stats[1..])
  }

  /** Σ over the keys `ks` of the count of the rows with that key. */
  function CountOver(rows: seq<Incident>, col: Column, ks: seq<string>): nat {
    if ks == [] then 0 else SumCount(RowsWith(rows, col, ks[0])) + CountOver(rows, col, ks[1..])
  }

  lemma {:induction false} StatsForCounts(rows: seq<Incident>, col: Column, ks: seq<string>)
    ensures SumStatCounts(StatsFor(rows, col, ks)) == CountOver(rows, col, ks)
  {
    if ks != [] {
      StatsForCounts(rows, col, ks[1..]);
      assert StatsFor(rows, col, ks)[1..] == StatsFor(rows, col, ks[1..]);
    }
  }

  lemma {:induction false} CountOverSnocKey(rows: seq<Incident>, col: Column, ks: seq<string>, k: string)
    ensures CountOver(rows, col, ks + [k]) == CountOver(rows, col, ks) + SumCount(RowsWith(rows, col, k))
  {
    if ks == [] {
      assert ks + [k] == [k];
    } else {
      assert (ks + [k])[1..] == ks[1..] + [k];
      CountOverSnocKey(rows, col, ks[1..], k);
    }
  }

  lemma {:induction false} CountOverSnocRow(rows: seq<Incident>, x: Incident, col: Column, ks: seq<string>)
    requires Distinct(ks)
    ensures CountOver(rows + [x], col, ks)
         == CountOver(rows, col, ks) + (if Field(x, col) in ks then x.Count else 0)
  {
    if ks != [] {
      assert Distinct(ks[1..]);
      CountOverSnocRow(rows, x, col, ks[1..]);
      RowsWithAppend(rows, [x], col, ks[0]);
      SumsAppend(RowsWith(rows, col, ks[0]), RowsWith([x], col, ks[0]));
      assert RowsWith([x], col, ks[0]) == (if Field(x, col) == ks[0] then [x] else []);
      assert Field(x, col) == ks[0] ==> Field(x, col) !in ks[1..];
      assert Field(x, col) in ks <==> Field(x, col) == ks[0] || Field(x, col) in ks[1..];
    }
  }

  lemma ColumnValuesSnoc(p: seq<Incident>, x: Incident, col: Column)
    ensures GroupKeys(p + [x], col) == Add(GroupKeys(p, col), Field(x, col))
  {
    assert ColumnValues(p + [x], col) == ColumnValues(p, col) + [Field(x, col)];
    DedupSnoc(ColumnValues(p, col), Field(x, col));
  }

  /** Adding one row adds its count to the total over the keys. */
  lemma CountOverNewKey(p: seq<Incident>, x: Incident, col: Column, ks: seq<string>)
    requires Distinct(ks)
    requires forall k :: k in ColumnValues(p, col) ==> k in ks
    ensures CountOver(p + [x], col, Add(ks, Field(x, col)))
         == CountOver(p, col, ks) + x.Count
  {
    var v := Field(x, col);
    CountOverSnocRow(p, x, col, ks);
    if v !in ks {
      CountOverSnocKey(p + [x], col, ks, v);
      RowsWithAppend(p, [x], col, v);
      RowsWithAbsent(p, col, v);
      assert RowsWith([x], col, v) == [x];
      assert RowsWith(p + [x], col, v) == [x];
    }
  }

  lemma {:induction false} CountOverKeys(rows: seq<Incident>, col: Column)
    ensures CountOver(rows, col, GroupKeys(rows, col)) == SumCount(rows)
  {
    if rows != [] {
      var p := rows[..|rows| - 1];
      var x := rows[|rows| - 1];
      assert rows == p + [x];
      CountOverKeys(p, col);
      ColumnValuesSnoc(p, x, col);
      SumsAppend(p, [x]);
      CountOverNewKey(p, x, col, GroupKeys(p, col));
    }
  }

  /** No incident is lost or counted twice: the group counts add up to the
      count of the whole table. */
  lemma StatsTotalCount(rows: seq<Incident>, col: Column)
    ensures SumStatCounts(ComputeStats(rows, col)) == SumCount(rows)
  {
    StatsForCounts(rows, col, GroupKeys(rows, col));
    CountOverKeys(rows, col);
  }

  lemma {:induction false} SumWeightedBounds(rows: seq<Incident>, lo: real, hi: real)
    requires forall i :: 0 <= i < |rows| ==> lo <= rows[i].Hours <= hi
    ensures lo * (SumCount(rows) as real) <= SumWeighted(rows) <= hi * (SumCount(rows) as real)
  {
    if rows != [] {
      SumWeightedBounds(rows[1..], lo, hi);
      var c := rows[0].Count as real;
      assert (rows[0].Hours - lo) * c >= 0.0;
      assert (hi - rows[0].Hours) * c >= 0.0;
    }
  }

  /** A weighted average lies between the smallest and largest row duration. */
  lemma {:induction false} WeightedAvgBounds(rows: seq<Incident>, lo: real, hi: real)
    requires forall i :: 0 <= i < |rows| ==> lo <= rows[i].Hours <= hi
    requires SumCount(rows) > 0
    ensures WeightedAvg(rows).Some?
    ensures lo <= WeightedAvg(rows).value <= hi
  {
    SumWeightedBounds(rows, lo, hi);
    DivisionBounds(SumWeighted(rows), SumCount(rows) as real, lo, hi);
  }

  lemma DivisionBounds(w: real, n: real, lo: real, hi: real)
    requires n > 0.0
    requires lo * n <= w <= hi * n
    ensures lo <= w / n <= hi
  {
    assert (w / n) * n == w;
  }

  /** Two rows of one group, {Count 2, 3 h} and {Count 1, 9 h}, give Count 3
      and an average of (2·3 + 1·9) / 3 = 5 hours. */
  lemma WeightedExample()
    ensures ComputeStats(ExampleRows(), Group) == [Stat("G", 3, Some(5.0))]
  {
    ExampleKeys();
    ExampleGroup();
    ExampleSums();
  }

  /** Two rows of one group: 2 incidents of 3 hours and 1 of 9 hours. */
  function ExampleRows(): seq<Incident> {
    [Incident("S", "T", "G", "C", "X", 2, 3.0), Incident("S", "T", "G", "C", "Y", 1, 9.0)]
  }

  lemma ExampleKeys()
    ensures GroupKeys(ExampleRows(), Group) == ["G"]
  {
    assert ColumnValues(ExampleRows(), Group) == ["G", "G"];
    assert ["G", "G"][..1] == ["G"];
    assert ["G"][..0] == [];
  }

  lemma ExampleGroup()
    ensures RowsWith(ExampleRows(), Group, "G") == ExampleRows()
  {
    assert ExampleRows()[1..][1..] == [];
  }

  lemma ExampleSums()
    ensures SumCount(ExampleRows()) == 3 && SumWeighted(ExampleRows()) == 15.0
  {
    assert ExampleRows()[1..][1..] == [];
  }

  /** Descending order of Count, the order the top-N choices sort by. */
  const ByCountDesc: (Stat, Stat) -> bool := (a: Stat, b: Stat) => a.Count >= b.Count

  lemma ByCountDescTotalPreorder()
    ensures TotalPreorder(ByCountDesc)
  {
  }

  /** The first `n` entries after a stable sort by descending Count. */
  function TopN(stats: seq<Stat>, n: nat): (r: seq<Stat>)
    ensures |r| == Min(n, |stats|)
    ensures forall i, j :: 0 <= i < j < |r| ==> r[i].Count >= r[j].Count
    ensures multiset(r) <= multiset(stats)
    ensures forall x, y :: x in multiset(stats) - multiset(r) && y in r ==> x.Count <= y.Count
  {
    var s := SortBy(stats, ByCountDesc);
    var m := Min(n, |s|);
    SortedByCount(stats);
    PrefixOfSortedIsTop(stats, s, m);
    s[..m]
  }

  lemma SortedByCount(stats: seq<Stat>)
    ensures forall i, j :: 0 <= i < j < |SortBy(stats, ByCountDesc)| ==>
              SortBy(stats, ByCountDesc)[i].Count >= SortBy(stats, ByCountDesc)[j].Count
  {
    ByCountDescTotalPreorder();
    SortBySorted(stats, ByCountDesc);
  }

  /** Any prefix of a permutation sorted by descending Count holds entries
      whose counts are at least those of everything left out. */
  lemma PrefixOfSortedIsTop(stats: seq<Stat>, s: seq<Stat>, m: nat)
    requires multiset(s) == multiset(stats) && m <= |s|
    requires forall i, j :: 0 <= i < j < |s| ==> s[i].Count >= s[j].Count
    ensures forall x, y :: x in multiset(stats) - multiset(s[..m]) && y in s[..m] ==> x.Count <= y.Count
    ensures multiset(s[..m]) <= multiset(stats)
    ensures forall i, j :: 0 <= i < j < m ==> s[..m][i].Count >= s[..m][j].Count
  {
    assert s == s[..m] + s[m..];
    assert multiset(s) == multiset(s[..m]) + multiset(s[m..]);
    forall x, y | x in multiset(stats) - multiset(s[..m]) && y in s[..m]
      ensures x.Count <= y.Count
    {
      assert x in multiset(s[m..]);
      var j :| m <= j < |s| && s[j] == x;
      var i :| 0 <= i < m && s[i] == y;
    }
  }

  /** What `TopN` keeps is drawn from `stats`, and an entry it leaves out
      (by key) counts no more than any entry it keeps. */
  lemma TopNKeys(stats: seq<Stat>, n: nat)
    ensures forall k :: k in StatKeys(TopN(stats, n)) ==> k in StatKeys(stats)
  {
    forall k | k in StatKeys(TopN(stats, n)) ensures k in StatKeys(stats) {
      var y := TopNMember(stats, n, k);
      var j :| 0 <= j < |stats| && stats[j] == y;
      assert StatKeys(stats)[j] == k;
    }
  }


  lemma TopNMember(stats: seq<Stat>, n: nat, k: string) returns (y: Stat)
    requires k in StatKeys(TopN(stats, n))
    ensures y in TopN(stats, n) && y in stats && y.key == k
  {
    var top := TopN(stats, n);
    var i :| 0 <= i < |top| && StatKeys(top)[i] == k;
    y := top[i];
    assert y in multiset(stats);
  }

  lemma TopNDominates(stats: seq<Stat>, n: nat, x: Stat, y: Stat)
    requires x in stats && y in TopN(stats, n) && x.key !in StatKeys(TopN(stats, n))
    ensures x.Count <= y.Count
  {
    var top := TopN(stats, n);
    forall i | 0 <= i < |top| ensures top[i] != x {
      assert StatKeys(top)[i] == top[i].key;
    }
    assert x in multiset(stats) - multiset(top);
  }

  /** Entries with distinct keys are distinct. */
  lemma StatsDistinct(stats: seq<Stat>)
    requires Distinct(StatKeys(stats))
    ensures Distinct(stats)
  {
    forall p, q | 0 <= p < q < |stats| ensures stats[p] != stats[q] {
      assert StatKeys(stats)[p] == stats[p].key && StatKeys(stats)[q] == stats[q].key;
    }
  }

  /** In entries with distinct keys, a key names one position only. */
  lemma KeyPosition(stats: seq<Stat>, p: nat, q: nat)
    requires Distinct(StatKeys(stats))
    requires p < |stats| && q < |stats| && stats[p].key == stats[q].key
    ensures p == q
  {
    assert StatKeys(stats)[p] == stats[p].key && StatKeys(stats)[q] == stats[q].key;
  }

  /** Entries taken, with multiplicities, from entries with distinct keys
      have distinct keys. */
  lemma SubStatsDistinctKeys(t: seq<Stat>, stats: seq<Stat>)
    requires multiset(t) <= multiset(stats)
    requires Distinct(StatKeys(stats))
    ensures Distinct(StatKeys(t))
  {
    StatsDistinct(stats);
    SubMultisetDistinct(t, stats);
    forall i, j | 0 <= i < j < |t| ensures StatKeys(t)[i] != StatKeys(t)[j] {
      assert t[i] in multiset(stats) && t[j] in multiset(stats);
      var p :| 0 <= p < |stats| && stats[p] == t[i];
      var q :| 0 <= q < |stats| && stats[q] == t[j];
      assert StatKeys(stats)[p] == t[i].key && StatKeys(stats)[q] == t[j].key;
    }
  }

  /** A `TopN` choice keeps the keys of `stats` distinct. */
  lemma TopNDistinctKeys(stats: seq<Stat>, n: nat)
    requires Distinct(StatKeys(stats))
    ensures Distinct(StatKeys(TopN(stats, n)))
  {
    SubStatsDistinctKeys(TopN(stats, n), stats);
  }

  /** The sort is stable: an entry kept by `TopN` that ties on Count with
      an entry left out comes earlier in `stats`. */
  lemma TopNTieOrder(stats: seq<Stat>, n: nat, i: nat, j: nat)
    requires Distinct(StatKeys(stats))
    requires i < |stats| && j < |stats|
    requires stats[i] in TopN(stats, n) && stats[j] !in TopN(stats, n)
    requires stats[i].Count == stats[j].Count
    ensures i < j
  {
    var r := SortBy(stats, ByCountDesc);
    assert TopN(stats, n) == r[..Min(n, |r|)];
    assert multiset(r) == multiset(stats);
    var a, b := PrefixPositions(r, Min(n, |r|), stats[i], stats[j]);
    ByCountDescTotalPreorder();
    SortedTiesBefore(stats, ByCountDesc, a, b);
    var i', j' :| 0 <= i' < j' < |stats| && stats[i'] == stats[i] && stats[j'] == stats[j];
    KeyPosition(stats, i', i);
    KeyPosition(stats, j', j);
  }

  /** Of two keys with the same total, one kept by a `TopN` choice over
      `computeStats` and one left out, the kept one comes first in the
      rollup's key order. */
  lemma TopNKeyOrder(rows: seq<Incident>, col: Column, n: nat, k1: string, k2: string) returns (i: nat, j: nat)
    requires k1 in StatKeys(TopN(ComputeStats(rows, col), n))
    requires k2 in ColumnValues(rows, col) && k2 !in StatKeys(TopN(ComputeStats(rows, col), n))
    requires SumCount(RowsWith(rows, col, k1)) == SumCount(RowsWith(rows, col, k2))
    ensures i < j < |GroupKeys(rows, col)|
    ensures GroupKeys(rows, col)[i] == k1 && GroupKeys(rows, col)[j] == k2
  {
    var stats := ComputeStats(rows, col);
    var top := TopN(stats, n);
    var y := TopNMember(stats, n, k1);
    var x := StatFor(rows, col, k2);
    forall k | 0 <= k < |top| ensures top[k] != x {
      assert StatKeys(top)[k] == top[k].key;
    }
    i :| 0 <= i < |stats| && stats[i] == y;
    j :| 0 <= j < |stats| && stats[j] == x;
    TopNTieOrder(stats, n, i, j);
    assert StatKeys(stats)[i] == k1 && StatKeys(stats)[j] == k2;
  }

  lemma {:induction false} TiesAppend(a: seq<Stat>, b: seq<Stat>, e: Stat)
    ensures Ties(a + b, e, ByCountDesc) == Ties(a, e, ByCountDesc) + Ties(b, e, ByCountDesc)
  {
    if a != [] {
      TiesAppend(a[1..], b, e);
      assert (a + b)[1..] == a[1..] + b;
    } else {
      assert a + b == b;
    }
  }

  /** Ties on Count are broken by input order: the chosen entries with a
      given count are the first entries of `stats` with that count. */
  lemma TopNPrefersEarlier(stats: seq<Stat>, n: nat, e: Stat)
    ensures Ties(TopN(stats, n), e, ByCountDesc) <= Ties(stats, e, ByCountDesc)
  {
    var s := SortBy(stats, ByCountDesc);
    var m := Min(n, |s|);
    ByCountDescTotalPreorder();
    SortByStable(stats, e, ByCountDesc);
    assert s == s[..m] + s[m..];
    TiesAppend(s[..m], s[m..], e);
  }

  /** Input already in descending Count order is left as it is, so its
      top `n` are its first `n`. */
  lemma {:induction false} SortByCountIdentity(s: seq<Stat>)
    requires forall i, j :: 0 <= i < j < |s| ==> s[i].Count >= s[j].Count
    ensures SortBy(s, ByCountDesc) == s
  {
    if s != [] {
      SortByCountIdentity(s[1..]);
      assert s == [s[0]] + s[1..];
    }
  }

  /** Group counts {A: 10, B: 7, C: 7, D: 1} keep A and then B: of the two
      tied at 7, the one listed first wins. */
  lemma TopTwoTieExample(a: Stat, b: Stat, c: Stat, d: Stat)
    requires a.Count == 10 && b.Count == 7 && c.Count == 7 && d.Count == 1
    ensures TopN([a, b, c, d], 2) == [a, b]
  {
    var s := [a, b, c, d];
    assert TopN(s, 2) == s[..2] by {
      TopNOfSorted(s, 2);
    }
  }

  /** On counts already in descending order, the top `n` are the first `n`. */
  lemma TopNOfSorted(s: seq<Stat>, n: nat)
    requires forall i, j :: 0 <= i < j < |s| ==> s[i].Count >= s[j].Count
    ensures TopN(s, n) == s[..Min(n, |s|)]
  {
    SortByCountIdentity(s);
  }

  /** One Sankey node or link: the rows it aggregates and the two properties
      `adjustHoursAndSize` writes. */
  datatype SankeyItem = SankeyItem(key: string, group: seq<Incident>, Hours: Option<real>, size: nat)

  /** `adjustHoursAndSize(items)`: writes each item's weighted average
      duration and total count onto it, in place. */
  method AdjustHoursAndSize(items: array<SankeyItem>)
    modifies items
    ensures forall i :: 0 <= i < items.Length ==>
              items[i] == old(items[i]).(Hours := WeightedAvg(old(items[i]).group),
                                         size := SumCount(old(items[i]).group))
  {
    var i := 0;
    while i < items.Length
      invariant 0 <= i <= items.Length
      invariant forall j :: 0 <= j < i ==>
                  items[j] == old(items[j]).(Hours := WeightedAvg(old(items[j]).group),
                                             size := SumCount(old(items[j]).group))
      invariant forall j :: i <= j < items.Length ==> items[j] == old(items[j])
    {
      var d := items[i];
      items[i] := d.(Hours := WeightedAvg(d.group), size := SumCount(d.group));
      i := i + 1;
    }
  }
}
