/** The statistics `drawNetwork` attaches to the nodes of the relation graph:
    the filtered rows are totalled per Category and per Sub Cat, and each node
    takes the Category totals of its value, else the Sub Cat totals, else
    zeros. The graph itself comes from a library and is an input here. */
module Network {
  import opened Wrappers
  import opened Seqs
  import opened Incidents
  import opened Stats

  /** The totals of one group of rows: count-weighted hours and count. */
  datatype Totals = Totals(TotalHours: real, Count: nat)

  /** The totals of the rows whose `col` value is `k`. */
  function TotalsOf(rows: seq<Incident>, col: Column, k: string): Totals {
    var group := RowsWith(rows, col, k);
    Totals(SumWeighted(group), SumCount(group))
  }

  /** Total hours over count, with NaN (a zero count) as `None`. */
  function Average(t: Totals): (avg: Option<real>)
    ensures avg.None? <==> t.Count == 0
    ensures avg.Some? ==> avg.value * (t.Count as real) == t.TotalHours
  {
    if t.Count == 0 then None else Some(t.TotalHours / (t.Count as real))
  }

  /** The totals per value of `col`, one entry per value that occurs. */
  function Rollup(rows: seq<Incident>, col: Column): (m: map<string, Totals>)
    ensures forall k :: k in m <==> k in ColumnValues(rows, col)
    ensures forall k :: k in m ==> m[k] == TotalsOf(rows, col, k)
  {
    map k | k in Elems(ColumnValues(rows, col)) :: TotalsOf(rows, col, k)
  }

  /** The rollup `drawNetwork` builds and the `computeStats` entries agree:
      the same keys, and for each key the same count and average. */
  lemma RollupMatchesStats(rows: seq<Incident>, col: Column)
    ensures forall k :: k in Rollup(rows, col) <==> k in StatKeys(ComputeStats(rows, col))
    ensures forall x :: x in ComputeStats(rows, col) ==>
              && x.key in Rollup(rows, col)
              && Rollup(rows, col)[x.key].Count == x.Count
              && Average(Rollup(rows, col)[x.key]) == x.AvgHours
  {
    forall x | x in ComputeStats(rows, col)
      ensures x.key in Rollup(rows, col)
      ensures Rollup(rows, col)[x.key].Count == x.Count
      ensures Average(Rollup(rows, col)[x.key]) == x.AvgHours
    {
      RollupEntry(rows, col, x);
    }
  }

  lemma RollupEntry(rows: seq<Incident>, col: Column, x: Stat)
    requires x in ComputeStats(rows, col)
    ensures x.key in Rollup(rows, col)
    ensures Rollup(rows, col)[x.key].Count == x.Count
    ensures Average(Rollup(rows, col)[x.key]) == x.AvgHours
  {
    var stats := ComputeStats(rows, col);
    var i :| 0 <= i < |stats| && stats[i] == x;
    assert StatKeys(stats)[i] == x.key;
    assert x.key in StatKeys(stats);
  }

  /** A node of the relation graph, with the three properties `drawNetwork`
      assigns. `AvgHours` is `None` where JavaScript would hold NaN. */
  datatype NetworkNode = NetworkNode(value: string, TotalHours: real, Count: nat, AvgHours: Option<real>)

  function WithTotals(node: NetworkNode, t: Totals): NetworkNode {
    node.(TotalHours := t.TotalHours, Count := t.Count, AvgHours := Average(t))
  }

  /** The node as `drawNetwork` leaves it: Category totals when its value is
      a category of `rows`, else Sub Cat totals when it is a subcategory,
      else zeros with an average of 0. */
  function NodeStats(node: NetworkNode, rows: seq<Incident>): NetworkNode {
    if node.value in ColumnValues(rows, Category) then WithTotals(node, TotalsOf(rows, Category, node.value))
    else if node.value in ColumnValues(rows, SubCat) then WithTotals(node, TotalsOf(rows, SubCat, node.value))
    else node.(TotalHours := 0.0, Count := 0, AvgHours := Some(0.0))
  }

  /** The node-stat part of `drawNetwork(incidents)`: nothing is drawn when
      no row passes the filters; otherwise every node is annotated in place. */
  method AssignNodeStats(filtered: seq<Incident>, nodes: array<NetworkNode>) returns (drawn: bool)
    modifies nodes
    ensures drawn <==> filtered != []
    ensures !drawn ==> nodes[..] == old(nodes[..])
    ensures drawn ==> forall i :: 0 <= i < nodes.Length ==> nodes[i] == NodeStats(old(nodes[i]), filtered)
  {
    if |filtered| == 0 {
      return false;
    }
    var categoryStats := Rollup(filtered, Category);
    var subCatStats := Rollup(filtered, SubCat);
    for i := 0 to nodes.Length
      invariant forall j :: 0 <= j < i ==> nodes[j] == NodeStats(old(nodes[j]), filtered)
      invariant forall j :: i <= j < nodes.Length ==> nodes[j] == old(nodes[j])
    {
      var node := nodes[i];
      if node.value in categoryStats {
        nodes[i] := WithTotals(node, categoryStats[node.value]);
      } else if node.value in subCatStats {
        nodes[i] := WithTotals(node, subCatStats[node.value]);
      } else {
        nodes[i] := node.(TotalHours := 0.0, Count := 0, AvgHours := Some(0.0));
      }
    }
    return true;
  }

  lemma {:induction false} ZeroCountZeroHours(rows: seq<Incident>)
    requires SumCount(rows) == 0
    ensures SumWeighted(rows) == 0.0
  {
    if rows != [] {
      ZeroCountZeroHours(rows[1..]);
    }
  }

  /** A node named after a category carries that category's `computeStats`
      entry, even when a subcategory has the same name. */
  lemma NodeOfCategory(node: NetworkNode, rows: seq<Incident>, x: Stat)
    requires x in ComputeStats(rows, Category) && x.key == node.value
    ensures NodeStats(node, rows).Count == x.Count
    ensures NodeStats(node, rows).AvgHours == x.AvgHours
  {
    RollupMatchesStats(rows, Category);
  }

  /** A node named after a subcategory, and not after a category, carries
      that subcategory's `computeStats` entry. */
  lemma NodeOfSubCat(node: NetworkNode, rows: seq<Incident>, x: Stat)
    requires node.value !in ColumnValues(rows, Category)
    requires x in ComputeStats(rows, SubCat) && x.key == node.value
    ensures NodeStats(node, rows).Count == x.Count
    ensures NodeStats(node, rows).AvgHours == x.AvgHours
  {
    RollupMatchesStats(rows, SubCat);
  }

  /** A node whose value names no category and no subcategory of the rows
      gets zeros. */
  lemma NodeUnmatched(node: NetworkNode, rows: seq<Incident>)
    requires node.value !in ColumnValues(rows, Category) && node.value !in ColumnValues(rows, SubCat)
    ensures NodeStats(node, rows) == node.(TotalHours := 0.0, Count := 0, AvgHours := Some(0.0))
  {
  }

  /** In every case the average times the count is the total duration, and a
      node with no incidents has no hours. */
  lemma NodeAverage(node: NetworkNode, rows: seq<Incident>)
    ensures var n := NodeStats(node, rows);
            && n.value == node.value
            && (n.AvgHours.Some? ==> n.AvgHours.value * (n.Count as real) == n.TotalHours)
            && (n.Count == 0 ==> n.TotalHours == 0.0)
  {
    var v := node.value;
    if v in ColumnValues(rows, Category) {
      var g := RowsWith(rows, Category, v);
      if SumCount(g) == 0 {
        ZeroCountZeroHours(g);
      }
    } else if v in ColumnValues(rows, SubCat) {
      var g := RowsWith(rows, SubCat, v);
      if SumCount(g) == 0 {
        ZeroCountZeroHours(g);
      }
    }
  }

  /** A matched node's average lies between the shortest and the longest
      row duration. */
  lemma NodeAverageBounds(node: NetworkNode, rows: seq<Incident>, lo: real, hi: real)
    requires forall i :: 0 <= i < |rows| ==> lo <= rows[i].Hours <= hi
    requires NodeStats(node, rows).Count > 0
    ensures NodeStats(node, rows).AvgHours.Some?
    ensures lo <= NodeStats(node, rows).AvgHours.value <= hi
  {
    var v := node.value;
    var col := if v in ColumnValues(rows, Category) then Category else SubCat;
    var g := RowsWith(rows, col, v);
    forall i | 0 <= i < |g| ensures lo <= g[i].Hours <= hi {
      var j :| 0 <= j < |rows| && rows[j] == g[i];
    }
    WeightedAvgBounds(g, lo, hi);
  }
}
