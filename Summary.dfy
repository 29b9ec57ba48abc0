/** The data the summary and question prompts are built from: the categories
    related to a category through the relation table, the top entries the
    formatters print, and the neighbour lists of `prepareNetworkSummary`. The
    prompt text itself is not modelled. */
module Summary {
  import opened Wrappers
  import opened Seqs
  import opened Incidents
  import opened Stats

  /** The relation has `c` as one of its endpoints. */
  predicate Touches(rel: Relation, c: string) {
    rel.Source == c || rel.Target == c
  }

  /** The endpoint of the relation across from `c`. */
  function Other(rel: Relation, c: string): string {
    if rel.Source == c then rel.Target else rel.Source
  }

  /** `relatedCategories`: the other endpoint of every relation touching `c`,
      in table order, duplicates kept. */
  function RelatedCategories(rels: seq<Relation>, c: string): (r: seq<string>)
    ensures |r| <= |rels|
  {
    if rels == [] then []
    else
      var rel := rels[|rels| - 1];
      RelatedCategories(rels[..|rels| - 1], c) + (if Touches(rel, c) then [Other(rel, c)] else [])
  }

  lemma RelatedSnoc(rels: seq<Relation>, rel: Relation, c: string)
    ensures RelatedCategories(rels + [rel], c)
         == RelatedCategories(rels, c) + (if Touches(rel, c) then [Other(rel, c)] else [])
  {
    assert (rels + [rel])[..|rels|] == rels;
  }

  /** A name is related to `c` exactly when the table holds an edge between
      the two, in either direction. */
  lemma {:induction false} RelatedMembers(rels: seq<Relation>, c: string)
    ensures forall x :: x in RelatedCategories(rels, c) <==> Relation(c, x) in rels || Relation(x, c) in rels
  {
    if rels != [] {
      var p := rels[..|rels| - 1];
      var rel := rels[|rels| - 1];
      assert rels == p + [rel];
      RelatedMembers(p, c);
      RelatedSnoc(p, rel, c);
    }
  }

  /** Duplicates are kept: `x` is listed once per edge between `c` and `x`,
      and a self-loop on `c` lists `c` once. */
  lemma {:induction false} RelatedMultiplicity(rels: seq<Relation>, c: string, x: string)
    ensures multiset(RelatedCategories(rels, c))[x]
         == multiset(rels)[Relation(c, x)] + (if x != c then multiset(rels)[Relation(x, c)] else 0)
  {
    if rels != [] {
      var p := rels[..|rels| - 1];
      var rel := rels[|rels| - 1];
      assert rels == p + [rel];
      RelatedMultiplicity(p, c, x);
      RelatedSnoc(p, rel, c);
      assert multiset(rels) == multiset(p) + multiset{rel};
    }
  }

  /** One `categoryData[category]` entry of `summarize` and `answerQuestion`. */
  datatype CategoryData = CategoryData(
    timeFrameStats: seq<Stat>,
    siteStats: seq<Stat>,
    groupStats: seq<Stat>,
    relatedCategories: seq<string>)

  /** The entry for `c`, or none when no filtered row is in category `c`
      (the loop's `continue`). */
  function CategoryDataOf(incidents: seq<Incident>, rels: seq<Relation>, c: string): (r: Option<CategoryData>)
    ensures r.None? <==> c !in ColumnValues(incidents, Category)
  {
    var rows := RowsWith(incidents, Category, c);
    RowsWithEmpty(incidents, Category, c);
    if |rows| == 0 then None
    else
      Some(CategoryData(
        ComputeStats(rows, TimeFrame),
        ComputeStats(rows, Site),
        ComputeStats(rows, Group),
        RelatedCategories(rels, c)))
  }

  /** The three breakdowns of a category's entry each account for all of
      that category's incidents. */
  lemma CategoryDataCounts(incidents: seq<Incident>, rels: seq<Relation>, c: string)
    requires CategoryDataOf(incidents, rels, c).Some?
    ensures var d := CategoryDataOf(incidents, rels, c).value;
            var total := SumCount(RowsWith(incidents, Category, c));
            && SumStatCounts(d.timeFrameStats) == total
            && SumStatCounts(d.siteStats) == total
            && SumStatCounts(d.groupStats) == total
  {
    var rows := RowsWith(incidents, Category, c);
    StatsTotalCount(rows, TimeFrame);
    StatsTotalCount(rows, Site);
    StatsTotalCount(rows, Group);
  }

  /** `r` is what a stable sort by descending Count followed by a cut to `n`
      may return: `n` entries or all of them, drawn from `stats`, in
      descending Count order, none counting less than an entry left out. */
  ghost predicate IsTop(r: seq<Stat>, stats: seq<Stat>, n: nat) {
    && |r| == Min(n, |stats|)
    && (forall i, j :: 0 <= i < j < |r| ==> r[i].Count >= r[j].Count)
    && multiset(r) <= multiset(stats)
    && (forall x, y :: x in multiset(stats) - multiset(r) && y in r ==> x.Count <= y.Count)
  }

  /** The entries `formatTopStats` prints: the five largest counts, ties in
      input order. No entries print as the empty string. */
  function FormatTopStats(stats: seq<Stat>): (r: seq<Stat>)
    ensures IsTop(r, stats, 5)
    ensures r == [] <==> stats == []
  {
    TopN(stats, 5)
  }

  /** The entries `formatCategoryStats` prints for one category. */
  datatype CategoryChoice = CategoryChoice(
    timeFrames: seq<Stat>,
    sites: seq<Stat>,
    groups: seq<Stat>,
    connections: seq<string>)

  /** The two most frequent time frames, sites and groups, and every
      related category ("None" when there is none). */
  function FormatCategoryStats(d: CategoryData): (r: CategoryChoice)
    ensures IsTop(r.timeFrames, d.timeFrameStats, 2)
    ensures IsTop(r.sites, d.siteStats, 2)
    ensures IsTop(r.groups, d.groupStats, 2)
    ensures r.connections == d.relatedCategories
  {
    CategoryChoice(TopN(d.timeFrameStats, 2), TopN(d.siteStats, 2), TopN(d.groupStats, 2), d.relatedCategories)
  }

  /** `relevantRelations`: the relations with an endpoint among `selected`. */
  function Relevant(rels: seq<Relation>, selected: seq<string>): seq<Relation> {
    if rels == [] then []
    else
      var rel := rels[|rels| - 1];
      Relevant(rels[..|rels| - 1], selected)
        + (if rel.Source in selected || rel.Target in selected then [rel] else [])
  }

  lemma RelevantSnoc(rels: seq<Relation>, rel: Relation, selected: seq<string>)
    ensures Relevant(rels + [rel], selected)
         == Relevant(rels, selected) + (if rel.Source in selected || rel.Target in selected then [rel] else [])
  {
    assert (rels + [rel])[..|rels|] == rels;
  }

  /** `relatedSubCats`: the targets of the relations whose source is
      selected, in table order. */
  function SubCatTargets(rels: seq<Relation>, selected: seq<string>): seq<string> {
    if rels == [] then []
    else
      var rel := rels[|rels| - 1];
      SubCatTargets(rels[..|rels| - 1], selected) + (if rel.Source in selected then [rel.Target] else [])
  }

  /** One summary line: a selected category and its neighbours. */
  datatype CategoryLine = CategoryLine(category: string, connections: seq<string>)

  /** What `prepareNetworkSummary` reports, before it is written out. */
  datatype NetworkSummary = NetworkSummary(lines: seq<CategoryLine>, relatedSubCats: seq<string>)

  /** The summary as a definition: each selected category, in order, with
      the distinct other endpoints of the relevant relations touching it;
      and the distinct targets of the relations leaving a selected category. */
  function NetworkSummaryOf(rels: seq<Relation>, selected: seq<string>): (r: NetworkSummary)
    ensures |r.lines| == |selected|
    ensures forall i :: 0 <= i < |selected| ==> r.lines[i].category == selected[i]
  {
    var relevant := Relevant(rels, selected);
    NetworkSummary(
      seq(|selected|, i requires 0 <= i < |selected| =>
        CategoryLine(selected[i], Dedup(RelatedCategories(relevant, selected[i])))),
      Dedup(SubCatTargets(relevant, selected)))
  }

  /** The body of `relevantRelations.forEach`: create both entries if
      missing, then add each endpoint to the other's set. */
  function AddEdge(m: map<string, seq<string>>, rel: Relation): map<string, seq<string>> {
    var s := rel.Source;
    var t := rel.Target;
    var m1 := if s in m then m else m[s := []];
    var m2 := if t in m1 then m1 else m1[t := []];
    var m3 := m2[s := Add(m2[s], t)];
    m3[t := Add(m3[t], s)]
  }

  /** `connectionCounts` after the relations `rels`, one `forEach` step
      per relation. */
  ghost function ConnectionsOf(rels: seq<Relation>): map<string, seq<string>> {
    if rels == [] then map[]
    else AddEdge(ConnectionsOf(rels[..|rels| - 1]), rels[|rels| - 1])
  }

  /** `connectionCounts` has an entry for a name exactly when some relation
      touches it, and the entry is the name's distinct neighbours in order
      of first appearance. */
  lemma {:induction false} ConnectionsOfAt(rels: seq<Relation>, v: string)
    ensures v in ConnectionsOf(rels) <==> RelatedCategories(rels, v) != []
    ensures v in ConnectionsOf(rels) ==> ConnectionsOf(rels)[v] == Dedup(RelatedCategories(rels, v))
  {
    if rels != [] {
      var p := rels[..|rels| - 1];
      var rel := rels[|rels| - 1];
      assert rels == p + [rel];
      ConnectionsOfAt(p, v);
      var m := ConnectionsOf(p);
      var d := if v in m then m[v] else [];
      ConnectionsStepAt(m, d, p, rel, v);
    }
  }

  /** One edge, seen from one name `v` whose entry was `d` (empty when
      missing). */
  lemma ConnectionsStepAt(m: map<string, seq<string>>, d: seq<string>, rels: seq<Relation>, rel: Relation, v: string)
    requires v in m <==> RelatedCategories(rels, v) != []
    requires d == (if v in m then m[v] else [])
    requires d == Dedup(RelatedCategories(rels, v))
    ensures v in AddEdge(m, rel) <==> RelatedCategories(rels + [rel], v) != []
    ensures v in AddEdge(m, rel) ==> AddEdge(m, rel)[v] == Dedup(RelatedCategories(rels + [rel], v))
  {
    var before := RelatedCategories(rels, v);
    RelatedSnoc(rels, rel, v);
    AddEdgeAt(m, d, rel, v);
    if Touches(rel, v) {
      DedupSnoc(before, Other(rel, v));
      if rel.Source == rel.Target {
        assert Add(Add(d, v), v) == Add(d, v);
      }
    } else {
      assert before + [] == before;
    }
  }

  /** The entry of `v` after one edge: its old entry (or the empty set)
      with the other endpoint added, once per end of the edge at `v`. */
  lemma AddEdgeAt(m: map<string, seq<string>>, d: seq<string>, rel: Relation, v: string)
    requires d == (if v in m then m[v] else [])
    ensures v in AddEdge(m, rel) <==> v in m || Touches(rel, v)
    ensures v in AddEdge(m, rel) ==>
              AddEdge(m, rel)[v] == (if rel.Source == v && rel.Target == v then Add(Add(d, v), v)
                                     else if Touches(rel, v) then Add(d, Other(rel, v))
                                     else d)
  {
  }

  /** The `relevantRelations.forEach` loop that fills `connectionCounts`. */
  method CountConnections(relevant: seq<Relation>) returns (connections: map<string, seq<string>>)
    ensures forall v :: v in connections <==> RelatedCategories(relevant, v) != []
    ensures forall v :: v in connections ==> connections[v] == Dedup(RelatedCategories(relevant, v))
  {
    connections := map[];
    for i := 0 to |relevant|
      invariant connections == ConnectionsOf(relevant[..i])
    {
      ghost var before := connections;
      var source := relevant[i].Source;
      var target := relevant[i].Target;
      if source !in connections {
        connections := connections[source := []];
      }
      if target !in connections {
        connections := connections[target := []];
      }
      connections := connections[source := Add(connections[source], target)];
      connections := connections[target := Add(connections[target], source)];
      assert connections == AddEdge(before, relevant[i]);
      assert relevant[..i + 1][..i] == relevant[..i];
    }
    assert relevant[..|relevant|] == relevant;
    forall v
      ensures v in connections <==> RelatedCategories(relevant, v) != []
      ensures v in connections ==> connections[v] == Dedup(RelatedCategories(relevant, v))
    {
      ConnectionsOfAt(relevant, v);
    }
  }

  /** `prepareNetworkSummary(selectedCategories)`: the neighbour sets are
      built in one pass over the relevant relations, then one line is made
      per selected category. */
  method PrepareNetworkSummary(rels: seq<Relation>, selected: seq<string>) returns (summary: NetworkSummary)
    ensures summary == NetworkSummaryOf(rels, selected)
  {
    var relevant := Relevant(rels, selected);
    var connections := CountConnections(relevant);
    var lines: seq<CategoryLine> := [];
    for i := 0 to |selected|
      invariant |lines| == i
      invariant forall j :: 0 <= j < i ==>
                  lines[j] == CategoryLine(selected[j], Dedup(RelatedCategories(relevant, selected[j])))
    {
      var category := selected[i];
      var neighbours := if category in connections then connections[category] else [];
      lines := lines + [CategoryLine(category, neighbours)];
    }
    summary := NetworkSummary(lines, Dedup(SubCatTargets(relevant, selected)));
  }

  /** Every relation touching a selected category is relevant, so its
      related list is the same over all relations. */
  lemma {:induction false} RelatedRelevant(rels: seq<Relation>, selected: seq<string>, c: string)
    requires c in selected
    ensures RelatedCategories(Relevant(rels, selected), c) == RelatedCategories(rels, c)
  {
    if rels != [] {
      var p := rels[..|rels| - 1];
      var rel := rels[|rels| - 1];
      assert rels == p + [rel];
      var q := Relevant(p, selected);
      RelatedRelevant(p, selected, c);
      RelatedSnoc(p, rel, c);
      RelevantSnoc(p, rel, selected);
      if rel.Source in selected || rel.Target in selected {
        RelatedSnoc(q, rel, c);
      } else {
        assert q + [] == q;
        assert RelatedCategories(p, c) + [] == RelatedCategories(p, c);
      }
    }
  }

  /** A category's summary line lists its `relatedCategories` with the
      duplicates dropped, in order of first appearance. */
  lemma SummaryMatchesRelated(rels: seq<Relation>, selected: seq<string>, i: nat)
    requires i < |selected|
    ensures NetworkSummaryOf(rels, selected).lines[i].connections
         == Dedup(RelatedCategories(rels, selected[i]))
  {
    RelatedRelevant(rels, selected, selected[i]);
  }

  /** A selected category's line lists exactly the names joined to it by a
      relation in either direction, each once. */
  lemma SummaryNeighbours(rels: seq<Relation>, selected: seq<string>, i: nat)
    requires i < |selected|
    ensures var line := NetworkSummaryOf(rels, selected).lines[i];
            && Distinct(line.connections)
            && forall x :: x in line.connections <==>
                 Relation(selected[i], x) in rels || Relation(x, selected[i]) in rels
  {
    SummaryMatchesRelated(rels, selected, i);
    DedupMembers(RelatedCategories(rels, selected[i]));
    RelatedMembers(rels, selected[i]);
  }

  /** Neighbourhood is symmetric between two selected categories. */
  lemma SummarySymmetric(rels: seq<Relation>, selected: seq<string>, i: nat, j: nat)
    requires i < |selected| && j < |selected|
    ensures selected[j] in NetworkSummaryOf(rels, selected).lines[i].connections
        <==> selected[i] in NetworkSummaryOf(rels, selected).lines[j].connections
  {
    SummaryNeighbours(rels, selected, i);
    SummaryNeighbours(rels, selected, j);
  }

  /** A relation with no endpoint among the selected categories changes
      nothing in the summary. */
  lemma SummaryIgnoresIrrelevant(rels: seq<Relation>, rel: Relation, selected: seq<string>)
    requires rel.Source !in selected && rel.Target !in selected
    ensures NetworkSummaryOf(rels + [rel], selected) == NetworkSummaryOf(rels, selected)
  {
    RelevantSnoc(rels, rel, selected);
    assert Relevant(rels, selected) + [] == Relevant(rels, selected);
  }

  lemma {:induction false} SubCatTargetsMembers(rels: seq<Relation>, selected: seq<string>)
    ensures forall x :: x in SubCatTargets(rels, selected) <==>
              exists s :: s in selected && Relation(s, x) in rels
  {
    if rels != [] {
      var p := rels[..|rels| - 1];
      var rel := rels[|rels| - 1];
      assert rels == p + [rel];
      SubCatTargetsMembers(p, selected);
      assert SubCatTargets(rels, selected)
          == SubCatTargets(p, selected) + (if rel.Source in selected then [rel.Target] else []);
    }
  }

  lemma SubCatTargetsSnoc(rels: seq<Relation>, rel: Relation, selected: seq<string>)
    ensures SubCatTargets(rels + [rel], selected)
         == SubCatTargets(rels, selected) + (if rel.Source in selected then [rel.Target] else [])
  {
    assert (rels + [rel])[..|rels|] == rels;
  }

  lemma {:induction false} SubCatTargetsRelevant(rels: seq<Relation>, selected: seq<string>)
    ensures SubCatTargets(Relevant(rels, selected), selected) == SubCatTargets(rels, selected)
  {
    if rels != [] {
      var p := rels[..|rels| - 1];
      var rel := rels[|rels| - 1];
      assert rels == p + [rel];
      var q := Relevant(p, selected);
      SubCatTargetsRelevant(p, selected);
      RelevantSnoc(p, rel, selected);
      SubCatTargetsSnoc(p, rel, selected);
      if rel.Source in selected || rel.Target in selected {
        SubCatTargetsSnoc(q, rel, selected);
      } else {
        assert q + [] == q;
        assert SubCatTargets(p, selected) + [] == SubCatTargets(p, selected);
      }
    }
  }

  /** The related subcategories are the distinct names a selected category
      points to, listed in the order of the first relation reaching each. */
  lemma SummarySubCats(rels: seq<Relation>, selected: seq<string>)
    ensures var subs := NetworkSummaryOf(rels, selected).relatedSubCats;
            && Distinct(subs)
            && (forall x :: x in subs <==> exists s :: s in selected && Relation(s, x) in rels)
            && (forall i, j, q ::
                  (0 <= i < j < |subs| && 0 <= q < |rels| && rels[q].Source in selected && rels[q].Target == subs[j]) ==>
                  exists p :: 0 <= p < q && rels[p].Source in selected && rels[p].Target == subs[i])
  {
    SubCatTargetsRelevant(rels, selected);
    DedupMembers(SubCatTargets(rels, selected));
    SubCatTargetsMembers(rels, selected);
    var subs := NetworkSummaryOf(rels, selected).relatedSubCats;
    forall i, j, q | 0 <= i < j < |subs| && 0 <= q < |rels| && rels[q].Source in selected && rels[q].Target == subs[j]
      ensures exists p :: 0 <= p < q && rels[p].Source in selected && rels[p].Target == subs[i]
    {
      SubCatOrder(rels, selected, i, j, q);
    }
  }

  lemma SubCatOrder(rels: seq<Relation>, selected: seq<string>, i: nat, j: nat, q: nat)
    requires i < j < |Dedup(SubCatTargets(rels, selected))|
    requires q < |rels| && rels[q].Source in selected
    requires rels[q].Target == Dedup(SubCatTargets(rels, selected))[j]
    ensures exists p :: 0 <= p < q && rels[p].Source in selected
                        && rels[p].Target == Dedup(SubCatTargets(rels, selected))[i]
  {
    var t := SubCatTargets(rels, selected);
    var x := Dedup(t)[i];
    var k := SubCatTargetsPrefix(rels, selected, q);
    assert x in SubCatTargets(rels[..q], selected);
    SubCatTargetsMembers(rels[..q], selected);
    var s :| s in selected && Relation(s, x) in rels[..q];
    var p :| 0 <= p < q && rels[..q][p] == Relation(s, x);
    assert rels[p] == Relation(s, x);
  }

  /** A relation whose source is selected contributes its target at the
      position after everything the relations before it contribute. */
  lemma {:induction false} SubCatTargetsPrefix(rels: seq<Relation>, selected: seq<string>, q: nat) returns (k: nat)
    requires q < |rels| && rels[q].Source in selected
    ensures k < |SubCatTargets(rels, selected)|
    ensures SubCatTargets(rels, selected)[k] == rels[q].Target
    ensures SubCatTargets(rels, selected)[..k] == SubCatTargets(rels[..q], selected)
    decreases |rels|
  {
    var p := rels[..|rels| - 1];
    var rel := rels[|rels| - 1];
    var t := SubCatTargets(rels, selected);
    assert t == SubCatTargets(p, selected) + (if rel.Source in selected then [rel.Target] else []);
    if q == |rels| - 1 {
      k := |SubCatTargets(p, selected)|;
      assert rels[..q] == p;
    } else {
      k := SubCatTargetsPrefix(p, selected, q);
      assert p[..q] == rels[..q];
    }
  }
}
