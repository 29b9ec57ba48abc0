/** The filter selection state (`filters`): for each filter key, an ordered
    list of `{value, selected}` options, and the pure functions that describe
    how initialisation, re-rendering, the checkbox handlers and the automatic
    Group selection change it. The class in Dashboard.dfy performs these
    changes step by step. */
module Filters {
  import opened Wrappers
  import opened Seqs
  import opened Sorting
  import opened Incidents
  import opened Stats

  datatype FilterOption = FilterOption(value: string, selected: bool)

  type FilterMap = map<Column, seq<FilterOption>>

  /** `preSelectedCategories`: the allow-list of the Top 10 checkbox, empty in
      the shipped code. */
  const PreSelectedCategories: seq<string> := []

  function Values(opts: seq<FilterOption>): (vs: seq<string>)
    ensures |vs| == |opts|
    ensures forall i :: 0 <= i < |opts| ==> vs[i] == opts[i].value
  {
    seq(|opts|, i requires 0 <= i < |opts| => opts[i].value)
  }

  /** The key's domain: the values it offers, selected or not. */
  function ValueSet(opts: seq<FilterOption>): set<string> {
    set o | o in opts :: o.value
  }

  function SelectedSet(opts: seq<FilterOption>): set<string> {
    set o | o in opts && o.selected :: o.value
  }

  predicate DistinctValues(opts: seq<FilterOption>) {
    Distinct(Values(opts))
  }

  /** The state every handler relies on: exactly the four filter keys, each
      offering every value at most once. */
  predicate WellFormed(fs: FilterMap) {
    && (forall k :: k in fs <==> k in FilterKeys)
    && (forall k :: k in fs ==> DistinctValues(fs[k]))
  }

  /** The values of the selected options, in list order. */
  function SelectedValues(opts: seq<FilterOption>): (r: seq<string>)
    ensures forall v :: v in r <==> v in SelectedSet(opts)
    ensures |r| <= |opts|
  {
    if opts == [] then []
    else
      var rest := SelectedValues(opts[1..]);
      assert SelectedSet(opts) == SelectedSet([opts[0]]) + SelectedSet(opts[1..]) by {
        assert opts == [opts[0]] + opts[1..];
      }
      (if opts[0].selected then [opts[0].value] else []) + rest
  }

  // ---------------------------------------------------------------- initialisation

  /** The column's cells in table order, with the empty ones dropped. */
  function NonEmptyValues(rows: seq<Incident>, key: Column): (r: seq<string>)
    ensures forall v :: v in r <==> v != "" && v in ColumnValues(rows, key)
  {
    if rows == [] then []
    else
      assert ColumnValues(rows, key) == [Field(rows[0], key)] + ColumnValues(rows[1..], key);
      (if Field(rows[0], key) != "" then [Field(rows[0], key)] else []) + NonEmptyValues(rows[1..], key)
  }

  /** One option per value, in order, all with the flag `flag`. */
  function OptionsOf(vs: seq<string>, flag: bool): (opts: seq<FilterOption>)
    ensures |opts| == |vs|
    ensures forall i :: 0 <= i < |vs| ==> opts[i] == FilterOption(vs[i], flag)
  {
    seq(|vs|, i requires 0 <= i < |vs| => FilterOption(vs[i], flag))
  }

  lemma OptionsOfValues(vs: seq<string>, flag: bool)
    ensures Values(OptionsOf(vs, flag)) == vs
    ensures forall v :: v in ValueSet(OptionsOf(vs, flag)) <==> v in vs
  {
    var opts := OptionsOf(vs, flag);
    forall v ensures v in ValueSet(opts) <==> v in vs {
      if v in vs {
        var i :| 0 <= i < |vs| && vs[i] == v;
        assert opts[i] in opts;
      }
    }
  }

  /** The options a key starts with: its distinct non-empty values in
      ascending order, selected unless the key is Group. */
  function InitialOptions(rows: seq<Incident>, key: Column): seq<FilterOption> {
    OptionsOf(SortBy(Dedup(NonEmptyValues(rows, key)), StrLe), key != Group)
  }

  /** The filter state after initialisation: the starting options of every
      filter key. */
  function Initial(rows: seq<Incident>): FilterMap {
    map k | k in FilterKeys :: InitialOptions(rows, k)
  }

  /** Each key offers the column's distinct non-empty values once each, in
      ascending order; all are selected except under Group, where none is. */
  lemma InitialOptionsSpec(rows: seq<Incident>, key: Column)
    ensures var opts := InitialOptions(rows, key);
      && DistinctValues(opts)
      && (forall v :: v in ValueSet(opts) <==> v != "" && v in ColumnValues(rows, key))
      && (forall i, j :: 0 <= i < j < |opts| ==> StrLe(opts[i].value, opts[j].value))
      && (forall i :: 0 <= i < |opts| ==> opts[i].selected == (key != Group))
  {
    var vs := NonEmptyValues(rows, key);
    var d := Dedup(vs);
    SortedOptionsValues(d, key != Group);
    SortedOptionsOrder(d, key != Group);
    DedupMembers(vs);
  }

  /** Sorting distinct values and wrapping them as options keeps them
      distinct and offers exactly them. */
  lemma SortedOptionsValues(d: seq<string>, flag: bool)
    requires Distinct(d)
    ensures var opts := OptionsOf(SortBy(d, StrLe), flag);
      && DistinctValues(opts)
      && (forall v :: v in ValueSet(opts) <==> v in d)
  {
    var vs := SortBy(d, StrLe);
    OptionsOfValues(vs, flag);
    PermutationDistinct(d, vs);
    forall v ensures v in vs <==> v in d {
      assert v in vs <==> v in multiset(vs);
      assert v in d <==> v in multiset(d);
    }
  }

  /** The options come in ascending string order, all with the same flag. */
  lemma SortedOptionsOrder(d: seq<string>, flag: bool)
    ensures var opts := OptionsOf(SortBy(d, StrLe), flag);
      && (forall i, j :: 0 <= i < j < |opts| ==> StrLe(opts[i].value, opts[j].value))
      && (forall i :: 0 <= i < |opts| ==> opts[i].selected == flag)
  {
    StrLeTotalPreorder();
    SortBySorted(d, StrLe);
  }

  // ---------------------------------------------------------------- flag updates

  /** The options with every flag set to `f` of the option's value. */
  function Relabel(opts: seq<FilterOption>, f: string -> bool): (r: seq<FilterOption>)
    ensures |r| == |opts|
    ensures forall i :: 0 <= i < |r| ==> r[i].value == opts[i].value
  {
    seq(|opts|, i requires 0 <= i < |opts| => opts[i].(selected := f(opts[i].value)))
  }

  lemma RelabelSpec(opts: seq<FilterOption>, f: string -> bool)
    ensures Values(Relabel(opts, f)) == Values(opts)
    ensures ValueSet(Relabel(opts, f)) == ValueSet(opts)
    ensures forall v :: v in SelectedSet(Relabel(opts, f)) <==> v in ValueSet(opts) && f(v)
  {
    var r := Relabel(opts, f);
    assert Values(r) == Values(opts);
    forall v ensures v in ValueSet(r) <==> v in ValueSet(opts) {
      if v in ValueSet(opts) {
        var o :| o in opts && o.value == v;
        var i :| 0 <= i < |opts| && opts[i] == o;
        assert r[i] in r;
      }
      if v in ValueSet(r) {
        var o :| o in r && o.value == v;
        var i :| 0 <= i < |r| && r[i] == o;
        assert opts[i] in opts;
      }
    }
    forall v ensures v in SelectedSet(r) <==> v in ValueSet(opts) && f(v) {
      if v in ValueSet(opts) && f(v) {
        var o :| o in opts && o.value == v;
        var i :| 0 <= i < |opts| && opts[i] == o;
        assert r[i] in r && r[i].selected;
      }
      if v in SelectedSet(r) {
        var o :| o in r && o.selected && o.value == v;
        var i :| 0 <= i < |r| && r[i] == o;
        assert opts[i] in opts;
      }
    }
  }

  /** Relabelling twice is relabelling with the second function. */
  lemma RelabelTwice(opts: seq<FilterOption>, f: string -> bool, g: string -> bool)
    ensures Relabel(Relabel(opts, f), g) == Relabel(opts, g)
  {
  }

  /** Only the values of the labelling function matter. */
  lemma RelabelPointwise(opts: seq<FilterOption>, f: string -> bool, g: string -> bool)
    requires forall v :: f(v) == g(v)
    ensures Relabel(opts, f) == Relabel(opts, g)
  {
  }

  /** The index of the first option with value `v`, or `|opts|` when no
      option has it. */
  function FindOption(opts: seq<FilterOption>, v: string): (i: nat)
    ensures i <= |opts|
    ensures i < |opts| ==> opts[i].value == v
    ensures forall j :: 0 <= j < i ==> opts[j].value != v
  {
    if opts == [] then 0
    else if opts[0].value == v then 0
    else 1 + FindOption(opts[1..], v)
  }

  /** The options with the first one of value `v`, if any, given the flag
      `checked`. */
  function SetFirst(opts: seq<FilterOption>, v: string, checked: bool): seq<FilterOption> {
    var i := FindOption(opts, v);
    if i < |opts| then opts[i := opts[i].(selected := checked)] else opts
  }

  /** With distinct values, a checkbox change sets exactly the matching
      option to the checkbox state and leaves the rest alone. */
  lemma SetFirstSpec(opts: seq<FilterOption>, v: string, checked: bool)
    requires DistinctValues(opts)
    ensures Values(SetFirst(opts, v, checked)) == Values(opts)
    ensures ValueSet(SetFirst(opts, v, checked)) == ValueSet(opts)
    ensures SelectedSet(SetFirst(opts, v, checked))
         == if v !in ValueSet(opts) then SelectedSet(opts)
            else if checked then SelectedSet(opts) + {v}
            else SelectedSet(opts) - {v}
  {
    var i := FindOption(opts, v);
    var r := SetFirst(opts, v, checked);
    if i < |opts| {
      assert Values(r) == Values(opts);
      SameValueSet(opts, r);
      SetOneSelected(opts, i, checked);
      assert v in ValueSet(opts) by {
        assert opts[i] in opts;
      }
    } else {
      assert v !in ValueSet(opts);
    }
  }

  /** Options with the same values in the same order offer the same values. */
  lemma SameValueSet(a: seq<FilterOption>, b: seq<FilterOption>)
    requires Values(a) == Values(b)
    ensures ValueSet(a) == ValueSet(b)
  {
    forall w | w in ValueSet(a) ensures w in ValueSet(b) {
      var o :| o in a && o.value == w;
      var j :| 0 <= j < |a| && a[j] == o;
      assert Values(b)[j] == w;
      assert b[j] in b;
    }
    forall w | w in ValueSet(b) ensures w in ValueSet(a) {
      var o :| o in b && o.value == w;
      var j :| 0 <= j < |b| && b[j] == o;
      assert Values(a)[j] == w;
      assert a[j] in a;
    }
  }

  /** With distinct values, setting the flag of option `i` adds its value to
      or removes it from the selection and changes nothing else there. */
  lemma SetOneSelected(opts: seq<FilterOption>, i: nat, checked: bool)
    requires DistinctValues(opts) && i < |opts|
    ensures var r := opts[i := opts[i].(selected := checked)];
      SelectedSet(r) == if checked then SelectedSet(opts) + {opts[i].value} else SelectedSet(opts) - {opts[i].value}
  {
    var v := opts[i].value;
    var r := opts[i := opts[i].(selected := checked)];
    forall j | 0 <= j < |opts| && j != i ensures opts[j].value != v {
      assert Values(opts)[j] != Values(opts)[i];
    }
    var expected := if checked then SelectedSet(opts) + {v} else SelectedSet(opts) - {v};
    forall w | w in expected ensures w in SelectedSet(r) {
      if w == v {
        assert r[i] in r;
      } else {
        var o :| o in opts && o.selected && o.value == w;
        var j :| 0 <= j < |opts| && opts[j] == o;
        assert r[j] in r;
      }
    }
    forall w | w in SelectedSet(r) ensures w in expected {
      var o :| o in r && o.selected && o.value == w;
      var j :| 0 <= j < |r| && r[j] == o;
      if j != i {
        assert opts[j] in opts;
      }
    }
  }


  // ---------------------------------------------------------------- re-rendering

  /** The order the options comparator of `renderFilterOptions` sorts by:
      selected options before unselected ones, and within each group by
      collation of the values, where `collate(x, y)` holds when `x` collates
      no later than `y`. Values are strings here, so substituting the empty
      string for a missing value changes nothing. */
  function OptionOrder(collate: (string, string) -> bool): (FilterOption, FilterOption) -> bool {
    (a: FilterOption, b: FilterOption) =>
      (a.selected && !b.selected) || (a.selected == b.selected && collate(a.value, b.value))
  }

  lemma OptionOrderTotalPreorder(collate: (string, string) -> bool)
    requires TotalPreorder(collate)
    ensures TotalPreorder(OptionOrder(collate))
  {
    var le := OptionOrder(collate);
    forall a, b ensures le(a, b) || le(b, a) {
      assert collate(a.value, b.value) || collate(b.value, a.value);
    }
    forall a, b, c | le(a, b) && le(b, c) ensures le(a, c) {
      if a.selected == b.selected == c.selected {
        assert collate(a.value, b.value) && collate(b.value, c.value);
      }
    }
  }

  /** The display order of a dropdown: selected options first, then by
      collation of the values, by a stable sort. */
  function SortOptions(opts: seq<FilterOption>, collate: (string, string) -> bool): seq<FilterOption> {
    SortBy(opts, OptionOrder(collate))
  }

  lemma PermutationValues(a: seq<FilterOption>, b: seq<FilterOption>)
    requires multiset(a) == multiset(b)
    ensures ValueSet(a) == ValueSet(b)
    ensures SelectedSet(a) == SelectedSet(b)
    ensures DistinctValues(a) ==> DistinctValues(b)
  {
    assert forall o :: o in a <==> o in b by {
      forall o ensures o in a <==> o in b {
        assert o in a <==> o in multiset(a);
        assert o in b <==> o in multiset(b);
      }
    }
    if DistinctValues(a) {
      assert Distinct(a) by {
        forall i, j | 0 <= i < j < |a| ensures a[i] != a[j] {
          assert Values(a)[i] != Values(a)[j];
        }
      }
      PermutationDistinct(a, b);
      forall i, j | 0 <= i < j < |b| ensures b[i].value != b[j].value {
        assert b[i] != b[j];
        assert b[i] in multiset(a) && b[j] in multiset(a);
        var p :| 0 <= p < |a| && a[p] == b[i];
        var q :| 0 <= q < |a| && a[q] == b[j];
        assert Values(a)[p] != Values(a)[q];
      }
    }
  }

  /** Re-rendering only reorders: same options, selected ones first, each
      half in collation order. */
  lemma SortOptionsSpec(opts: seq<FilterOption>, collate: (string, string) -> bool)
    requires TotalPreorder(collate)
    ensures multiset(SortOptions(opts, collate)) == multiset(opts)
    ensures ValueSet(SortOptions(opts, collate)) == ValueSet(opts)
    ensures SelectedSet(SortOptions(opts, collate)) == SelectedSet(opts)
    ensures DistinctValues(opts) ==> DistinctValues(SortOptions(opts, collate))
    ensures var r := SortOptions(opts, collate);
      forall i, j :: 0 <= i < j < |r| ==>
        (r[j].selected ==> r[i].selected) &&
        (r[i].selected == r[j].selected ==> collate(r[i].value, r[j].value))
  {
    OptionOrderTotalPreorder(collate);
    SortBySorted(opts, OptionOrder(collate));
    PermutationValues(opts, SortOptions(opts, collate));
  }

  // ---------------------------------------------------------------- automatic Group selection

  /** Membership in `s`, as a flag function. */
  function Membership(s: set<string>): string -> bool {
    (v: string) => v in s
  }

  /** The top two groups of category `c`: `d3.rollups` sums Count per group
      in order of first appearance, and a stable sort by descending total
      keeps the two largest, the earlier one on a tie. */
  function TopGroupKeys(rows: seq<Incident>, c: string): seq<string> {
    StatKeys(TopN(ComputeStats(RowsWith(rows, Category, c), Group), 2))
  }

  /** ΣCount of the rows of category `c` and group `g`. */
  function GroupTotal(rows: seq<Incident>, c: string, g: string): nat {
    SumCount(RowsWith(RowsWith(rows, Category, c), Group, g))
  }

  /** The chosen groups are distinct groups of `c`, as many as `c` has up
      to two; none left out has a larger total than one chosen, and one left
      out with the same total as a chosen one first appears after it among
      the category's rows. */
  lemma {:induction false} TopGroupKeysSpec(rows: seq<Incident>, c: string)
    ensures var r := TopGroupKeys(rows, c);
      var groups := ColumnValues(RowsWith(rows, Category, c), Group);
      && |r| == Min(2, |Dedup(groups)|)
      && Distinct(r)
      && (forall g :: g in r ==> g in groups)
      && (forall g1, g2 :: g1 in r && g2 in groups && g2 !in r ==>
            GroupTotal(rows, c, g2) <= GroupTotal(rows, c, g1))
      && (forall g1, q ::
            (g1 in r && 0 <= q < |groups| && groups[q] !in r &&
             GroupTotal(rows, c, groups[q]) == GroupTotal(rows, c, g1)) ==> g1 in groups[..q])
  {
    var sub := RowsWith(rows, Category, c);
    var groups := ColumnValues(sub, Group);
    TopNKeys(ComputeStats(sub, Group), 2);
    TopNDistinctKeys(ComputeStats(sub, Group), 2);
    forall g1, g2 | g1 in TopGroupKeys(rows, c) && g2 in groups && g2 !in TopGroupKeys(rows, c)
      ensures GroupTotal(rows, c, g2) <= GroupTotal(rows, c, g1)
    {
      TopGroupDominates(rows, c, g1, g2);
    }
    forall g1, q | g1 in TopGroupKeys(rows, c) && 0 <= q < |groups| && groups[q] !in TopGroupKeys(rows, c)
                   && GroupTotal(rows, c, groups[q]) == GroupTotal(rows, c, g1)
      ensures g1 in groups[..q]
    {
      TopGroupTieOrder(rows, c, g1, q);
    }
  }

  /** `d3.rollups` lists the groups in order of first appearance and the
      sort is stable, so of two groups with the same total the earlier one
      is kept. */
  lemma {:induction false} TopGroupTieOrder(rows: seq<Incident>, c: string, g1: string, q: nat)
    requires q < |ColumnValues(RowsWith(rows, Category, c), Group)|
    requires g1 in TopGroupKeys(rows, c)
    requires ColumnValues(RowsWith(rows, Category, c), Group)[q] !in TopGroupKeys(rows, c)
    requires GroupTotal(rows, c, ColumnValues(RowsWith(rows, Category, c), Group)[q]) == GroupTotal(rows, c, g1)
    ensures g1 in ColumnValues(RowsWith(rows, Category, c), Group)[..q]
  {
    var sub := RowsWith(rows, Category, c);
    var groups := ColumnValues(sub, Group);
    var i, j := TopNKeyOrder(sub, Group, 2, g1, groups[q]);
    assert GroupKeys(sub, Group) == Dedup(groups);
  }

  lemma {:induction false} TopGroupDominates(rows: seq<Incident>, c: string, g1: string, g2: string)
    requires g1 in TopGroupKeys(rows, c)
    requires g2 in ColumnValues(RowsWith(rows, Category, c), Group) && g2 !in TopGroupKeys(rows, c)
    ensures GroupTotal(rows, c, g2) <= GroupTotal(rows, c, g1)
  {
    var sub := RowsWith(rows, Category, c);
    var stats := ComputeStats(sub, Group);
    var y := TopNMember(stats, 2, g1);
    var x := StatFor(sub, Group, g2);
    TopNDominates(stats, 2, x, y);
    StatCount(sub, Group, y);
    StatCount(sub, Group, x);
  }

  /** A category with no rows has no top groups. */
  lemma TopGroupKeysAbsent(rows: seq<Incident>, c: string)
    requires c !in ColumnValues(rows, Category)
    ensures TopGroupKeys(rows, c) == []
  {
    RowsWithAbsent(rows, Category, c);
    assert RowsWith(rows, Category, c) == [];
  }

  /** The values that `f` lists for some member of `cats`. */
  function UnionOf(cats: set<string>, f: string -> seq<string>): set<string> {
    set c, g | c in cats && g in f(c) :: g
  }

  lemma UnionOfSplit(cats: set<string>, f: string -> seq<string>, c: string)
    requires c in cats
    ensures UnionOf(cats, f) == UnionOf(cats - {c}, f) + Elems(f(c))
  {
    forall g | g in UnionOf(cats, f) ensures g in UnionOf(cats - {c}, f) + Elems(f(c)) {
      var c' :| c' in cats && g in f(c');
      if c' != c {
        assert c' in cats - {c};
      }
    }
  }

  lemma {:induction false} UnionOfBound(cats: set<string>, f: string -> seq<string>, n: nat)
    requires forall c :: c in cats ==> |f(c)| <= n
    ensures |UnionOf(cats, f)| <= n * |cats|
    decreases cats
  {
    if cats != {} {
      var c :| c in cats;
      UnionOfBound(cats - {c}, f, n);
      UnionOfSplit(cats, f, c);
      ElemsCard(f(c));
      var rest := cats - {c};
      assert |rest| == |cats| - 1;
      assert n * |cats| == n * |rest| + n;
      var a, b := UnionOf(rest, f), Elems(f(c));
      assert |a + b| <= |a| + |b|;
    }
  }

  function TopGroupsOf(rows: seq<Incident>): string -> seq<string> {
    (c: string) => TopGroupKeys(rows, c)
  }

  /** `topGroups` once every selected category has added its top two. */
  function TopGroupSet(rows: seq<Incident>, cats: set<string>): set<string> {
    UnionOf(cats, TopGroupsOf(rows))
  }

  lemma TopGroupSetMember(rows: seq<Incident>, cats: set<string>, c: string, g: string)
    requires c in cats && g in TopGroupKeys(rows, c)
    ensures g in TopGroupSet(rows, cats)
  {
    var f := TopGroupsOf(rows);
    assert g in f(c);
  }

  /** Selected categories without rows add no groups. */
  lemma TopGroupSetPresent(rows: seq<Incident>, cats: set<string>)
    ensures TopGroupSet(rows, cats) == TopGroupSet(rows, cats * Elems(ColumnValues(rows, Category)))
  {
    var present := cats * Elems(ColumnValues(rows, Category));
    forall g | g in TopGroupSet(rows, cats) ensures g in TopGroupSet(rows, present) {
      var f := TopGroupsOf(rows);
      var c :| c in cats && g in f(c);
      if c !in ColumnValues(rows, Category) {
        TopGroupKeysAbsent(rows, c);
        assert false;
      }
      TopGroupSetMember(rows, present, c, g);
    }
    forall g | g in TopGroupSet(rows, present) ensures g in TopGroupSet(rows, cats) {
      var f := TopGroupsOf(rows);
      var c :| c in present && g in f(c);
      TopGroupSetMember(rows, cats, c, g);
    }
  }

  lemma UnionOfAdd(cats: set<string>, f: string -> seq<string>, c: string)
    ensures UnionOf(cats + {c}, f) == UnionOf(cats, f) + Elems(f(c))
  {
    UnionOfSplit(cats + {c}, f, c);
    if c in cats {
      UnionOfSplit(cats, f, c);
      assert cats + {c} == cats;
    } else {
      assert cats + {c} - {c} == cats;
    }
  }

  /** One more selected category adds its top two groups. */
  lemma TopGroupSetAdd(rows: seq<Incident>, cats: set<string>, c: string)
    ensures TopGroupSet(rows, cats + {c}) == TopGroupSet(rows, cats) + Elems(TopGroupKeys(rows, c))
  {
    UnionOfAdd(cats, TopGroupsOf(rows), c);
  }

  /** What a loop over `cats` collects when each visited member of
      `selected` adds the values `f` lists for it. */
  function UnionOver(cats: seq<string>, selected: set<string>, f: string -> seq<string>): set<string> {
    if cats == [] then {}
    else
      var c := cats[|cats| - 1];
      UnionOver(cats[..|cats| - 1], selected, f) + (if c in selected then Elems(f(c)) else {})
  }

  lemma UnionOverPrefix(cats: seq<string>, i: nat, selected: set<string>, f: string -> seq<string>)
    requires i < |cats|
    ensures UnionOver(cats[..i + 1], selected, f)
         == UnionOver(cats[..i], selected, f) + (if cats[i] in selected then Elems(f(cats[i])) else {})
  {
    assert cats[..i + 1][..i] == cats[..i];
  }

  /** The order of the visit does not matter: the loop collects the union
      over the visited members of `selected`. */
  lemma {:induction false} UnionOverSpec(cats: seq<string>, selected: set<string>, f: string -> seq<string>)
    ensures UnionOver(cats, selected, f) == UnionOf(Elems(cats) * selected, f)
  {
    if cats == [] {
      assert Elems(cats) * selected == {};
    } else {
      var c := cats[|cats| - 1];
      var init := cats[..|cats| - 1];
      UnionOverSpec(init, selected, f);
      ElemsPrefix(cats, |cats| - 1);
      assert cats[..|cats|] == cats;
      if c in selected {
        UnionOfAdd(Elems(init) * selected, f, c);
        assert Elems(cats) * selected == Elems(init) * selected + {c};
      } else {
        assert Elems(cats) * selected == Elems(init) * selected;
      }
    }
  }

  /** Visiting every category that has rows, in any order, collects the top
      groups of every selected category. */
  lemma AllCategoriesVisited(rows: seq<Incident>, selected: set<string>)
    ensures UnionOver(GroupKeys(rows, Category), selected, TopGroupsOf(rows)) == TopGroupSet(rows, selected)
  {
    var categories := GroupKeys(rows, Category);
    var vs := ColumnValues(rows, Category);
    DedupMembers(vs);
    assert Elems(categories) * selected == selected * Elems(vs);
    UnionOverSpec(categories, selected, TopGroupsOf(rows));
    TopGroupSetPresent(rows, selected);
  }

  /** Each selected category adds at most two groups. */
  lemma TopGroupSetBound(rows: seq<Incident>, cats: set<string>)
    ensures |TopGroupSet(rows, cats)| <= 2 * |cats|
  {
    var f := TopGroupsOf(rows);
    forall c | c in cats ensures |f(c)| <= 2 {
      TopGroupKeysSpec(rows, c);
    }
    UnionOfBound(cats, f, 2);
  }

  /** `selectTopGroups()`: a Group option is selected exactly when a selected
      category has it among its top two; then Group is re-rendered. */
  function ApplyTopGroups(fs: FilterMap, rows: seq<Incident>, collate: (string, string) -> bool): (r: FilterMap)
    requires Group in fs && Category in fs
    ensures r.Keys == fs.Keys
  {
    var top := TopGroupSet(rows, SelectedSet(fs[Category]));
    fs[Group := SortOptions(Relabel(fs[Group], Membership(top)), collate)]
  }

  /** Relabelling by membership in `top` and re-sorting keeps the domain and
      selects exactly the offered members of `top`. */
  lemma {:induction false} SelectMembers(opts: seq<FilterOption>, top: set<string>, collate: (string, string) -> bool)
    requires DistinctValues(opts) && TotalPreorder(collate)
    ensures var r := SortOptions(Relabel(opts, Membership(top)), collate);
      && DistinctValues(r)
      && ValueSet(r) == ValueSet(opts)
      && SelectedSet(r) == ValueSet(opts) * top
      && SortedBy(r, OptionOrder(collate))
  {
    var relabelled := Relabel(opts, Membership(top));
    RelabelSpec(opts, Membership(top));
    SortOptionsSpec(relabelled, collate);
    OptionOrderTotalPreorder(collate);
    SortBySorted(relabelled, OptionOrder(collate));
  }

  lemma SubsetCard(a: set<string>, b: set<string>)
    requires a <= b
    ensures |a| <= |b|
  {
    assert b == a + (b - a);
  }

  /** Only Group changes; it keeps its domain, and its selection becomes the
      top groups of the selected categories that it offers: none when no
      category is selected, at most two per selected category. */
  lemma {:induction false} ApplyTopGroupsSpec(fs: FilterMap, rows: seq<Incident>, collate: (string, string) -> bool)
    requires WellFormed(fs) && TotalPreorder(collate)
    ensures var r := ApplyTopGroups(fs, rows, collate);
      && WellFormed(r)
      && (forall k :: k in fs && k != Group ==> r[k] == fs[k])
      && ValueSet(r[Group]) == ValueSet(fs[Group])
      && SelectedSet(r[Group]) == ValueSet(fs[Group]) * TopGroupSet(rows, SelectedSet(fs[Category]))
      && |SelectedSet(r[Group])| <= 2 * |SelectedSet(fs[Category])|
      && SortedBy(r[Group], OptionOrder(collate))
  {
    ApplyTopGroupsWellFormed(fs, rows, collate);
    ApplyTopGroupsSelection(fs, rows, collate);
    ApplyTopGroupsBound(fs, rows, collate);
  }

  lemma {:induction false} ApplyTopGroupsWellFormed(fs: FilterMap, rows: seq<Incident>, collate: (string, string) -> bool)
    requires WellFormed(fs) && TotalPreorder(collate)
    ensures WellFormed(ApplyTopGroups(fs, rows, collate))
  {
    SelectMembers(fs[Group], TopGroupSet(rows, SelectedSet(fs[Category])), collate);
  }

  lemma {:induction false} ApplyTopGroupsSelection(fs: FilterMap, rows: seq<Incident>, collate: (string, string) -> bool)
    requires WellFormed(fs) && TotalPreorder(collate)
    ensures var r := ApplyTopGroups(fs, rows, collate);
      && (forall k :: k in fs && k != Group ==> r[k] == fs[k])
      && ValueSet(r[Group]) == ValueSet(fs[Group])
      && SelectedSet(r[Group]) == ValueSet(fs[Group]) * TopGroupSet(rows, SelectedSet(fs[Category]))
      && SortedBy(r[Group], OptionOrder(collate))
  {
    SelectMembers(fs[Group], TopGroupSet(rows, SelectedSet(fs[Category])), collate);
  }

  lemma {:induction false} ApplyTopGroupsBound(fs: FilterMap, rows: seq<Incident>, collate: (string, string) -> bool)
    requires WellFormed(fs) && TotalPreorder(collate)
    ensures |SelectedSet(ApplyTopGroups(fs, rows, collate)[Group])| <= 2 * |SelectedSet(fs[Category])|
  {
    var top := TopGroupSet(rows, SelectedSet(fs[Category]));
    SelectMembers(fs[Group], top, collate);
    TopGroupSetBound(rows, SelectedSet(fs[Category]));
    SubsetCard(ValueSet(fs[Group]) * top, top);
  }

  // ---------------------------------------------------------------- drawing

  /** `renderFilterOptions(key)`, as far as the state goes: the options are
      sorted in place. */
  function RenderKey(fs: FilterMap, key: Column, collate: (string, string) -> bool): (r: FilterMap)
    requires key in fs
    ensures r.Keys == fs.Keys
  {
    fs[key := SortOptions(fs[key], collate)]
  }

  /** Renders the keys one after another, each into display order. */
  function RenderAll(fs: FilterMap, keys: seq<Column>, collate: (string, string) -> bool): (r: FilterMap)
    requires forall k :: k in keys ==> k in fs
    ensures r.Keys == fs.Keys
    decreases |keys|
  {
    if keys == [] then fs
    else RenderAll(RenderKey(fs, keys[0], collate), keys[1..], collate)
  }

  /** Rendering reorders the options of the keys it visits, each into the
      display order, and touches nothing else. */
  lemma {:induction false} RenderAllSpec(fs: FilterMap, keys: seq<Column>, collate: (string, string) -> bool)
    requires forall k :: k in keys ==> k in fs
    requires TotalPreorder(collate)
    ensures var r := RenderAll(fs, keys, collate);
      && (forall k :: k in fs ==> multiset(r[k]) == multiset(fs[k]))
      && (forall k :: k in fs && k !in keys ==> r[k] == fs[k])
      && (forall k :: k in keys ==> SortedBy(r[k], OptionOrder(collate)))
    decreases |keys|
  {
    if keys != [] {
      var f1 := RenderKey(fs, keys[0], collate);
      RenderAllSpec(f1, keys[1..], collate);
      SortOptionsSpec(fs[keys[0]], collate);
      OptionOrderTotalPreorder(collate);
      SortBySorted(fs[keys[0]], OptionOrder(collate));
      forall k | k in keys ensures SortedBy(RenderAll(fs, keys, collate)[k], OptionOrder(collate)) {
        if k != keys[0] {
          assert k in keys[1..];
        }
      }
    }
  }

  lemma WellFormedPermuted(fs: FilterMap, r: FilterMap)
    requires WellFormed(fs) && r.Keys == fs.Keys
    requires forall k :: k in fs ==> multiset(r[k]) == multiset(fs[k])
    ensures WellFormed(r)
    ensures forall k :: k in fs ==> ValueSet(r[k]) == ValueSet(fs[k]) && SelectedSet(r[k]) == SelectedSet(fs[k])
  {
    forall k | k in fs
      ensures DistinctValues(r[k]) && ValueSet(r[k]) == ValueSet(fs[k]) && SelectedSet(r[k]) == SelectedSet(fs[k])
    {
      PermutationValues(fs[k], r[k]);
    }
  }

  /** `drawFilters()`: render every key, then `selectTopGroups()`. */
  function DrawFilters(fs: FilterMap, rows: seq<Incident>, collate: (string, string) -> bool): (r: FilterMap)
    requires WellFormed(fs)
    ensures r.Keys == fs.Keys
  {
    ApplyTopGroups(RenderAll(fs, FilterKeys, collate), rows, collate)
  }

  /** Drawing keeps every key's domain and, except under Group, its
      selection; Group gets the top groups of the selected categories; every
      key ends in display order. */
  lemma {:induction false} DrawFiltersSpec(fs: FilterMap, rows: seq<Incident>, collate: (string, string) -> bool)
    requires WellFormed(fs) && TotalPreorder(collate)
    ensures var r := DrawFilters(fs, rows, collate);
      && WellFormed(r)
      && (forall k :: k in fs ==> ValueSet(r[k]) == ValueSet(fs[k]))
      && (forall k :: k in fs && k != Group ==> SelectedSet(r[k]) == SelectedSet(fs[k]))
      && SelectedSet(r[Group]) == ValueSet(fs[Group]) * TopGroupSet(rows, SelectedSet(fs[Category]))
      && (forall k :: k in fs ==> SortedBy(r[k], OptionOrder(collate)))
  {
    var rendered := RenderAll(fs, FilterKeys, collate);
    RenderAllSpec(fs, FilterKeys, collate);
    WellFormedPermuted(fs, rendered);
    ApplyTopGroupsSpec(rendered, rows, collate);
    var r := ApplyTopGroups(rendered, rows, collate);
    forall k | k in fs
      ensures ValueSet(r[k]) == ValueSet(fs[k])
      ensures k != Group ==> SelectedSet(r[k]) == SelectedSet(fs[k])
      ensures SortedBy(r[k], OptionOrder(collate))
    {
      assert k in FilterKeys;
      if k != Group {
        assert r[k] == rendered[k];
      }
    }
  }

  /** `initializeFilters()` leaves a well-formed state whose keys offer the
      column's non-empty values, all selected except under Group. */
  lemma {:induction false} InitialSpec(rows: seq<Incident>)
    ensures var init := Initial(rows);
      && WellFormed(init)
      && (forall k, v :: k in FilterKeys ==> (v in ValueSet(init[k]) <==> v != "" && v in ColumnValues(rows, k)))
      && (forall k :: k in FilterKeys && k != Group ==> SelectedSet(init[k]) == ValueSet(init[k]))
      && SelectedSet(init[Group]) == {}
  {
    var init := Initial(rows);
    forall k | k in FilterKeys
      ensures DistinctValues(init[k])
      ensures (forall v :: v in ValueSet(init[k]) <==> v != "" && v in ColumnValues(rows, k))
      ensures SelectedSet(init[k]) == if k == Group then {} else ValueSet(init[k])
    {
      InitialOptionsSpec(rows, k);
      var opts := init[k];
      forall v | v in ValueSet(opts) && k != Group ensures v in SelectedSet(opts) {
        var o :| o in opts && o.value == v;
      }
    }
  }

  lemma InitialWellFormed(rows: seq<Incident>)
    ensures WellFormed(Initial(rows))
  {
    InitialSpec(rows);
  }

  /** A state holding the initial options under each filter key, and nothing
      else, is the initial state. */
  lemma InitialByKeys(fs: FilterMap, rows: seq<Incident>)
    requires forall k :: k in fs ==> k in FilterKeys
    requires forall j :: 0 <= j < |FilterKeys| ==> FilterKeys[j] in fs && fs[FilterKeys[j]] == InitialOptions(rows, FilterKeys[j])
    ensures fs == Initial(rows)
  {
    var init := Initial(rows);
    forall k | k in FilterKeys ensures k in fs && fs[k] == init[k] {
      var j :| 0 <= j < |FilterKeys| && FilterKeys[j] == k;
    }
    SameMap(fs, init);
  }

  lemma SameMap(a: FilterMap, b: FilterMap)
    requires forall k :: k in a <==> k in b
    requires forall k :: k in a ==> a[k] == b[k]
    ensures a == b
  {
  }

  /** `initializeFilters(); drawFilters();`: the state after `draw()` and after
      `resetFilters()`, which does not depend on the state before. */
  function ResetState(rows: seq<Incident>, collate: (string, string) -> bool): (r: FilterMap)
    ensures forall k :: k in r <==> k in FilterKeys
  {
    InitialWellFormed(rows);
    DrawFilters(Initial(rows), rows, collate)
  }

  /** The selection a reset leaves, stated as sets: every key offers the
      column's non-empty values, Site, TimeFrame and Category select all of
      them, and Group selects the offered members of `top`. */
  ghost predicate IsResetSelection(fs: FilterMap, rows: seq<Incident>, top: set<string>) {
    && (forall k :: k in FilterKeys ==> k in fs)
    && (forall k, v :: k in FilterKeys ==> (v in ValueSet(fs[k]) <==> v != "" && v in ColumnValues(rows, k)))
    && SelectedSet(fs[Site]) == ValueSet(fs[Site])
    && SelectedSet(fs[TimeFrame]) == ValueSet(fs[TimeFrame])
    && SelectedSet(fs[Category]) == ValueSet(fs[Category])
    && SelectedSet(fs[Group]) == ValueSet(fs[Group]) * top
  }

  /** The groups a reset selects: the top two of every offered category. */
  function ResetTopGroups(rows: seq<Incident>, collate: (string, string) -> bool): set<string> {
    TopGroupSet(rows, ValueSet(ResetState(rows, collate)[Category]))
  }

  /** After a reset every key offers the column's non-empty values, in display
      order; Site, TimeFrame and Category have all of them selected, and Group
      exactly those among the top two of some category. */
  lemma {:induction false} ResetSpec(rows: seq<Incident>, collate: (string, string) -> bool)
    requires TotalPreorder(collate)
    ensures var fs := ResetState(rows, collate);
      && WellFormed(fs)
      && IsResetSelection(fs, rows, ResetTopGroups(rows, collate))
      && (forall k :: k in FilterKeys ==> SortedBy(fs[k], OptionOrder(collate)))
  {
    InitialSpec(rows);
    DrawFiltersSpec(Initial(rows), rows, collate);
  }

  // ---------------------------------------------------------------- checkbox handlers

  /** The flag function of "Select All": every option gets `checked`. */
  function Constant(checked: bool): string -> bool {
    (v: string) => checked
  }

  /** The flag function of "Top 10": an option is selected when the box is
      checked and its value is on the allow-list. */
  function AllowListed(checked: bool): string -> bool {
    (v: string) => checked && v in PreSelectedCategories
  }

  /** The tail every checkbox handler shares: `key` gets its new options, a
      change under Category re-runs `selectTopGroups()`, and `key` is
      re-rendered. */
  function Changed(fs: FilterMap, rows: seq<Incident>, collate: (string, string) -> bool,
                   key: Column, opts: seq<FilterOption>): (r: FilterMap)
    requires WellFormed(fs) && key in fs
    ensures r.Keys == fs.Keys
  {
    var updated := fs[key := opts];
    var grouped := if key == Category then ApplyTopGroups(updated, rows, collate) else updated;
    RenderKey(grouped, key, collate)
  }

  /** `key` takes the selection of `opts` and is shown in display order; a
      change under Category also recomputes the Group selection; every other
      key is left as it was, and no key's domain changes. */
  lemma {:induction false} ChangedSpec(fs: FilterMap, rows: seq<Incident>, collate: (string, string) -> bool,
                                       key: Column, opts: seq<FilterOption>)
    requires WellFormed(fs) && key in fs && TotalPreorder(collate)
    requires DistinctValues(opts) && ValueSet(opts) == ValueSet(fs[key])
    ensures var r := Changed(fs, rows, collate, key, opts);
      && WellFormed(r)
      && (forall k :: k in fs ==> ValueSet(r[k]) == ValueSet(fs[k]))
      && SelectedSet(r[key]) == SelectedSet(opts)
      && SortedBy(r[key], OptionOrder(collate))
      && (forall k :: k in fs && k != key && (key != Category || k != Group) ==> r[k] == fs[k])
      && (key == Category ==>
            SelectedSet(r[Group]) == ValueSet(fs[Group]) * TopGroupSet(rows, SelectedSet(opts)))
  {
    if key == Category {
      ChangedCategory(fs, rows, collate, opts);
      var r := Changed(fs, rows, collate, key, opts);
      forall k | k in fs && k != Category && k != Group ensures r[k] == fs[k] {
        assert k in FilterKeys;
      }
    } else {
      ChangedOther(fs, rows, collate, key, opts);
    }
  }

  /** A change under any key but Category touches that key alone. */
  lemma {:induction false} ChangedOther(fs: FilterMap, rows: seq<Incident>, collate: (string, string) -> bool,
                                        key: Column, opts: seq<FilterOption>)
    requires WellFormed(fs) && key in fs && key != Category && TotalPreorder(collate)
    requires DistinctValues(opts) && ValueSet(opts) == ValueSet(fs[key])
    ensures var r := Changed(fs, rows, collate, key, opts);
      && WellFormed(r)
      && (forall k :: k in fs ==> ValueSet(r[k]) == ValueSet(fs[k]))
      && SelectedSet(r[key]) == SelectedSet(opts)
      && SortedBy(r[key], OptionOrder(collate))
      && (forall k :: k in fs && k != key ==> r[k] == fs[k])
  {
    var updated := fs[key := opts];
    assert WellFormed(updated);
    RenderKeySpec(updated, key, collate);
  }

  /** A change under Category also recomputes the Group selection. */
  lemma {:induction false} ChangedCategory(fs: FilterMap, rows: seq<Incident>, collate: (string, string) -> bool,
                                           opts: seq<FilterOption>)
    requires WellFormed(fs) && TotalPreorder(collate)
    requires DistinctValues(opts) && ValueSet(opts) == ValueSet(fs[Category])
    ensures var r := Changed(fs, rows, collate, Category, opts);
      && WellFormed(r)
      && (forall k :: k in fs ==> ValueSet(r[k]) == ValueSet(fs[k]))
      && SelectedSet(r[Category]) == SelectedSet(opts)
      && SortedBy(r[Category], OptionOrder(collate))
      && r[Site] == fs[Site] && r[TimeFrame] == fs[TimeFrame]
      && SelectedSet(r[Group]) == ValueSet(fs[Group]) * TopGroupSet(rows, SelectedSet(opts))
  {
    var updated := fs[Category := opts];
    assert WellFormed(updated);
    var grouped := ApplyTopGroups(updated, rows, collate);
    ApplyTopGroupsWellFormed(updated, rows, collate);
    ApplyTopGroupsSelection(updated, rows, collate);
    ChangedCategoryRender(fs, grouped, opts, collate);
  }

  lemma {:induction false} ChangedCategoryRender(fs: FilterMap, grouped: FilterMap, opts: seq<FilterOption>,
                                                 collate: (string, string) -> bool)
    requires WellFormed(fs) && WellFormed(grouped) && TotalPreorder(collate)
    requires grouped[Category] == opts && ValueSet(opts) == ValueSet(fs[Category])
    requires grouped[Site] == fs[Site] && grouped[TimeFrame] == fs[TimeFrame]
    requires ValueSet(grouped[Group]) == ValueSet(fs[Group])
    ensures var r := RenderKey(grouped, Category, collate);
      && WellFormed(r)
      && (forall k :: k in fs ==> ValueSet(r[k]) == ValueSet(fs[k]))
      && SelectedSet(r[Category]) == SelectedSet(opts)
      && SortedBy(r[Category], OptionOrder(collate))
      && r[Site] == fs[Site] && r[TimeFrame] == fs[TimeFrame] && r[Group] == grouped[Group]
  {
    RenderKeySpec(grouped, Category, collate);
    var r := RenderKey(grouped, Category, collate);
    forall k | k in fs ensures ValueSet(r[k]) == ValueSet(fs[k]) {
      assert k in FilterKeys;
    }
  }

  /** Rendering one key reorders its options into display order and leaves
      the rest of the state alone. */
  lemma {:induction false} RenderKeySpec(fs: FilterMap, key: Column, collate: (string, string) -> bool)
    requires WellFormed(fs) && key in fs && TotalPreorder(collate)
    ensures var r := RenderKey(fs, key, collate);
      && WellFormed(r)
      && ValueSet(r[key]) == ValueSet(fs[key])
      && SelectedSet(r[key]) == SelectedSet(fs[key])
      && SortedBy(r[key], OptionOrder(collate))
      && (forall k :: k in fs && k != key ==> r[k] == fs[k])
  {
    SortOptionsSpec(fs[key], collate);
    OptionOrderTotalPreorder(collate);
    SortBySorted(fs[key], OptionOrder(collate));
  }

  /** A change of one option's checkbox. */
  function AfterToggle(fs: FilterMap, rows: seq<Incident>, collate: (string, string) -> bool,
                       key: Column, v: string, checked: bool): FilterMap
    requires WellFormed(fs) && key in fs
  {
    Changed(fs, rows, collate, key, SetFirst(fs[key], v, checked))
  }

  /** The option's value joins or leaves the key's selection (nothing
      happens to it when the key does not offer it). */
  lemma ToggleSpec(fs: FilterMap, rows: seq<Incident>, collate: (string, string) -> bool,
                   key: Column, v: string, checked: bool)
    requires WellFormed(fs) && key in fs && TotalPreorder(collate)
    ensures var r := AfterToggle(fs, rows, collate, key, v, checked);
      && WellFormed(r)
      && (forall k :: k in fs ==> ValueSet(r[k]) == ValueSet(fs[k]))
      && SelectedSet(r[key]) == (if v !in ValueSet(fs[key]) then SelectedSet(fs[key])
                                 else if checked then SelectedSet(fs[key]) + {v}
                                 else SelectedSet(fs[key]) - {v})
      && (forall k :: k in fs && k != key && (key != Category || k != Group) ==> r[k] == fs[k])
      && (key == Category ==>
            SelectedSet(r[Group]) == ValueSet(fs[Group]) * TopGroupSet(rows, SelectedSet(r[Category])))
  {
    var opts := SetFirst(fs[key], v, checked);
    SetFirstSpec(fs[key], v, checked);
    assert DistinctValues(opts);
    ChangedSpec(fs, rows, collate, key, opts);
  }

  /** The "Select All" checkbox of `key`. */
  function AfterSelectAll(fs: FilterMap, rows: seq<Incident>, collate: (string, string) -> bool,
                          key: Column, checked: bool): FilterMap
    requires WellFormed(fs) && key in fs
  {
    Changed(fs, rows, collate, key, Relabel(fs[key], Constant(checked)))
  }

  /** Checking selects the whole domain of `key`, unchecking clears it. */
  lemma SelectAllSpec(fs: FilterMap, rows: seq<Incident>, collate: (string, string) -> bool,
                      key: Column, checked: bool)
    requires WellFormed(fs) && key in fs && TotalPreorder(collate)
    ensures var r := AfterSelectAll(fs, rows, collate, key, checked);
      && WellFormed(r)
      && (forall k :: k in fs ==> ValueSet(r[k]) == ValueSet(fs[k]))
      && SelectedSet(r[key]) == (if checked then ValueSet(fs[key]) else {})
      && (forall k :: k in fs && k != key && (key != Category || k != Group) ==> r[k] == fs[k])
      && (key == Category ==>
            SelectedSet(r[Group]) == ValueSet(fs[Group]) * TopGroupSet(rows, SelectedSet(r[Category])))
  {
    var opts := Relabel(fs[key], Constant(checked));
    RelabelSpec(fs[key], Constant(checked));
    ChangedSpec(fs, rows, collate, key, opts);
  }

  /** The "Top 10" checkbox, which only the Category dropdown has. */
  function AfterTopTen(fs: FilterMap, rows: seq<Incident>, collate: (string, string) -> bool,
                       checked: bool): FilterMap
    requires WellFormed(fs)
  {
    Changed(fs, rows, collate, Category, Relabel(fs[Category], AllowListed(checked)))
  }

  /** Categories on the allow-list stay selected when checked; the list is
      empty, so either way the Category and Group selections end up empty,
      which lets every row through both. */
  lemma TopTenSpec(fs: FilterMap, rows: seq<Incident>, collate: (string, string) -> bool, checked: bool)
    requires WellFormed(fs) && TotalPreorder(collate)
    ensures var r := AfterTopTen(fs, rows, collate, checked);
      && WellFormed(r)
      && (forall k :: k in fs ==> ValueSet(r[k]) == ValueSet(fs[k]))
      && SelectedSet(r[Category]) == (if checked then ValueSet(fs[Category]) * Elems(PreSelectedCategories) else {})
      && SelectedSet(r[Category]) == {}
      && SelectedSet(r[Group]) == {}
      && r[Site] == fs[Site] && r[TimeFrame] == fs[TimeFrame]
  {
    var opts := Relabel(fs[Category], AllowListed(checked));
    RelabelSpec(fs[Category], AllowListed(checked));
    ChangedSpec(fs, rows, collate, Category, opts);
    assert SelectedSet(opts) == {};
    assert TopGroupSet(rows, {}) == {};
  }

  // ---------------------------------------------------------------- row filter

  /** A key lets a value through when nothing is selected under it or the
      value is selected. */
  predicate Admits(opts: seq<FilterOption>, value: string) {
    var selected := SelectedValues(opts);
    |selected| == 0 || value in selected
  }

  /** An empty selection puts no constraint on the key. */
  lemma AdmitsSpec(opts: seq<FilterOption>, value: string)
    ensures Admits(opts, value) <==> SelectedSet(opts) == {} || value in SelectedSet(opts)
  {
    var selected := SelectedValues(opts);
    if |selected| != 0 {
      assert selected[0] in SelectedSet(opts);
    }
  }

  /** A row passes when every filter key lets its value through. */
  predicate Passes(fs: FilterMap, row: Incident)
    requires forall k :: k in FilterKeys ==> k in fs
  {
    forall k :: k in FilterKeys ==> Admits(fs[k], Field(row, k))
  }

  /** A row whose every filtered value is selected passes. */
  lemma PassesSelected(fs: FilterMap, row: Incident)
    requires forall k :: k in FilterKeys ==> k in fs
    requires row.Site in SelectedSet(fs[Site]) && row.TimeFrame in SelectedSet(fs[TimeFrame])
    requires row.Group in SelectedSet(fs[Group]) && row.Category in SelectedSet(fs[Category])
    ensures Passes(fs, row)
  {
    forall k | k in FilterKeys ensures Admits(fs[k], Field(row, k)) {
      AdmitsSpec(fs[k], Field(row, k));
    }
  }

  /** `filteredIncidents()`: the rows every filter key admits, in table order. */
  function FilteredIncidents(fs: FilterMap, rows: seq<Incident>): (r: seq<Incident>)
    requires forall k :: k in FilterKeys ==> k in fs
    ensures IsSubsequence(r, rows)
    ensures forall x :: x in r <==> x in rows && Passes(fs, x)
    ensures forall x :: multiset(r)[x] == if Passes(fs, x) then multiset(rows)[x] else 0
  {
    if rows == [] then []
    else
      var rest := FilteredIncidents(fs, rows[1..]);
      assert rows == [rows[0]] + rows[1..];
      assert multiset(rows) == multiset{rows[0]} + multiset(rows[1..]);
      if Passes(fs, rows[0]) then
        assert ([rows[0]] + rest)[1..] == rest;
        [rows[0]] + rest
      else rest
  }

  /** When every row passes, filtering returns the table unchanged. */
  lemma {:induction false} FilterKeepsAll(fs: FilterMap, rows: seq<Incident>)
    requires forall k :: k in FilterKeys ==> k in fs
    requires forall x :: x in rows ==> Passes(fs, x)
    ensures FilteredIncidents(fs, rows) == rows
  {
    if rows != [] {
      FilterKeepsAll(fs, rows[1..]);
      assert rows == [rows[0]] + rows[1..];
    }
  }

  /** Filtering twice is filtering once. */
  lemma FilterIdempotent(fs: FilterMap, rows: seq<Incident>)
    requires forall k :: k in FilterKeys ==> k in fs
    ensures FilteredIncidents(fs, FilteredIncidents(fs, rows)) == FilteredIncidents(fs, rows)
  {
    FilterKeepsAll(fs, FilteredIncidents(fs, rows));
  }

  /** A key whose selection is empty or covers every row's value filters
      nothing out; when all keys are like that, every row is kept. */
  lemma FilterCoveringSelections(fs: FilterMap, rows: seq<Incident>)
    requires forall k :: k in FilterKeys ==> k in fs
    requires forall k, x :: k in FilterKeys && x in rows ==>
               SelectedSet(fs[k]) == {} || Field(x, k) in SelectedSet(fs[k])
    ensures FilteredIncidents(fs, rows) == rows
  {
    forall x | x in rows ensures Passes(fs, x) {
      forall k | k in FilterKeys ensures Admits(fs[k], Field(x, k)) {
        AdmitsSpec(fs[k], Field(x, k));
      }
    }
    FilterKeepsAll(fs, rows);
  }

  /** After a reset, a row with a non-empty Site, TimeFrame and Category
      whose Group is one of the top two of its category is shown. */
  lemma {:induction false} ResetShows(rows: seq<Incident>, collate: (string, string) -> bool, row: Incident)
    requires TotalPreorder(collate)
    requires row in rows
    requires row.Site != "" && row.TimeFrame != "" && row.Category != "" && row.Group != ""
    requires row.Group in TopGroupKeys(rows, row.Category)
    ensures row in FilteredIncidents(ResetState(rows, collate), rows)
  {
    ResetOffersCategory(rows, collate, row);
    TopGroupSetMember(rows, ValueSet(ResetState(rows, collate)[Category]), row.Category, row.Group);
    ResetSpec(rows, collate);
    ShownUnderReset(ResetState(rows, collate), rows, ResetTopGroups(rows, collate), row);
  }

  lemma {:induction false} ResetOffersCategory(rows: seq<Incident>, collate: (string, string) -> bool, row: Incident)
    requires TotalPreorder(collate)
    requires row in rows && row.Category != ""
    ensures row.Category in ValueSet(ResetState(rows, collate)[Category])
  {
    ResetSpec(rows, collate);
    OfferedCategory(ResetState(rows, collate), rows, ResetTopGroups(rows, collate), row);
  }

  lemma OfferedCategory(fs: FilterMap, rows: seq<Incident>, top: set<string>, row: Incident)
    requires IsResetSelection(fs, rows, top)
    requires row in rows && row.Category != ""
    ensures row.Category in ValueSet(fs[Category])
  {
    OfferedUnderReset(fs, rows, top, row, Category);
  }

  lemma {:induction false} ShownUnderReset(fs: FilterMap, rows: seq<Incident>, top: set<string>, row: Incident)
    requires IsResetSelection(fs, rows, top)
    requires row in rows
    requires row.Site != "" && row.TimeFrame != "" && row.Category != "" && row.Group != ""
    requires row.Group in top
    ensures row in FilteredIncidents(fs, rows)
  {
    OfferedUnderReset(fs, rows, top, row, Site);
    OfferedUnderReset(fs, rows, top, row, TimeFrame);
    OfferedUnderReset(fs, rows, top, row, Group);
    OfferedUnderReset(fs, rows, top, row, Category);
    ShownWhenSelected(fs, rows, row);
  }

  lemma {:induction false} OfferedUnderReset(fs: FilterMap, rows: seq<Incident>, top: set<string>, row: Incident, k: Column)
    requires IsResetSelection(fs, rows, top)
    requires row in rows && k in FilterKeys && Field(row, k) != ""
    ensures Field(row, k) in ValueSet(fs[k])
  {
    var i :| 0 <= i < |rows| && rows[i] == row;
    assert ColumnValues(rows, k)[i] == Field(row, k);
  }

  lemma ShownWhenSelected(fs: FilterMap, rows: seq<Incident>, row: Incident)
    requires forall k :: k in FilterKeys ==> k in fs
    requires row in rows
    requires row.Site in SelectedSet(fs[Site]) && row.TimeFrame in SelectedSet(fs[TimeFrame])
    requires row.Group in SelectedSet(fs[Group]) && row.Category in SelectedSet(fs[Category])
    ensures row in FilteredIncidents(fs, rows)
  {
    PassesSelected(fs, row);
  }

  /** After a reset, a row with an empty cell under Site, TimeFrame or
      Category is hidden as soon as another row has a value there: the
      reset selects every offered value, and the empty value is never
      offered. */
  lemma {:induction false} ResetHidesEmptyCell(rows: seq<Incident>, collate: (string, string) -> bool,
                                               row: Incident, other: Incident, k: Column)
    requires TotalPreorder(collate)
    requires row in rows && other in rows
    requires k in FilterKeys && k != Group
    requires Field(row, k) == "" && Field(other, k) != ""
    ensures row !in FilteredIncidents(ResetState(rows, collate), rows)
  {
    ResetSpec(rows, collate);
    HiddenUnderReset(ResetState(rows, collate), rows, ResetTopGroups(rows, collate), row, other, k);
  }

  lemma {:induction false} HiddenUnderReset(fs: FilterMap, rows: seq<Incident>, top: set<string>,
                                            row: Incident, other: Incident, k: Column)
    requires IsResetSelection(fs, rows, top)
    requires other in rows
    requires k in FilterKeys && k != Group
    requires Field(row, k) == "" && Field(other, k) != ""
    ensures row !in FilteredIncidents(fs, rows)
  {
    AdmitsSpec(fs[k], Field(row, k));
    var j :| 0 <= j < |rows| && rows[j] == other;
    assert ColumnValues(rows, k)[j] == Field(other, k);
    assert Field(other, k) in SelectedSet(fs[k]);
  }
}
