/** The page as an object: the two uploaded tables (`data`) and the filter
    selection (`filters`), with the handlers that change them in place. Each
    method is proved to leave exactly the state the matching function in
    module Filters describes. */
module Dashboard {
  import opened Wrappers
  import opened Seqs
  import opened Sorting
  import opened Incidents
  import opened Stats
  import opened Filters
  import Network

  class Dashboard {
    /** `data.incidents`, absent until the incident CSV is uploaded. */
    var incidents: Option<seq<Incident>>
    /** `data.relations`, absent until the relation CSV is uploaded. */
    var relations: Option<seq<Relation>>
    /** The option lists of the four filter dropdowns, by key. */
    var filters: FilterMap
    /** `collate(x, y)` holds when `x.localeCompare(y) <= 0`. */
    const collate: (string, string) -> bool

    /** Both tables are present, so `draw()` goes past its guard. */
    predicate Loaded()
      reads this
    {
      incidents.Some? && relations.Some?
    }

    /** The filter dropdowns exist: `drawFilters()` has run, through
        `draw()` or through the reset button. */
    predicate Drawn()
      reads this
    {
      filters != map[]
    }

    /** `filters` stays the empty object until the dropdowns are first drawn,
        which needs the incident table and happens at the latest once both
        tables are in; from then on it is well formed. */
    ghost predicate Valid()
      reads this
    {
      && TotalPreorder(collate)
      && (Loaded() ==> Drawn())
      && (Drawn() ==> incidents.Some? && WellFormed(filters))
    }

    constructor (collate: (string, string) -> bool)
      requires TotalPreorder(collate)
      ensures Valid()
      ensures incidents == None && relations == None && filters == map[]
      ensures this.collate == collate
    {
      this.collate := collate;
      incidents := None;
      relations := None;
      filters := map[];
    }

    /** The `change` listener of the incident upload, once the file is read. */
    method UploadIncidents(rows: seq<Incident>)
      requires Valid()
      modifies this
      ensures Valid()
      ensures incidents == Some(rows) && relations == old(relations)
      ensures Loaded() ==> filters == ResetState(rows, collate)
      ensures !Loaded() ==> filters == old(filters)
    {
      incidents := Some(rows);
      Draw();
    }

    /** The `change` listener of the relation upload, once the file is read. */
    method UploadRelations(rels: seq<Relation>)
      requires Valid()
      modifies this
      ensures Valid()
      ensures relations == Some(rels) && incidents == old(incidents)
      ensures Loaded() ==> filters == ResetState(incidents.value, collate)
      ensures !Loaded() ==> filters == old(filters)
    {
      relations := Some(rels);
      Draw();
    }

    /** `draw()`: nothing until both tables are present; then the filters
        are initialised and drawn. The charts are not modelled. */
    method Draw()
      requires TotalPreorder(collate)
      requires Drawn() ==> incidents.Some? && WellFormed(filters)
      modifies this
      ensures Valid()
      ensures incidents == old(incidents) && relations == old(relations)
      ensures Loaded() ==> filters == ResetState(incidents.value, collate)
      ensures !Loaded() ==> filters == old(filters)
    {
      if !Loaded() {
        return;
      }
      InitializeFilters();
      DrawFilters();
    }

    /** The reset button: its listener is registered when the page loads, and
        it needs only the incident table to rebuild the filters (the chart
        update that follows is not modelled). Before any incident upload the
        handler fails on the missing table before it assigns a key, so the
        state stays as it was. */
    method ResetFilters()
      requires Valid()
      modifies this
      ensures Valid()
      ensures incidents == old(incidents) && relations == old(relations)
      ensures incidents.Some? ==> Drawn() && filters == ResetState(incidents.value, collate)
      ensures incidents.None? ==> filters == old(filters)
    {
      if incidents.None? {
        return;
      }
      InitializeFilters();
      DrawFilters();
    }

    /** `initializeFilters()`: one option list per filter key, overwriting
        whatever the key held. */
    method InitializeFilters()
      requires incidents.Some?
      requires forall k :: k in filters ==> k in FilterKeys
      modifies this
      ensures incidents == old(incidents) && relations == old(relations)
      ensures filters == Initial(incidents.value)
      ensures WellFormed(filters)
    {
      var rows := incidents.value;
      for i := 0 to |FilterKeys|
        invariant incidents == old(incidents) && relations == old(relations)
        invariant forall k :: k in filters ==> k in FilterKeys
        invariant forall j :: 0 <= j < i ==>
                    FilterKeys[j] in filters && filters[FilterKeys[j]] == InitialOptions(rows, FilterKeys[j])
      {
        var key := FilterKeys[i];
        FilterKeysDistinct(i);
        filters := filters[key := InitialOptions(rows, key)];
      }
      InitialByKeys(filters, rows);
      InitialWellFormed(rows);
    }

    /** `drawFilters()`: render every key, then select the top groups. */
    method DrawFilters()
      requires incidents.Some? && TotalPreorder(collate) && WellFormed(filters)
      modifies this
      ensures incidents == old(incidents) && relations == old(relations)
      ensures filters == Filters.DrawFilters(old(filters), incidents.value, collate)
      ensures WellFormed(filters)
    {
      ghost var start := filters;
      for i := 0 to |FilterKeys|
        invariant incidents == old(incidents) && relations == old(relations)
        invariant forall k :: k in FilterKeys ==> k in filters
        invariant RenderAll(filters, FilterKeys[i..], collate) == RenderAll(start, FilterKeys, collate)
      {
        assert FilterKeys[i..][1..] == FilterKeys[i + 1..];
        RenderFilterOptions(FilterKeys[i]);
      }
      RenderAllSpec(start, FilterKeys, collate);
      WellFormedPermuted(start, filters);
      SelectTopGroups();
      DrawFiltersSpec(start, incidents.value, collate);
    }

    /** `renderFilterOptions(key)`: sort the key's options in place, selected
        first, each half in collation order. The HTML is not modelled. */
    method RenderFilterOptions(key: Column)
      requires key in filters
      modifies this
      ensures incidents == old(incidents) && relations == old(relations)
      ensures filters == RenderKey(old(filters), key, collate)
    {
      filters := filters[key := SortOptions(filters[key], collate)];
    }

    /** Sets the flag of every option under `key` to `f` of its value, one
        option at a time. */
    method AssignFlags(key: Column, f: string -> bool)
      requires key in filters
      modifies this
      ensures incidents == old(incidents) && relations == old(relations)
      ensures filters == old(filters)[key := Relabel(old(filters)[key], f)]
    {
      var opts := filters[key];
      ghost var original := opts;
      for i := 0 to |opts|
        invariant |opts| == |original|
        invariant forall j :: 0 <= j < i ==> opts[j] == original[j].(selected := f(original[j].value))
        invariant forall j :: i <= j < |opts| ==> opts[j] == original[j]
      {
        opts := opts[i := opts[i].(selected := f(opts[i].value))];
      }
      assert opts == Relabel(original, f);
      filters := filters[key := opts];
    }

    /** Selects in Group exactly the two busiest groups of each selected
        category, then re-renders Group. */
    method SelectTopGroups()
      requires incidents.Some? && Group in filters && Category in filters
      modifies this
      ensures incidents == old(incidents) && relations == old(relations)
      ensures filters == ApplyTopGroups(old(filters), incidents.value, collate)
    {
      var rows := incidents.value;
      var selectedCategories := SelectedValues(filters[Category]);
      assert Elems(selectedCategories) == SelectedSet(filters[Category]);
      ghost var groupOpts := filters[Group];
      AssignFlags(Group, Constant(false));
      if |selectedCategories| == 0 {
        assert SelectedSet(old(filters)[Category]) == {};
        assert TopGroupSet(rows, {}) == {};
        RelabelPointwise(groupOpts, Constant(false), Membership({}));
        RenderFilterOptions(Group);
        return;
      }
      var topGroups := CollectTopGroups(rows, selectedCategories);
      RelabelTwice(groupOpts, Constant(false), Membership(topGroups));
      AssignFlags(Group, Membership(topGroups));
      RenderFilterOptions(Group);
    }

    /** The tail every checkbox handler shares once `key` holds its new
        options: a change under Category re-selects the top groups, and the
        key is re-rendered. */
    method AfterChange(key: Column, ghost start: FilterMap, ghost opts: seq<FilterOption>)
      requires incidents.Some? && WellFormed(start) && key in start
      requires filters == start[key := opts]
      modifies this
      ensures incidents == old(incidents) && relations == old(relations)
      ensures filters == Changed(start, incidents.value, collate, key, opts)
    {
      if key == Category {
        SelectTopGroups();
      }
      RenderFilterOptions(key);
    }

    /** Finds the first option of `key` with value `v` and gives it the flag
        `checked`; nothing changes when no option has that value. */
    method SetOption(key: Column, v: string, checked: bool)
      requires key in filters
      modifies this
      ensures incidents == old(incidents) && relations == old(relations)
      ensures filters == old(filters)[key := SetFirst(old(filters)[key], v, checked)]
    {
      var i := FindOption(filters[key], v);
      if i < |filters[key]| {
        filters := filters[key := filters[key][i := filters[key][i].(selected := checked)]];
      }
    }

    /** A change of one option's checkbox under `key`. */
    method Toggle(key: Column, v: string, checked: bool)
      requires Valid() && Drawn() && key in FilterKeys
      modifies this
      ensures Valid() && Drawn()
      ensures incidents == old(incidents) && relations == old(relations)
      ensures filters == AfterToggle(old(filters), incidents.value, collate, key, v, checked)
    {
      ghost var start := filters;
      SetOption(key, v, checked);
      AfterChange(key, start, SetFirst(start[key], v, checked));
      assert WellFormed(filters) by {
        ToggleSpec(start, incidents.value, collate, key, v, checked);
      }
    }

    /** The "Select All" checkbox of `key`. */
    method SelectAll(key: Column, checked: bool)
      requires Valid() && Drawn() && key in FilterKeys
      modifies this
      ensures Valid() && Drawn()
      ensures incidents == old(incidents) && relations == old(relations)
      ensures filters == AfterSelectAll(old(filters), incidents.value, collate, key, checked)
    {
      ghost var start := filters;
      AssignFlags(key, Constant(checked));
      AfterChange(key, start, Relabel(start[key], Constant(checked)));
      assert WellFormed(filters) by {
        SelectAllSpec(start, incidents.value, collate, key, checked);
      }
    }

    /** The "Top 10" checkbox of the Category dropdown. */
    method TopTen(checked: bool)
      requires Valid() && Drawn()
      modifies this
      ensures Valid() && Drawn()
      ensures incidents == old(incidents) && relations == old(relations)
      ensures filters == AfterTopTen(old(filters), incidents.value, collate, checked)
    {
      ghost var start := filters;
      AssignFlags(Category, AllowListed(checked));
      AfterChange(Category, start, Relabel(start[Category], AllowListed(checked)));
      assert WellFormed(filters) by {
        TopTenSpec(start, incidents.value, collate, checked);
      }
    }

    /** The node statistics of `drawNetwork()`, over the rows that pass the
        filters; `nodes` stands for the graph the layout library builds
        from the relation table. */
    method DrawNetwork(nodes: array<Network.NetworkNode>) returns (drawn: bool)
      requires Valid() && Loaded()
      modifies nodes
      ensures drawn <==> Visible() != []
      ensures !drawn ==> nodes[..] == old(nodes[..])
      ensures drawn ==> forall i :: 0 <= i < nodes.Length ==>
                nodes[i] == Network.NodeStats(old(nodes[i]), Visible())
    {
      drawn := Network.AssignNodeStats(Visible(), nodes);
    }

    /** The incident rows that pass the current filters, in table order. */
    function Visible(): (r: seq<Incident>)
      reads this
      requires Valid() && Drawn()
      ensures forall x :: x in r <==> x in incidents.value && Passes(filters, x)
      ensures forall x :: multiset(r)[x] == if Passes(filters, x) then multiset(incidents.value)[x] else 0
    {
      FilteredIncidents(filters, incidents.value)
    }
  }

  /** The loop of `selectTopGroups()`: for each category in order of first
      appearance that is among `selected`, add its top two groups. */
  method CollectTopGroups(rows: seq<Incident>, selected: seq<string>) returns (topGroups: set<string>)
    ensures topGroups == TopGroupSet(rows, Elems(selected))
  {
    var categories := GroupKeys(rows, Category);
    var topTwo := TopGroupsOf(rows);
    topGroups := {};
    for i := 0 to |categories|
      invariant topGroups == UnionOver(categories[..i], Elems(selected), topTwo)
    {
      var c := categories[i];
      UnionOverPrefix(categories, i, Elems(selected), topTwo);
      if c in selected {
        topGroups := topGroups + Elems(topTwo(c));
      }
    }
    assert categories[..|categories|] == categories;
    AllCategoriesVisited(rows, Elems(selected));
  }
}
