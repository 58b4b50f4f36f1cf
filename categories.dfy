/** `CategoryManager.get_categories_for_left_sidebar` and
    `get_models_for_count`: each category with the product count of the
    product model its name stands for. */
module Categories {
  import opened Wrappers

  /** `CATEGORY_NAME_COUNT_NAME`: category name to count column. */
  const CategoryNameCountName: map<string, string> :=
    map["Notebooks" := "notebook__count", "Smartphones" := "smartphones__count"]

  /** The related product models the sidebar counts. */
  const SidebarModels: seq<string> := ["notebook", "smartphones"]

  /** A `Count(<relation>)` aggregate. */
  datatype Aggregate = Count(relation: string)

  /** The column name an unnamed aggregate is annotated under. */
  function Alias(a: Aggregate): string
  {
    a.relation + "__count"
  }

  /** Different relations get different column names. */
  lemma AliasInjective(a1: Aggregate, a2: Aggregate)
    requires Alias(a1) == Alias(a2)
    ensures a1 == a2
  {
    assert |a1.relation| == |a2.relation|;
    assert a1.relation == Alias(a1)[..|a1.relation|];
    assert a2.relation == Alias(a2)[..|a2.relation|];
  }

  /** `get_models_for_count(*model_names)`: one count per name, in order. */
  function GetModelsForCount(names: seq<string>): (r: seq<Aggregate>)
  {
    seq(|names|, i requires 0 <= i < |names| => Count(names[i]))
  }

  datatype Category = Category(id: nat, name: string, slug: string)

  /** One row of `annotate(...).values()`: the category's name and slug and
      its annotated count columns. */
  datatype CategoryRow = CategoryRow(name: string, slug: string, columns: map<string, nat>)

  datatype SidebarEntry = SidebarEntry(name: string, slug: string, count: nat)

  /** Python's `KeyError`, carrying the missing key. */
  datatype LookupError = KeyError(key: string)

  /** The count columns `annotate` adds for one category; `tally(id, relation)`
      is the count `annotate` reports for `relation` on category `id` (the
      database's JOIN decides that number and is not modelled). */
  function Columns(aggregates: seq<Aggregate>, categoryId: nat, tally: (nat, string) -> nat): (r: map<string, nat>)
    ensures forall a :: a in aggregates ==> Alias(a) in r
    ensures forall k :: k in r ==> exists a :: a in aggregates && Alias(a) == k
    ensures forall a :: a in aggregates ==> r[Alias(a)] == tally(categoryId, a.relation)
  {
    if |aggregates| == 0 then map[]
    else
      var last := aggregates[|aggregates| - 1];
      var init := aggregates[..|aggregates| - 1];
      assert aggregates == init + [last];
      var r := Columns(init, categoryId, tally)[Alias(last) := tally(categoryId, last.relation)];
      assert forall a :: a in aggregates ==> r[Alias(a)] == tally(categoryId, a.relation) by {
        forall a | a in aggregates ensures r[Alias(a)] == tally(categoryId, a.relation) {
          if Alias(a) == Alias(last) {
            AliasInjective(a, last);
          }
        }
      }
      r
  }

  /** `self.get_queryset().annotate(*aggregates).values()`, in query order. */
  function Annotate(categories: seq<Category>, aggregates: seq<Aggregate>, tally: (nat, string) -> nat): (r: seq<CategoryRow>)
  {
    seq(|categories|, i requires 0 <= i < |categories| =>
      CategoryRow(categories[i].name, categories[i].slug, Columns(aggregates, categories[i].id, tally)))
  }

  /** A row the comprehension can turn into an entry: its name is in the
      table and the table's column is among the row's columns. */
  predicate Resolvable(row: CategoryRow)
  {
    row.name in CategoryNameCountName && CategoryNameCountName[row.name] in row.columns
  }

  /** The key whose lookup fails first for an unresolvable row. */
  function MissingKey(row: CategoryRow): string
  {
    if row.name !in CategoryNameCountName then row.name else CategoryNameCountName[row.name]
  }

  /** The entry for one row, or the `KeyError` its lookups raise. */
  function EntryOf(row: CategoryRow): (r: Result<SidebarEntry, LookupError>)
    ensures r.Ok? <==> Resolvable(row)
    ensures r.Ok? ==> r.value.name == row.name && r.value.slug == row.slug
                      && r.value.count == row.columns[CategoryNameCountName[row.name]]
    ensures r.Err? ==> r.error == KeyError(MissingKey(row))
  {
    if row.name !in CategoryNameCountName then Err(KeyError(row.name))
    else
      var column := CategoryNameCountName[row.name];
      if column !in row.columns then Err(KeyError(column))
      else Ok(SidebarEntry(row.name, row.slug, row.columns[column]))
  }

  /** The list comprehension over the annotated rows: one entry per row, in
      row order, or the error of the first row that cannot be resolved. */
  function SidebarEntries(rows: seq<CategoryRow>): (r: Result<seq<SidebarEntry>, LookupError>)
    ensures r.Ok? <==> forall i :: 0 <= i < |rows| ==> Resolvable(rows[i])
    ensures r.Ok? ==> (|r.value| == |rows| &&
              forall i :: 0 <= i < |rows| ==>
                r.value[i] == SidebarEntry(rows[i].name, rows[i].slug,
                                           rows[i].columns[CategoryNameCountName[rows[i].name]]))
    ensures r.Err? ==> exists i :: 0 <= i < |rows| && FirstUnresolvable(rows, i)
                                   && r.error == KeyError(MissingKey(rows[i]))
  {
    if |rows| == 0 then Ok([])
    else
      match EntryOf(rows[0])
      case Err(e) =>
        assert FirstUnresolvable(rows, 0);
        Err(e)
      case Ok(entry) =>
        match SidebarEntries(rows[1..])
        case Err(e) =>
          var j :| 0 <= j < |rows[1..]| && FirstUnresolvable(rows[1..], j)
                   && e == KeyError(MissingKey(rows[1..][j]));
          assert FirstUnresolvable(rows, j + 1);
          Err(e)
        case Ok(entries) =>
          Ok([entry] + entries)
  }

  /** Row i is the first row that cannot be resolved. */
  predicate FirstUnresolvable(rows: seq<CategoryRow>, i: nat)
    requires i < |rows|
  {
    !Resolvable(rows[i]) && forall j :: 0 <= j < i ==> Resolvable(rows[j])
  }

  /** `get_categories_for_left_sidebar()` over the categories in query order. */
  function GetCategoriesForLeftSidebar(categories: seq<Category>, tally: (nat, string) -> nat): (r: Result<seq<SidebarEntry>, LookupError>)
  {
    SidebarEntries(Annotate(categories, GetModelsForCount(SidebarModels), tally))
  }

  /** The count columns the sidebar annotates are exactly the ones the
      table names. */
  lemma SidebarColumns(id: nat, tally: (nat, string) -> nat)
    ensures var columns := Columns(GetModelsForCount(SidebarModels), id, tally);
            columns.Keys == CategoryNameCountName.Values
            && "notebook__count" in columns && "smartphones__count" in columns
            && columns["notebook__count"] == tally(id, "notebook")
            && columns["smartphones__count"] == tally(id, "smartphones")
  {
    var aggregates := GetModelsForCount(SidebarModels);
    assert aggregates == [Count("notebook"), Count("smartphones")];
    assert aggregates[..1] == [Count("notebook")];
    assert aggregates[..1][..0] == [];
    assert Alias(Count("notebook")) == "notebook__count";
    assert Alias(Count("smartphones")) == "smartphones__count";
    assert Columns(aggregates[..1], id, tally) == map["notebook__count" := tally(id, "notebook")];
    assert Columns(aggregates, id, tally) == map["notebook__count" := tally(id, "notebook"),
                                                 "smartphones__count" := tally(id, "smartphones")];
    assert CategoryNameCountName.Values == {"notebook__count", "smartphones__count"} by {
      assert CategoryNameCountName["Notebooks"] == "notebook__count";
      assert CategoryNameCountName["Smartphones"] == "smartphones__count";
    }
  }

  /** The sidebar fails only on a category whose name the table lacks, and
      then with a `KeyError` on the first such name; otherwise it lists every
      category, in order, with the count of its own product model. */
  lemma LeftSidebarSpec(categories: seq<Category>, tally: (nat, string) -> nat)
    ensures var r := GetCategoriesForLeftSidebar(categories, tally);
            (r.Ok? <==> forall i :: 0 <= i < |categories| ==> categories[i].name in CategoryNameCountName)
            && (r.Ok? ==> (|r.value| == |categories|
                 && forall i :: 0 <= i < |categories| ==>
                      r.value[i].name == categories[i].name && r.value[i].slug == categories[i].slug
                      && r.value[i].count == tally(categories[i].id,
                           if categories[i].name == "Notebooks" then "notebook" else "smartphones")))
            && (r.Err? ==> exists i :: 0 <= i < |categories| && r.error == KeyError(categories[i].name)
                             && categories[i].name !in CategoryNameCountName
                             && forall j :: 0 <= j < i ==> categories[j].name in CategoryNameCountName)
  {
    var rows := Annotate(categories, GetModelsForCount(SidebarModels), tally);
    forall i | 0 <= i < |rows|
      ensures Resolvable(rows[i]) <==> categories[i].name in CategoryNameCountName
      ensures rows[i].name in CategoryNameCountName ==>
                rows[i].columns[CategoryNameCountName[rows[i].name]]
                == tally(categories[i].id, if categories[i].name == "Notebooks" then "notebook" else "smartphones")
    {
      SidebarColumns(categories[i].id, tally);
    }
  }
}
