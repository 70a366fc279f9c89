/** The older, untyped DataTable. It has the same sort transition, sorted
    view and selection logic as the typed component, with fewer features:
    selection is always multiple and starts empty, the loading and empty
    texts are fixed, there are no row keys, row clicks or footer, and the
    sorted view has no guard for an active column that cannot be found.

    Its state machine is shown to be the typed one, run on the typed props
    the legacy props stand for. */
module LegacyDataTable {
  import opened Wrappers
  import opened Rows
  import opened Sorting
  import DT = DataTable

  datatype Props = Props(
    data: seq<Row>,
    columns: seq<DT.Column>,
    loading: bool,
    selectable: bool,
    hasOnRowSelect: bool)

  /** The selection starts empty, unsorted. */
  const Init := DT.State(DT.InitialSort, [])

  /** The legacy comparator reads the active column's field without checking
      that the column was found. The sort calls it only for two rows or more,
      so the view can be computed unless it is called with no column. */
  predicate Renderable(data: seq<Row>, columns: seq<DT.Column>, sort: DT.SortState)
  {
    |data| <= 1 || !DT.IsActive(sort.key) || DT.FindColumn(columns, sort.key.value).Some?
  }

  /** `sortedData`. */
  function SortedView(data: seq<Row>, columns: seq<DT.Column>, sort: DT.SortState): (view: seq<Row>)
    requires Renderable(data, columns, sort)
    ensures multiset(view) == multiset(data)
  {
    if |data| <= 1 || !DT.IsActive(sort.key) then data
    else
      var ord := ByField(DT.FindColumn(columns, sort.key.value).value.dataIndex, sort.dir);
      SortPermutes(data, ord);
      Sort(data, ord)
  }

  /** `handleRowSelect`: checking appends, unchecking removes every
      occurrence of the object. */
  function HandleRowSelect(selection: seq<Row>, row: Row, checked: bool): (r: seq<Row>)
    ensures checked <==> DT.IsSelected(r, row)
    ensures checked ==> r == selection + [row]
    ensures !checked ==> forall x: Row :: x.id != row.id ==> multiset(r)[x] == multiset(selection)[x]
  {
    if checked then
      assert (selection + [row])[|selection|] == row;
      selection + [row]
    else
      DT.DeselectCounts(selection, row);
      DT.Deselect(selection, row)
  }

  function DisplayOf(loading: bool, data: seq<Row>): DT.Display
  {
    if loading then DT.LoadingView(DT.DefaultLoadingText)
    else if |data| == 0 then DT.EmptyView(DT.DefaultEmptyText)
    else DT.TableView
  }

  /** The legacy table's interactions. A header click always goes to
      `handleSort`, whose own lookup ignores unsortable columns; the header
      checkbox is checked exactly when `isAllSelected`, with no
      indeterminate state. There are no row-click or footer controls. */
  function Step(p: Props, s: DT.State, e: DT.Event): DT.Outcome
    requires Renderable(p.data, p.columns, s.sort)
  {
    if DisplayOf(p.loading, p.data) != DT.TableView then DT.Outcome(s, [])
    else
      var view := SortedView(p.data, p.columns, s.sort);
      match e
      case HeaderClick(i) =>
        if i < |p.columns| then DT.Outcome(s.(sort := DT.HandleSort(p.columns, s.sort, p.columns[i].key)), [])
        else DT.Outcome(s, [])
      case RowCheckboxClick(i) =>
        if p.selectable && i < |view| then
          var sel := HandleRowSelect(s.selection, view[i], !DT.IsSelected(s.selection, view[i]));
          DT.Outcome(s.(selection := sel), if p.hasOnRowSelect then [DT.RowSelectCalled(sel)] else [])
        else DT.Outcome(s, [])
      case SelectAllClick =>
        if p.selectable then
          var sel := DT.HandleSelectAll(view, !DT.IsAllSelected(s.selection, view));
          DT.Outcome(s.(selection := sel), if p.hasOnRowSelect then [DT.RowSelectCalled(sel)] else [])
        else DT.Outcome(s, [])
      case _ => DT.Outcome(s, [])
  }

  /** The typed props the legacy props stand for. */
  function Embed(p: Props): DT.Props
  {
    DT.Props(p.data, p.columns, p.loading, p.selectable, p.hasOnRowSelect, DT.DefaultEmptyText, DT.DefaultLoadingText,
             DT.NoRowKey, false, DT.Multiple, [], None)
  }

  /** Column keys are unique, as a table's columns are meant to be. */
  predicate UniqueKeys(columns: seq<DT.Column>)
  {
    forall i, j :: 0 <= i < j < |columns| ==> columns[i].key != columns[j].key
  }

  lemma FindColumnOfUniqueKey(columns: seq<DT.Column>, i: nat)
    requires UniqueKeys(columns) && i < |columns|
    ensures DT.FindColumn(columns, columns[i].key) == Some(columns[i])
  {
    var c := DT.FindColumn(columns, columns[i].key);
    DT.FindColumnIsFirst(columns, columns[i].key);
    var k :| 0 <= k < |columns| && columns[k] == c.value && c.value.key == columns[i].key
             && forall j :: 0 <= j < k ==> columns[j].key != columns[i].key;
  }

  /** The view is computable from the start and stays so: every key the sort
      state can take is one `handleSort` found. */
  lemma RenderableInvariant(p: Props, s: DT.State, e: DT.Event)
    requires Renderable(p.data, p.columns, s.sort)
    ensures Renderable(p.data, p.columns, Init.sort)
    ensures Renderable(p.data, p.columns, Step(p, s, e).state.sort)
  {
  }

  /** The active key, if any, names one of the columns. Unlike
      `Renderable`, this does not depend on the rows. */
  predicate KeyFound(columns: seq<DT.Column>, sort: DT.SortState)
  {
    !DT.IsActive(sort.key) || DT.FindColumn(columns, sort.key.value).Some?
  }

  /** `handleSort` only ever sets a key it found, so with the same columns
      the key stays findable from mount on, whatever rows the table shows
      meanwhile; a findable key makes the view computable for any rows. */
  lemma KeyFoundInvariant(p: Props, s: DT.State, e: DT.Event, data: seq<Row>)
    requires KeyFound(p.columns, s.sort)
    ensures KeyFound(p.columns, Init.sort)
    ensures KeyFound(p.columns, Step(p, s, e).state.sort)
    ensures Renderable(data, p.columns, s.sort)
  {
  }

  /** The invariant needs the columns to stay: once a column is active, new
      props without it leave the view of two rows uncomputable, as the
      comparator then reads a field of no column. */
  lemma DroppedColumnBreaksView(a: Row, b: Row)
    ensures var columns := [DT.Column("k", "A", "a", true)];
      var s := Step(Props([a, b], columns, false, false, false), Init, DT.HeaderClick(0)).state;
      Renderable([a, b], columns, s.sort) && !Renderable([a, b], [], s.sort)
  {
  }

  /** Where it can be computed, the legacy view is the typed one. */
  lemma SortedViewAgrees(data: seq<Row>, columns: seq<DT.Column>, sort: DT.SortState)
    requires Renderable(data, columns, sort)
    ensures SortedView(data, columns, sort) == DT.SortedView(data, columns, sort)
  {
  }

  /** Legacy row selection is the typed multiple mode. */
  lemma RowSelectIsMultipleMode(selection: seq<Row>, row: Row, checked: bool)
    ensures HandleRowSelect(selection, row, checked) == DT.HandleRowSelect(DT.Multiple, selection, row, checked)
  {
  }

  /** The legacy table mounts as the typed table with the props it stands
      for, and with unique column keys behaves as it on every interaction. */
  lemma RefinesTyped(p: Props, s: DT.State, e: DT.Event)
    requires UniqueKeys(p.columns) && Renderable(p.data, p.columns, s.sort)
    ensures Init == DT.Init(Embed(p))
    ensures Step(p, s, e) == DT.Step(Embed(p), s, e)
    ensures DisplayOf(p.loading, p.data) == DT.DisplayFor(Embed(p))
  {
    match e
    case HeaderClick(i) => HeaderClickRefines(p, s, i);
    case RowCheckboxClick(i) => RowCheckboxRefines(p, s, i);
    case SelectAllClick => SortedViewAgrees(p.data, p.columns, s.sort);
    case _ =>
  }

  lemma HeaderClickRefines(p: Props, s: DT.State, i: nat)
    requires UniqueKeys(p.columns) && Renderable(p.data, p.columns, s.sort)
    ensures Step(p, s, DT.HeaderClick(i)) == DT.Step(Embed(p), s, DT.HeaderClick(i))
  {
    if i < |p.columns| {
      FindColumnOfUniqueKey(p.columns, i);
    }
  }

  lemma RowCheckboxRefines(p: Props, s: DT.State, i: nat)
    requires Renderable(p.data, p.columns, s.sort)
    ensures Step(p, s, DT.RowCheckboxClick(i)) == DT.Step(Embed(p), s, DT.RowCheckboxClick(i))
  {
    SortedViewAgrees(p.data, p.columns, s.sort);
  }

  /** Without unique keys the two differ: a header click on an unsortable
      column sorts by an earlier sortable column of the same key in the
      legacy table and does nothing in the typed one. */
  lemma DuplicateKeysDiverge(row: Row)
    ensures var columns := [DT.Column("k", "A", "a", true), DT.Column("k", "B", "b", false)];
      var p := Props([row], columns, false, false, false);
      Step(p, Init, DT.HeaderClick(1)).state.sort == DT.SortState(Some("k"), Asc)
      && DT.Step(Embed(p), Init, DT.HeaderClick(1)).state.sort == DT.InitialSort
  {
  }

  /** Loading beats the empty text, which beats the table; both texts are
      fixed. */
  lemma DisplayPrecedence(loading: bool, data: seq<Row>)
    ensures loading ==> DisplayOf(loading, data) == DT.LoadingView("Loading...")
    ensures !loading && |data| == 0 ==> DisplayOf(loading, data) == DT.EmptyView("No data available")
    ensures DisplayOf(loading, data) == DT.TableView <==> !loading && |data| > 0
  {
  }

  /** The header checkbox clears a selection it shows as complete and
      otherwise selects the whole view, calling `onRowSelect` once; either
      way the click flips whether it shows as checked. */
  lemma SelectAllClickResult(p: Props, s: DT.State)
    requires Renderable(p.data, p.columns, s.sort)
    requires DisplayOf(p.loading, p.data) == DT.TableView && p.selectable
    ensures var view, o := SortedView(p.data, p.columns, s.sort), Step(p, s, DT.SelectAllClick);
      (DT.IsAllSelected(s.selection, view) ==> o.state.selection == [])
      && (!DT.IsAllSelected(s.selection, view) ==> o.state.selection == view)
      && (DT.IsAllSelected(o.state.selection, view) <==> !DT.IsAllSelected(s.selection, view))
      && o.state.sort == s.sort
      && o.effects == if p.hasOnRowSelect then [DT.RowSelectCalled(o.state.selection)] else []
  {
  }

  /** A header click follows the typed transition rule: a click on an
      unsortable column does nothing (given unique keys), the active
      ascending column turns descending, and any other sortable column
      becomes the active one, ascending. The selection is never touched. */
  lemma HeaderClickSorts(p: Props, s: DT.State, i: nat)
    requires Renderable(p.data, p.columns, s.sort)
    requires DisplayOf(p.loading, p.data) == DT.TableView && i < |p.columns|
    ensures var c, o := p.columns[i], Step(p, s, DT.HeaderClick(i));
      o.state.selection == s.selection && o.effects == []
      && (UniqueKeys(p.columns) && !c.sortable ==> o.state == s)
      && (c.sortable && DT.FindColumn(p.columns, c.key) == Some(c) ==>
            o.state.sort == DT.SortState(Some(c.key), if s.sort == DT.SortState(Some(c.key), Asc) then Desc else Asc))
  {
    if UniqueKeys(p.columns) {
      FindColumnOfUniqueKey(p.columns, i);
    }
  }

  /** A row checkbox toggles its row: checking appends it, unchecking drops
      every occurrence and keeps every other entry. */
  lemma RowCheckboxToggles(p: Props, s: DT.State, i: nat)
    requires Renderable(p.data, p.columns, s.sort)
    requires DisplayOf(p.loading, p.data) == DT.TableView && p.selectable
    requires i < |SortedView(p.data, p.columns, s.sort)|
    ensures var row, o := SortedView(p.data, p.columns, s.sort)[i], Step(p, s, DT.RowCheckboxClick(i));
      (DT.IsSelected(o.state.selection, row) <==> !DT.IsSelected(s.selection, row))
      && (!DT.IsSelected(s.selection, row) ==> o.state.selection == s.selection + [row])
      && o.effects == if p.hasOnRowSelect then [DT.RowSelectCalled(o.state.selection)] else []
  {
  }
}
