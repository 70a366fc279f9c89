/** The typed DataTable component: its sort state, the sorted view it derives
    from the caller's rows, its identity-based row selection, the header
    checkbox, the row keys, the display mode and the footer, together with the
    state machine that the table's controls drive.

    Rendering is left out: the model says which display mode applies, what
    each control shows and what each interaction does to the state and which
    callbacks it calls. */
module DataTable {
  import opened Wrappers
  import opened Values
  import opened Rows
  import opened Sorting
  import opened Pagination

  /** A column descriptor. `dataIndex` names the row field the column shows
      and sorts by; the width and the cell renderer are display-only. */
  datatype Column = Column(key: string, title: string, dataIndex: string, sortable: bool)

  // ---------------------------------------------------------------------
  // Sort state

  datatype SortState = SortState(key: Option<string>, dir: Direction)

  /** The sort state a table starts in: no active column, ascending. */
  const InitialSort := SortState(None, Asc)

  /** `columns.find(col => col.key === key)`: the first column with that key. */
  function FindColumn(columns: seq<Column>, key: string): (r: Option<Column>)
    ensures r.None? <==> forall i :: 0 <= i < |columns| ==> columns[i].key != key
    ensures r.Some? ==> r.value.key == key
  {
    if |columns| == 0 then None
    else if columns[0].key == key then Some(columns[0])
    else FindColumn(columns[1..], key)
  }

  /** The column found is the first one with the key. */
  lemma {:induction false} FindColumnIsFirst(columns: seq<Column>, key: string)
    requires FindColumn(columns, key).Some?
    ensures exists i :: 0 <= i < |columns| && columns[i] == FindColumn(columns, key).value
                        && forall j :: 0 <= j < i ==> columns[j].key != key
    decreases |columns|
  {
    if columns[0].key != key {
      var r := FindColumn(columns[1..], key);
      FindColumnIsFirst(columns[1..], key);
      var i :| 0 <= i < |columns[1..]| && columns[1..][i] == r.value
               && forall j :: 0 <= j < i ==> columns[1..][j].key != key;
      assert columns[i + 1] == r.value;
    } else {
      assert columns[0] == FindColumn(columns, key).value;
    }
  }

  /** The column a header click on `key` acts on, when it is sortable. */
  predicate SortableKey(columns: seq<Column>, key: string)
  {
    var c := FindColumn(columns, key);
    c.Some? && c.value.sortable
  }

  /** `handleSort(columnKey)`. */
  function HandleSort(columns: seq<Column>, sort: SortState, columnKey: string): (r: SortState)
  {
    match FindColumn(columns, columnKey)
    case None => sort
    case Some(c) =>
      if !c.sortable then sort
      else SortState(Some(columnKey), if sort.key == Some(columnKey) && sort.dir == Asc then Desc else Asc)
  }

  /** The sort transition: an unknown or unsortable column changes nothing;
      the active ascending column turns descending; every other click on a
      sortable column makes it the active column, ascending. */
  lemma SortTransition(columns: seq<Column>, sort: SortState, key: string)
    ensures !SortableKey(columns, key) ==> HandleSort(columns, sort, key) == sort
    ensures SortableKey(columns, key) && sort == SortState(Some(key), Asc) ==>
              HandleSort(columns, sort, key) == SortState(Some(key), Desc)
    ensures SortableKey(columns, key) && sort != SortState(Some(key), Asc) ==>
              HandleSort(columns, sort, key) == SortState(Some(key), Asc)
  {
  }

  /** Repeated clicks on one sortable column alternate ascending and
      descending: the second click after any first click undoes it. */
  lemma SortClicksAlternate(columns: seq<Column>, sort: SortState, key: string)
    requires SortableKey(columns, key)
    ensures var once := HandleSort(columns, sort, key);
      var twice := HandleSort(columns, once, key);
      once.key == twice.key == Some(key) && once.dir != twice.dir
      && HandleSort(columns, twice, key) == once
  {
  }

  /** The sort state only ever names a sortable column of the table (or
      none), as long as the columns stay the same. */
  predicate SortKeyValid(columns: seq<Column>, sort: SortState)
  {
    sort.key.None? || SortableKey(columns, sort.key.value)
  }

  lemma HandleSortKeepsKeyValid(columns: seq<Column>, sort: SortState, key: string)
    requires SortKeyValid(columns, sort)
    ensures SortKeyValid(columns, HandleSort(columns, sort, key))
  {
  }

  // ---------------------------------------------------------------------
  // Sorted view

  /** `!sortConfig.key` is false: a key is present and is not the empty
      string, which JavaScript treats as false. */
  predicate IsActive(key: Option<string>)
  {
    key.Some? && key.value != ""
  }

  /** The comparator the view sorts with when a key is active. */
  function ActiveOrder(columns: seq<Column>, sort: SortState): Order
    requires IsActive(sort.key)
  {
    match FindColumn(columns, sort.key.value)
    case None => KeepOrder
    case Some(c) => ByField(c.dataIndex, sort.dir)
  }

  /** `sortedData`: the caller's rows when no key is active, otherwise a
      sorted copy of them. */
  function SortedView(data: seq<Row>, columns: seq<Column>, sort: SortState): (view: seq<Row>)
    ensures multiset(view) == multiset(data)
  {
    if !IsActive(sort.key) then data
    else
      SortPermutes(data, ActiveOrder(columns, sort));
      Sort(data, ActiveOrder(columns, sort))
  }

  /** Without an active column, and with an active column that the columns
      no longer contain, the view is the rows in the caller's order. */
  lemma SortedViewKeepsOrder(data: seq<Row>, columns: seq<Column>, sort: SortState)
    requires !IsActive(sort.key) || FindColumn(columns, sort.key.value).None?
    ensures SortedView(data, columns, sort) == data
  {
    if IsActive(sort.key) {
      SortKeepOrder(data);
    }
  }

  /** With an active column found among the columns, the view is ordered on
      that column's field: non-decreasing when ascending, non-increasing when
      descending. */
  lemma SortedViewIsOrdered(data: seq<Row>, columns: seq<Column>, sort: SortState, c: Column)
    requires IsActive(sort.key) && FindColumn(columns, sort.key.value) == Some(c)
    ensures var view, f := SortedView(data, columns, sort), c.dataIndex;
      forall i, j :: 0 <= i < j < |view| ==>
        if sort.dir == Asc then !Less(FieldOf(view[j], f), FieldOf(view[i], f))
        else !Less(FieldOf(view[i], f), FieldOf(view[j], f))
  {
    var view, f := SortedView(data, columns, sort), c.dataIndex;
    SortIsSorted(data, ByField(f, sort.dir));
    forall i, j | 0 <= i < j < |view|
      ensures if sort.dir == Asc then !Less(FieldOf(view[j], f), FieldOf(view[i], f))
              else !Less(FieldOf(view[i], f), FieldOf(view[j], f))
    {
      BeforeByDirection(f, view[j], view[i]);
    }
  }

  /** ... and rows with equal values in that field keep the caller's
      relative order, in both directions. */
  lemma SortedViewIsStable(data: seq<Row>, columns: seq<Column>, sort: SortState, c: Column)
    requires IsActive(sort.key) && FindColumn(columns, sort.key.value) == Some(c)
    ensures Stable(data, SortedView(data, columns, sort), c.dataIndex)
  {
    SortIsStable(data, c.dataIndex, sort.dir);
  }

  /** When the active column's field holds values of one kind in every row,
      the view is the only arrangement of the rows that is ordered by the
      header's direction and keeps equal values in the caller's order. */
  lemma SortedViewIsTheStableSort(data: seq<Row>, columns: seq<Column>, sort: SortState, c: Column,
                                  r: seq<Row>, w: Value)
    requires IsActive(sort.key) && FindColumn(columns, sort.key.value) == Some(c)
    requires OneKind(data, c.dataIndex, w)
    requires Sorted(r, ByField(c.dataIndex, sort.dir)) && Stable(data, r, c.dataIndex)
    ensures r == SortedView(data, columns, sort)
  {
    SortIsTheStableSort(data, r, c.dataIndex, sort.dir, w);
  }

  // ---------------------------------------------------------------------
  // Selection

  datatype SelectionMode = Single | Multiple

  /** `selectedRows.includes(row)`: some entry is the same object. */
  predicate IsSelected(selection: seq<Row>, row: Row)
  {
    exists i :: 0 <= i < |selection| && selection[i].id == row.id
  }

  /** `selectedRows.filter(r => r !== row)`. */
  function Deselect(selection: seq<Row>, row: Row): (r: seq<Row>)
    ensures !IsSelected(r, row)
    ensures |r| <= |selection|
  {
    if |selection| == 0 then []
    else
      assert selection == [selection[0]] + selection[1..];
      (if selection[0].id == row.id then [] else [selection[0]]) + Deselect(selection[1..], row)
  }

  /** Every entry that is not `row` is kept as often as it occurs; every
      entry that is `row` is dropped. */
  lemma {:induction false} DeselectCounts(selection: seq<Row>, row: Row)
    ensures forall x: Row :: multiset(Deselect(selection, row))[x] ==
              if x.id == row.id then 0 else multiset(selection)[x]
    decreases |selection|
  {
    if |selection| > 0 {
      var rest := selection[1..];
      DeselectCounts(rest, row);
      assert selection == [selection[0]] + rest;
      DeselectCons(selection[0], rest, row);
    }
  }

  lemma DeselectCons(x: Row, s: seq<Row>, row: Row)
    ensures Deselect([x] + s, row) == (if x.id == row.id then [] else [x]) + Deselect(s, row)
  {
    assert ([x] + s)[1..] == s;
  }

  /** Deselecting works entry by entry, so the entries it keeps stay in
      their order. */
  lemma {:induction false} DeselectDistributes(a: seq<Row>, b: seq<Row>, row: Row)
    ensures Deselect(a + b, row) == Deselect(a, row) + Deselect(b, row)
    decreases |a|
  {
    if |a| == 0 {
      assert a + b == b;
    } else {
      var h := if a[0].id == row.id then [] else [a[0]];
      calc {
        Deselect(a + b, row);
        { assert a + b == [a[0]] + (a[1..] + b); }
        Deselect([a[0]] + (a[1..] + b), row);
        { DeselectCons(a[0], a[1..] + b, row); }
        h + Deselect(a[1..] + b, row);
        { DeselectDistributes(a[1..], b, row); }
        h + (Deselect(a[1..], row) + Deselect(b, row));
        (h + Deselect(a[1..], row)) + Deselect(b, row);
        { assert a == [a[0]] + a[1..]; DeselectCons(a[0], a[1..], row); }
        Deselect(a, row) + Deselect(b, row);
      }
    }
  }

  /** Deselecting a row that is not selected changes nothing. */
  lemma {:induction false} DeselectAbsent(selection: seq<Row>, row: Row)
    requires !IsSelected(selection, row)
    ensures Deselect(selection, row) == selection
    decreases |selection|
  {
    if |selection| > 0 {
      var rest := selection[1..];
      assert !IsSelected(rest, row) by {
        forall i | 0 <= i < |rest| ensures rest[i].id != row.id {
          assert rest[i] == selection[i + 1];
        }
      }
      DeselectAbsent(rest, row);
      assert selection == [selection[0]] + rest;
      DeselectCons(selection[0], rest, row);
    }
  }

  /** `handleRowSelect(row, isSelected)`. */
  function HandleRowSelect(mode: SelectionMode, selection: seq<Row>, row: Row, checked: bool): (r: seq<Row>)
    ensures checked <==> IsSelected(r, row)
    ensures checked ==> |r| > 0 && r[|r| - 1] == row
    ensures mode == Single ==> r == (if checked then [row] else [])
    ensures mode == Multiple && checked ==> |r| == |selection| + 1 && r[..|selection|] == selection
    ensures mode == Multiple && !checked ==>
              forall x: Row :: x.id != row.id ==> multiset(r)[x] == multiset(selection)[x]
  {
    match mode
    case Single =>
      if checked then
        assert [row][0].id == row.id;
        [row]
      else []
    case Multiple =>
      if checked then
        assert (selection + [row])[|selection|] == row;
        selection + [row]
      else
        DeselectCounts(selection, row);
        Deselect(selection, row)
  }

  /** In multiple mode, unchecking a row just checked restores the
      selection it was checked in. */
  lemma CheckThenUncheck(selection: seq<Row>, row: Row)
    requires !IsSelected(selection, row)
    ensures HandleRowSelect(Multiple, HandleRowSelect(Multiple, selection, row, true), row, false) == selection
  {
    DeselectDistributes(selection, [row], row);
    DeselectAbsent(selection, row);
  }

  /** In single mode, checking one row and then another leaves only the
      second selected. */
  lemma SingleModeReplaces(selection: seq<Row>, first: Row, second: Row)
    ensures HandleRowSelect(Single, HandleRowSelect(Single, selection, first, true), second, true) == [second]
  {
  }

  /** `handleSelectAll(isSelected)`: a copy of the sorted view, or nothing. */
  function HandleSelectAll(view: seq<Row>, checked: bool): seq<Row>
  {
    if checked then view else []
  }

  /** Selecting all and then sorting in any way leaves the same rows selected
      as the new view shows, only in a different order. */
  lemma SelectAllSurvivesSorting(data: seq<Row>, columns: seq<Column>, sort: SortState, sort': SortState)
    ensures multiset(HandleSelectAll(SortedView(data, columns, sort), true))
         == multiset(SortedView(data, columns, sort'))
  {
  }

  // ---------------------------------------------------------------------
  // Header checkbox

  predicate IsAllSelected(selection: seq<Row>, view: seq<Row>)
  {
    |view| > 0 && |selection| == |view|
  }

  predicate IsIndeterminate(selection: seq<Row>, view: seq<Row>)
  {
    |selection| > 0 && |selection| < |view|
  }

  datatype HeaderCheckbox = Checked | Indeterminate | Unchecked

  /** The header checkbox: `checked` is `isAllSelected`, the DOM
      `indeterminate` flag is `isIndeterminate`. */
  function HeaderState(selection: seq<Row>, view: seq<Row>): (h: HeaderCheckbox)
    ensures h == Checked <==> IsAllSelected(selection, view)
    ensures h == Indeterminate <==> IsIndeterminate(selection, view)
    ensures h == Unchecked ==> |selection| == 0 || |selection| > |view|
  {
    if IsAllSelected(selection, view) then Checked
    else if IsIndeterminate(selection, view) then Indeterminate
    else Unchecked
  }

  /** The two flags are never set together. */
  lemma HeaderFlagsExclusive(selection: seq<Row>, view: seq<Row>)
    ensures !(IsAllSelected(selection, view) && IsIndeterminate(selection, view))
  {
  }

  /** The all-selected flag counts entries, not identities: a selection of
      as many other rows counts as "all selected". */
  lemma AllSelectedCountsEntries(a: Row, b: Row, c: Row, d: Row)
    requires a.id != c.id && a.id != d.id && b.id != c.id && b.id != d.id
    ensures IsAllSelected([a, b], [c, d])
    ensures !IsSelected([a, b], c) && !IsSelected([a, b], d)
  {
  }

  function IdSet(s: seq<Row>): set<nat>
  {
    set i | 0 <= i < |s| :: s[i].id
  }

  /** No object occurs twice. */
  predicate DistinctIds(s: seq<Row>)
  {
    forall i, j :: 0 <= i < j < |s| ==> s[i].id != s[j].id
  }

  lemma {:induction false} SubsetSmaller(a: set<nat>, b: set<nat>)
    requires a <= b
    ensures |a| <= |b|
    ensures a != b ==> |a| < |b|
    decreases |b|
  {
    if a != b {
      assert exists y :: y in b && y !in a;
      var y :| y in b && y !in a;
      SubsetSmaller(a, b - {y});
    }
  }

  lemma {:induction false} DistinctIdsCount(s: seq<Row>)
    requires DistinctIds(s)
    ensures |IdSet(s)| == |s|
    decreases |s|
  {
    if |s| > 0 {
      var init := s[..|s| - 1];
      DistinctIdsCount(init);
      assert IdSet(s) == IdSet(init) + {s[|s| - 1].id};
      assert s[|s| - 1].id !in IdSet(init);
    }
  }

  /** When the selection holds distinct rows of the view, which itself shows
      no object twice, the count-based flag means exactly that every row of
      the view is selected. */
  lemma AllSelectedMatchesIdentity(selection: seq<Row>, view: seq<Row>)
    requires DistinctIds(selection) && DistinctIds(view)
    requires forall i :: 0 <= i < |selection| ==> IsSelected(view, selection[i])
    ensures IsAllSelected(selection, view) <==>
              |view| > 0 && forall i :: 0 <= i < |view| ==> IsSelected(selection, view[i])
  {
    DistinctIdsCount(selection);
    DistinctIdsCount(view);
    var a, b := IdSet(selection), IdSet(view);
    assert a <= b by {
      forall x | x in a ensures x in b {
        var i :| 0 <= i < |selection| && selection[i].id == x;
        assert IsSelected(view, selection[i]);
      }
    }
    if IsAllSelected(selection, view) {
      SubsetSmaller(a, b);
      forall i | 0 <= i < |view| ensures IsSelected(selection, view[i]) {
        assert view[i].id in a;
        var k :| 0 <= k < |selection| && selection[k].id == view[i].id;
      }
    }
    if |view| > 0 && forall i :: 0 <= i < |view| ==> IsSelected(selection, view[i]) {
      assert b <= a by {
        forall x | x in b ensures x in a {
          var i :| 0 <= i < |view| && view[i].id == x;
          assert IsSelected(selection, view[i]);
        }
      }
      assert a == b;
    }
  }

  // ---------------------------------------------------------------------
  // Row keys

  /** `rowKey`: absent, a field name, or a function of row and index. */
  datatype RowKey = NoRowKey | FieldKey(field: string) | KeyFunction(f: (Row, nat) -> string)

  /** `getRowKey(row, index)`. */
  function GetRowKey(rowKey: RowKey, row: Row, index: nat): string
  {
    match rowKey
    case KeyFunction(f) => f(row, index)
    case FieldKey(name) => Stringify(FieldOf(row, name))
    case NoRowKey => IntToString(index)
  }

  /** Each strategy's key: the function's answer, the field as a string, or
      the position as a decimal string that reads back as the position;
      without a `rowKey` the keys of different positions never collide. */
  lemma RowKeyFallbacks(row: Row, other: Row, index: nat, otherIndex: nat, name: string, f: (Row, nat) -> string)
    ensures GetRowKey(KeyFunction(f), row, index) == f(row, index)
    ensures FieldOf(row, name).Str? ==> GetRowKey(FieldKey(name), row, index) == FieldOf(row, name).s
    ensures FieldOf(row, name).Int? ==> GetRowKey(FieldKey(name), row, index) == IntToString(FieldOf(row, name).i)
    ensures !(name in row.fields) ==> GetRowKey(FieldKey(name), row, index) == "undefined"
    ensures AllDigits(GetRowKey(NoRowKey, row, index)) && ParseDigits(GetRowKey(NoRowKey, row, index)) == index
    ensures index != otherIndex ==> GetRowKey(NoRowKey, row, index) != GetRowKey(NoRowKey, other, otherIndex)
  {
    ParseNatToString(index);
    if IntToString(index) == IntToString(otherIndex) {
      IntToStringInjective(index, otherIndex);
    }
  }

  /** Keyed by a numeric field, rows with different numbers get different
      keys. */
  lemma NumericFieldKeysDiffer(row: Row, other: Row, index: nat, otherIndex: nat, name: string)
    requires FieldOf(row, name).Int? && FieldOf(other, name).Int?
    requires FieldOf(row, name) != FieldOf(other, name)
    ensures GetRowKey(FieldKey(name), row, index) != GetRowKey(FieldKey(name), other, otherIndex)
  {
    if GetRowKey(FieldKey(name), row, index) == GetRowKey(FieldKey(name), other, otherIndex) {
      IntToStringInjective(FieldOf(row, name).i, FieldOf(other, name).i);
    }
  }

  // ---------------------------------------------------------------------
  // Display mode

  datatype Display = LoadingView(text: string) | EmptyView(text: string) | TableView

  const DefaultEmptyText := "No data available"
  const DefaultLoadingText := "Loading..."

  function DisplayOf(loading: bool, data: seq<Row>, loadingText: string, emptyText: string): (d: Display)
  {
    if loading then LoadingView(loadingText)
    else if |data| == 0 then EmptyView(emptyText)
    else TableView
  }

  /** Loading wins over everything, even over rows being present; otherwise
      the table appears exactly when there are rows. */
  lemma DisplayPrecedence(loading: bool, data: seq<Row>, loadingText: string, emptyText: string)
    ensures loading ==> DisplayOf(loading, data, loadingText, emptyText) == LoadingView(loadingText)
    ensures !loading && |data| == 0 ==> DisplayOf(loading, data, loadingText, emptyText) == EmptyView(emptyText)
    ensures DisplayOf(loading, data, loadingText, emptyText) == TableView <==> !loading && |data| > 0
  {
  }

  // ---------------------------------------------------------------------
  // The component as a state machine

  /** The props the logic reads. `onRowSelect`, `onRowClick` record only
      whether the caller supplied the callback; the pagination callback is
      part of the descriptor and always present. */
  datatype Props = Props(
    data: seq<Row>,
    columns: seq<Column>,
    loading: bool,
    selectable: bool,
    hasOnRowSelect: bool,
    emptyText: string,
    loadingText: string,
    rowKey: RowKey,
    hasOnRowClick: bool,
    mode: SelectionMode,
    defaultSelectedRows: seq<Row>,
    pager: Option<Pager>)

  datatype State = State(sort: SortState, selection: seq<Row>)

  function Init(p: Props): State
  {
    State(InitialSort, p.defaultSelectedRows)
  }

  /** User interactions, each naming the control by position: a column
      header, a row's checkbox, the header checkbox, a row, a footer button. */
  datatype Event =
    | HeaderClick(column: nat)
    | RowCheckboxClick(row: nat)
    | SelectAllClick
    | RowClick(row: nat)
    | PrevClick
    | NextClick

  /** A callback invocation and its arguments. */
  datatype Effect =
    | RowSelectCalled(rows: seq<Row>)
    | RowClickCalled(row: Row, index: nat)
    | PageChangeCalled(request: PageRequest)

  datatype Outcome = Outcome(state: State, effects: seq<Effect>)

  function DisplayFor(p: Props): Display
  {
    DisplayOf(p.loading, p.data, p.loadingText, p.emptyText)
  }

  function View(p: Props, s: State): seq<Row>
  {
    SortedView(p.data, p.columns, s.sort)
  }

  /** Stores a new selection and reports it once to `onRowSelect`. */
  function Select(p: Props, s: State, selection: seq<Row>): Outcome
  {
    Outcome(s.(selection := selection), if p.hasOnRowSelect then [RowSelectCalled(selection)] else [])
  }

  /** What an interaction does. Controls that are not rendered cannot be
      used: nothing but the loading or empty text is shown outside the table
      mode, checkboxes need `selectable`, the footer needs a descriptor.
      A clicked checkbox reports the opposite of the state it showed. */
  function Step(p: Props, s: State, e: Event): Outcome
  {
    var view := View(p, s);
    if DisplayFor(p) != TableView then Outcome(s, [])
    else match e
      case HeaderClick(i) =>
        if i < |p.columns| && p.columns[i].sortable
        then Outcome(s.(sort := HandleSort(p.columns, s.sort, p.columns[i].key)), [])
        else Outcome(s, [])
      case RowCheckboxClick(i) =>
        if p.selectable && i < |view|
        then Select(p, s, HandleRowSelect(p.mode, s.selection, view[i], !IsSelected(s.selection, view[i])))
        else Outcome(s, [])
      case SelectAllClick =>
        if p.selectable
        then Select(p, s, HandleSelectAll(view, !IsAllSelected(s.selection, view)))
        else Outcome(s, [])
      case RowClick(i) =>
        if p.hasOnRowClick && i < |view| then Outcome(s, [RowClickCalled(view[i], i)]) else Outcome(s, [])
      case PrevClick =>
        if p.pager.Some? && !PrevDisabled(p.pager.value)
        then Outcome(s, [PageChangeCalled(PrevRequest(p.pager.value))])
        else Outcome(s, [])
      case NextClick =>
        if p.pager.Some? && !NextDisabled(p.pager.value)
        then Outcome(s, [PageChangeCalled(NextRequest(p.pager.value))])
        else Outcome(s, [])
  }

  /** While loading, or with no rows, no interaction has any effect. */
  lemma InertOutsideTable(p: Props, s: State, e: Event)
    requires p.loading || |p.data| == 0
    ensures Step(p, s, e) == Outcome(s, [])
  {
  }

  /** Header clicks change only the sort state and call nothing; a header
      of a non-sortable column changes nothing at all. */
  lemma HeaderClickOnlySorts(p: Props, s: State, i: nat)
    ensures Step(p, s, HeaderClick(i)).state.selection == s.selection
    ensures Step(p, s, HeaderClick(i)).effects == []
    ensures i < |p.columns| && !p.columns[i].sortable ==> Step(p, s, HeaderClick(i)).state == s
  {
  }

  /** A checkbox changes the selection exactly when it is rendered and
      clicked on an existing row; every change calls `onRowSelect` exactly
      once, with the new selection, when the caller supplied it, and nothing
      is called otherwise. The sort state is left alone. */
  lemma SelectionNotifiesOnce(p: Props, s: State, e: Event)
    requires e.RowCheckboxClick? || e.SelectAllClick?
    ensures var o := Step(p, s, e);
      o.state.sort == s.sort
      && (o.state != s <==> DisplayFor(p) == TableView && p.selectable
                             && (e.RowCheckboxClick? ==> e.row < |View(p, s)|))
      && o.effects == (if o.state != s && p.hasOnRowSelect then [RowSelectCalled(o.state.selection)] else [])
  {
  }

  /** A row checkbox toggles its row, in both selection modes; in single
      mode row checkboxes never leave more than one row selected. */
  lemma RowCheckboxToggles(p: Props, s: State, i: nat)
    requires DisplayFor(p) == TableView && p.selectable && i < |View(p, s)|
    ensures var row, sel := View(p, s)[i], Step(p, s, RowCheckboxClick(i)).state.selection;
      (IsSelected(sel, row) <==> !IsSelected(s.selection, row))
      && (p.mode == Single ==> sel == (if IsSelected(s.selection, row) then [] else [row]))
  {
  }

  /** The header checkbox selects the whole view unless it showed "all
      selected", in which case it clears the selection; in single mode it
      can therefore select more than one row. */
  lemma SelectAllClickResult(p: Props, s: State)
    requires DisplayFor(p) == TableView && p.selectable
    ensures var view, sel := View(p, s), Step(p, s, SelectAllClick).state.selection;
      (IsAllSelected(s.selection, view) ==> sel == [])
      && (!IsAllSelected(s.selection, view) ==> sel == view && IsAllSelected(sel, view))
  {
  }

  /** A row click reports the row with its position in the sorted view. */
  lemma RowClickReportsSortedPosition(p: Props, s: State, i: nat)
    requires DisplayFor(p) == TableView && p.hasOnRowClick && i < |View(p, s)|
    ensures Step(p, s, RowClick(i)) == Outcome(s, [RowClickCalled(View(p, s)[i], i)])
  {
  }

  /** The footer buttons change no state and request the neighbouring page
      only when enabled. */
  lemma PagerButtons(p: Props, s: State, g: Pager)
    requires DisplayFor(p) == TableView && p.pager == Some(g)
    ensures Step(p, s, PrevClick).state == s && Step(p, s, NextClick).state == s
    ensures Step(p, s, PrevClick).effects == if g.current == 1 then [] else [PageChangeCalled(PageRequest(g.current - 1, g.pageSize))]
    ensures Step(p, s, NextClick).effects == if g.current * g.pageSize >= g.total then [] else [PageChangeCalled(PageRequest(g.current + 1, g.pageSize))]
  {
  }
}
