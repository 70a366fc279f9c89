# studio: DataTable and InputField, modelled in Dafny

This project models the logic of the two components of the studio UI
library, each in its typed version and in its older untyped version:

- **DataTable.** It keeps a sort state (active column key and direction)
  and a selection of rows. From these it derives the sorted view of the
  caller's rows, the tri-state header checkbox, the row keys, the display
  mode (loading, empty or table) and the pagination footer.
- **InputField.** It mirrors its `value` prop in an internal value, can
  reveal a password, can be cleared, and picks its look from a few style
  buckets.

Rendering is stripped away. What remains is immutable datatypes, pure
transition functions and a `Step` function per component that maps a user
interaction (a header click, a checkbox click, a keystroke, a button
click) to the new state and the callbacks it calls.

Modules:

- `Wrappers`: `Option`.
- `Values`: field values (integer, string, `undefined`). Also JavaScript's
  `<` on them and `String(...)` with a parse-back round trip.
- `Rows`: rows with an explicit identity handle `id`. The table compares
  rows by object identity (`includes`, `!==`), and two rows are the same
  object exactly when their ids agree.
- `Sorting`: the sort comparator, exactly as written. Also a stable
  insertion sort on sequences, proved ordered, a permutation and stable,
  plus an imperative version with loop invariants.
- `Pagination`: the footer's arithmetic.
- `DataTable`: the typed table.
- `LegacyDataTable`: the untyped table. It is proved to behave as the typed
  table with the corresponding props, as long as column keys are unique.
- `InputField`: the typed input.
- `LegacyInputField`: the untyped input. It is proved to behave as the typed
  input with the corresponding props.

Modelling choices:

- A clicked checkbox reports the opposite of the state it showed. The row
  checkbox reports `!isRowSelected(row)`; the header checkbox reports
  `!isAllSelected`.
- `sortConfig.key` is used as a condition, so a column whose key is the
  empty string can become the sort key but never sorts anything
  (`DataTable.IsActive`).
- `isAllSelected` compares lengths, not identities. A selection of two
  other rows counts as "all selected" for a two-row view
  (`DataTable.AllSelectedCountsEntries`). The count agrees with the
  identity reading when the selection holds distinct rows of a view
  without repeats (`DataTable.AllSelectedMatchesIdentity`). The model keeps
  the count, as the source does.
- The header checkbox selects the whole view even in single mode, so the
  code does not keep a single-mode selection to one row
  (`DataTable.SelectAllClickResult`).
- An optional string prop that is absent is modelled as `""`. The
  components only use such props as conditions.

Functions and the source lines they model. Their contracts and the lemmas
about them are listed in the table below.

- `DataTable.HandleSort`: `handleSort`, src/components/DataTable.tsx:55-64.
- `DataTable.SortedView`: `sortedData`, src/components/DataTable.tsx:66-80.
- `DataTable.HandleRowSelect`: `handleRowSelect`, src/components/DataTable.tsx:82-99.
- `DataTable.HandleSelectAll`: `handleSelectAll`, src/components/DataTable.tsx:101-107.
- `DataTable.GetRowKey`: `getRowKey`, src/components/DataTable.tsx:109-117.
- `DataTable.IsSelected`: `isRowSelected`, src/components/DataTable.tsx:119-121.
- `DataTable.IsAllSelected` and `DataTable.IsIndeterminate`: the two flags, src/components/DataTable.tsx:123-124.
- `DataTable.DisplayOf`: the loading and empty early returns, src/components/DataTable.tsx:126-147.
- `DataTable.Step`: the header checkbox (155-170), the header click (177), the row click (210), the row checkbox (214-217) and the pager buttons (246-258) of src/components/DataTable.tsx.
- `Pagination.FirstShown` and `Pagination.LastShown`: the summary line, src/components/DataTable.tsx:241-243.
- `Pagination.PrevDisabled` and `Pagination.NextDisabled`: the buttons' `disabled`, src/components/DataTable.tsx:248 and 258; `Pagination.PrevRequest` and `Pagination.NextRequest`: their `onChange` calls, lines 247 and 257.
- `LegacyDataTable.Step`: the header checkbox (components/DataTable.js:94-95), the header click (104) and the row checkbox (141-142).
- `InputField.Resync`: the `[value]` effect, src/components/InputField.tsx:57-59.
- `InputField.HandleChange`: `handleChange`, src/components/InputField.tsx:61-67.
- `InputField.HandleClear`: `handleClear`, src/components/InputField.tsx:69-78.
- `InputField.SizeOf`: `getSizeClasses`, src/components/InputField.tsx:80-89.
- `InputField.PaletteOf`: `getVariantClasses`, src/components/InputField.tsx:91-117.
- `InputField.EffectiveType`: `inputType`, src/components/InputField.tsx:119.
- `InputField.InputId` and `InputField.HasError`: src/components/InputField.tsx:120-121.
- `InputField.RequiredMarker` and `InputField.LabelOf`: the label and its `*`, src/components/InputField.tsx:125-135.
- `InputField.DescribedBy`: `aria-describedby`, src/components/InputField.tsx:157.
- `InputField.ToggleShown` and `InputField.TogglePassword`: the password toggle, src/components/InputField.tsx:163-177.
- `InputField.ClearShown`: the clear button's condition, src/components/InputField.tsx:179.
- `InputField.HelperSlot`: the helper row, src/components/InputField.tsx:193-202.
- `InputField.Step`: the effect (57-59), the input's `onChange` (144), the toggle (166) and the clear button (182) of src/components/InputField.tsx.
- `LegacyInputField.Step`: the effect (components/InputField.js:20-22), `handleChange` (24-30), the toggle (107-116) and the clear button (118-121).

## Model

| member | source | states |
|---|---|---|
| Values.StrLessIrreflexive | src/components/DataTable.tsx:76-77 | string `<` never holds between a string and itself |
| Values.StrLessTransitive | src/components/DataTable.tsx:76-77 | string `<` is transitive |
| Values.StrLessTotal | src/components/DataTable.tsx:76-77 | of two different strings, one is less than the other |
| Values.LessIsStrictOrder | src/components/DataTable.tsx:76-77 | the `<` the comparator applies to field values is irreflexive and transitive, on values of any kinds |
| Values.LessTotalOnSameKind | src/components/DataTable.tsx:76-77 | on two different numbers or two different strings, one is less than the other |
| Values.NatToString | src/components/DataTable.tsx:116 | `String(index)` is a non-empty string of decimal digits without a leading zero |
| Values.ParseNatToString | src/components/DataTable.tsx:116 | reading the digits of `String(n)` back gives `n` |
| Values.IntToString | src/components/DataTable.tsx:114 | `String(i)` of an integer starts with `-` exactly when it is negative |
| Values.NatToStringInjective | src/components/DataTable.tsx:116 | different indices have different decimal strings |
| Values.IntToStringInjective | src/components/DataTable.tsx:114 | different integers have different decimal strings |
| Sorting.CompareIsAntisymmetric | src/components/DataTable.tsx:69-79 | swapping the comparator's arguments negates its answer, and a row compares equal to itself |
| Sorting.CompareZeroIsEqualField | src/components/DataTable.tsx:73-78 | on two values of one kind the comparator answers 0 exactly for equal values, so "compares equal" is an equivalence on a one-kind field |
| Sorting.MixedFieldBreaksEquality | src/components/DataTable.tsx:73-78 | for the values 3, missing, 1, both neighbouring pairs compare equal while 1 and 3 do not: on mixed fields the comparator is not consistent |
| Sorting.BeforeByDirection | src/components/DataTable.tsx:76-77 | ascending puts `a` first exactly when its field is less; descending exactly when it is greater |
| Sorting.BeforeIsStrictOrder | src/components/DataTable.tsx:69-79 | "goes first" is irreflexive and transitive for every comparator the table uses |
| Sorting.BeforeReadsOnlyField | src/components/DataTable.tsx:73-77 | the comparator reads nothing of a row but the active field |
| Sorting.InsertPermutes | src/components/DataTable.tsx:69 | inserting a row adds exactly that row: the result's multiset is the input's plus the row |
| Sorting.SortPermutes | src/components/DataTable.tsx:69 | the sorted copy is a permutation of the data |
| Sorting.InsertKeepsSorted | src/components/DataTable.tsx:69-79 | inserting into an ordered sequence keeps it ordered |
| Sorting.SortIsSorted | src/components/DataTable.tsx:69-79 | the sorted copy never has a row before one the comparator puts ahead of it |
| Sorting.InsertIsStable | src/components/DataTable.tsx:69-79 | inserting a row keeps, for every value, the rows with that value in the same relative order |
| Sorting.SortIsStable | src/components/DataTable.tsx:69-79 | rows with equal values in the sort field keep their input order |
| Sorting.SortIsStableAt | src/components/DataTable.tsx:69-79 | for every value, the rows holding it appear in the sorted copy in input order |
| Sorting.StableOrderIsUnique | src/components/DataTable.tsx:69-79 | two ordered arrangements of rows of one value kind that keep the same order among the rows of each value are equal |
| Sorting.SortIsTheStableSort | src/components/DataTable.tsx:69-79 | for a field of one value kind, every ordered, stable rearrangement of the data is the model's sort: it is what `[...data].sort(comparator)` returns |
| Sorting.SortKeepOrder | src/components/DataTable.tsx:71 | the comparator that always answers 0 leaves the data in input order |
| Sorting.InsertKeepOrderAppends | src/components/DataTable.tsx:71 | under that comparator a row goes after all others |
| Sorting.InsertRow | src/components/DataTable.tsx:69 | the loop that finds the insertion point computes the functional insertion |
| Sorting.InsertionSort | src/components/DataTable.tsx:66-80 | the loop sort returns a permutation of its input, ordered by the comparator, equal to the functional sort |
| Pagination.SummaryCoversOnePage | src/components/DataTable.tsx:241-243 | on an existing page the summary runs from `(current-1)*pageSize+1` to at most `total`, less than one page apart |
| Pagination.NextEnabledIffItemsRemain | src/components/DataTable.tsx:258 | Next is enabled exactly when items remain after the last one shown |
| Pagination.NextContinuesSummary | src/components/DataTable.tsx:257 | the page Next requests starts right after the current page's last item and exists |
| Pagination.PrevUndoesNext | src/components/DataTable.tsx:247-248 | Previous is offered only where it leads to page 1 or later, and undoes Next |
| Pagination.SummaryExamples | src/components/__tests__/DataTable.test.tsx:151 | the test's first page of 3 items by 2 shows "1 to 2", with Previous disabled and Next enabled; the model's own second example, page 2 of 5 items by 2, shows "3 to 4" with both buttons enabled |
| DataTable.FindColumn | src/components/DataTable.tsx:56 | `columns.find`: none exactly when no column has the key, otherwise a column with that key |
| DataTable.FindColumnIsFirst | src/components/DataTable.tsx:56 | the column found is one of the columns, and no earlier column has the key |
| DataTable.SortTransition | src/components/DataTable.tsx:55-64 | unknown or unsortable column: no change; the active ascending column turns descending; any other sortable column becomes active ascending |
| DataTable.SortClicksAlternate | src/components/DataTable.tsx:55-64 | repeated clicks on one sortable column alternate the direction, with period two |
| DataTable.HandleSortKeepsKeyValid | src/components/DataTable.tsx:55-64 | the sort key only ever names a sortable column, or none |
| DataTable.SortedView | src/components/DataTable.tsx:66-80 | the view is a permutation of the data |
| DataTable.SortedViewKeepsOrder | src/components/DataTable.tsx:66-72 | with no active key, or an active key no column has, the view is the data in input order |
| DataTable.SortedViewIsOrdered | src/components/DataTable.tsx:66-80 | the view is non-decreasing (ascending) or non-increasing (descending) in the active column's field |
| DataTable.SortedViewIsStable | src/components/DataTable.tsx:66-80 | rows with equal values in that field keep input order, in both directions |
| DataTable.SortedViewIsTheStableSort | src/components/DataTable.tsx:66-80 | when the active field holds values of one kind in every row, any ordered arrangement that keeps equal values in input order is the view |
| DataTable.Deselect | src/components/DataTable.tsx:91 | filtering by `!==` leaves no occurrence of the row and never grows the selection |
| DataTable.DeselectCounts | src/components/DataTable.tsx:91 | every other entry is kept as often as it occurred; every occurrence of the row is dropped |
| DataTable.DeselectDistributes | src/components/DataTable.tsx:91 | the filter of a concatenation is the concatenation of the filters |
| DataTable.DeselectAbsent | src/components/DataTable.tsx:91 | filtering out a row that is not selected changes nothing |
| DataTable.HandleRowSelect | src/components/DataTable.tsx:82-99 | checking selects the row, unchecking deselects it; single mode selects just the row or nothing; multiple mode appends after the old entries, or keeps every other entry |
| DataTable.CheckThenUncheck | src/components/DataTable.tsx:88-92 | in multiple mode, unchecking a row just checked restores the selection |
| DataTable.SingleModeReplaces | src/components/__tests__/DataTable.test.tsx:156-175 | in single mode, checking a second row leaves only that row selected |
| DataTable.SelectAllSurvivesSorting | src/components/DataTable.tsx:101-107 | rows selected by select-all are the rows of any later sorted view |
| DataTable.HeaderState | src/components/DataTable.tsx:123-124 | the header checkbox is checked exactly when `isAllSelected`, indeterminate exactly when `isIndeterminate` |
| DataTable.HeaderFlagsExclusive | src/components/DataTable.tsx:123-124 | the two flags never hold together |
| DataTable.AllSelectedCountsEntries | src/components/DataTable.tsx:123 | two rows not in a two-row view count as "all selected" |
| DataTable.AllSelectedMatchesIdentity | src/components/DataTable.tsx:123 | for distinct rows of a view without repeats, "all selected" means every row of the view is selected |
| DataTable.RowKeyFallbacks | src/components/DataTable.tsx:109-117 | the key is the function's answer, else the field as a string (a number's decimal string, `undefined` when absent), else the index as a decimal string that reads back as the index, distinct per index |
| DataTable.NumericFieldKeysDiffer | src/components/DataTable.tsx:113-115 | rows keyed by different numbers get different keys |
| DataTable.DisplayPrecedence | src/components/DataTable.tsx:126-147 | loading wins over everything; otherwise empty data shows the empty text; the table shows exactly when not loading and rows exist |
| DataTable.InertOutsideTable | src/components/DataTable.tsx:126-147 | while loading or empty, no interaction changes state or calls anything |
| DataTable.HeaderClickOnlySorts | src/components/DataTable.tsx:177 | a header click never touches the selection or calls anything; an unsortable header does nothing |
| DataTable.SelectionNotifiesOnce | src/components/DataTable.tsx:95-106 | a checkbox click changes the selection exactly when the checkbox is rendered and its row exists; it calls `onRowSelect` once with the new selection if the caller supplied it and the selection changed, and calls nothing otherwise; the sort is left alone |
| DataTable.RowCheckboxToggles | src/components/DataTable.tsx:214-217 | a row checkbox toggles its row; in single mode the selection becomes just that row, or empty when it was selected |
| DataTable.SelectAllClickResult | src/components/DataTable.tsx:155-165 | the header checkbox clears a complete selection and otherwise selects the whole view, which then counts as complete |
| DataTable.RowClickReportsSortedPosition | src/components/DataTable.tsx:204-210 | a row click reports the row and its position in the sorted view, and changes nothing |
| DataTable.PagerButtons | src/components/DataTable.tsx:245-262 | the footer buttons change no state; each requests its neighbouring page with the same page size only when enabled |
| LegacyDataTable.SortedView | components/DataTable.js:23-35 | the legacy view is a permutation of the data; it exists for at most one row, without an active key, or when the active column is found |
| LegacyDataTable.SortedViewAgrees | components/DataTable.js:23-35 | where it can be computed, the legacy view is the typed view, so it is ordered and stable |
| LegacyDataTable.RenderableInvariant | components/DataTable.js:10-21 | while the props stay the same, the view stays computable initially and after every interaction |
| LegacyDataTable.KeyFoundInvariant | components/DataTable.js:10-21 | the active key names a column at mount and after every interaction, for any rows, as long as the columns stay the same; a key that names a column makes the view computable for any rows |
| LegacyDataTable.DroppedColumnBreaksView | components/DataTable.js:26-28 | after a header click makes a column active, props without that column leave the view of two rows uncomputable |
| LegacyDataTable.HandleRowSelect | components/DataTable.js:37-48 | checking appends the row, unchecking drops every occurrence and keeps every other entry |
| LegacyDataTable.RowSelectIsMultipleMode | components/DataTable.js:37-48 | legacy row selection is the typed multiple mode |
| LegacyDataTable.HeaderClickSorts | components/DataTable.js:12-21 | the typed transition rule; given unique keys an unsortable header does nothing; the selection is untouched |
| LegacyDataTable.RowCheckboxToggles | components/DataTable.js:37-48 | a row checkbox toggles its row, appends it when checked, and calls `onRowSelect` once |
| LegacyDataTable.SelectAllClickResult | components/DataTable.js:50-59 | select-all clears a complete selection or selects the whole view, flips the checked state and calls `onRowSelect` once |
| LegacyDataTable.DisplayPrecedence | components/DataTable.js:61-82 | loading wins over empty, which wins over the table; both texts are fixed |
| LegacyDataTable.RefinesTyped | components/DataTable.js:1-59 | the legacy table mounts in the typed table's initial state, and with unique column keys every legacy interaction does what the typed table does with the corresponding props |
| LegacyDataTable.HeaderClickRefines | components/DataTable.js:104 | with unique column keys, a legacy header click does what the typed one does |
| LegacyDataTable.RowCheckboxRefines | components/DataTable.js:141-142 | a legacy row checkbox click does what the typed one does in multiple mode |
| LegacyDataTable.DuplicateKeysDiverge | components/DataTable.js:104 | with a duplicate key, a click on an unsortable header sorts by the earlier column in the legacy table only |
| InputField.PalettePrecedence | src/components/InputField.tsx:91-117 | disabled beats error (`invalid` or an error message), which beats normal; `filled` and `ghost` are their own variants, anything else is outlined |
| InputField.StyleAxesIndependent | src/components/InputField.tsx:80-89 | `sm` and `lg` pick their own size, anything else medium; size and palette do not affect each other |
| InputField.StyleExamples | src/components/__tests__/InputField.test.tsx:94-112 | the filled, ghost, small and large looks the tests check, plus the default look |
| InputField.HelperSlotRule | src/components/InputField.tsx:193-202 | the helper row shows exactly with a helper text or error message, preferring the error; `aria-describedby` is set exactly then |
| InputField.InputIdFallback | src/components/InputField.tsx:120 | the id is `id`, else `name`, else the generated id |
| InputField.RequiredMarkerRule | src/components/InputField.tsx:125-135 | the `*` shows exactly with a label and `required`, and it is exactly a `*` child of the rendered label, after the label text |
| InputField.LabelRule | src/components/InputField.tsx:120-135 | the label renders exactly when there is a label text, starts with it, is for the input's id, and takes the error tone exactly when `invalid` or an error message is set |
| InputField.MountMirrorsValue | src/components/InputField.tsx:54-55 | a mounted field holds its `value` prop and is masked if it is a password |
| InputField.PropValueWins | src/components/InputField.tsx:57-59 | a changed `value` prop overrides what was typed; an unchanged one keeps it |
| InputField.TypingReportsOnce | src/components/InputField.tsx:61-67 | typing sets the value and calls `onChange` exactly once, with the typed text |
| InputField.ClearEmpties | src/components/InputField.tsx:69-78 | clearing empties the value, reports `""` once, hides the button, and is idempotent |
| InputField.ClearButtonAfterTyping | src/components/InputField.tsx:179 | the clear button shows exactly for an enabled field with `showClearButton` and a non-empty value |
| InputField.ToggleOnlyReveals | src/components/InputField.tsx:163-177 | the toggle exists only for passwords, never changes the value or calls `onChange`, and two clicks undo each other |
| InputField.PasswordMasking | src/components/__tests__/InputField.test.tsx:67-77 | a password field is masked, revealed by one click, masked again by the next |
| InputField.EffectiveTypeRule | src/components/InputField.tsx:119 | the type is `text` exactly for text fields and revealed passwords; it differs from `type` only for a revealed password |
| LegacyInputField.RefinesTyped | components/InputField.js:16-41 | mounting and every event do what the typed field does with the corresponding props |
| LegacyInputField.MirrorAndTyping | components/InputField.js:16-30 | the value starts as the prop and is overridden by a new one; typing sets it and reports it once |
| LegacyInputField.ClearEmpties | components/InputField.js:32-41 | clear acts exactly when its button shows, empties the value, reports exactly `""` once when `onChange` is supplied and nothing otherwise, and a second click does nothing |
| LegacyInputField.ToggleOnlyReveals | components/InputField.js:107-116 | the toggle flips only `showPassword`, only on a password field; the type is `text` exactly for text fields and revealed passwords |
| LegacyInputField.StylePrecedence | components/InputField.js:43-80 | disabled beats error, which beats normal, per variant; the size is chosen independently |
| LegacyInputField.HelperWiring | components/InputField.js:131-138 | the helper row prefers the error message, shows exactly with either text, and is what the input is described by, under the fixed id `input-help` |
| LegacyInputField.NoRequiredMarker | components/InputField.js:86-90 | the legacy label has no required marker: its only child is the label text |

## Left out

- Rendering: JSX markup, icons, the literal Tailwind class strings (modelled as style buckets), `className`, placeholders and aria labels other than `aria-describedby`.
- React machinery: hooks, `useMemo` caching and the timing of re-renders; `forwardRef`; the ref callback that sets the DOM `indeterminate` flag (modelled as the tri-state `HeaderState`).
- `column.render` and the `String(x ?? '')` cell text: these are caller code and JavaScript coercion.
- JavaScript's `<` between a number and a string, or involving `undefined` or other types, is modelled as "not less" either way.
- Values.IntToString: numbers are modelled as integers. JavaScript numbers are doubles, so fractions, `NaN`, infinities and the precision limit above 2^53 are left out, and `String(n)` switches to exponent form for |n| ≥ 1e21. `DataTable.NumericFieldKeysDiffer` relies on the integer reading.
- String `<` compares UTF-16 code units; here it compares Dafny characters.
- The `Math.random` part of the generated input id is a parameter of `InputField.InputId`.
- The legacy `try/catch` that renders nothing on an error, and the unused `isFocused` flag of the legacy input.
- DOM behaviour: a checkbox click bubbling to the row's `onRowClick`, typing into a disabled or read-only input, `autoFocus`, `maxLength` and `pattern`. The spread of extra props onto the input is also left out.
- `onChange` receives an event in the source; the model records only the value it carries.
- Sorting.SortIsTheStableSort: requires the sort field to hold values of one kind. Between a number and a string, or with a missing field (`undefined`), the modelled `<` is not a total order, and the source's result then depends on the engine's sort algorithm.
- DataTable.SortedView: on a field that mixes numbers and strings or is missing in some rows, the comparator is not consistent. The model's insertion sort then gives one admissible order, not necessarily the engine's: for the values 3, missing, 1 the model gives 1, 3, missing, while an engine may return the input unchanged. `DataTable.SortedViewIsOrdered` and `DataTable.SortedViewIsStable` describe the model's view; only for one-kind fields does `DataTable.SortedViewIsTheStableSort` tie them to the program's result.
- LegacyDataTable.SortedView: requires that the table has at most one row, no active sort key, or an active sort key that names a column. The legacy comparator dereferences the looked-up column without a guard, and the sort calls it only for two rows or more. `LegacyDataTable.KeyFoundInvariant` shows the requirement holds for every state the table reaches as long as `columns` does not change, whatever rows it is given meanwhile.
- A new `columns` prop without the active column: `sortedData` is recomputed (components/DataTable.js:35), and with two or more rows the comparator reads a field of `undefined` (line 28) and throws. The legacy `try/catch` then renders nothing. The model has no view for this case (`LegacyDataTable.DroppedColumnBreaksView`). The typed table checks for the missing column and keeps the caller's order (src/components/DataTable.tsx:71, `DataTable.SortedViewKeepsOrder`).
- LegacyDataTable.RefinesTyped: holds only for unique column keys. With a duplicate key the legacy header click differs (`LegacyDataTable.DuplicateKeysDiverge`).
- The demo pages, story catalogs and re-exports contain no component logic.
