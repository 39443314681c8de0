# HildonTouchSelector, modelled in Dafny

`HildonTouchSelector` is the Hildon (Maemo) widget that shows one or more
scrollable columns side by side. Each column shows the rows of a tree model
whose field 0 is a string. The user picks one row per column, or, in
multiple mode, any number of rows of the first column. The widget also
turns the current choice into one string: the default print function, or a
print function the application sets.

This project models the selector's core, `src/hildon-touch-selector.c`:
the column list, the selection in each column, the text helpers of the
`new_text` convenience selector, and the default print function. It then
proves what these operations promise.

The model has four modules:

- `Wrappers` (`wrappers.dfy`): `Option`, where `None` stands for a NULL pointer.
- `SelectorState` (`selector_state.dfy`): the state of a selector as values.
  - A `Column` holds its pannable-area identity, its model (`Option<TreeModel>`),
    the GTK selection mode of its tree view, and the set of selected row positions.
  - The read-only API is written as functions of the column list:
    `get_column_selection_mode`, `get_active_iter`, `get_selected_rows`,
    `get_model`, `has_multiple_selection`, and the "changed" payload.
    `get_num_columns` is `|columns|`.
  - Each state change is a function on a column.
  - The invariant `WellFormed` holds for every selector.
- `Formatter` (`formatter.dfy`): what `_default_print_func` returns, stated
  declaratively (`DefaultText`).
  - Its shape is proved in each mode.
  - So is the round trip back to the selected texts.
  - So is its behaviour on the edge cases.
- `TouchSelector` (`touch_selector.dfy`): class `Selector`.
  - It has the fields `columns` and `printFunc`, which the API's operations update in place.
  - Every mutating method states its new state in terms of the old one and keeps `Valid()`.
  - `DefaultPrintFunc` keeps the source's two loops, and is proved equal to `DefaultText`.

Behaviour taken from GTK 2, whose code is not part of this model:

- `gtk_tree_view_set_cursor` clears the selection and selects the cursor row.
  So after `set_active_iter` the column has exactly that row selected, in every mode.
- `gtk_tree_view_set_model` compares model pointers. It drops the selection when
  the pointer changes, even to another model with the same rows, and does nothing
  when the model object is the one already set. A `TreeModel` therefore carries
  the identity of its object (`store`), and `set_model` compares identities.
- Inserting a row into a list store keeps the selection on the same rows.
  Positions at or after the insertion point move up by one.
- `gtk_list_store_insert` appends when the position is past the end.
- `g_strconcat` with a NULL first argument returns NULL.
- `gtk_container_remove` refuses a widget whose parent is not the container.
  This decides what `remove_column` does as written (see "## Findings").

On a column with an empty model, `set_column_selection_mode` reads an
uninitialised value. `gtk_tree_model_get_iter_first` fails at line 850 of `src/hildon-touch-selector.c` and
leaves `iter` unset, and line 852 then passes that iterator to
`gtk_tree_selection_select_iter`. What happens then is not defined by the C
code. The model takes it as selecting no row (see "## Left out").

## Model

| member | source | states |
|---|---|---|
| SelectorState.NewColumn | src/hildon-touch-selector.c:439-451 | a new column keeps the model it is given, is in browse mode, and selects only rows of that model |
| SelectorState.NewColumnSelection | src/hildon-touch-selector.c:445-451 | a new column has row 0 selected and active when its model has rows, and nothing selected otherwise |
| SelectorState.ColumnSelectionMode | src/hildon-touch-selector.c:786-811 | the selector is in multiple mode exactly when it has a column and column 0's tree view is in GTK multiple mode; with no columns it reports single |
| SelectorState.HasMultipleSelection | src/hildon-touch-selector.c:1145-1154 | true exactly when there are at least two columns, or one column in multiple mode; false with no columns |
| SelectorState.MultipleSelectionAfterChanges | src/hildon-touch-selector.c:1145-1154 | appending a column to a non-empty selector makes it need a confirmation step; after setting the mode, it needs one exactly when there are two or more columns or the mode is multiple; a single column in single mode needs none |
| SelectorState.RowsFrom | src/hildon-touch-selector.c:1008-1011 | the enumeration of selected positions in a range is strictly increasing, lies in the range and in the selection, and misses no selected position of the range |
| SelectorState.SelectedRows | src/hildon-touch-selector.c:1008-1011 | a column's selected rows, listed in view order: strictly increasing rows of its model, each one selected |
| SelectorState.SelectedRowsAreSelection | src/hildon-touch-selector.c:1008-1011 | for a valid column, a row is listed exactly when it is selected |
| SelectorState.GetSelectedRows | src/hildon-touch-selector.c:996-1014 | the empty list for a column that does not exist; otherwise increasing rows of that column's model |
| SelectorState.GetSelectedRowsIsSelection | src/hildon-touch-selector.c:996-1014 | for an existing column of a well-formed selector, a row is listed exactly when it is selected |
| SelectorState.SelectedTexts | src/hildon-touch-selector.c:328-332 | one field-0 text for each selected row, in view order |
| SelectorState.ColumnActive | src/hildon-touch-selector.c:927-931 | the active row is a selected row of the model; a column in multiple mode has none |
| SelectorState.ColumnActiveIsSelection | src/hildon-touch-selector.c:927-931 | for a valid column not in multiple mode, there is an active row exactly when something is selected, and then it is the only selected row |
| SelectorState.ActiveIter | src/hildon-touch-selector.c:914-932 | fails in multiple mode and for a column that does not exist; a result is a selected row of that column's model |
| SelectorState.ActiveIterIsSelection | src/hildon-touch-selector.c:914-932 | in single mode, for an existing column of a well-formed selector, there is a result exactly when the column has a selection, and then the selection is exactly that row |
| SelectorState.GetModel | src/hildon-touch-selector.c:1026-1037 | the model of an existing column, and NULL for a column that does not exist |
| SelectorState.ColumnPosition | src/hildon-touch-selector.c:375-390 | the payload of "changed" is the position of the column in the list (its first occurrence), and -1 exactly when it is not in the list |
| SelectorState.ColumnPositionOfColumn | src/hildon-touch-selector.c:375-390 | in a well-formed selector the payload for column k is k |
| SelectorState.SetModeSelectsFirst | src/hildon-touch-selector.c:821-855 | after setting the mode, the selector reports that mode, column 0 has only its first row selected (nothing for an empty model), no model changes, and the invariant holds |
| SelectorState.WithActiveIsActive | src/hildon-touch-selector.c:966-967 | selecting a row and putting the cursor on it makes it the active row of a column not in multiple mode |
| SelectorState.SetThenGetActive | src/hildon-touch-selector.c:946-967 | in single mode, after `set_active_iter(c, r)`, `get_active_iter(c)` yields r; other columns are unchanged and the invariant holds |
| SelectorState.SetThenGetModel | src/hildon-touch-selector.c:1040-1069 | after `set_model(c, m)`, `get_model(c)` yields m; other columns keep their models; a different model object leaves nothing selected, and the same object changes nothing; the invariant holds |
| SelectorState.OtherStoreDropsActive | src/hildon-touch-selector.c:1046-1050 | setting another model object with the same rows still empties the column's selection: it has no active row and no selected rows afterwards |
| SelectorState.RemoveKeepsWellFormed | src/hildon-touch-selector.c:266-280 | dropping a column keeps the invariant |
| SelectorState.InsertKeepsValid | src/hildon-touch-selector.c:509-580 | inserting a row keeps the column valid |
| SelectorState.InsertedRows | src/hildon-touch-selector.c:509-580 | after an insertion every old row is still there, and the rows from the insertion point on have moved up by one |
| SelectorState.InsertKeepsSelectedTexts | src/hildon-touch-selector.c:509-580 | after an insertion the selected texts, in view order, are the same |
| SelectorState.InsertKeepsWellFormed | src/hildon-touch-selector.c:509-580 | inserting a row into column 0 keeps the invariant |
| SelectorState.InsertKeepsSelection | src/hildon-touch-selector.c:509-580 | the new row sits at the insertion point between the old rows and is not selected; the selected texts are unchanged |
| SelectorState.NegativeColumnPassesGuard | src/hildon-touch-selector.c:685-697 | as written, column -1 passes the `column < num_columns` guard although it is no column, and the lookup then yields NULL |
| SelectorState.ValidColumnFindsColumn | src/hildon-touch-selector.c:685-697 | with the corrected guard the lookup finds the column asked for; the corrected guard differs from the written one only on negative positions |
| SelectorState.RemoveColumnAsWritten | src/hildon-touch-selector.c:684-698 | `remove_column` as written: FALSE past the last column; NULL dereference for a position the lookup misses; otherwise TRUE, with the column list unchanged because the container refuses a widget that is not its direct child |
| SelectorState.RemoveColumnAsWrittenKeepsColumn | src/hildon-touch-selector.c:693-697 | as written, removing an existing column k reports TRUE, yet the column is still in the list at position k |
| SelectorState.RemoveDropsColumn | src/hildon-touch-selector.c:274-275 | dropping column k leaves one column fewer, in which k's pannable area is no longer found, and every other column keeps its order |
| Formatter.ListPrefixStep | src/hildon-touch-selector.c:328-344 | each selected text is appended in turn, followed by ',' except after the last one |
| Formatter.ListPrefixEnd | src/hildon-touch-selector.c:346-348 | the closing parenthesis completes the comma-separated list of the selected texts |
| Formatter.SingleTextStart | src/hildon-touch-selector.c:357-368 | after column 0 the text is column 0's active text, or NULL |
| Formatter.SingleTextStep | src/hildon-touch-selector.c:357-369 | visiting a later column appends ':' and its active text when it has one; a NULL text stays NULL |
| Formatter.DefaultTextIsNull | src/hildon-touch-selector.c:300-373 | the default text is NULL exactly when there are no columns, or when the mode is single and column 0 has no active row |
| Formatter.SingleModeRoundTrip | src/hildon-touch-selector.c:357-369 | in single mode, splitting the text at ':' gives back the active texts of all columns in order, provided none contains ':' |
| Formatter.MultipleModeShape | src/hildon-touch-selector.c:320-348 | in multiple mode the text is column 0's selected texts in parentheses: "()" for no selection; otherwise splitting inside the parentheses at ',' gives back exactly the selected texts, provided none contains ',' |
| Formatter.MultipleModeIgnoresLaterColumns | src/hildon-touch-selector.c:352-359 | in multiple mode the columns after column 0 do not change the text |
| Formatter.SkipInactiveColumn | src/hildon-touch-selector.c:359-369 | a later column with no active row adds nothing, not even a separator |
| Formatter.DefaultTextFromParts | src/hildon-touch-selector.c:300-373 | the text depends only on the mode, column 0's active row and selected texts, and the active texts of the later columns |
| Formatter.InsertKeepsDefaultText | src/hildon-touch-selector.c:509-580 | adding a row to column 0's list store, at any position, leaves the default text unchanged |
| Formatter.ExampleSingleColumn | src/hildon-touch-selector.c:357-369 | one column with "Bob" active gives "Bob" |
| Formatter.ExampleTwoColumns | src/hildon-touch-selector.c:357-369 | two columns with "Red" and "Large" active give "Red:Large" |
| Formatter.ExampleMultiple | src/hildon-touch-selector.c:320-348 | multiple mode with "A", "B" and "C" selected gives "(A,B,C)" |
| TouchSelector.Selector.constructor | src/hildon-touch-selector.c:216-225 | a new selector has no columns and uses the default print function |
| TouchSelector.Selector.NewText | src/hildon-touch-selector.c:487-499 | a text selector has a single column over a new, empty list store |
| TouchSelector.Selector.AppendColumn | src/hildon-touch-selector.c:608-634 | a NULL model is refused and nothing changes; otherwise the new column goes last, reports that model, and its "changed" payload is its position |
| TouchSelector.Selector.AppendTextColumn | src/hildon-touch-selector.c:649-673 | the same column list as `append_column`; `center` changes nothing the model tracks |
| TouchSelector.Selector.Remove | src/hildon-touch-selector.c:252-289 | the loop drops the first column whose pannable area is the widget, and leaves the list unchanged when no column has it |
| TouchSelector.Selector.RemoveColumn | src/hildon-touch-selector.c:685-698 | the intended behaviour (see Findings): succeeds exactly for an existing position, and then removes exactly that column, whose pannable area is no longer in the list |
| TouchSelector.Selector.SetColumnSelectionMode | src/hildon-touch-selector.c:821-855 | column 0 gets the mode and only its first row selected, and the selector then reports that mode; nothing happens with no columns |
| TouchSelector.Selector.SetActiveIter | src/hildon-touch-selector.c:946-978 | for an existing column the row becomes its only selected row, and nothing else changes; otherwise nothing changes |
| TouchSelector.Selector.SetModel | src/hildon-touch-selector.c:1040-1069 | for an existing column `get_model` then yields the new model, and a different model object leaves nothing selected; otherwise nothing changes |
| TouchSelector.Selector.SetPrintFunc | src/hildon-touch-selector.c:870-876 | stores the print function and changes no column |
| TouchSelector.Selector.GetPrintFunc | src/hildon-touch-selector.c:889-894 | the stored print function, `None` while the default one is in use |
| TouchSelector.Selector.AppendText | src/hildon-touch-selector.c:510-526 | the text becomes the last row of column 0's list store, and the default text is unchanged; with a NULL text, no column, or a model that is not a list store, nothing changes |
| TouchSelector.Selector.PrependText | src/hildon-touch-selector.c:536-552 | the text becomes the first row of column 0's list store, under the same conditions; the default text is unchanged |
| TouchSelector.Selector.InsertText | src/hildon-touch-selector.c:564-580 | the text is inserted at the position, or at the end when the position is past it; a negative position is refused; the default text is unchanged |
| TouchSelector.Selector.SelectedList | src/hildon-touch-selector.c:320-348 | the multiple-mode loop builds column 0's selected texts, comma-separated, in parentheses |
| TouchSelector.Selector.DefaultPrintFunc | src/hildon-touch-selector.c:300-373 | the two loops return exactly `DefaultText` of the columns |
| TouchSelector.Selector.GetCurrentText | src/hildon-touch-selector.c:1081-1093 | the user print function's result when one is set, and otherwise the default text |

## Left out

- GObject and GTK machinery is not modelled: type checks on `selector`, properties, signals, tree views, renderers and packing. `g_return_if_fail` on a non-selector instance cannot happen here.
- `set_column_attributes` and the renderer attribute varargs of `append_column` are not modelled: they only affect drawing.
- Scrolling is not modelled: the scroll in `set_active_iter`, the 50 ms timeout in `map`, and `center_on_selected_items`. None of them changes the selection. The centring loop stops at column 0 in multiple mode.
- The `xalign` float that `append_text_column` sets when `center` is true is not modelled.
- Memory management (`g_free`, path lists) and the `g_print`/`g_debug` messages are not modelled.
- Models are values with an identity. The model does not capture one list store shared by two columns, or a model changed behind the selector's back.
- TouchSelector.Selector.SetModel: its `requires` asks that a model with the identity of the column's own model also have that model's rows. A model object has only one content at a time, so this excludes no call the source can make.
- SelectorState.SetModeSelectsFirst: on an empty model, `set_column_selection_mode` passes an unset iterator to `gtk_tree_selection_select_iter`. The model takes this as selecting no row. The C code does not define the result.
- Subclasses that override `set_model` or `has_multiple_selection` are not modelled. Only the defaults installed in `class_init` are.
- A user print function is a total function of the column list. What it does to the selector is not modelled.
- Row texts are never NULL. A NULL field 0 would end a `g_strconcat` early; that is not modelled.
- Counts are unbounded integers: `gint` and `guint` overflow of column and row counts is not modelled, except in the column-index lookup (see Findings).
- TouchSelector.Selector.SetActiveIter: a NULL iterator, or one that belongs to another model, is excluded by its `requires` rather than modelled.
- The "changed" signal is not modelled: its emission and its handlers are left out. Only its payload is (`ColumnPosition`).

## Findings

| source | as written | input that shows it | evidently intended | confidence | as-written member | corrected member |
|---|---|---|---|---|---|---|
| src/hildon-touch-selector.c:690-695 | `remove_column` (and `get_active_iter`, `set_active_iter`, `get_selected_rows`, `get_model`, `set_model`) guards the `gint` column with `column < num_columns` only, then passes it to `g_slist_nth_data`, whose position is a `guint` | column = -1 on a selector with one column: the guard holds, the lookup of position 0xFFFFFFFF gives NULL, and `current_column->panarea` dereferences NULL | refuse negative positions: `0 <= column < num_columns` | high (not executed) | SelectorState.NegativeColumnPassesGuard | SelectorState.ValidColumnFindsColumn |
| src/hildon-touch-selector.c:693-697 | `remove_column` calls `gtk_container_remove` on the selector itself. The column's pannable area is packed in the selector's box (line 626), and that box in the selector (line 228). GTK 2's `gtk_container_remove` refuses a widget whose parent is not the container, so the selector's `remove` (lines 252-289) never runs | `remove_column(selector, 0)` on a selector with one column: the call is refused, the column stays in the list, and the result is TRUE | remove the pannable area from the box and drop the column from the list, so that it is gone and TRUE is true | medium (not executed; rests on GTK 2's direct-child check, whose code is not part of this model) | SelectorState.RemoveColumnAsWrittenKeepsColumn | TouchSelector.Selector.RemoveColumn |
