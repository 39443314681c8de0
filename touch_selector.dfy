/**
 * The HildonTouchSelector object: a list of columns that its operations
 * update in place, and an optional user print function. The getters of the
 * C API are the functions of `SelectorState` applied to `columns`
 * (`|columns|` for `get_num_columns`).
 */
module TouchSelector {
  import opened Wrappers
  import opened SelectorState
  import opened Formatter

  class Selector {
    /** The selector's private column list, in display order. */
    var columns: seq<Column>
    /** The user print function; `None` when the default one is in use. */
    var printFunc: Option<PrintFunc>
    /** The identity the next created pannable area gets. */
    var nextPanarea: Widget

    ghost predicate Valid()
      reads this
    {
      WellFormed(columns) &&
      forall k :: 0 <= k < |columns| ==> columns[k].panarea < nextPanarea
    }

    /** `hildon_touch_selector_new`: no columns and the default print function. */
    constructor ()
      ensures Valid()
      ensures columns == [] && printFunc == None
    {
      columns := [];
      printFunc := None;
      nextPanarea := 0;
    }

    /** `hildon_touch_selector_new_text`: one text column over an empty list
        store; `store` is the identity of the store `gtk_list_store_new` creates. */
    constructor NewText(store: ModelId)
      ensures Valid()
      ensures columns == [NewColumn(0, TreeModel(store, ListStore, []))] && printFunc == None
      ensures HasTextStore(columns)
    {
      columns := [];
      printFunc := None;
      nextPanarea := 0;
      new;
      var added := AppendTextColumn(Some(TreeModel(store, ListStore, [])), true);
    }

    /** `hildon_touch_selector_append_column`: a NULL model is refused;
        otherwise a new column (browse mode, first row selected) goes last. */
    method AppendColumn(model: Option<TreeModel>) returns (added: bool)
      requires Valid()
      modifies this
      ensures Valid()
      ensures added <==> model.Some?
      ensures columns == if added then old(columns) + [NewColumn(old(nextPanarea), model.value)] else old(columns)
      ensures added ==> GetModel(columns, |old(columns)|) == model
      ensures added ==> ColumnPosition(columns, columns[|old(columns)|].panarea) == |old(columns)|
      ensures printFunc == old(printFunc)
    {
      if model.None? {
        return false;
      }
      var column := NewColumn(nextPanarea, model.value);
      columns := columns + [column];
      nextPanarea := nextPanarea + 1;
      ColumnPositionOfColumn(columns, |columns| - 1);
      added := true;
    }

    /** `hildon_touch_selector_append_text_column`: `append_column` with a
        text renderer on field 0; `center` only sets the renderer's alignment. */
    method AppendTextColumn(model: Option<TreeModel>, center: bool) returns (added: bool)
      requires Valid()
      modifies this
      ensures Valid()
      ensures added <==> model.Some?
      ensures columns == if added then old(columns) + [NewColumn(old(nextPanarea), model.value)] else old(columns)
      ensures printFunc == old(printFunc)
    {
      if model.None? {
        return false;
      }
      added := AppendColumn(model);
    }

    /** The container's `remove`: walks the column list and drops the first
        column whose pannable area is `widget`; a widget that is not a column
        leaves the list as it was. */
    method Remove(widget: Widget)
      requires Valid()
      modifies this
      ensures Valid()
      ensures ColumnPosition(old(columns), widget) == -1 ==> columns == old(columns)
      ensures var k := ColumnPosition(old(columns), widget);
              k >= 0 ==> columns == old(columns)[..k] + old(columns)[k + 1..]
      ensures printFunc == old(printFunc) && nextPanarea == old(nextPanarea)
    {
      var position := 0;
      while position < |columns|
        invariant 0 <= position <= |columns|
        invariant columns == old(columns)
        invariant forall k :: 0 <= k < position ==> columns[k].panarea != widget
        decreases |columns| - position
      {
        if columns[position].panarea == widget {
          RemoveKeepsWellFormed(columns, position);
          columns := columns[..position] + columns[position + 1..];
          return;
        }
        position := position + 1;
      }
    }

    /** `hildon_touch_selector_remove_column` as it is meant to work: the
        column at position `column` leaves the list, as the container's
        `remove` would drop it. (`SelectorState.RemoveColumnAsWritten` is the
        code as written, which leaves the list unchanged.) */
    method RemoveColumn(column: int) returns (removed: bool)
      requires Valid()
      modifies this
      ensures Valid()
      ensures removed <==> ValidColumn(column, |old(columns)|)
      ensures columns == if removed then old(columns)[..column] + old(columns)[column + 1..] else old(columns)
      ensures removed ==> ColumnPosition(columns, old(columns)[column].panarea) == -1
      ensures printFunc == old(printFunc)
    {
      if !ValidColumn(column, |columns|) {
        return false;
      }
      ColumnPositionOfColumn(columns, column);
      RemoveDropsColumn(columns, column);
      Remove(columns[column].panarea);
      removed := true;
    }

    /** `hildon_touch_selector_set_column_selection_mode`: sets column 0's
        mode, clears its selection and selects its first row; nothing happens
        without columns. */
    method SetColumnSelectionMode(mode: SelectionMode)
      requires Valid()
      modifies this
      ensures Valid()
      ensures columns == if |old(columns)| == 0 then old(columns) else old(columns)[0 := WithMode(old(columns)[0], mode)]
      ensures |columns| > 0 ==> ColumnSelectionMode(columns) == mode
      ensures printFunc == old(printFunc) && nextPanarea == old(nextPanarea)
    {
      if |columns| == 0 {
        return;
      }
      SetModeSelectsFirst(columns, mode);
      columns := columns[0 := WithMode(columns[0], mode)];
    }

    /** `hildon_touch_selector_set_active_iter`: row `row` of column `column`
        becomes its only selected row; an invalid column is refused. */
    method SetActiveIter(column: int, row: nat, scrollTo: bool)
      requires Valid()
      requires ValidColumn(column, |columns|) ==> row < |Rows(columns[column])|
      modifies this
      ensures Valid()
      ensures columns == if ValidColumn(column, |old(columns)|)
                         then old(columns)[column := WithActive(old(columns)[column], row)]
                         else old(columns)
      ensures printFunc == old(printFunc) && nextPanarea == old(nextPanarea)
    {
      if !ValidColumn(column, |columns|) {
        return;
      }
      columns := columns[column := WithActive(columns[column], row)];
    }

    /** `hildon_touch_selector_set_model`: replaces the model of column
        `column`, dropping its selection unless it is the same model object;
        an invalid column is refused. The model object a column already
        shows has the rows the column holds. */
    method SetModel(column: int, model: Option<TreeModel>)
      requires Valid()
      requires ValidColumn(column, |columns|) && SameModel(model, columns[column].model) ==> model == columns[column].model
      modifies this
      ensures Valid()
      ensures columns == if ValidColumn(column, |old(columns)|)
                         then old(columns)[column := WithModel(old(columns)[column], model)]
                         else old(columns)
      ensures ValidColumn(column, |old(columns)|) ==> GetModel(columns, column) == model
      ensures ValidColumn(column, |old(columns)|) && !SameModel(model, old(columns)[column].model) ==> columns[column].selected == {}
      ensures printFunc == old(printFunc) && nextPanarea == old(nextPanarea)
    {
      if !ValidColumn(column, |columns|) {
        return;
      }
      SetThenGetModel(columns, column, model);
      columns := columns[column := WithModel(columns[column], model)];
    }

    /** `hildon_touch_selector_set_print_func`; `None` restores the default. */
    method SetPrintFunc(func: Option<PrintFunc>)
      modifies this
      ensures printFunc == func
      ensures columns == old(columns) && nextPanarea == old(nextPanarea)
    {
      printFunc := func;
    }

    /** `hildon_touch_selector_get_print_func`: `None` when the default one is
        in use. */
    method GetPrintFunc() returns (func: Option<PrintFunc>)
      ensures func == printFunc
    {
      func := printFunc;
    }

    /** Inserts `text` at position `p` of column 0's list store. */
    method InsertRow(p: nat, text: string)
      requires Valid() && HasTextStore(columns) && p <= |Rows(columns[0])|
      modifies this
      ensures Valid()
      ensures columns == old(columns)[0 := WithRowInserted(old(columns)[0], p, text)]
      ensures Rows(columns[0]) == Rows(old(columns)[0])[..p] + [Row(text)] + Rows(old(columns)[0])[p..]
      ensures HasTextStore(columns)
      ensures DefaultText(columns) == DefaultText(old(columns))
      ensures printFunc == old(printFunc) && nextPanarea == old(nextPanarea)
    {
      InsertKeepsWellFormed(columns, p, text);
      InsertKeepsDefaultText(columns, p, text);
      columns := columns[0 := WithRowInserted(columns[0], p, text)];
    }

    /** `hildon_touch_selector_append_text`: a new last row of column 0's list
        store; a NULL text, no column or another kind of model is refused. */
    method AppendText(text: Option<string>)
      requires Valid()
      modifies this
      ensures Valid()
      ensures columns == if text.Some? && HasTextStore(old(columns))
                         then old(columns)[0 := WithRowInserted(old(columns)[0], |Rows(old(columns)[0])|, text.value)]
                         else old(columns)
      ensures text.Some? && HasTextStore(old(columns)) ==> Rows(columns[0]) == Rows(old(columns)[0]) + [Row(text.value)]
      ensures DefaultText(columns) == DefaultText(old(columns))
      ensures printFunc == old(printFunc) && nextPanarea == old(nextPanarea)
    {
      if text.None? || !HasTextStore(columns) {
        return;
      }
      InsertRow(|Rows(columns[0])|, text.value);
    }

    /** `hildon_touch_selector_prepend_text`: a new first row of column 0's
        list store, under the same conditions as `append_text`. */
    method PrependText(text: Option<string>)
      requires Valid()
      modifies this
      ensures Valid()
      ensures columns == if text.Some? && HasTextStore(old(columns))
                         then old(columns)[0 := WithRowInserted(old(columns)[0], 0, text.value)]
                         else old(columns)
      ensures text.Some? && HasTextStore(old(columns)) ==> Rows(columns[0]) == [Row(text.value)] + Rows(old(columns)[0])
      ensures DefaultText(columns) == DefaultText(old(columns))
      ensures printFunc == old(printFunc) && nextPanarea == old(nextPanarea)
    {
      if text.None? || !HasTextStore(columns) {
        return;
      }
      InsertRow(0, text.value);
    }

    /** `hildon_touch_selector_insert_text`: a new row at `position` of
        column 0's list store, or at its end when `position` is past it; a
        negative position is refused, as are the cases `append_text` refuses. */
    method InsertText(position: int, text: Option<string>)
      requires Valid()
      modifies this
      ensures Valid()
      ensures columns == if text.Some? && position >= 0 && HasTextStore(old(columns))
                         then old(columns)[0 := WithRowInserted(old(columns)[0], Min(position, |Rows(old(columns)[0])|), text.value)]
                         else old(columns)
      ensures DefaultText(columns) == DefaultText(old(columns))
      ensures printFunc == old(printFunc) && nextPanarea == old(nextPanarea)
    {
      if text.None? || position < 0 || !HasTextStore(columns) {
        return;
      }
      var p := Min(position, |Rows(columns[0])|);
      InsertRow(p, text.value);
    }

    /** The multiple-mode part of `_default_print_func`: the texts of column
        0's selected rows in view order, each but the last followed by ',',
        between parentheses. */
    method SelectedList() returns (result: Option<string>)
      requires |columns| > 0
      ensures result == Some(MultipleText(columns))
    {
      var selectedRows := GetSelectedRows(columns, 0);
      var model := GetModel(columns, 0);
      ghost var texts := SelectedTexts(columns[0]);
      assert selectedRows == SelectedRows(columns[0]) && model == columns[0].model;
      assert |texts| == |selectedRows|;
      result := Some("(");
      ListPrefixStart(texts);
      var i := 0;
      while i < |selectedRows|
        invariant 0 <= i <= |selectedRows|
        invariant result == Some(ListPrefix(texts, i))
      {
        var current := model.value.rows[selectedRows[i]].text;
        assert current == texts[i];
        ListPrefixStep(texts, i);
        if i < |selectedRows| - 1 {
          assert ListPrefix(texts, i) + (current + ",") == ListPrefix(texts, i) + current + ",";
          result := StrConcat(result, current + ",");
        } else {
          assert ListPrefix(texts, i) + current + "" == ListPrefix(texts, i) + current;
          result := StrConcat(result, current);
        }
        i := i + 1;
      }
      ListPrefixEnd(texts);
      result := StrConcat(result, ")");
    }

    /** `_default_print_func`: in multiple mode, column 0's selected texts
        comma-separated in parentheses; then, for each remaining column with
        an active row, its text, the first one as is and the later ones
        after a ':'. */
    method DefaultPrintFunc() returns (result: Option<string>)
      ensures result == DefaultText(columns)
    {
      var numColumns := |columns|;
      var mode := ColumnSelectionMode(columns);
      var initial := 0;
      result := None;
      if mode == ModeMultiple && numColumns > 0 {
        result := SelectedList();
        initial := 1;
      }
      var i := initial;
      while i < numColumns
        invariant initial <= i <= numColumns
        invariant mode == ModeMultiple ==> result == Some(MultipleText(columns))
        invariant mode == ModeSingle && i == 0 ==> result == None
        invariant mode == ModeSingle && i > 0 ==> result == SingleText(columns, i)
      {
        var model := GetModel(columns, i);
        var active := ActiveIter(columns, i);
        if mode == ModeSingle {
          if i == 0 {
            SingleTextStart(columns);
          } else {
            SingleTextStep(columns, i);
          }
        }
        if active.Some? {
          var current := model.value.rows[active.value].text;
          assert ActiveText(columns, i) == Some(current);
          if i != 0 {
            result := StrConcat(result, ":" + current);
          } else {
            result := Some(current);
          }
        }
        i := i + 1;
      }
    }

    /** `hildon_touch_selector_get_current_text`: the user print function's
        text when one is set, and otherwise the default one. */
    method GetCurrentText() returns (result: Option<string>)
      ensures result == CurrentText(columns, printFunc)
    {
      if printFunc.Some? {
        result := printFunc.value(columns);
      } else {
        result := DefaultPrintFunc();
      }
    }
  }

  function Min(a: int, b: int): (m: int)
    ensures m <= a && m <= b && (m == a || m == b)
  {
    if a < b then a else b
  }
}
