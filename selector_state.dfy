/**
 * The selection state of a HildonTouchSelector: its columns, the model each
 * column shows, the selection of each column's tree view, and the queries the
 * selector answers from that state.
 */
module SelectorState {
  import opened Wrappers

  /** A row of a column's model. Field 0 must hold the row's text, which is
      the only field the selector reads. */
  datatype Row = Row(text: string)

  /** A GtkListStore, which the text helpers can grow, or any other GtkTreeModel. */
  datatype ModelKind = ListStore | OtherModel

  /** The identity of a model object, the pointer the selector compares. */
  type ModelId = nat

  /** A model object: its identity, its kind and its rows. */
  datatype TreeModel = TreeModel(store: ModelId, kind: ModelKind, rows: seq<Row>)

  /** The mode of one column's GtkTreeSelection. */
  datatype TreeSelectionMode = TreeSingle | TreeBrowse | TreeMultiple

  /** HildonTouchSelectorSelectionMode, the mode the selector reports. */
  datatype SelectionMode = ModeSingle | ModeMultiple

  /** The identity of a column's pannable area, the widget the selector packs. */
  type Widget = nat

  /** One SelectorColumn: its pannable area, its model (NULL after
      `set_model` with NULL) and the state of its tree view's selection,
      as the positions of the selected rows. */
  datatype Column = Column(panarea: Widget, model: Option<TreeModel>, mode: TreeSelectionMode, selected: set<nat>)

  /** A user print function: from the selector's columns to a string or NULL. */
  type PrintFunc = seq<Column> -> Option<string>

  /** The rows a column shows; a NULL model shows none. */
  function Rows(col: Column): seq<Row>
  {
    if col.model.Some? then col.model.value.rows else []
  }

  ghost predicate AtMostOne(s: set<nat>)
  {
    forall x, y :: x in s && y in s ==> x == y
  }

  /** A column selects only rows of its model, and at most one of them unless
      its tree view is in multiple mode. */
  ghost predicate ColumnValid(col: Column)
  {
    (forall x :: x in col.selected ==> x < |Rows(col)|) &&
    (col.mode != TreeMultiple ==> AtMostOne(col.selected))
  }

  /** The invariant the selector keeps: every column is valid, no two columns
      share a pannable area, and only column 0 (the one whose mode the API can
      change) is ever in multiple mode. */
  ghost predicate WellFormed(cols: seq<Column>)
  {
    (forall k :: 0 <= k < |cols| ==> ColumnValid(cols[k])) &&
    (forall j, k :: 0 <= j < k < |cols| ==> cols[j].panarea != cols[k].panarea) &&
    (forall k :: 1 <= k < |cols| ==> cols[k].mode != TreeMultiple)
  }

  /** The column `_create_new_column` builds: browse mode, and the first row
      selected when the model has one. */
  function NewColumn(panarea: Widget, model: TreeModel): (col: Column)
    ensures ColumnValid(col)
    ensures col.panarea == panarea && col.model == Some(model) && col.mode == TreeBrowse
  {
    Column(panarea, Some(model), TreeBrowse, if |model.rows| > 0 then {0} else {})
  }

  /** The column-index check the model applies: a position of an existing column. */
  predicate ValidColumn(c: int, count: nat)
  {
    0 <= c < count
  }

  /** `hildon_touch_selector_get_column_selection_mode`: the mode of column 0,
      and single when there are no columns. */
  function ColumnSelectionMode(cols: seq<Column>): (mode: SelectionMode)
    ensures mode == ModeMultiple <==> |cols| > 0 && cols[0].mode == TreeMultiple
  {
    if |cols| == 0 then ModeSingle
    else if cols[0].mode == TreeMultiple then ModeMultiple
    else ModeSingle
  }

  /** `hildon_touch_selector_has_multiple_selection`. */
  function HasMultipleSelection(cols: seq<Column>): (b: bool)
    ensures b <==> |cols| > 1 || (|cols| == 1 && cols[0].mode == TreeMultiple)
    ensures |cols| == 0 ==> !b
  {
    |cols| > 1 || ColumnSelectionMode(cols) == ModeMultiple
  }

  /** The selected positions among `i .. n-1`, in increasing order. */
  function RowsFrom(sel: set<nat>, i: nat, n: nat): (r: seq<nat>)
    ensures forall k :: 0 <= k < |r| ==> i <= r[k] < n && r[k] in sel
    ensures forall j, k :: 0 <= j < k < |r| ==> r[j] < r[k]
    ensures forall x :: i <= x < n && x in sel ==> x in r
    decreases n - i
  {
    if i >= n then [] else (if i in sel then [i] else []) + RowsFrom(sel, i + 1, n)
  }

  /** The selected rows of a column in view order (what
      gtk_tree_selection_get_selected_rows lists). */
  function SelectedRows(col: Column): (r: seq<nat>)
    ensures forall k :: 0 <= k < |r| ==> r[k] < |Rows(col)| && r[k] in col.selected
    ensures forall j, k :: 0 <= j < k < |r| ==> r[j] < r[k]
  {
    RowsFrom(col.selected, 0, |Rows(col)|)
  }

  /** The texts of a column's selected rows, in view order. */
  function SelectedTexts(col: Column): (texts: seq<string>)
    ensures |texts| == |SelectedRows(col)|
  {
    var rs := SelectedRows(col);
    seq(|rs|, k requires 0 <= k < |rs| => Rows(col)[rs[k]].text)
  }

  /** `hildon_touch_selector_get_selected_rows`: the selected rows of column
      `c` in view order; the empty list (NULL) for a column that does not exist. */
  function GetSelectedRows(cols: seq<Column>, c: int): (r: seq<nat>)
    ensures !ValidColumn(c, |cols|) ==> r == []
    ensures ValidColumn(c, |cols|) ==> forall k :: 0 <= k < |r| ==> r[k] < |Rows(cols[c])|
    ensures forall j, k :: 0 <= j < k < |r| ==> r[j] < r[k]
  {
    if ValidColumn(c, |cols|) then SelectedRows(cols[c]) else []
  }

  /** gtk_tree_selection_get_selected on one column: the selected row, which
      a tree view in multiple mode refuses to report. */
  function ColumnActive(col: Column): (r: Option<nat>)
    ensures r.Some? ==> r.value in col.selected && r.value < |Rows(col)|
    ensures col.mode == TreeMultiple ==> r.None?
  {
    if col.mode == TreeMultiple then None
    else
      var rs := SelectedRows(col);
      if |rs| == 0 then None else Some(rs[0])
  }

  /** `hildon_touch_selector_get_active_iter`: the active row of column `c`.
      It fails for a selector in multiple mode and for a column that does not
      exist. */
  function ActiveIter(cols: seq<Column>, c: int): (r: Option<nat>)
    ensures ColumnSelectionMode(cols) == ModeMultiple ==> r.None?
    ensures !ValidColumn(c, |cols|) ==> r.None?
    ensures r.Some? ==> 0 <= c < |cols| && r.value in cols[c].selected && r.value < |Rows(cols[c])|
  {
    if ColumnSelectionMode(cols) == ModeSingle && ValidColumn(c, |cols|) then ColumnActive(cols[c])
    else None
  }

  /** Field 0 of the active row of column `c`, when it has one. */
  function ActiveText(cols: seq<Column>, c: int): Option<string>
  {
    match ActiveIter(cols, c)
    case None => None
    case Some(r) => Some(Rows(cols[c])[r].text)
  }

  /** `hildon_touch_selector_get_model`: NULL for a column that does not exist. */
  function GetModel(cols: seq<Column>, c: int): (m: Option<TreeModel>)
    ensures ValidColumn(c, |cols|) ==> m == cols[c].model
    ensures !ValidColumn(c, |cols|) ==> m == None
  {
    if ValidColumn(c, |cols|) then cols[c].model else None
  }

  /** Column 0's model is a list store, which the text helpers require. */
  predicate HasTextStore(cols: seq<Column>)
  {
    |cols| > 0 && cols[0].model.Some? && cols[0].model.value.kind == ListStore
  }

  /** The position in the column list of the column whose pannable area is
      `column` (g_slist_index), or -1 when it is not in the list. It is the
      payload of the "changed" signal that `_selection_changed_cb` emits for
      that column, and the column that the container's `remove` drops. */
  function ColumnPosition(cols: seq<Column>, column: Widget): (index: int)
    ensures -1 <= index < |cols|
    ensures index >= 0 ==> cols[index].panarea == column && forall k :: 0 <= k < index ==> cols[k].panarea != column
    ensures index == -1 <==> forall k :: 0 <= k < |cols| ==> cols[k].panarea != column
  {
    if |cols| == 0 then -1
    else if cols[0].panarea == column then 0
    else
      var rest := ColumnPosition(cols[1..], column);
      assert forall k :: 1 <= k < |cols| ==> cols[k] == cols[1..][k - 1];
      if rest == -1 then -1 else rest + 1
  }

  // ----- Column updates made by the selector's operations -----

  /** The tree selection mode `set_column_selection_mode` installs. */
  function TreeModeOf(mode: SelectionMode): TreeSelectionMode
  {
    match mode
    case ModeSingle => TreeSingle
    case ModeMultiple => TreeMultiple
  }

  /** Column 0 after `set_column_selection_mode`: the new mode, everything
      unselected, then the first row selected. */
  function WithMode(col: Column, mode: SelectionMode): Column
  {
    col.(mode := TreeModeOf(mode), selected := if |Rows(col)| > 0 then {0} else {})
  }

  /** A column after `set_active_iter(row)`: selecting the row and moving the
      cursor onto it leave exactly that row selected. */
  function WithActive(col: Column, row: nat): Column
  {
    col.(selected := {row})
  }

  /** Two model pointers are equal: both NULL, or the same model object. */
  predicate SameModel(a: Option<TreeModel>, b: Option<TreeModel>)
  {
    (a.None? && b.None?) || (a.Some? && b.Some? && a.value.store == b.value.store)
  }

  /** A column after `set_model`: the tree view drops its selection when the
      model pointer changes, even to another model with the same rows, and
      keeps everything when it is the same model object. */
  function WithModel(col: Column, model: Option<TreeModel>): Column
  {
    if SameModel(model, col.model) then col else col.(model := model, selected := {})
  }

  function ShiftIndex(x: nat, p: nat): nat
  {
    if x < p then x else x + 1
  }

  /** The selection after a row is inserted at position `p`: it stays on the
      same rows, so the positions from `p` on move up by one. */
  function Shift(sel: set<nat>, p: nat): set<nat>
  {
    set x | x in sel :: ShiftIndex(x, p)
  }

  function ShiftSeq(xs: seq<nat>, p: nat): (r: seq<nat>)
    ensures |r| == |xs|
  {
    seq(|xs|, k requires 0 <= k < |xs| => ShiftIndex(xs[k], p))
  }

  /** A list-store column after a row with `text` is inserted at position `p`. */
  function WithRowInserted(col: Column, p: nat, text: string): Column
    requires col.model.Some? && p <= |Rows(col)|
  {
    var rows := col.model.value.rows;
    col.(model := Some(col.model.value.(rows := rows[..p] + [Row(text)] + rows[p..])),
         selected := Shift(col.selected, p))
  }

  // ----- Lemmas -----

  /** For a valid column, the rows listed are exactly the selected ones. */
  lemma SelectedRowsAreSelection(col: Column)
    requires ColumnValid(col)
    ensures forall x :: x in col.selected <==> x in SelectedRows(col)
  {
  }

  /** `get_selected_rows` lists exactly the selected rows of the column, in
      increasing (view) order. */
  lemma GetSelectedRowsIsSelection(cols: seq<Column>, c: int)
    requires WellFormed(cols) && ValidColumn(c, |cols|)
    ensures forall x :: x in cols[c].selected <==> x in GetSelectedRows(cols, c)
    ensures forall j, k :: 0 <= j < k < |GetSelectedRows(cols, c)| ==> GetSelectedRows(cols, c)[j] < GetSelectedRows(cols, c)[k]
  {
    SelectedRowsAreSelection(cols[c]);
  }

  /** In a valid column outside multiple mode, there is an active row exactly
      when something is selected, and then the selection is that row alone. */
  lemma ColumnActiveIsSelection(col: Column)
    requires ColumnValid(col) && col.mode != TreeMultiple
    ensures ColumnActive(col).Some? <==> col.selected != {}
    ensures ColumnActive(col).Some? ==> col.selected == {ColumnActive(col).value}
  {
    SelectedRowsAreSelection(col);
    if |SelectedRows(col)| == 0 {
      assert forall x :: x !in SelectedRows(col);
    }
  }

  /** In single mode `get_active_iter` succeeds on an existing column exactly
      when the column has a selected row, and returns that row. */
  lemma ActiveIterIsSelection(cols: seq<Column>, c: int)
    requires WellFormed(cols) && ValidColumn(c, |cols|) && ColumnSelectionMode(cols) == ModeSingle
    ensures ActiveIter(cols, c).Some? <==> cols[c].selected != {}
    ensures ActiveIter(cols, c).Some? ==> cols[c].selected == {ActiveIter(cols, c).value}
  {
    if c == 0 {
      assert cols[0].mode != TreeMultiple;
    }
    ColumnActiveIsSelection(cols[c]);
  }

  /** No selected position lies at or above `i`: nothing is enumerated. */
  lemma {:induction false} RowsFromBelow(sel: set<nat>, i: nat, n: nat)
    requires forall x :: x in sel ==> x < i
    ensures RowsFrom(sel, i, n) == []
    decreases n - i
  {
    if i < n {
      RowsFromBelow(sel, i + 1, n);
    }
  }

  /** A single selected position is enumerated alone. */
  lemma {:induction false} RowsFromSingleton(row: nat, i: nat, n: nat)
    requires i <= row < n
    ensures RowsFrom({row}, i, n) == [row]
    decreases row - i
  {
    if i == row {
      RowsFromBelow({row}, i + 1, n);
    } else {
      RowsFromSingleton(row, i + 1, n);
    }
  }

  /** A freshly appended column is in browse mode with its first row active
      when the model has rows, and nothing selected when it is empty. */
  lemma NewColumnSelection(panarea: Widget, model: TreeModel)
    ensures NewColumn(panarea, model).mode == TreeBrowse
    ensures SelectedRows(NewColumn(panarea, model)) == if |model.rows| > 0 then [0] else []
    ensures ColumnActive(NewColumn(panarea, model)) == if |model.rows| > 0 then Some(0) else None
  {
    if |model.rows| > 0 {
      RowsFromSingleton(0, 0, |model.rows|);
    }
  }

  /** After `set_column_selection_mode`, the selector reports the new mode,
      column 0 has exactly its first row selected (nothing, for an empty
      model), the models are unchanged, and the invariant still holds. */
  lemma SetModeSelectsFirst(cols: seq<Column>, mode: SelectionMode)
    requires WellFormed(cols) && |cols| > 0
    ensures WellFormed(cols[0 := WithMode(cols[0], mode)])
    ensures ColumnSelectionMode(cols[0 := WithMode(cols[0], mode)]) == mode
    ensures cols[0 := WithMode(cols[0], mode)][0].selected == if |Rows(cols[0])| > 0 then {0} else {}
    ensures SelectedRows(cols[0 := WithMode(cols[0], mode)][0]) == if |Rows(cols[0])| > 0 then [0] else []
    ensures forall c :: GetModel(cols[0 := WithMode(cols[0], mode)], c) == GetModel(cols, c)
  {
    if |Rows(cols[0])| > 0 {
      RowsFromSingleton(0, 0, |Rows(cols[0])|);
    }
  }

  /** A column that is not in multiple mode, with only `row` selected, has
      `row` active. */
  lemma WithActiveIsActive(col: Column, row: nat)
    requires col.mode != TreeMultiple && row < |Rows(col)|
    ensures ColumnValid(WithActive(col, row))
    ensures ColumnActive(WithActive(col, row)) == Some(row)
  {
    var after := WithActive(col, row);
    assert Rows(after) == Rows(col);
    RowsFromSingleton(row, 0, |Rows(col)|);
    assert SelectedRows(after) == [row];
  }

  /** In single mode, `set_active_iter(c, r)` followed by `get_active_iter(c)`
      yields `r`; no other column changes and the invariant holds. */
  lemma SetThenGetActive(cols: seq<Column>, c: int, row: nat)
    requires WellFormed(cols) && ColumnSelectionMode(cols) == ModeSingle
    requires ValidColumn(c, |cols|) && row < |Rows(cols[c])|
    ensures WellFormed(cols[c := WithActive(cols[c], row)])
    ensures ActiveIter(cols[c := WithActive(cols[c], row)], c) == Some(row)
    ensures forall k :: 0 <= k < |cols| && k != c ==> cols[c := WithActive(cols[c], row)][k] == cols[k]
  {
    var after := cols[c := WithActive(cols[c], row)];
    WithActiveIsActive(cols[c], row);
    assert ColumnSelectionMode(after) == ModeSingle;
  }

  /** `set_model(c, m)` followed by `get_model(c)` yields `m`, and every other
      column's model is unchanged. A model object has one content, so the
      same pointer as the column's own model carries the rows the column holds. */
  lemma SetThenGetModel(cols: seq<Column>, c: int, model: Option<TreeModel>)
    requires WellFormed(cols) && ValidColumn(c, |cols|)
    requires SameModel(model, cols[c].model) ==> model == cols[c].model
    ensures WellFormed(cols[c := WithModel(cols[c], model)])
    ensures GetModel(cols[c := WithModel(cols[c], model)], c) == model
    ensures forall k :: k != c ==> GetModel(cols[c := WithModel(cols[c], model)], k) == GetModel(cols, k)
    ensures !SameModel(model, cols[c].model) ==> cols[c := WithModel(cols[c], model)][c].selected == {}
    ensures SameModel(model, cols[c].model) ==> cols[c := WithModel(cols[c], model)] == cols
  {
  }

  /** Removing the column at position `c` keeps the invariant. */
  lemma RemoveKeepsWellFormed(cols: seq<Column>, c: int)
    requires WellFormed(cols) && ValidColumn(c, |cols|)
    ensures WellFormed(cols[..c] + cols[c + 1..])
  {
    var after := cols[..c] + cols[c + 1..];
    assert forall k :: 0 <= k < |after| ==> after[k] == cols[if k < c then k else k + 1];
  }

  /** The "changed" payload for a column of the selector is that column's position. */
  lemma ColumnPositionOfColumn(cols: seq<Column>, k: int)
    requires WellFormed(cols) && 0 <= k < |cols|
    ensures ColumnPosition(cols, cols[k].panarea) == k
  {
  }

  /** A second column, or multiple mode on column 0, makes the selector need
      an extra confirmation step; a single column in single mode does not. */
  lemma MultipleSelectionAfterChanges(cols: seq<Column>, col: Column, mode: SelectionMode)
    ensures |cols| > 0 ==> HasMultipleSelection(cols + [col])
    ensures |cols| > 0 ==>
              (HasMultipleSelection(cols[0 := WithMode(cols[0], mode)]) <==> |cols| > 1 || mode == ModeMultiple)
    ensures |cols| == 1 && cols[0].mode != TreeMultiple ==> !HasMultipleSelection(cols)
  {
  }

  lemma ShiftMember(sel: set<nat>, p: nat, y: nat)
    ensures y in Shift(sel, p) <==> (y < p && y in sel) || (y > p && y - 1 in sel)
  {
    if y < p && y in sel {
      assert ShiftIndex(y, p) == y;
    } else if y > p && y - 1 in sel {
      assert ShiftIndex(y - 1, p) == y;
    }
  }

  lemma ShiftSeqAppend(a: seq<nat>, b: seq<nat>, p: nat)
    ensures ShiftSeq(a + b, p) == ShiftSeq(a, p) + ShiftSeq(b, p)
  {
  }

  /** Above the insertion point the enumeration of selected rows moves up by one. */
  lemma {:induction false} RowsFromShiftedTail(sel: set<nat>, p: nat, j: nat, n: nat)
    requires p <= j <= n
    ensures RowsFrom(Shift(sel, p), j + 1, n + 1) == ShiftSeq(RowsFrom(sel, j, n), p)
    decreases n - j
  {
    if j < n {
      ShiftMember(sel, p, j + 1);
      RowsFromShiftedTail(sel, p, j + 1, n);
      var head := if j in sel then [j] else [];
      ShiftSeqAppend(head, RowsFrom(sel, j + 1, n), p);
      assert ShiftSeq(head, p) == if j + 1 in Shift(sel, p) then [j + 1] else [];
    }
  }

  /** Inserting a row at `p` turns the enumeration of selected rows into the
      same enumeration with every position from `p` on moved up by one. */
  lemma {:induction false} RowsFromShifted(sel: set<nat>, p: nat, i: nat, n: nat)
    requires i <= p <= n
    ensures RowsFrom(Shift(sel, p), i, n + 1) == ShiftSeq(RowsFrom(sel, i, n), p)
    decreases p - i
  {
    if i == p {
      ShiftMember(sel, p, p);
      RowsFromShiftedTail(sel, p, p, n);
    } else {
      ShiftMember(sel, p, i);
      RowsFromShifted(sel, p, i + 1, n);
      var head := if i in sel then [i] else [];
      ShiftSeqAppend(head, RowsFrom(sel, i + 1, n), p);
      assert ShiftSeq(head, p) == head;
    }
  }

  lemma InsertKeepsValid(col: Column, p: nat, text: string)
    requires ColumnValid(col) && col.model.Some? && p <= |Rows(col)|
    ensures ColumnValid(WithRowInserted(col, p, text))
  {
    var after := WithRowInserted(col, p, text);
    var n := |Rows(col)|;
    assert |Rows(after)| == n + 1;
    forall y | y in after.selected
      ensures y < n + 1
    {
      ShiftMember(col.selected, p, y);
    }
    if col.mode != TreeMultiple {
      forall x, y | x in after.selected && y in after.selected
        ensures x == y
      {
        ShiftMember(col.selected, p, x);
        ShiftMember(col.selected, p, y);
      }
    }
  }

  /** Inserting a row at `p` keeps every old row, moving those from `p` on
      up by one. */
  lemma InsertedRows(col: Column, p: nat, text: string, x: nat)
    requires col.model.Some? && p <= |Rows(col)| && x < |Rows(col)|
    ensures Rows(WithRowInserted(col, p, text))[ShiftIndex(x, p)] == Rows(col)[x]
  {
    var rows := Rows(col);
    assert Rows(WithRowInserted(col, p, text)) == rows[..p] + [Row(text)] + rows[p..];
    if x >= p {
      assert (rows[..p] + [Row(text)] + rows[p..])[x + 1] == rows[p..][x - p];
    }
  }

  /** After an insertion the selected texts, in view order, are the same. */
  lemma InsertKeepsSelectedTexts(col: Column, p: nat, text: string)
    requires col.model.Some? && p <= |Rows(col)|
    ensures SelectedTexts(WithRowInserted(col, p, text)) == SelectedTexts(col)
  {
    var after := WithRowInserted(col, p, text);
    RowsFromShifted(col.selected, p, 0, |Rows(col)|);
    var rs := SelectedRows(col);
    assert SelectedRows(after) == ShiftSeq(rs, p);
    forall k | 0 <= k < |rs|
      ensures SelectedTexts(after)[k] == SelectedTexts(col)[k]
    {
      InsertedRows(col, p, text, rs[k]);
    }
  }

  /** Inserting a row into column 0 keeps the invariant. */
  lemma InsertKeepsWellFormed(cols: seq<Column>, p: nat, text: string)
    requires WellFormed(cols) && |cols| > 0 && cols[0].model.Some? && p <= |Rows(cols[0])|
    ensures WellFormed(cols[0 := WithRowInserted(cols[0], p, text)])
  {
    InsertKeepsValid(cols[0], p, text);
    var after := cols[0 := WithRowInserted(cols[0], p, text)];
    assert forall k :: 0 <= k < |cols| ==> after[k].panarea == cols[k].panarea && after[k].mode == cols[k].mode;
  }

  /** The text helpers insert the new row at `p`, keep every other row in
      order, leave the new row unselected and keep the selection on the same
      rows, so the selected texts, in view order, do not change. */
  lemma InsertKeepsSelection(col: Column, p: nat, text: string)
    requires ColumnValid(col) && col.model.Some? && p <= |Rows(col)|
    ensures ColumnValid(WithRowInserted(col, p, text))
    ensures Rows(WithRowInserted(col, p, text)) == Rows(col)[..p] + [Row(text)] + Rows(col)[p..]
    ensures p !in WithRowInserted(col, p, text).selected
    ensures SelectedTexts(WithRowInserted(col, p, text)) == SelectedTexts(col)
  {
    ShiftMember(col.selected, p, p);
    InsertKeepsValid(col, p, text);
    InsertKeepsSelectedTexts(col, p, text);
  }

  // ----- The column-index guard (see README, Findings) -----

  /** g_slist_nth_data as the source calls it: the `gint` position is passed
      as a `guint`, and a position past the end gives NULL. */
  function NthColumn(cols: seq<Column>, n: int): Option<Column>
  {
    var u := n % 0x1_0000_0000;
    if u < |cols| then Some(cols[u]) else None
  }

  /** The guard the source writes before using a column: `column < num_columns`. */
  predicate SourceColumnGuard(c: int, count: nat)
  {
    c < count
  }

  /** As written, the guard lets -1 through, and the column it then looks up is NULL. */
  lemma NegativeColumnPassesGuard(cols: seq<Column>)
    requires 0 < |cols| < 0xFFFF_FFFF
    ensures SourceColumnGuard(-1, |cols|) && !ValidColumn(-1, |cols|)
    ensures NthColumn(cols, -1) == None
  {
  }

  /** With the corrected guard the lookup always finds the column asked for,
      and the corrected guard differs from the written one only on negative positions. */
  lemma ValidColumnFindsColumn(cols: seq<Column>, c: int)
    requires |cols| <= 0x1_0000_0000
    ensures ValidColumn(c, |cols|) ==> NthColumn(cols, c) == Some(cols[c])
    ensures ValidColumn(c, |cols|) <==> SourceColumnGuard(c, |cols|) && c >= 0
  {
  }
  /** Setting another model object with the same rows still drops the
      column's selection, so the column has no active row afterwards. */
  lemma OtherStoreDropsActive(cols: seq<Column>, c: int, model: TreeModel)
    requires WellFormed(cols) && ValidColumn(c, |cols|) && cols[c].model.Some?
    requires model.store != cols[c].model.value.store && model.rows == cols[c].model.value.rows
    ensures Rows(cols[c := WithModel(cols[c], Some(model))][c]) == Rows(cols[c])
    ensures ColumnActive(cols[c := WithModel(cols[c], Some(model))][c]) == None
    ensures GetSelectedRows(cols[c := WithModel(cols[c], Some(model))], c) == []
  {
    var after := cols[c := WithModel(cols[c], Some(model))][c];
    assert after.selected == {};
    RowsFromBelow(after.selected, 0, |Rows(after)|);
  }

  // ----- Removing a column through the container (see README, Findings) -----

  /** `remove_column` as written: after the guard and the lookup it calls
      `gtk_container_remove` on the selector with the column's pannable area.
      That area is packed in the selector's box, not in the selector itself,
      so GTK's direct-child check refuses the call before `remove` runs: the
      column list stays as it was, and the result is TRUE all the same.
      `None` stands for the NULL dereference of a position the lookup misses. */
  function RemoveColumnAsWritten(cols: seq<Column>, column: int): (r: Option<(bool, seq<Column>)>)
    ensures r.Some? ==> r.value.1 == cols
    ensures r.Some? ==> (r.value.0 <==> SourceColumnGuard(column, |cols|))
    ensures r.None? <==> SourceColumnGuard(column, |cols|) && NthColumn(cols, column).None?
  {
    if !SourceColumnGuard(column, |cols|) then Some((false, cols))
    else if NthColumn(cols, column).None? then None
    else Some((true, cols))
  }

  /** As written, removing an existing column reports success, yet the
      column is still in the list, at the same position. */
  lemma RemoveColumnAsWrittenKeepsColumn(cols: seq<Column>, k: int)
    requires WellFormed(cols) && 0 <= k < |cols| <= 0x1_0000_0000
    ensures RemoveColumnAsWritten(cols, k) == Some((true, cols))
    ensures ColumnPosition(RemoveColumnAsWritten(cols, k).value.1, cols[k].panarea) == k
  {
    ValidColumnFindsColumn(cols, k);
    ColumnPositionOfColumn(cols, k);
  }

  /** The intended removal: the column at position `k` is no longer in the
      list, and every other column keeps its order. */
  lemma RemoveDropsColumn(cols: seq<Column>, k: int)
    requires WellFormed(cols) && ValidColumn(k, |cols|)
    ensures |cols[..k] + cols[k + 1..]| == |cols| - 1
    ensures ColumnPosition(cols[..k] + cols[k + 1..], cols[k].panarea) == -1
    ensures forall j :: 0 <= j < |cols| && j != k ==>
              ColumnPosition(cols[..k] + cols[k + 1..], cols[j].panarea) == (if j < k then j else j - 1)
  {
    var after := cols[..k] + cols[k + 1..];
    assert forall j :: 0 <= j < |after| ==> after[j] == cols[if j < k then j else j + 1];
    RemoveKeepsWellFormed(cols, k);
    forall j | 0 <= j < |cols| && j != k
      ensures ColumnPosition(after, cols[j].panarea) == (if j < k then j else j - 1)
    {
      ColumnPositionOfColumn(after, if j < k then j else j - 1);
    }
  }
}
