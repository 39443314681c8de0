/**
 * What `_default_print_func` produces, stated declaratively, and the
 * properties of that string: its shape in each selection mode, when it is
 * NULL, and that splitting it at its separators gives back the texts it
 * was built from.
 */
module Formatter {
  import opened Wrappers
  import opened SelectorState

  /** `g_strconcat(head, tail, NULL)`: glib returns NULL when the first
      argument is NULL. */
  function StrConcat(head: Option<string>, tail: string): Option<string>
  {
    if head.None? then None else Some(head.value + tail)
  }

  /** The strings of `xs` with `sep` between neighbours and nowhere else. */
  function Join(xs: seq<string>, sep: char): string
  {
    if |xs| == 0 then ""
    else if |xs| == 1 then xs[0]
    else xs[0] + [sep] + Join(xs[1..], sep)
  }

  /** The pieces of `s` between its occurrences of `sep`. */
  function Split(s: string, sep: char): (pieces: seq<string>)
    ensures |pieces| >= 1
  {
    if |s| == 0 then [""]
    else
      var rest := Split(s[1..], sep);
      if s[0] == sep then [""] + rest else [[s[0]] + rest[0]] + rest[1..]
  }

  function OptionList(o: Option<string>): seq<string>
  {
    match o
    case None => []
    case Some(t) => [t]
  }

  /** The values present in `os`, in order. */
  function Present(os: seq<Option<string>>): seq<string>
  {
    if |os| == 0 then [] else Present(os[..|os| - 1]) + OptionList(os[|os| - 1])
  }

  /** What `get_active_iter` yields for each column, as its text. */
  function ActiveTextList(cols: seq<Column>): (r: seq<Option<string>>)
    ensures |r| == |cols|
    ensures forall k :: 0 <= k < |cols| ==> r[k] == ActiveText(cols, k)
  {
    seq(|cols|, k requires 0 <= k < |cols| => ActiveText(cols, k))
  }

  /** The active texts of the columns `lo .. hi-1` that have an active row,
      in column order. */
  function ActiveTexts(cols: seq<Column>, lo: nat, hi: nat): seq<string>
    requires lo <= hi <= |cols|
  {
    Present(ActiveTextList(cols)[lo..hi])
  }

  /** The single-mode text once the columns `0 .. hi-1` have been visited:
      NULL when column 0 has no active row, and otherwise the active texts
      joined by ':'. */
  function SingleText(cols: seq<Column>, hi: nat): Option<string>
    requires 0 < hi <= |cols|
  {
    match ActiveText(cols, 0)
    case None => None
    case Some(t) => Some(Join([t] + ActiveTexts(cols, 1, hi), ':'))
  }

  /** The multiple-mode text: column 0's selected texts, comma-separated, in
      parentheses. */
  function MultipleText(cols: seq<Column>): string
    requires |cols| > 0
  {
    "(" + Join(SelectedTexts(cols[0]), ',') + ")"
  }

  /** The string `_default_print_func` returns, or NULL. */
  function DefaultText(cols: seq<Column>): Option<string>
  {
    if |cols| == 0 then None
    else if ColumnSelectionMode(cols) == ModeMultiple then Some(MultipleText(cols))
    else SingleText(cols, |cols|)
  }

  /** `hildon_touch_selector_get_current_text`: the user print function when
      one is set, and otherwise the default one. */
  function CurrentText(cols: seq<Column>, printFunc: Option<PrintFunc>): Option<string>
  {
    if printFunc.Some? then printFunc.value(cols) else DefaultText(cols)
  }

  // ----- Join and Split -----

  lemma {:induction false} JoinSnoc(xs: seq<string>, x: string, sep: char)
    requires |xs| > 0
    ensures Join(xs + [x], sep) == Join(xs, sep) + [sep] + x
    decreases |xs|
  {
    if |xs| > 1 {
      assert (xs + [x])[1..] == xs[1..] + [x];
      JoinSnoc(xs[1..], x, sep);
    }
  }

  lemma {:induction false} SplitWithoutSeparator(x: string, sep: char)
    requires sep !in x
    ensures Split(x, sep) == [x]
    decreases |x|
  {
    if |x| > 0 {
      SplitWithoutSeparator(x[1..], sep);
      assert [x[0]] + x[1..] == x;
    }
  }

  lemma {:induction false} SplitAtSeparator(x: string, y: string, sep: char)
    requires sep !in x
    ensures Split(x + [sep] + y, sep) == [x] + Split(y, sep)
    decreases |x|
  {
    var s := x + [sep] + y;
    if |x| == 0 {
      assert s[1..] == y;
    } else {
      assert s[1..] == x[1..] + [sep] + y;
      SplitAtSeparator(x[1..], y, sep);
      assert [x[0]] + x[1..] == x;
    }
  }

  /** Splitting a joined string at the separator gives back the pieces, as
      long as no piece contains the separator. */
  lemma {:induction false} SplitJoin(xs: seq<string>, sep: char)
    requires |xs| > 0
    requires forall k :: 0 <= k < |xs| ==> sep !in xs[k]
    ensures Split(Join(xs, sep), sep) == xs
    decreases |xs|
  {
    if |xs| == 1 {
      SplitWithoutSeparator(xs[0], sep);
    } else {
      SplitJoin(xs[1..], sep);
      SplitAtSeparator(xs[0], Join(xs[1..], sep), sep);
    }
  }

  // ----- Active texts -----

  lemma {:induction false} PresentAppend(a: seq<Option<string>>, b: seq<Option<string>>)
    ensures Present(a + b) == Present(a) + Present(b)
    decreases |b|
  {
    if |b| > 0 {
      assert (a + b)[..|a + b| - 1] == a + b[..|b| - 1];
      assert (a + b)[|a + b| - 1] == b[|b| - 1];
      PresentAppend(a, b[..|b| - 1]);
      assert Present(a + b) == Present(a + b[..|b| - 1]) + OptionList(b[|b| - 1]);
    } else {
      assert a + b == a;
    }
  }

  /** One more column visited: its active text, if any, comes last. */
  lemma ActiveTextsSnoc(cols: seq<Column>, lo: nat, hi: nat)
    requires lo <= hi < |cols|
    ensures ActiveTexts(cols, lo, hi + 1) == ActiveTexts(cols, lo, hi) + OptionList(ActiveText(cols, hi))
  {
    var l := ActiveTextList(cols);
    assert l[lo..hi + 1] == l[lo..hi] + [l[hi]];
    PresentAppend(l[lo..hi], [l[hi]]);
  }

  /** Column `lo`'s active text, if any, comes first. */
  lemma ActiveTextsCons(cols: seq<Column>, lo: nat, hi: nat)
    requires lo < hi <= |cols|
    ensures ActiveTexts(cols, lo, hi) == OptionList(ActiveText(cols, lo)) + ActiveTexts(cols, lo + 1, hi)
  {
    var l := ActiveTextList(cols);
    assert l[lo..hi] == [l[lo]] + l[lo + 1..hi];
    PresentAppend([l[lo]], l[lo + 1..hi]);
    assert Present([l[lo]]) == OptionList(l[lo]) by {
      assert [l[lo]][..0] == [];
    }
  }

  // ----- The multiple-mode list, built one selected row at a time -----

  /** The multiple-mode string once the first `i` selected texts have been
      added: each added text but the last one of all is followed by ','. */
  function ListPrefix(texts: seq<string>, i: nat): string
    requires i <= |texts|
  {
    "(" + Join(texts[..i], ',') + (if 0 < i < |texts| then "," else "")
  }

  lemma ListPrefixStart(texts: seq<string>)
    ensures ListPrefix(texts, 0) == "("
  {
    assert texts[..0] == [];
  }

  /** Adding text `i` appends it, followed by ',' unless it is the last. */
  lemma ListPrefixStep(texts: seq<string>, i: nat)
    requires i < |texts|
    ensures ListPrefix(texts, i + 1) == ListPrefix(texts, i) + texts[i] + (if i < |texts| - 1 then "," else "")
  {
    if i > 0 {
      JoinSnoc(texts[..i], texts[i], ',');
      assert texts[..i + 1] == texts[..i] + [texts[i]];
    } else {
      assert texts[..1] == [texts[i]];
    }
  }

  lemma ListPrefixEnd(texts: seq<string>)
    ensures ListPrefix(texts, |texts|) + ")" == "(" + Join(texts, ',') + ")"
  {
    assert texts[..|texts|] == texts;
  }

  // ----- The single-mode text, built one column at a time -----

  /** After column 0 the text is column 0's active text, or NULL. */
  lemma SingleTextStart(cols: seq<Column>)
    requires |cols| > 0
    ensures SingleText(cols, 1) == ActiveText(cols, 0)
  {
    assert ActiveTextList(cols)[1..1] == [];
  }

  /** One more entry after the first: its value, if any, is joined on with
      ':' after the values so far. */
  lemma JoinPresentSnoc(t: string, l: seq<Option<string>>, x: Option<string>)
    ensures x.None? ==> Join([t] + Present(l + [x]), ':') == Join([t] + Present(l), ':')
    ensures x.Some? ==> Join([t] + Present(l + [x]), ':') == Join([t] + Present(l), ':') + (":" + x.value)
  {
    PresentSnoc(l, x);
    var prefix := [t] + Present(l);
    if x.Some? {
      JoinSnoc(prefix, x.value, ':');
      assert [t] + Present(l + [x]) == prefix + [x.value];
      assert Join(prefix, ':') + [':'] + x.value == Join(prefix, ':') + (":" + x.value);
    } else {
      assert Present(l) + OptionList(x) == Present(l);
    }
  }

  lemma PresentSnoc(l: seq<Option<string>>, x: Option<string>)
    ensures Present(l + [x]) == Present(l) + OptionList(x)
  {
    assert (l + [x])[..|l|] == l;
  }

  /** Visiting column `i` > 0 appends ':' and its active text when it has
      one, through a g_strconcat that keeps a NULL text NULL. */
  lemma SingleTextStep(cols: seq<Column>, i: nat)
    requires 0 < i < |cols|
    ensures ActiveText(cols, i).None? ==> SingleText(cols, i + 1) == SingleText(cols, i)
    ensures ActiveText(cols, i).Some? ==>
              SingleText(cols, i + 1) == StrConcat(SingleText(cols, i), ":" + ActiveText(cols, i).value)
  {
    var l := ActiveTextList(cols);
    assert l[1..i + 1] == l[1..i] + [l[i]];
    if l[0].Some? {
      JoinPresentSnoc(l[0].value, l[1..i], l[i]);
    }
  }

  // ----- The default print function -----

  /** The default text is NULL exactly when there are no columns, or when the
      selector is in single mode and column 0 has no active row; in single
      mode one missing column-0 row makes the whole result NULL, since NULL
      propagates through every later g_strconcat. */
  lemma DefaultTextIsNull(cols: seq<Column>)
    ensures DefaultText(cols).None? <==>
              |cols| == 0 || (ColumnSelectionMode(cols) == ModeSingle && ActiveIter(cols, 0).None?)
  {
  }

  /** In single mode with an active row in column 0, splitting the default
      text at ':' gives the active texts of all columns, in column order,
      provided no active text contains ':'. */
  lemma SingleModeRoundTrip(cols: seq<Column>)
    requires |cols| > 0 && ColumnSelectionMode(cols) == ModeSingle && ActiveIter(cols, 0).Some?
    requires forall t :: t in ActiveTexts(cols, 0, |cols|) ==> ':' !in t
    ensures DefaultText(cols).Some?
    ensures Split(DefaultText(cols).value, ':') == ActiveTexts(cols, 0, |cols|)
  {
    ActiveTextsCons(cols, 0, |cols|);
    var texts := ActiveTexts(cols, 0, |cols|);
    assert texts == [ActiveText(cols, 0).value] + ActiveTexts(cols, 1, |cols|);
    assert forall k :: 0 <= k < |texts| ==> texts[k] in texts;
    SplitJoin(texts, ':');
  }

  /** In multiple mode the default text is column 0's selected texts in
      parentheses: "()" for an empty selection, and otherwise a list that
      splits at ',' into exactly those texts when none contains ','. */
  lemma MultipleModeShape(cols: seq<Column>)
    requires |cols| > 0 && ColumnSelectionMode(cols) == ModeMultiple
    ensures DefaultText(cols).Some?
    ensures var s := DefaultText(cols).value;
            |s| >= 2 && s[0] == '(' && s[|s| - 1] == ')' &&
            (SelectedTexts(cols[0]) == [] ==> s == "()") &&
            ((|SelectedTexts(cols[0])| > 0 && forall k :: 0 <= k < |SelectedTexts(cols[0])| ==> ',' !in SelectedTexts(cols[0])[k])
               ==> Split(s[1..|s| - 1], ',') == SelectedTexts(cols[0]))
  {
    var texts := SelectedTexts(cols[0]);
    var s := DefaultText(cols).value;
    assert s[1..|s| - 1] == Join(texts, ',');
    if |texts| > 0 && forall k :: 0 <= k < |texts| ==> ',' !in texts[k] {
      SplitJoin(texts, ',');
    }
  }

  /** In multiple mode the columns after column 0 contribute nothing. */
  lemma MultipleModeIgnoresLaterColumns(cols: seq<Column>, others: seq<Column>)
    requires |cols| > 0 && ColumnSelectionMode(cols) == ModeMultiple
    ensures DefaultText(cols[..1] + others) == DefaultText(cols)
  {
    var cols2 := cols[..1] + others;
    assert cols2[0] == cols[0];
  }

  /** Removing column `k` > 0 keeps column 0, hence the mode, so every other
      column keeps its active text. */
  lemma ActiveTextAfterRemoval(cols: seq<Column>, k: nat, j: nat)
    requires 0 < k < |cols| && j < |cols| - 1
    ensures ActiveText(cols[..k] + cols[k + 1..], j) == ActiveText(cols, if j < k then j else j + 1)
  {
    var cols2 := cols[..k] + cols[k + 1..];
    assert cols2[0] == cols[0];
    assert ColumnSelectionMode(cols2) == ColumnSelectionMode(cols);
    assert cols2[j] == cols[if j < k then j else j + 1];
  }

  /** Removing column `k` > 0 removes its entry from the active texts. */
  lemma ActiveTextListAfterRemoval(cols: seq<Column>, k: nat)
    requires 0 < k < |cols|
    ensures ActiveTextList(cols[..k] + cols[k + 1..]) == ActiveTextList(cols)[..k] + ActiveTextList(cols)[k + 1..]
  {
    var l := ActiveTextList(cols);
    var l2 := ActiveTextList(cols[..k] + cols[k + 1..]);
    forall j | 0 <= j < |l2|
      ensures l2[j] == (l[..k] + l[k + 1..])[j]
    {
      ActiveTextAfterRemoval(cols, k, j);
    }
  }

  /** Dropping an absent entry does not change what is present. */
  lemma {:induction false} PresentSkipNone(l: seq<Option<string>>, k: nat)
    requires k < |l| && l[k].None?
    ensures Present(l[..k] + l[k + 1..]) == Present(l)
  {
    var a, x, b := l[..k], [l[k]], l[k + 1..];
    assert l == (a + x) + b;
    assert Present(x) == [] by {
      assert x[..0] == [];
    }
    PresentAppend(a + x, b);
    PresentAppend(a, x);
    PresentAppend(a, b);
  }

  /** The default text depends only on the mode, on column 0's active row
      and selection, and on the active texts of the later columns. */
  lemma DefaultTextFromParts(cols: seq<Column>, cols2: seq<Column>)
    requires |cols| > 0 && |cols2| > 0
    requires ColumnSelectionMode(cols2) == ColumnSelectionMode(cols)
    requires ActiveText(cols2, 0) == ActiveText(cols, 0)
    requires SelectedTexts(cols2[0]) == SelectedTexts(cols[0])
    requires ActiveTexts(cols2, 1, |cols2|) == ActiveTexts(cols, 1, |cols|)
    ensures DefaultText(cols2) == DefaultText(cols)
  {
  }

  /** In single mode a column after column 0 without an active row is
      skipped: the text is the one of the selector without that column, so
      no separator is doubled. */
  lemma SkipInactiveColumn(cols: seq<Column>, k: nat)
    requires 0 < k < |cols| && ActiveIter(cols, k).None?
    ensures DefaultText(cols[..k] + cols[k + 1..]) == DefaultText(cols)
  {
    var cols2 := cols[..k] + cols[k + 1..];
    assert cols2[0] == cols[0];
    ActiveTextsSkipRemoved(cols, k);
    DefaultTextFromParts(cols, cols2);
  }

  lemma ActiveTextsSkipRemoved(cols: seq<Column>, k: nat)
    requires 0 < k < |cols| && ActiveText(cols, k).None?
    ensures ActiveTexts(cols[..k] + cols[k + 1..], 1, |cols| - 1) == ActiveTexts(cols, 1, |cols|)
  {
    ActiveTextListAfterRemoval(cols, k);
    PresentSkipNoneAfterFirst(ActiveTextList(cols), k);
  }

  /** Dropping an absent entry after the first one does not change what is
      present after the first one. */
  lemma PresentSkipNoneAfterFirst(l: seq<Option<string>>, k: nat)
    requires 0 < k < |l| && l[k].None?
    ensures Present((l[..k] + l[k + 1..])[1..|l| - 1]) == Present(l[1..|l|])
  {
    var m := l[1..];
    PresentSkipNone(m, k - 1);
    assert (l[..k] + l[k + 1..])[1..|l| - 1] == m[..k - 1] + m[k..];
    assert l[1..|l|] == m;
  }

  /** Columns after column 0 keep their active texts when only column 0
      changes, and its mode stays. */
  lemma LaterColumnsAgree(cols: seq<Column>, cols2: seq<Column>)
    requires |cols| == |cols2| > 0 && cols2[0].mode == cols[0].mode
    requires forall j :: 1 <= j < |cols| ==> cols2[j] == cols[j]
    ensures ActiveTexts(cols2, 1, |cols2|) == ActiveTexts(cols, 1, |cols|)
  {
    assert ColumnSelectionMode(cols2) == ColumnSelectionMode(cols);
    forall j | 1 <= j < |cols|
      ensures ActiveTextList(cols)[j] == ActiveTextList(cols2)[j]
    {
      assert cols2[j] == cols[j];
    }
    assert ActiveTextList(cols)[1..|cols|] == ActiveTextList(cols2)[1..|cols2|];
  }

  /** A column whose selected texts are unchanged keeps its active text. */
  lemma ActiveTextFromSelectedTexts(cols: seq<Column>, cols2: seq<Column>)
    requires |cols| > 0 && |cols2| > 0 && cols2[0].mode == cols[0].mode
    requires SelectedTexts(cols2[0]) == SelectedTexts(cols[0])
    ensures ActiveText(cols2, 0) == ActiveText(cols, 0)
  {
    var rs := SelectedRows(cols[0]);
    var rs2 := SelectedRows(cols2[0]);
    if cols[0].mode != TreeMultiple && |rs| > 0 {
      assert SelectedTexts(cols[0])[0] == Rows(cols[0])[rs[0]].text;
      assert SelectedTexts(cols2[0])[0] == Rows(cols2[0])[rs2[0]].text;
    }
  }

  /** Adding a row to column 0's list store, anywhere, leaves the default
      text unchanged: the selection stays on the same rows. */
  lemma InsertKeepsDefaultText(cols: seq<Column>, p: nat, text: string)
    requires |cols| > 0 && cols[0].model.Some? && p <= |Rows(cols[0])|
    ensures DefaultText(cols[0 := WithRowInserted(cols[0], p, text)]) == DefaultText(cols)
  {
    var cols2 := cols[0 := WithRowInserted(cols[0], p, text)];
    InsertKeepsSelectedTexts(cols[0], p, text);
    assert ColumnSelectionMode(cols2) == ColumnSelectionMode(cols);
    ActiveTextFromSelectedTexts(cols, cols2);
    LaterColumnsAgree(cols, cols2);
    DefaultTextFromParts(cols, cols2);
  }

  // ----- Examples -----

  /** One column in single mode with rows "Alice" and "Bob", "Bob" active: "Bob". */
  lemma ExampleSingleColumn()
    ensures DefaultText([Column(0, Some(TreeModel(0, ListStore, [Row("Alice"), Row("Bob")])), TreeBrowse, {1})]) == Some("Bob")
  {
    var col := Column(0, Some(TreeModel(0, ListStore, [Row("Alice"), Row("Bob")])), TreeBrowse, {1});
    RowsFromSingleton(1, 0, 2);
    assert ActiveText([col], 0) == Some("Bob");
  }

  /** Two columns in single mode with active values "Red" and "Large": "Red:Large". */
  lemma ExampleTwoColumns(cols: seq<Column>)
    requires |cols| == 2
    requires cols[0] == Column(0, Some(TreeModel(0, ListStore, [Row("Red"), Row("Green")])), TreeBrowse, {0})
    requires cols[1] == Column(1, Some(TreeModel(1, ListStore, [Row("Small"), Row("Large")])), TreeBrowse, {1})
    ensures DefaultText(cols) == Some("Red:Large")
  {
    ExampleFirstColumn(cols);
    ExampleSecondColumn(cols);
    TwoActiveColumns(cols, "Red", "Large");
    RedLarge();
  }

  lemma RedLarge()
    ensures "Red" + [':'] + "Large" == "Red:Large"
  {
  }

  lemma TwoActiveColumns(cols: seq<Column>, a: string, b: string)
    requires |cols| == 2 && ColumnSelectionMode(cols) == ModeSingle
    requires ActiveText(cols, 0) == Some(a) && ActiveTexts(cols, 1, 2) == [b]
    ensures DefaultText(cols) == Some(a + [':'] + b)
  {
    assert SingleText(cols, 2) == Some(Join([a] + [b], ':'));
    assert [a] + [b] == [a, b];
    assert [a, b][1..] == [b];
    assert Join([a, b], ':') == a + [':'] + Join([b], ':');
  }

  lemma ExampleFirstColumn(cols: seq<Column>)
    requires |cols| == 2 && cols[0] == Column(0, Some(TreeModel(0, ListStore, [Row("Red"), Row("Green")])), TreeBrowse, {0})
    ensures ColumnSelectionMode(cols) == ModeSingle
    ensures ActiveText(cols, 0) == Some("Red")
  {
    RowsFromSingleton(0, 0, 2);
  }

  lemma ExampleSecondColumn(cols: seq<Column>)
    requires |cols| == 2 && cols[0].mode == TreeBrowse
    requires cols[1] == Column(1, Some(TreeModel(1, ListStore, [Row("Small"), Row("Large")])), TreeBrowse, {1})
    ensures ActiveTexts(cols, 1, 2) == ["Large"]
  {
    RowsFromSingleton(1, 0, 2);
    assert ActiveText(cols, 1) == Some("Large");
    assert ActiveTextList(cols)[1..2] == [Some("Large")];
    assert [Some("Large")][..0] == [];
  }

  /** One column in multiple mode with "A", "B" and "C" all selected: "(A,B,C)". */
  lemma ExampleMultiple(cols: seq<Column>)
    requires cols == [Column(0, Some(TreeModel(0, ListStore, [Row("A"), Row("B"), Row("C")])), TreeMultiple, {0, 1, 2})]
    ensures DefaultText(cols) == Some("(A,B,C)")
  {
    ExampleMultipleTexts(cols[0]);
    assert Join(["A", "B", "C"], ',') == "A,B,C" by {
      assert ["A", "B", "C"][1..] == ["B", "C"];
      assert ["B", "C"][1..] == ["C"];
    }
    assert MultipleText(cols) == "(" + "A,B,C" + ")";
    assert "(" + "A,B,C" + ")" == "(A,B,C)";
    assert ColumnSelectionMode(cols) == ModeMultiple;
  }

  lemma ExampleMultipleTexts(col: Column)
    requires col == Column(0, Some(TreeModel(0, ListStore, [Row("A"), Row("B"), Row("C")])), TreeMultiple, {0, 1, 2})
    ensures SelectedTexts(col) == ["A", "B", "C"]
  {
    assert RowsFrom({0, 1, 2}, 3, 3) == [];
    assert RowsFrom({0, 1, 2}, 2, 3) == [2];
    assert RowsFrom({0, 1, 2}, 1, 3) == [1, 2];
    assert SelectedRows(col) == [0, 1, 2];
  }
}
