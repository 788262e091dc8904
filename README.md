# Sequential cascading filter of the CSV viewer

The CSV viewer loads an uploaded table and lets the user narrow it from the
sidebar. The filter copies the loaded table. It then visits the columns in
table order, and each column narrows a working view:

- A text (`object`) column shows a multiselect. Its options are the distinct
  values of that column in the view narrowed so far, and the view keeps the
  rows whose value was picked (`isin`).
- A numeric column shows a range slider from the view's minimum to its
  maximum, but only when the minimum is strictly below the maximum. The view
  then keeps the rows whose value lies in the chosen range, both ends
  included. With no slider, the column does not filter.
- A column of any other dtype is passed over.

This project models that loop and proves what it guarantees.

- `frame.dfy` (module `Frame`) holds the table, the views and the data-frame
  operations the loop uses: the cell of a row, `unique()`, `min()`, `max()`,
  and the membership and range masks.
- `cascade.dfy` (module `Cascade`) holds the widgets, one pass of the loop
  (`Step`), the cascade as a specification function (`ViewBefore`,
  `Filtered`), and the imperative loop (`FilterTable`, with its body
  `FilterColumn`), which is proved equal to the specification.
- `properties.dfy` (module `FilterProperties`) holds the lemmas.

Modelling choices:

- A view is the index of a filtered frame: the positions of its rows in the
  loaded table. Boolean masking keeps the index, so a view is a strictly
  increasing sequence of positions. "Rows are only deleted, never reordered or
  altered" is then a statement about indices, and `Frame.RowsAreSubsequence`
  restates it over the rows themselves.
- The user's answers are an input: one `Selection` per column, either picked
  values or a `(lo, hi)` pair. An answer is read only if its column shows a
  widget. `Cascade.Admissible` says which answers the widgets could actually
  return: picked values among the options, `min <= lo <= hi <= max`. The loop
  does not need it, since `isin` and the comparisons accept any value. It is
  used by the lemma about default answers and by the counterexample below.
- Each column carries a kind tag (`Categorical`, `Numeric`, `Other`) in place
  of pandas dtype inference. Cells are text or unbounded integers, with no
  nulls.
- On an empty view, pandas gives NaN for the minimum and the maximum, and
  `NaN < NaN` is false. The model therefore shows no slider for a numeric
  column over an empty view.

The loop visits columns in table order. It skips a numeric column whose view
is empty, as well as one whose values are all equal. Every text column gets a
multiselect, with no text-search fallback.

One might expect that narrowing an earlier column can only shrink a later
column's choices. That is false. Narrowing an earlier column can leave a later
numeric column with a single value. Its slider then disappears and its range
stops filtering, so rows it used to remove come back.
`FilterProperties.CollapsedSliderWidensLaterChoices` shows this on a two-row
table. The expectation is proved for the column that comes right after the
narrowed one (`NextChoicesShrink`). It is also proved in general when no slider
in between disappears (`NarrowingShrinksViews`, `NarrowingShrinksChoices`).

## Model

| member | source | states |
|---|---|---|
| Frame.AllRows | app.py:27 | The copy of the loaded table holds every row in table order: the view contains exactly the positions below the row count, strictly increasing. |
| Frame.Keep | app.py:35-44 | The `isin` / inclusive range mask keeps exactly the rows of the view whose cell passes the selection, and the result is again a view (order kept). |
| Frame.Unique | app.py:33 | `unique()` returns exactly the values of its input, each once, and is never longer than its input. |
| Frame.UniqueKeepsFirstAppearanceOrder | app.py:33 | `unique()` lists the values in the order in which they first appear in its input. |
| Frame.Offered | app.py:33 | The options of a multiselect are exactly the values the column takes in the current view, with no repeats. |
| Frame.Low | app.py:39 | `min()` of a numeric column over a non-empty view is a value some row of the view holds, and no row holds a smaller one. |
| Frame.High | app.py:40 | `max()` of a numeric column over a non-empty view is a value some row of the view holds, and no row holds a larger one. |
| Frame.LowHighBound | app.py:39-40 | The same facts about the minimum and the maximum, restated with quantifiers over the view's rows. |
| Frame.RowsAreSubsequence | app.py:27-44 | The rows of any view are the loaded rows with some deleted: none reordered, none altered. |
| Cascade.HasWidget | app.py:32-42 | The widget guard: a numeric column gets a slider only when its view holds at least two rows. The exact condition, that two rows differ, is `SliderIffValuesDiffer`. |
| Cascade.ControlFor | app.py:32-43 | A column shows no widget exactly when the guard fails. A text column always gets a multiselect. A slider appears only on a numeric column over a non-empty view with min < max. |
| Cascade.Step | app.py:32-44 | One pass of the loop body turns a view into a view. |
| Cascade.ViewBefore | app.py:27-44 | The working view reaching each column, built from the copied table by one pass per earlier column, is always a view of the loaded table. |
| Cascade.Filtered | app.py:27-44 | The displayed frame is a view of the loaded table. |
| Cascade.DefaultFor | app.py:34-43 | A widget's default (every option, or the slider's whole span) is an answer the widget can return, and it lets through every option and every number in the span. |
| Cascade.Defaults | app.py:34-43 | The defaults of the widgets as first rendered give one answer per column. |
| Cascade.FilterColumn | app.py:31-44 | The loop body renders exactly the widget `ControlFor` specifies for the current view, and the next view is exactly `Step` of it. |
| Cascade.FilterTable | app.py:27-44 | The imperative loop over the columns returns exactly the specified filtered view, and at each column it shows the widget computed from the view the earlier columns left. |
| FilterProperties.StepMembership | app.py:32-44 | After one column, a row is in the view exactly when it was before and, if the column shows a widget, its cell passes the answer. |
| FilterProperties.DefaultKeepsView | app.py:34-43 | A widget's default (every offered value, or the slider's whole span) fits the widget and leaves the view unchanged at that column. |
| FilterProperties.SliderIffValuesDiffer | app.py:39-44 | A numeric column gets a slider exactly when two rows of the view differ in it. Without one, including the single-value and empty cases, the view passes through whatever the answer. |
| FilterProperties.RangeIncludesEnds | app.py:44 | Rows whose value equals `lo` or `hi` survive the range filter. |
| FilterProperties.ViewsShrink | app.py:30-44 | The working view only shrinks as the loop advances: every row of a later view is in every earlier one. |
| FilterProperties.FilteredRowsAreSubsequence | app.py:27-44 | The displayed rows are a subsequence of the loaded rows. |
| FilterProperties.ViewBeforeMembership | app.py:30-44 | A row is in the view after the first k columns exactly when it passes each of those columns' widgets. |
| FilterProperties.MembershipIsConjunction | app.py:30-44 | A row is displayed exactly when its value is picked in every text column and lies in range in every numeric column that got a slider. Every text column gets a widget. |
| FilterProperties.ChoicesFixedByEarlierAnswers | app.py:30-34 | The view reaching a column, and so the widget it shows, depends only on the answers to the columns before it. Later answers never change earlier choices. |
| FilterProperties.ShownFromEarlierView | app.py:33-43 | A multiselect offers each value the column takes in the already-narrowed view exactly once. A slider spans exactly that view's smallest to largest value. |
| FilterProperties.DefaultsKeepEveryRow | app.py:27-44 | The default answers fit every widget and display every loaded row. |
| FilterProperties.StepMonotone | app.py:35-44 | For one column, a smaller view and a narrower answer give a smaller result, unless the smaller view loses a widget the larger view shows. |
| FilterProperties.NarrowingShrinksViews | app.py:30-44 | Narrowing earlier answers shrinks every later view, as long as no numeric column in between loses its slider. |
| FilterProperties.NarrowingShrinksChoices | app.py:33-44 | Under the same condition, a later text column offers no value it did not offer before. |
| FilterProperties.NextChoicesShrink | app.py:33-35 | Narrowing one column's answer never adds an option to the column right after it. |
| FilterProperties.CollapsedSliderWidensLaterChoices | app.py:39-44 | Example table and answers: the narrower earlier answer removes a later slider, and a later text column then offers a value it did not offer before. Both answer lists fit their widgets. |

## Left out

- Streamlit page setup, sidebar titles and messages, and the two `st.dataframe` displays (app.py:1-9, app.py:47-51) are user interface. The model returns the filtered view and the widgets shown instead.
- Upload and CSV parsing with its error path (app.py:11-23) are file I/O through pandas. The loaded table is an input.
- `st.session_state` (app.py:16, app.py:27) is ambient UI storage. The table is passed in directly.
- Pandas dtype inference (app.py:32, app.py:38) is replaced by a kind tag per column. Boolean columns, which pandas counts as numeric, are not treated separately.
- The `float(...)` conversion and NaN semantics (app.py:39-44) are floating point. Cells are unbounded integers or text, with no nulls. Only the empty-view NaN case is kept, as "no slider".
- Pandas equality across types inside an object column (for example `1 == 1.0` in `isin`) is not modelled. Values compare as Dafny datatype values.
- Widget state across reruns (a stored selection that no longer matches new options) belongs to Streamlit. Answers are one input list.
- FilterProperties.NarrowingShrinksViews: weaker than "narrowing an earlier filter only shrinks later choices", because that claim is false when a slider in between disappears (see CollapsedSliderWidensLaterChoices). It carries that side condition.
- FilterProperties.NarrowingShrinksChoices: carries the same side condition, for the same reason.
- Order management, keyword extraction, stock reconciliation, archiving, mutual cascades, text-search, null-only and sort filters are not implemented by this code, so they are not modelled.
