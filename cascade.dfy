/**
 * The sidebar filter: the loaded table is copied, then its columns are
 * visited in table order and each one narrows the working view. A text
 * column offers the distinct values of the view narrowed so far and keeps
 * the rows whose value was picked; a numeric column offers a range slider
 * over the view's minimum and maximum, but only when the minimum is strictly
 * below the maximum, and then keeps the rows inside the chosen range, both
 * ends included. Columns of any other dtype are passed over.
 *
 * The user's answers are an input: one selection per column, read only when
 * that column's widget is shown.
 */
module Cascade {
  import opened Frame

  /** The widget rendered in the sidebar for one column. */
  datatype Control =
    | MultiSelect(options: seq<Value>)
    | Slider(min: int, max: int)
    | NoControl

  /**
   * Whether column `c` gets a widget over view `v`: a text column always does;
   * a numeric one only when the view's minimum is strictly below its maximum
   * (on an empty view both are NaN, and NaN < NaN is false).
   */
  predicate HasWidget(t: Table, v: seq<nat>, c: nat)
    requires WellFormed(t) && c < |t.columns| && IsView(t, v)
    ensures HasWidget(t, v, c) && t.columns[c].kind == Numeric ==> |v| >= 2
  {
    match t.columns[c].kind
    case Categorical => true
    case Numeric => v != [] && Low(t, v, c) < High(t, v, c)
    case Other => false
  }

  /** The widget column `c` gets over view `v`. */
  function ControlFor(t: Table, v: seq<nat>, c: nat): (w: Control)
    requires WellFormed(t) && c < |t.columns| && IsView(t, v)
    ensures w.NoControl? <==> !HasWidget(t, v, c)
    ensures w.MultiSelect? <==> t.columns[c].kind == Categorical
    ensures w.Slider? ==> t.columns[c].kind == Numeric && v != [] && w.min < w.max
  {
    if !HasWidget(t, v, c) then NoControl
    else if t.columns[c].kind == Categorical then MultiSelect(Offered(t, v, c))
    else Slider(Low(t, v, c), High(t, v, c))
  }

  /** One pass of the loop body: filter by the column's widget if it has one. */
  function Step(t: Table, v: seq<nat>, c: nat, s: Selection): (r: seq<nat>)
    requires WellFormed(t) && c < |t.columns| && IsView(t, v)
    ensures IsView(t, r)
  {
    if HasWidget(t, v, c) then Keep(t, v, c, s) else v
  }

  /** The working view when the loop reaches column `c` (after columns 0 .. c-1). */
  function ViewBefore(t: Table, sel: seq<Selection>, c: nat): (v: seq<nat>)
    requires WellFormed(t) && |sel| == |t.columns| && c <= |t.columns|
    ensures IsView(t, v)
  {
    if c == 0 then AllRows(t)
    else Step(t, ViewBefore(t, sel, c - 1), c - 1, sel[c - 1])
  }

  /** The filtered frame the page displays. */
  function Filtered(t: Table, sel: seq<Selection>): (v: seq<nat>)
    requires WellFormed(t) && |sel| == |t.columns|
    ensures IsView(t, v)
  {
    ViewBefore(t, sel, |t.columns|)
  }

  /** The widget the sidebar shows for column `c`, rendered from the view the earlier columns left. */
  function Shown(t: Table, sel: seq<Selection>, c: nat): (w: Control)
    requires WellFormed(t) && |sel| == |t.columns| && c < |t.columns|
  {
    ControlFor(t, ViewBefore(t, sel, c), c)
  }

  /** Whether column `c` gets a widget (and so a filter) in the cascade. */
  predicate Applies(t: Table, sel: seq<Selection>, c: nat)
    requires WellFormed(t) && |sel| == |t.columns| && c < |t.columns|
  {
    HasWidget(t, ViewBefore(t, sel, c), c)
  }

  /** Row `y` passes column `c`: the column shows no widget, or the row's value passes the answer. */
  predicate PassesColumn(t: Table, sel: seq<Selection>, c: nat, y: nat)
    requires WellFormed(t) && |sel| == |t.columns| && c < |t.columns| && y < |t.rows|
  {
    Applies(t, sel, c) ==> Admits(sel[c], At(t, y, c))
  }

  /** A selection the widget `w` can return: picked among its options, or a sub-range of its slider. */
  predicate Fits(w: Control, s: Selection)
  {
    match w
    case MultiSelect(options) => s.Values? && forall x :: x in s.chosen ==> x in options
    case Slider(min, max) => s.Range? && min <= s.lo <= s.hi <= max
    case NoControl => true
  }

  /** Every answer is one its widget, as rendered in the cascade, could have returned. */
  predicate Admissible(t: Table, sel: seq<Selection>)
    requires WellFormed(t) && |sel| == |t.columns|
  {
    forall c :: 0 <= c < |t.columns| ==> Fits(Shown(t, sel, c), sel[c])
  }

  /** A widget's default value: every option of a multiselect, the whole span of a slider. */
  function DefaultFor(w: Control): (s: Selection)
    requires w.Slider? ==> w.min <= w.max
    ensures Fits(w, s)
    ensures w.MultiSelect? ==> forall x :: x in w.options ==> Admits(s, x)
    ensures w.Slider? ==> forall n :: w.min <= n <= w.max ==> Admits(s, Number(n))
  {
    match w
    case MultiSelect(options) => Values(set x | x in options)
    case Slider(min, max) => Range(min, max)
    case NoControl => Values({})
  }

  /** The defaults of the widgets as they are first rendered on the unfiltered table. */
  function Defaults(t: Table): (sel: seq<Selection>)
    requires WellFormed(t)
    ensures |sel| == |t.columns|
  {
    seq(|t.columns|, c requires 0 <= c < |t.columns| => DefaultFor(ControlFor(t, AllRows(t), c)))
  }

  /**
   * The body of the filter loop for column `c`: render the column's widget
   * from the current view, then narrow the view by the user's answer.
   */
  method FilterColumn(t: Table, view: seq<nat>, c: nat, s: Selection) returns (w: Control, next: seq<nat>)
    requires WellFormed(t) && c < |t.columns| && IsView(t, view)
    ensures w == ControlFor(t, view, c)
    ensures next == Step(t, view, c, s)
  {
    next := view;
    match t.columns[c].kind {
      case Categorical =>
        var options := Offered(t, view, c);
        w := MultiSelect(options);
        next := Keep(t, view, c, s);
      case Numeric =>
        if view == [] {
          // min() and max() of an empty column are NaN: the guard fails
          w := NoControl;
        } else {
          var lo, hi := Low(t, view, c), High(t, view, c);
          if lo < hi {
            w := Slider(lo, hi);
            next := Keep(t, view, c, s);
          } else {
            w := NoControl;
          }
        }
      case Other =>
        w := NoControl;
    }
  }

  /**
   * The filter loop: copy the table, then visit the columns in order, each
   * one rendering its widget from the current view and narrowing it.
   * Returns the filtered view and the widgets shown, column by column.
   */
  method FilterTable(t: Table, sel: seq<Selection>) returns (view: seq<nat>, controls: seq<Control>)
    requires WellFormed(t) && |sel| == |t.columns|
    ensures view == Filtered(t, sel)
    ensures |controls| == |t.columns|
    ensures forall c :: 0 <= c < |t.columns| ==> controls[c] == Shown(t, sel, c)
  {
    view := AllRows(t);
    controls := [];
    for c := 0 to |t.columns|
      invariant view == ViewBefore(t, sel, c)
      invariant |controls| == c
      invariant forall m :: 0 <= m < c ==> controls[m] == Shown(t, sel, m)
    {
      var w;
      w, view := FilterColumn(t, view, c, sel[c]);
      assert view == ViewBefore(t, sel, c + 1);
      ghost var shown := controls;
      controls := controls + [w];
      forall m | 0 <= m < c + 1 ensures controls[m] == Shown(t, sel, m) {
        if m < c { assert controls[m] == shown[m]; }
      }
    }
  }
}
