/**
 * What the sequential cascade guarantees: the result is the table with rows
 * deleted; a row survives exactly when it passes every widget shown; each
 * widget depends only on the answers to the columns before it; default
 * answers keep every row; a constant numeric column filters nothing; ranges
 * include their ends; and narrowing earlier answers narrows later choices,
 * as long as no slider in between disappears.
 */
module FilterProperties {
  import opened Frame
  import opened Cascade

  /** Two views holding the same rows are the same view (both are sorted). */
  lemma {:induction false} SameRowsSameView(t: Table, v: seq<nat>, w: seq<nat>)
    requires IsView(t, v) && IsView(t, w)
    requires forall y :: y in v <==> y in w
    ensures v == w
  {
    assert v == [] <==> w == [] by {
      if v != [] { assert v[0] in v; }
      if w != [] { assert w[0] in w; }
    }
    if v != [] {
      assert v[0] in w && w[0] in v;
      assert v[0] == w[0] by {
        var i :| 0 <= i < |w| && w[i] == v[0];
        var j :| 0 <= j < |v| && v[j] == w[0];
        assert w[0] <= w[i] && v[0] <= v[j];
      }
      TailView(t, v);
      TailView(t, w);
      SameRowsSameView(t, v[1..], w[1..]);
      assert v == [v[0]] + v[1..] && w == [w[0]] + w[1..];
    }
  }

  /** Filtering by a selection that every row of the view passes leaves the view as it was. */
  lemma KeepEverything(t: Table, v: seq<nat>, c: nat, s: Selection)
    requires WellFormed(t) && c < |t.columns| && IsView(t, v)
    requires forall y :: y in v ==> Admits(s, At(t, y, c))
    ensures Keep(t, v, c, s) == v
  {
    SameRowsSameView(t, Keep(t, v, c, s), v);
  }

  /** A row is in the view after one column exactly when it was before and, if the column shows a widget, passes it. */
  lemma StepMembership(t: Table, v: seq<nat>, c: nat, s: Selection, y: nat)
    requires WellFormed(t) && c < |t.columns| && IsView(t, v)
    ensures y in Step(t, v, c, s) <==>
              y in v && (HasWidget(t, v, c) ==> Admits(s, At(t, y, c)))
  {
  }

  /**
   * Leaving a widget at its default (every offered value picked, or the
   * slider's whole span) leaves the view unchanged at that column.
   */
  lemma DefaultKeepsView(t: Table, v: seq<nat>, c: nat)
    requires WellFormed(t) && c < |t.columns| && IsView(t, v)
    ensures Fits(ControlFor(t, v, c), DefaultFor(ControlFor(t, v, c)))
    ensures Step(t, v, c, DefaultFor(ControlFor(t, v, c))) == v
  {
    var w := ControlFor(t, v, c);
    if !w.NoControl? {
      var s := DefaultFor(w);
      if w.Slider? {
        LowHighBound(t, v, c);
      }
      forall y | y in v ensures Admits(s, At(t, y, c)) {
        if w.MultiSelect? {
          assert At(t, y, c) in Offered(t, v, c);
        }
      }
      KeepEverything(t, v, c, s);
    }
  }

  /**
   * A numeric column gets a slider exactly when the view is non-empty and
   * its values there are not all equal; without a slider the view passes
   * through whatever the answer.
   */
  lemma SliderIffValuesDiffer(t: Table, v: seq<nat>, c: nat, s: Selection)
    requires WellFormed(t) && c < |t.columns| && IsView(t, v) && t.columns[c].kind == Numeric
    ensures ControlFor(t, v, c).Slider? <==>
              exists y, z :: y in v && z in v && At(t, y, c) != At(t, z, c)
    ensures ControlFor(t, v, c).NoControl? ==> Step(t, v, c, s) == v
  {
    if v != [] {
      LowHighBound(t, v, c);
      var lo, hi := Low(t, v, c), High(t, v, c);
      if exists y, z :: y in v && z in v && At(t, y, c) != At(t, z, c) {
        var y, z :| y in v && z in v && At(t, y, c) != At(t, z, c);
        assert lo < hi;
      }
    }
  }

  /** Both ends of a chosen range are kept: a row whose value equals `lo` or `hi` survives. */
  lemma RangeIncludesEnds(t: Table, v: seq<nat>, c: nat, lo: int, hi: int, y: nat)
    requires WellFormed(t) && c < |t.columns| && IsView(t, v)
    requires ControlFor(t, v, c).Slider? && lo <= hi
    requires y in v && (At(t, y, c) == Number(lo) || At(t, y, c) == Number(hi))
    ensures y in Step(t, v, c, Range(lo, hi))
  {
  }

  /** The working view only shrinks as the loop advances. */
  lemma {:induction false} ViewsShrink(t: Table, sel: seq<Selection>, i: nat, j: nat)
    requires WellFormed(t) && |sel| == |t.columns| && i <= j <= |t.columns|
    ensures forall y :: y in ViewBefore(t, sel, j) ==> y in ViewBefore(t, sel, i)
    decreases j
  {
    if i < j {
      ViewsShrink(t, sel, i, j - 1);
      forall y | y in ViewBefore(t, sel, j) ensures y in ViewBefore(t, sel, j - 1) {
        StepMembership(t, ViewBefore(t, sel, j - 1), j - 1, sel[j - 1], y);
      }
    }
  }

  /** The displayed rows are the loaded rows with some deleted: none reordered, none altered. */
  lemma FilteredRowsAreSubsequence(t: Table, sel: seq<Selection>)
    requires WellFormed(t) && |sel| == |t.columns|
    ensures IsSubsequence(Rows(t, Filtered(t, sel)), t.rows)
    ensures forall y :: y in Filtered(t, sel) ==> y < |t.rows|
  {
    RowsAreSubsequence(t, Filtered(t, sel));
  }

  /** Membership after `k` columns is the conjunction of the first `k` columns' tests. */
  lemma {:induction false} ViewBeforeMembership(t: Table, sel: seq<Selection>, k: nat, y: nat)
    requires WellFormed(t) && |sel| == |t.columns| && k <= |t.columns|
    ensures y in ViewBefore(t, sel, k) <==>
              y < |t.rows| && forall c :: 0 <= c < k ==> PassesColumn(t, sel, c, y)
  {
    if k > 0 {
      ViewBeforeMembership(t, sel, k - 1, y);
      var v := ViewBefore(t, sel, k - 1);
      assert y in ViewBefore(t, sel, k) <==> y in v && (Applies(t, sel, k - 1) ==> Admits(sel[k - 1], At(t, y, k - 1))) by {
        StepMembership(t, v, k - 1, sel[k - 1], y);
      }
      if y < |t.rows| {
        assert (forall c :: 0 <= c < k ==> PassesColumn(t, sel, c, y)) <==>
               (forall c :: 0 <= c < k - 1 ==> PassesColumn(t, sel, c, y)) && PassesColumn(t, sel, k - 1, y);
      }
    }
  }

  /**
   * A row is displayed exactly when, for every column that shows a widget,
   * its value passes that widget's answer: picked in every text column, in
   * range in every numeric column that got a slider.
   */
  lemma MembershipIsConjunction(t: Table, sel: seq<Selection>, y: nat)
    requires WellFormed(t) && |sel| == |t.columns|
    ensures y in Filtered(t, sel) <==>
              y < |t.rows| && forall c :: 0 <= c < |t.columns| ==> PassesColumn(t, sel, c, y)
    ensures forall c :: 0 <= c < |t.columns| && t.columns[c].kind == Categorical ==> Applies(t, sel, c)
  {
    ViewBeforeMembership(t, sel, |t.columns|, y);
  }

  /**
   * The view reaching column `c`, and so the widget column `c` shows, depends
   * only on the answers to the columns before it.
   */
  lemma {:induction false} ChoicesFixedByEarlierAnswers(t: Table, a: seq<Selection>, b: seq<Selection>, c: nat)
    requires WellFormed(t) && |a| == |t.columns| && |b| == |t.columns| && c <= |t.columns|
    requires a[..c] == b[..c]
    ensures ViewBefore(t, a, c) == ViewBefore(t, b, c)
    ensures c < |t.columns| ==> ControlFor(t, ViewBefore(t, a, c), c) == ControlFor(t, ViewBefore(t, b, c), c)
  {
    if c > 0 {
      assert a[..c - 1] == a[..c][..c - 1] && b[..c - 1] == b[..c][..c - 1];
      ChoicesFixedByEarlierAnswers(t, a, b, c - 1);
      assert a[c - 1] == a[..c][c - 1] && b[c - 1] == b[..c][c - 1];
    }
  }

  /**
   * Each widget is computed from the view the earlier columns left: a text
   * column offers each value it takes there exactly once, and a slider spans
   * exactly the smallest to the largest value there.
   */
  lemma ShownFromEarlierView(t: Table, sel: seq<Selection>, c: nat)
    requires WellFormed(t) && |sel| == |t.columns| && c < |t.columns|
    ensures Shown(t, sel, c).MultiSelect? ==>
              (forall x :: x in Shown(t, sel, c).options <==> exists y :: y in ViewBefore(t, sel, c) && At(t, y, c) == x) &&
              (forall i, j :: 0 <= i < j < |Shown(t, sel, c).options| ==>
                 Shown(t, sel, c).options[i] != Shown(t, sel, c).options[j])
    ensures Shown(t, sel, c).Slider? ==>
              (exists y :: y in ViewBefore(t, sel, c) && At(t, y, c) == Number(Shown(t, sel, c).min)) &&
              (exists y :: y in ViewBefore(t, sel, c) && At(t, y, c) == Number(Shown(t, sel, c).max)) &&
              (forall y :: y in ViewBefore(t, sel, c) ==> Shown(t, sel, c).min <= At(t, y, c).n <= Shown(t, sel, c).max)
  {
    var v := ViewBefore(t, sel, c);
    if t.columns[c].kind == Numeric && v != [] {
      LowHighBound(t, v, c);
    }
  }

  /** With the default answers every widget is satisfied and every row is displayed. */
  lemma DefaultsKeepEveryRow(t: Table)
    requires WellFormed(t)
    ensures Admissible(t, Defaults(t))
    ensures Filtered(t, Defaults(t)) == AllRows(t)
  {
    var d := Defaults(t);
    forall m | 0 <= m < |t.columns| ensures Step(t, AllRows(t), m, d[m]) == AllRows(t) {
      DefaultStep(t, m);
    }
    forall c | 0 <= c <= |t.columns| ensures ViewBefore(t, d, c) == AllRows(t) {
      NeutralPrefix(t, d, c);
    }
    forall c | 0 <= c < |t.columns| ensures Fits(ControlFor(t, ViewBefore(t, d, c), c), d[c]) {
      DefaultKeepsView(t, AllRows(t), c);
    }
  }

  /** Answers that each leave the full table unchanged keep every row through the cascade. */
  lemma {:induction false} NeutralPrefix(t: Table, sel: seq<Selection>, c: nat)
    requires WellFormed(t) && |sel| == |t.columns| && c <= |t.columns|
    requires forall m :: 0 <= m < c ==> Step(t, AllRows(t), m, sel[m]) == AllRows(t)
    ensures ViewBefore(t, sel, c) == AllRows(t)
  {
    if c > 0 {
      NeutralPrefix(t, sel, c - 1);
      assert Step(t, AllRows(t), c - 1, sel[c - 1]) == AllRows(t);
    }
  }

  /** One column left at its first-render default keeps every row. */
  lemma DefaultStep(t: Table, m: nat)
    requires WellFormed(t) && m < |t.columns|
    ensures Step(t, AllRows(t), m, Defaults(t)[m]) == AllRows(t)
  {
    assert Defaults(t)[m] == DefaultFor(ControlFor(t, AllRows(t), m));
    DefaultKeepsView(t, AllRows(t), m);
  }

  /** `x` lets through no more than `y`: fewer picked values, or a range inside `y`'s. */
  predicate Narrower(x: Selection, y: Selection)
  {
    match (x, y)
    case (Values(s1), Values(s2)) => s1 <= s2
    case (Range(lo1, hi1), Range(lo2, hi2)) => lo2 <= lo1 && hi1 <= hi2
    case _ => x == y
  }

  /** Every value offered by `xs` is offered by `ys`. */
  predicate ChoicesWithin(xs: seq<Value>, ys: seq<Value>)
  {
    forall x :: x in xs ==> x in ys
  }

  lemma NarrowerAdmitsLess(x: Selection, y: Selection, v: Value)
    requires Narrower(x, y) && Admits(x, v)
    ensures Admits(y, v)
  {
  }

  /**
   * One column of the loop is monotone: a smaller view and a narrower answer
   * give a smaller result, provided the smaller view does not lose a widget
   * the larger one shows.
   */
  lemma StepMonotone(t: Table, v1: seq<nat>, v2: seq<nat>, c: nat, s1: Selection, s2: Selection)
    requires WellFormed(t) && c < |t.columns| && IsView(t, v1) && IsView(t, v2)
    requires forall y :: y in v1 ==> y in v2
    requires Narrower(s1, s2)
    requires !ControlFor(t, v2, c).NoControl? ==> !ControlFor(t, v1, c).NoControl?
    ensures forall y :: y in Step(t, v1, c, s1) ==> y in Step(t, v2, c, s2)
  {
    forall y | y in Step(t, v1, c, s1) ensures y in Step(t, v2, c, s2) {
      StepMembership(t, v1, c, s1, y);
      StepMembership(t, v2, c, s2, y);
      if !ControlFor(t, v2, c).NoControl? {
        NarrowerAdmitsLess(s1, s2, At(t, y, c));
      }
    }
  }

  /**
   * Narrowing answers shrinks every later view, as long as no numeric column
   * in between loses its slider because of it.
   */
  lemma {:induction false} NarrowingShrinksViews(t: Table, a: seq<Selection>, b: seq<Selection>, k: nat)
    requires WellFormed(t) && |a| == |t.columns| && |b| == |t.columns| && k <= |t.columns|
    requires forall m :: 0 <= m < k ==> Narrower(a[m], b[m])
    requires forall m :: 0 <= m < k ==> (Applies(t, b, m) ==> Applies(t, a, m))
    ensures forall y :: y in ViewBefore(t, a, k) ==> y in ViewBefore(t, b, k)
  {
    if k > 0 {
      NarrowingShrinksViews(t, a, b, k - 1);
      assert Applies(t, b, k - 1) ==> Applies(t, a, k - 1);
      StepMonotone(t, ViewBefore(t, a, k - 1), ViewBefore(t, b, k - 1), k - 1, a[k - 1], b[k - 1]);
    }
  }

  /** Under the same conditions, a later text column offers no value it did not offer before. */
  lemma NarrowingShrinksChoices(t: Table, a: seq<Selection>, b: seq<Selection>, k: nat)
    requires WellFormed(t) && |a| == |t.columns| && |b| == |t.columns| && k < |t.columns|
    requires forall m :: 0 <= m < k ==> Narrower(a[m], b[m])
    requires forall m :: 0 <= m < k ==> (Applies(t, b, m) ==> Applies(t, a, m))
    ensures ChoicesWithin(Offered(t, ViewBefore(t, a, k), k), Offered(t, ViewBefore(t, b, k), k))
  {
    NarrowingShrinksViews(t, a, b, k);
  }

  /** Narrowing one column's answer never adds a choice to the column right after it. */
  lemma NextChoicesShrink(t: Table, a: seq<Selection>, b: seq<Selection>, j: nat)
    requires WellFormed(t) && |a| == |t.columns| && |b| == |t.columns| && j + 1 < |t.columns|
    requires a[..j] == b[..j] && Narrower(a[j], b[j])
    ensures ChoicesWithin(Offered(t, ViewBefore(t, a, j + 1), j + 1), Offered(t, ViewBefore(t, b, j + 1), j + 1))
  {
    ChoicesFixedByEarlierAnswers(t, a, b, j);
    StepMonotone(t, ViewBefore(t, a, j), ViewBefore(t, b, j), j, a[j], b[j]);
  }

  /**
   * The table of the example below: a text column A, a numeric column N and
   * a text column C, with rows (x, 1, p) and (y, 5, q).
   */
  predicate IsSample(t: Table, x: Value, y: Value, p: Value, q: Value)
  {
    |t.columns| == 3 && |t.rows| == 2 &&
    t.columns[0].kind == Categorical && t.columns[1].kind == Numeric && t.columns[2].kind == Categorical &&
    t.rows[0] == [x, Number(1), p] && t.rows[1] == [y, Number(5), q] &&
    x != y && p != q
  }

  lemma SampleCells(t: Table, x: Value, y: Value, p: Value, q: Value)
    requires IsSample(t, x, y, p, q)
    ensures WellFormed(t)
    ensures AllRows(t) == [0, 1]
  {
    var all := AllRows(t);
    assert |all| == 2 && all[0] == 0 && all[1] == 1;
  }

  /** Picking only x keeps the first row, whose N value 1 is then alone: no slider. */
  lemma SampleNarrowViews(t: Table, x: Value, y: Value, p: Value, q: Value, a: seq<Selection>)
    requires IsSample(t, x, y, p, q) && a == [Values({x}), Range(5, 5), Values({})]
    ensures WellFormed(t)
    ensures ViewBefore(t, a, 0) == [0, 1] && ViewBefore(t, a, 1) == [0] && ViewBefore(t, a, 2) == [0]
    ensures !HasWidget(t, [0], 1)
  {
    SampleCells(t, x, y, p, q);
    assert Keep(t, [1], 0, a[0]) == [];
    assert Keep(t, [0, 1], 0, a[0]) == [0];
  }

  /** Picking x and y keeps both rows; N spans 1 .. 5 and its range (5, 5) keeps the second row. */
  lemma SampleWideViews(t: Table, x: Value, y: Value, p: Value, q: Value, b: seq<Selection>)
    requires IsSample(t, x, y, p, q) && b == [Values({x, y}), Range(5, 5), Values({})]
    ensures WellFormed(t)
    ensures ViewBefore(t, b, 0) == [0, 1] && ViewBefore(t, b, 1) == [0, 1] && ViewBefore(t, b, 2) == [1]
    ensures Low(t, [0, 1], 1) == 1 && High(t, [0, 1], 1) == 5
  {
    SampleCells(t, x, y, p, q);
    assert Keep(t, [1], 0, b[0]) == [1];
    assert Keep(t, [0, 1], 0, b[0]) == [0, 1];
    assert Low(t, [1], 1) == 5 && High(t, [1], 1) == 5;
    assert HasWidget(t, [0, 1], 1);
    assert Keep(t, [1], 1, b[1]) == [1];
    assert Keep(t, [0, 1], 1, b[1]) == [1];
  }

  /** Both answer lists of the example fit the widgets they meet. */
  lemma SampleAnswersFit(t: Table, x: Value, y: Value, p: Value, q: Value, a: seq<Selection>, b: seq<Selection>)
    requires IsSample(t, x, y, p, q)
    requires a == [Values({x}), Range(5, 5), Values({})]
    requires b == [Values({x, y}), Range(5, 5), Values({})]
    ensures WellFormed(t) && Admissible(t, a) && Admissible(t, b)
  {
    SampleNarrowViews(t, x, y, p, q, a);
    SampleWideViews(t, x, y, p, q, b);
    assert x == At(t, 0, 0) && y == At(t, 1, 0);
    assert Fits(Shown(t, a, 0), a[0]) && Fits(Shown(t, b, 0), b[0]);
    assert Shown(t, a, 1) == NoControl;
    assert Shown(t, b, 1) == Slider(1, 5);
  }

  /**
   * Without the side condition the narrowing claim fails. On the table with
   * rows (x, 1, p) and (y, 5, q), picking only x in column A leaves column N
   * a single value, so its slider disappears and its range (5, 5) stops
   * filtering; column C then offers p, which it did not offer when both x
   * and y were picked. Both answer lists fit the widgets they meet.
   */
  lemma CollapsedSliderWidensLaterChoices(t: Table, x: Value, y: Value, p: Value, q: Value,
                                          a: seq<Selection>, b: seq<Selection>)
    requires IsSample(t, x, y, p, q)
    requires a == [Values({x}), Range(5, 5), Values({})]
    requires b == [Values({x, y}), Range(5, 5), Values({})]
    ensures WellFormed(t)
    ensures forall m :: 0 <= m < |t.columns| ==> Narrower(a[m], b[m])
    ensures Admissible(t, a) && Admissible(t, b)
    ensures p in Offered(t, ViewBefore(t, a, 2), 2) && p !in Offered(t, ViewBefore(t, b, 2), 2)
  {
    SampleAnswersFit(t, x, y, p, q, a, b);
    SampleNarrowViews(t, x, y, p, q, a);
    SampleWideViews(t, x, y, p, q, b);
    assert 0 in [0] && At(t, 0, 2) == p;
    assert forall z :: z in [1] ==> z == 1;
    assert At(t, 1, 2) == q;
  }
}
