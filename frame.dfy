/**
 * A loaded table and the few data-frame operations the sidebar filter uses
 * on it: reading a cell, the distinct values of a column (in order of first
 * appearance), the minimum and maximum of a numeric column, and restricting
 * a view to the rows whose cell passes a selection (a membership mask or an
 * inclusive range mask).
 *
 * A view is the index of a filtered frame: the positions, in the loaded
 * table, of the rows it still holds. Boolean masking keeps the original
 * index, so every view is a strictly increasing sequence of row positions.
 */
module Frame {

  /** A cell: a text cell of an object column, or a null-free numeric cell. */
  datatype Value = Text(s: string) | Number(n: int)

  /** The dtype of a column, as the filter loop distinguishes them. */
  datatype Kind =
    | Categorical  // dtype 'object'
    | Numeric      // a numeric dtype
    | Other        // anything else (dates, ...): the loop skips it

  datatype Column = Column(name: string, kind: Kind)

  type Row = seq<Value>

  datatype Table = Table(columns: seq<Column>, rows: seq<Row>)

  /** What a widget can hand back: the values picked in a multiselect, or the pair of a range slider. */
  datatype Selection = Values(chosen: set<Value>) | Range(lo: int, hi: int)

  /** Every row has one cell per column, and the cells of numeric columns are numbers. */
  predicate WellFormed(t: Table)
  {
    forall r :: 0 <= r < |t.rows| ==>
      |t.rows[r]| == |t.columns| &&
      forall c :: 0 <= c < |t.columns| && t.columns[c].kind == Numeric ==> t.rows[r][c].Number?
  }

  /** A view: in-range row positions in strictly increasing order. */
  predicate IsView(t: Table, v: seq<nat>)
  {
    (forall k :: 0 <= k < |v| ==> v[k] < |t.rows|) &&
    (forall k, l :: 0 <= k < l < |v| ==> v[k] < v[l])
  }

  /** The cell of row `x` in column `c`. */
  function At(t: Table, x: nat, c: nat): (cell: Value)
    requires WellFormed(t) && x < |t.rows| && c < |t.columns|
    ensures t.columns[c].kind == Numeric ==> cell.Number?
  {
    t.rows[x][c]
  }

  /** The view of a fresh copy of the table: every row, in table order. */
  function AllRows(t: Table): (v: seq<nat>)
    ensures IsView(t, v)
    ensures forall x: nat :: x in v <==> x < |t.rows|
  {
    var v: seq<nat> := seq(|t.rows|, (i: nat) => i);
    assert forall x: nat :: x in v <==> x < |t.rows| by {
      forall x: nat | x < |t.rows| ensures x in v { assert v[x] == x; }
    }
    v
  }

  /** The rows a view displays. */
  function Rows(t: Table, v: seq<nat>): (rs: seq<Row>)
    requires IsView(t, v)
    ensures |rs| == |v|
    ensures forall k :: 0 <= k < |v| ==> rs[k] == t.rows[v[k]]
  {
    seq(|v|, k requires 0 <= k < |v| => t.rows[v[k]])
  }

  /** `xs` is obtained from `ys` by deleting elements (order and content of the rest untouched). */
  predicate IsSubsequence(xs: seq<Row>, ys: seq<Row>)
    decreases |ys|
  {
    xs == [] ||
    (ys != [] &&
     ((xs[0] == ys[0] && IsSubsequence(xs[1..], ys[1..])) || IsSubsequence(xs, ys[1..])))
  }

  /** Whether a cell passes a selection: `isin` for picked values, `lo <= x <= hi` for a range. */
  predicate Admits(s: Selection, x: Value)
  {
    match s
    case Values(chosen) => x in chosen
    case Range(lo, hi) => x.Number? && lo <= x.n && x.n <= hi
  }

  /** `frame[frame[column].isin(...)]` or `frame[(frame[column] >= lo) & (frame[column] <= hi)]`. */
  function Keep(t: Table, v: seq<nat>, c: nat, s: Selection): (r: seq<nat>)
    requires WellFormed(t) && c < |t.columns| && IsView(t, v)
    ensures IsView(t, r)
    ensures forall y :: y in r <==> y in v && Admits(s, At(t, y, c))
  {
    if v == [] then []
    else
      TailView(t, v);
      var rest := Keep(t, v[1..], c, s);
      if Admits(s, At(t, v[0], c)) then ConsView(t, v[0], rest); [v[0]] + rest else rest
  }

  /** The tail of a view is a view of the rows after its first. */
  lemma TailView(t: Table, v: seq<nat>)
    requires IsView(t, v) && v != []
    ensures IsView(t, v[1..])
    ensures forall y :: y in v[1..] <==> y in v && y != v[0]
    ensures forall y :: y in v[1..] ==> v[0] < y
  {
    forall y | y in v ensures y in v[1..] || y == v[0] {
      var k :| 0 <= k < |v| && v[k] == y;
      if k > 0 { assert v[1..][k - 1] == y; }
    }
    forall y | y in v[1..] ensures v[0] < y {
      var k :| 0 <= k < |v[1..]| && v[1..][k] == y;
      assert v[k + 1] == y;
    }
  }

  /** A row before every row of a view extends it to a view. */
  lemma ConsView(t: Table, x: nat, rest: seq<nat>)
    requires IsView(t, rest) && x < |t.rows|
    requires forall y :: y in rest ==> x < y
    ensures IsView(t, [x] + rest)
  {
    var r := [x] + rest;
    assert forall l :: 0 < l < |r| ==> r[l] == rest[l - 1] && rest[l - 1] in rest;
  }

  /** The values of column `c` down a view. */
  function ColumnOf(t: Table, v: seq<nat>, c: nat): (col: seq<Value>)
    requires WellFormed(t) && c < |t.columns| && IsView(t, v)
    ensures |col| == |v|
    ensures forall k :: 0 <= k < |v| ==> col[k] == At(t, v[k], c)
  {
    seq(|v|, k requires 0 <= k < |v| => At(t, v[k], c))
  }

  /** The position of the first occurrence of `x` in `xs`. */
  function FirstIndex(xs: seq<Value>, x: Value): (i: nat)
    requires x in xs
    ensures i < |xs| && xs[i] == x
    ensures forall k :: 0 <= k < i ==> xs[k] != x
  {
    if xs[0] == x then 0
    else
      var i := 1 + FirstIndex(xs[1..], x);
      assert forall k :: 0 < k < i ==> xs[k] == xs[1..][k - 1];
      i
  }

  /** `unique()`: each value once, in the order of its first appearance. */
  function Unique(xs: seq<Value>): (u: seq<Value>)
    ensures forall x :: x in u <==> x in xs
    ensures forall i, j :: 0 <= i < j < |u| ==> u[i] != u[j]
    ensures |u| <= |xs|
  {
    if xs == [] then []
    else
      var u := Unique(xs[..|xs| - 1]);
      assert forall x :: x in xs <==> x in xs[..|xs| - 1] || x == xs[|xs| - 1];
      if xs[|xs| - 1] in u then u else u + [xs[|xs| - 1]]
  }

  /** A value of a prefix first appears at the same position in the whole sequence. */
  lemma FirstIndexOfPrefix(xs: seq<Value>, n: nat, x: Value)
    requires n <= |xs| && x in xs[..n]
    ensures FirstIndex(xs, x) == FirstIndex(xs[..n], x)
  {
    var i := FirstIndex(xs[..n], x);
    assert xs[i] == x;
  }

  /** `unique()` lists the values in the order in which they first appear. */
  lemma {:induction false} UniqueKeepsFirstAppearanceOrder(xs: seq<Value>)
    ensures forall i, j :: 0 <= i < j < |Unique(xs)| ==> FirstIndex(xs, Unique(xs)[i]) < FirstIndex(xs, Unique(xs)[j])
  {
    if xs != [] {
      var init, last := xs[..|xs| - 1], xs[|xs| - 1];
      UniqueKeepsFirstAppearanceOrder(init);
      var u, r := Unique(init), Unique(xs);
      forall x | x in init ensures FirstIndex(xs, x) == FirstIndex(init, x) {
        FirstIndexOfPrefix(xs, |xs| - 1, x);
      }
      if last !in u {
        assert FirstIndex(xs, last) == |xs| - 1 by {
          assert forall k :: 0 <= k < |init| ==> xs[k] == init[k];
        }
        assert r == u + [last];
        forall i, j | 0 <= i < j < |r| ensures FirstIndex(xs, r[i]) < FirstIndex(xs, r[j]) {
          assert r[i] == u[i] && u[i] in init;
          if j < |u| { assert r[j] == u[j] && u[j] in init; }
        }
      }
    }
  }

  /** The distinct values of column `c` in a view: the choices of its multiselect. */
  function Offered(t: Table, v: seq<nat>, c: nat): (options: seq<Value>)
    requires WellFormed(t) && c < |t.columns| && IsView(t, v)
    ensures forall x :: x in options <==> exists y :: y in v && At(t, y, c) == x
    ensures forall i, j :: 0 <= i < j < |options| ==> options[i] != options[j]
  {
    var col := ColumnOf(t, v, c);
    assert forall x :: x in col <==> exists y :: y in v && At(t, y, c) == x by {
      forall x | x in col ensures exists y :: y in v && At(t, y, c) == x {
        var k :| 0 <= k < |col| && col[k] == x;
        assert v[k] in v;
      }
      forall x | exists y :: y in v && At(t, y, c) == x ensures x in col {
        var y :| y in v && At(t, y, c) == x;
        var k :| 0 <= k < |v| && v[k] == y;
        assert col[k] == x;
      }
    }
    Unique(col)
  }

  /** Some row of view `v` holds `x` in column `c`. */
  predicate Attains(t: Table, v: seq<nat>, c: nat, x: Value)
    requires WellFormed(t) && c < |t.columns| && IsView(t, v)
    decreases |v|
  {
    v != [] && (At(t, v[0], c) == x || Attains(t, v[1..], c, x))
  }

  /** No row of view `v` holds a number below `m` in numeric column `c`. */
  predicate AllAtLeast(t: Table, v: seq<nat>, c: nat, m: int)
    requires WellFormed(t) && c < |t.columns| && t.columns[c].kind == Numeric && IsView(t, v)
    decreases |v|
  {
    v == [] || (m <= At(t, v[0], c).n && AllAtLeast(t, v[1..], c, m))
  }

  /** No row of view `v` holds a number above `m` in numeric column `c`. */
  predicate AllAtMost(t: Table, v: seq<nat>, c: nat, m: int)
    requires WellFormed(t) && c < |t.columns| && t.columns[c].kind == Numeric && IsView(t, v)
    decreases |v|
  {
    v == [] || (At(t, v[0], c).n <= m && AllAtMost(t, v[1..], c, m))
  }

  /** A lower bound of a view stays one when it is lowered. */
  lemma {:induction false} AllAtLeastLower(t: Table, v: seq<nat>, c: nat, m: int, m': int)
    requires WellFormed(t) && c < |t.columns| && t.columns[c].kind == Numeric && IsView(t, v)
    requires AllAtLeast(t, v, c, m) && m' <= m
    ensures AllAtLeast(t, v, c, m')
    decreases |v|
  {
    if v != [] { AllAtLeastLower(t, v[1..], c, m, m'); }
  }

  /** An upper bound of a view stays one when it is raised. */
  lemma {:induction false} AllAtMostHigher(t: Table, v: seq<nat>, c: nat, m: int, m': int)
    requires WellFormed(t) && c < |t.columns| && t.columns[c].kind == Numeric && IsView(t, v)
    requires AllAtMost(t, v, c, m) && m <= m'
    ensures AllAtMost(t, v, c, m')
    decreases |v|
  {
    if v != [] { AllAtMostHigher(t, v[1..], c, m, m'); }
  }

  /** `min()` of a numeric column over a non-empty view: a value of the view that no value is below. */
  function Low(t: Table, v: seq<nat>, c: nat): (m: int)
    requires WellFormed(t) && c < |t.columns| && t.columns[c].kind == Numeric
    requires IsView(t, v) && v != []
    ensures Attains(t, v, c, Number(m)) && AllAtLeast(t, v, c, m)
  {
    var here := At(t, v[0], c).n;
    if |v| == 1 then here
    else
      var m := Low(t, v[1..], c);
      if here < m then AllAtLeastLower(t, v[1..], c, m, here); here else m
  }

  /** `max()` of a numeric column over a non-empty view: a value of the view that no value is above. */
  function High(t: Table, v: seq<nat>, c: nat): (m: int)
    requires WellFormed(t) && c < |t.columns| && t.columns[c].kind == Numeric
    requires IsView(t, v) && v != []
    ensures Attains(t, v, c, Number(m)) && AllAtMost(t, v, c, m)
  {
    var here := At(t, v[0], c).n;
    if |v| == 1 then here
    else
      var m := High(t, v[1..], c);
      if here > m then AllAtMostHigher(t, v[1..], c, m, here); here else m
  }

  /** `Attains` says that some row of the view holds the value. */
  lemma {:induction false} AttainsIff(t: Table, v: seq<nat>, c: nat, x: Value)
    requires WellFormed(t) && c < |t.columns| && IsView(t, v)
    ensures Attains(t, v, c, x) <==> exists y :: y in v && At(t, y, c) == x
    decreases |v|
  {
    if v != [] {
      TailView(t, v);
      AttainsIff(t, v[1..], c, x);
      assert v[0] in v;
    }
  }

  /** `AllAtLeast` says that every row of the view is at least the bound. */
  lemma {:induction false} AllAtLeastIff(t: Table, v: seq<nat>, c: nat, m: int)
    requires WellFormed(t) && c < |t.columns| && t.columns[c].kind == Numeric && IsView(t, v)
    ensures AllAtLeast(t, v, c, m) <==> forall y :: y in v ==> m <= At(t, y, c).n
    decreases |v|
  {
    if v != [] {
      TailView(t, v);
      AllAtLeastIff(t, v[1..], c, m);
      assert v[0] in v;
    }
  }

  /** `AllAtMost` says that every row of the view is at most the bound. */
  lemma {:induction false} AllAtMostIff(t: Table, v: seq<nat>, c: nat, m: int)
    requires WellFormed(t) && c < |t.columns| && t.columns[c].kind == Numeric && IsView(t, v)
    ensures AllAtMost(t, v, c, m) <==> forall y :: y in v ==> At(t, y, c).n <= m
    decreases |v|
  {
    if v != [] {
      TailView(t, v);
      AllAtMostIff(t, v[1..], c, m);
      assert v[0] in v;
    }
  }

  /** The minimum and the maximum are values of the view, and every value lies between them. */
  lemma {:induction false} LowHighBound(t: Table, v: seq<nat>, c: nat)
    requires WellFormed(t) && c < |t.columns| && t.columns[c].kind == Numeric
    requires IsView(t, v) && v != []
    ensures exists y :: y in v && At(t, y, c) == Number(Low(t, v, c))
    ensures exists y :: y in v && At(t, y, c) == Number(High(t, v, c))
    ensures forall y :: y in v ==> Low(t, v, c) <= At(t, y, c).n <= High(t, v, c)
  {
    AttainsIff(t, v, c, Number(Low(t, v, c)));
    AttainsIff(t, v, c, Number(High(t, v, c)));
    AllAtLeastIff(t, v, c, Low(t, v, c));
    AllAtMostIff(t, v, c, High(t, v, c));
  }

  /** A view's rows are the table's rows with some deleted: none reordered, none altered. */
  lemma {:induction false} RowsAreSubsequence(t: Table, v: seq<nat>)
    requires IsView(t, v)
    ensures IsSubsequence(Rows(t, v), t.rows)
  {
    RowsFromAreSubsequence(t, v, 0);
    assert t.rows[0..] == t.rows;
  }

  lemma {:induction false} RowsFromAreSubsequence(t: Table, v: seq<nat>, from: nat)
    requires IsView(t, v) && from <= |t.rows|
    requires forall k :: 0 <= k < |v| ==> from <= v[k]
    ensures IsSubsequence(Rows(t, v), t.rows[from..])
    decreases |t.rows| - from
  {
    if v != [] {
      var rs, ys := Rows(t, v), t.rows[from..];
      assert IsView(t, v[1..]);
      if v[0] == from {
        RowsFromAreSubsequence(t, v[1..], from + 1);
        assert rs[1..] == Rows(t, v[1..]);
        assert ys[1..] == t.rows[from + 1..];
        assert rs[0] == ys[0];
      } else {
        RowsFromAreSubsequence(t, v, from + 1);
        assert ys[1..] == t.rows[from + 1..];
      }
    }
  }
}
