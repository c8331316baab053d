/** The results table a model script assembles from its fits: one column per
    model holding its coefficient / standard-error series, rows restricted to
    `DESIRED_ORDER` in that order, then labelled through `PARAM_MAP`. */
module ModelTables {
  import opened Frames
  import opened ParamLabels
  import opened CoefStd

  /** One fitted model: its column name and what `format_coef_std` reads. */
  datatype Fit = Fit(model: string, params: seq<Estimate>, stdErr: map<string, real>)

  /** Every fit has a standard error for each of its parameters. */
  predicate AllValid(fits: seq<Fit>) {
    forall c :: 0 <= c < |fits| ==> Formattable(fits[c].params, fits[c].stdErr)
  }

  /** `format_coef_std(fit)`: the column of one model. */
  function Series(f: Fit, fmt: real -> string): seq<Entry>
    requires Formattable(f.params, f.stdErr)
  {
    Formatted(f.params, f.stdErr, fmt)
  }

  /** The rows of `pd.DataFrame(table_data)`: the union of the models' keys. */
  function Rows(fits: seq<Fit>, fmt: real -> string): set<string>
    requires AllValid(fits)
  {
    set c, k | 0 <= c < |fits| && k in KeysOf(Series(fits[c], fmt)) :: k
  }

  /** `[k for k in order if k in df_results.index]` */
  function SelectOrder(order: seq<string>, rows: set<string>): (sel: seq<string>)
    ensures |sel| <= |order|
  {
    if order == [] then []
    else (if order[0] in rows then [order[0]] else []) + SelectOrder(order[1..], rows)
  }

  /** The cell of a model's column in a row: its entry, or missing (NaN) when
      the model has no such parameter. */
  function Lookup(series: seq<Entry>, k: string): Cell {
    if k in KeysOf(series) then Filled(ValueOf(series, k)) else Missing
  }

  /** Lines 36-44 of the model script: build the frame, keep the rows of
      `DESIRED_ORDER` that occur, in that order, and relabel them. */
  function AssembleTable(fits: seq<Fit>, fmt: real -> string): (t: Table)
    requires AllValid(fits)
    ensures t.WellFormed()
  {
    var sel := SelectOrder(DesiredOrder, Rows(fits, fmt));
    Table(
      RelabelAll(ParamMap, sel),
      seq(|fits|, c requires 0 <= c < |fits| => fits[c].model),
      seq(|sel|, r requires 0 <= r < |sel| =>
        seq(|fits|, c requires 0 <= c < |fits| => Lookup(Series(fits[c], fmt), sel[r]))))
  }

  /** The frame the script hands to `export_to_latex`: a new data frame
      holding the assembled table. */
  method BuildFrame(fits: seq<Fit>, fmt: real -> string) returns (df: DataFrame)
    requires AllValid(fits)
    ensures fresh(df) && df.Valid()
    ensures Table(df.index, df.columns, df.cells) == AssembleTable(fits, fmt)
  {
    df := new DataFrame(AssembleTable(fits, fmt));
  }

  /** `xs` is `ys` with some elements left out and the rest in their order. */
  predicate IsSubsequence(xs: seq<string>, ys: seq<string>)
    decreases |ys|
  {
    if xs == [] then true
    else if ys == [] then false
    else (xs[0] == ys[0] && IsSubsequence(xs[1..], ys[1..])) || IsSubsequence(xs, ys[1..])
  }

  /** The selection keeps exactly the names of the order that are rows, in
      order. */
  lemma {:induction false} SelectOrderFilters(order: seq<string>, rows: set<string>)
    ensures IsSubsequence(SelectOrder(order, rows), order)
    ensures forall k :: k in SelectOrder(order, rows) <==> k in order && k in rows
  {
    if order != [] {
      SelectOrderFilters(order[1..], rows);
      var rest := SelectOrder(order[1..], rows);
      var sel := SelectOrder(order, rows);
      assert order == [order[0]] + order[1..];
      if order[0] in rows {
        assert sel[1..] == rest;
      } else {
        assert sel == rest;
      }
    }
  }

  /** A subsequence of a list without repeats has no repeats. */
  lemma {:induction false} SubsequenceDistinct(xs: seq<string>, ys: seq<string>)
    requires IsSubsequence(xs, ys)
    requires NoDuplicates(ys)
    ensures NoDuplicates(xs)
    ensures forall k :: k in xs ==> k in ys
    decreases |ys|
  {
    if xs != [] {
      assert NoDuplicates(ys[1..]) by {
        forall i, j | 0 <= i < j < |ys[1..]| ensures ys[1..][i] != ys[1..][j] {
          assert ys[1..][i] == ys[i + 1] && ys[1..][j] == ys[j + 1];
        }
      }
      if xs[0] == ys[0] && IsSubsequence(xs[1..], ys[1..]) {
        SubsequenceDistinct(xs[1..], ys[1..]);
        forall i, j | 0 <= i < j < |xs| ensures xs[i] != xs[j] {
          if i == 0 {
            assert xs[j] == xs[1..][j - 1];
            assert xs[j] in ys[1..];
          } else {
            assert xs[i] == xs[1..][i - 1] && xs[j] == xs[1..][j - 1];
          }
        }
        forall k | k in xs ensures k in ys {
          if k != xs[0] {
            assert k in xs[1..];
          }
        }
      } else {
        SubsequenceDistinct(xs, ys[1..]);
      }
    }
  }

  /** The selected rows: an order-preserving choice from `DESIRED_ORDER` of the
      names some model has, with no repeats and so at most twenty of them.
      Names no model has are skipped; names outside `DESIRED_ORDER` (such as
      distribution parameters) are dropped. */
  lemma SelectedRows(fits: seq<Fit>, fmt: real -> string)
    requires AllValid(fits)
    ensures var sel := SelectOrder(DesiredOrder, Rows(fits, fmt));
      && IsSubsequence(sel, DesiredOrder)
      && NoDuplicates(sel)
      && |sel| <= 20
      && forall k :: k in sel <==>
           k in DesiredOrder && exists c :: 0 <= c < |fits| && k in KeysOf(Series(fits[c], fmt))
  {
    var rows := Rows(fits, fmt);
    SelectOrderFilters(DesiredOrder, rows);
    DesiredOrderDistinct();
    SubsequenceDistinct(SelectOrder(DesiredOrder, rows), DesiredOrder);
  }

  /** An order listing each coefficient directly before its `_std` row. */
  predicate PairedOrder(order: seq<string>) {
    && |order| % 2 == 0
    && forall i :: 0 <= i < |order| / 2 ==> order[2 * i + 1] == order[2 * i] + "_std"
  }

  /** Every second name, the `_std` row of each pair, is labelled `""`. */
  predicate StdLabelsEmpty(order: seq<string>, m: map<string, string>) {
    forall i :: 0 <= i < |order| / 2 ==> order[2 * i + 1] in m && m[order[2 * i + 1]] == ""
  }

  /** Dropping the first pair of a paired order leaves a paired order. */
  lemma PairedTail(order: seq<string>, rows: set<string>, m: map<string, string>)
    requires |order| >= 2
    requires PairedOrder(order)
    requires forall i :: 0 <= i < |order| / 2 ==> (order[2 * i] in rows <==> order[2 * i + 1] in rows)
    ensures PairedOrder(order[2..])
    ensures forall i :: 0 <= i < |order[2..]| / 2 ==> (order[2..][2 * i] in rows <==> order[2..][2 * i + 1] in rows)
    ensures StdLabelsEmpty(order, m) ==> StdLabelsEmpty(order[2..], m)
  {
    var rest := order[2..];
    forall i | 0 <= i < |rest| / 2
      ensures rest[2 * i + 1] == rest[2 * i] + "_std"
      ensures rest[2 * i] in rows <==> rest[2 * i + 1] in rows
      ensures StdLabelsEmpty(order, m) ==> rest[2 * i + 1] in m && m[rest[2 * i + 1]] == ""
    {
      assert rest[2 * i] == order[2 * (i + 1)] && rest[2 * i + 1] == order[2 * (i + 1) + 1];
    }
  }

  /** Selecting from a paired order, where a coefficient and its `_std` row are
      rows together, keeps the pairs whole and adjacent. */
  lemma {:induction false} SelectKeepsPairs(order: seq<string>, rows: set<string>, m: map<string, string>)
    requires PairedOrder(order)
    requires forall i :: 0 <= i < |order| / 2 ==> (order[2 * i] in rows <==> order[2 * i + 1] in rows)
    ensures PairedOrder(SelectOrder(order, rows))
    ensures StdLabelsEmpty(order, m) ==> StdLabelsEmpty(SelectOrder(order, rows), m)
  {
    if order != [] {
      var rest := order[2..];
      PairedTail(order, rows, m);
      SelectKeepsPairs(rest, rows, m);
      var tail := SelectOrder(rest, rows);
      var sel := SelectOrder(order, rows);
      assert |order| >= 2;
      assert order[2 * 0 + 1] == order[2 * 0] + "_std";
      assert order[2 * 0] in rows <==> order[2 * 0 + 1] in rows;
      assert order[1..][1..] == rest;
      assert SelectOrder(order[1..], rows) == (if order[1] in rows then [order[1]] else []) + tail;
      if order[0] in rows {
        assert sel == [order[0], order[1]] + tail;
        forall i | 0 <= i < |sel| / 2
          ensures sel[2 * i + 1] == sel[2 * i] + "_std"
          ensures StdLabelsEmpty(order, m) ==> sel[2 * i + 1] in m && m[sel[2 * i + 1]] == ""
        {
          if i > 0 {
            assert sel[2 * i] == tail[2 * (i - 1)] && sel[2 * i + 1] == tail[2 * (i - 1) + 1];
          }
        }
      } else {
        assert sel == tail;
      }
    }
  }

  /** The name ends with `_std`, the suffix of a standard-error row. */
  predicate EndsWithStd(s: string) {
    |s| >= 4 && s[|s| - 4..] == "_std"
  }

  lemma StdSuffixEnds(a: string)
    ensures EndsWithStd(a + "_std")
  {
    var s := a + "_std";
    assert s[|s| - 4..] == "_std";
  }

  /** No estimated parameter is itself called `..._std`. */
  predicate NoStdNamedParams(fits: seq<Fit>) {
    forall c, i :: 0 <= c < |fits| && 0 <= i < |fits[c].params| ==> !EndsWithStd(fits[c].params[i].name)
  }

  /** A series from `format_coef_std` holds a coefficient exactly when it holds
      its `_std` row. */
  lemma SeriesPairs(params: seq<Estimate>, stdErr: map<string, real>, fmt: real -> string, k: string)
    requires Formattable(params, stdErr)
    requires forall i :: 0 <= i < |params| ==> !EndsWithStd(params[i].name)
    requires !EndsWithStd(k)
    ensures k in KeysOf(Formatted(params, stdErr, fmt)) <==> k + "_std" in KeysOf(Formatted(params, stdErr, fmt))
  {
    FormattedKeys(params, stdErr, fmt);
    CoefficientNamePaired(RowNames(params), params, k);
    StdNamePaired(RowNames(params), params, k);
  }

  /** A plain name among the row names is a parameter, so its `_std` row
      follows it. */
  lemma CoefficientNamePaired(names: seq<string>, params: seq<Estimate>, k: string)
    requires |names| == 2 * |params|
    requires forall i :: 0 <= i < |params| ==>
      names[2 * i] == params[i].name && names[2 * i + 1] == params[i].name + "_std"
    requires forall i :: 0 <= i < |params| ==> !EndsWithStd(params[i].name)
    requires !EndsWithStd(k)
    ensures k in names ==> k + "_std" in names
  {
    if k in names {
      var j :| 0 <= j < |names| && names[j] == k;
      var i := j / 2;
      assert j == 2 * i || j == 2 * i + 1;
      var p := params[i].name;
      assert names[2 * i] == p && names[2 * i + 1] == p + "_std";
      StdSuffixEnds(p);
      assert j == 2 * i;
      assert p == k;
    }
  }

  /** A `_std` row name comes from the parameter it extends. */
  lemma StdNamePaired(names: seq<string>, params: seq<Estimate>, k: string)
    requires |names| == 2 * |params|
    requires forall i :: 0 <= i < |params| ==>
      names[2 * i] == params[i].name && names[2 * i + 1] == params[i].name + "_std"
    requires forall i :: 0 <= i < |params| ==> !EndsWithStd(params[i].name)
    ensures k + "_std" in names ==> k in names
  {
    var std := k + "_std";
    StdSuffixEnds(k);
    if std in names {
      var j :| 0 <= j < |names| && names[j] == std;
      var i := j / 2;
      assert j == 2 * i || j == 2 * i + 1;
      assert j == 2 * i + 1;
      SuffixCancels(k, params[i].name, "_std");
      assert names[2 * i] == k;
    }
  }

  /** A coefficient is a row of the table exactly when its `_std` row is. */
  lemma RowsPaired(fits: seq<Fit>, fmt: real -> string, k: string)
    requires AllValid(fits)
    requires NoStdNamedParams(fits)
    requires !EndsWithStd(k)
    ensures k in Rows(fits, fmt) <==> k + "_std" in Rows(fits, fmt)
  {
    forall c | 0 <= c < |fits|
      ensures k in KeysOf(Series(fits[c], fmt)) <==> k + "_std" in KeysOf(Series(fits[c], fmt))
    {
      SeriesPairs(fits[c].params, fits[c].stdErr, fmt, k);
    }
    if k + "_std" in Rows(fits, fmt) {
      var c :| 0 <= c < |fits| && k + "_std" in KeysOf(Series(fits[c], fmt));
      assert k in KeysOf(Series(fits[c], fmt));
    }
  }

  lemma DesiredCoefficientsPlain()
    ensures forall i :: 0 <= i < 10 ==> !EndsWithStd(DesiredOrder[2 * i])
  {
  }

  /** In the assembled table every coefficient row is directly followed by its
      `_std` row, and that row's label is empty. */
  lemma AssembledRowsPaired(fits: seq<Fit>, fmt: real -> string)
    requires AllValid(fits)
    requires NoStdNamedParams(fits)
    ensures var sel := SelectOrder(DesiredOrder, Rows(fits, fmt));
      && PairedOrder(sel)
      && forall i :: 0 <= i < |sel| / 2 ==> AssembleTable(fits, fmt).index[2 * i + 1] == ""
  {
    var rows := Rows(fits, fmt);
    DesiredOrderPairs();
    DesiredStdLabels();
    DesiredCoefficientsPlain();
    forall i | 0 <= i < |DesiredOrder| / 2
      ensures DesiredOrder[2 * i] in rows <==> DesiredOrder[2 * i + 1] in rows
    {
      RowsPaired(fits, fmt, DesiredOrder[2 * i]);
    }
    assert StdLabelsEmpty(DesiredOrder, ParamMap);
    SelectKeepsPairs(DesiredOrder, rows, ParamMap);
  }

  /** Selecting from names that are all keys of a map gives keys of it. */
  lemma SelectedKeys(order: seq<string>, rows: set<string>, m: map<string, string>)
    requires forall i :: 0 <= i < |order| ==> order[i] in m
    ensures forall r :: 0 <= r < |SelectOrder(order, rows)| ==> SelectOrder(order, rows)[r] in m
  {
    var sel := SelectOrder(order, rows);
    SelectOrderFilters(order, rows);
    forall r | 0 <= r < |sel| ensures sel[r] in m {
      assert sel[r] in order;
    }
  }

  /** Every row label is the `PARAM_MAP` label of a name from `DESIRED_ORDER`,
      and relabelling it once more through the export's own map changes
      nothing. */
  lemma AssembledLabels(fits: seq<Fit>, fmt: real -> string)
    requires AllValid(fits)
    ensures var sel := SelectOrder(DesiredOrder, Rows(fits, fmt));
      var t := AssembleTable(fits, fmt);
      && (forall r :: 0 <= r < |sel| ==> sel[r] in ParamMap && t.index[r] == ParamMap[sel[r]])
      && RelabelAll(LocalParamMap, t.index) == t.index
  {
    var sel := SelectOrder(DesiredOrder, Rows(fits, fmt));
    DesiredOrderIsParamMapKeys();
    SelectedKeys(DesiredOrder, Rows(fits, fmt), ParamMap);
    SecondPassKeepsScriptLabels(sel);
  }

  /** A model lacking a selected parameter has a missing cell in that row;
      otherwise the cell holds its formatted entry. */
  lemma AssembledCells(fits: seq<Fit>, fmt: real -> string, r: nat, c: nat)
    requires AllValid(fits)
    requires r < |SelectOrder(DesiredOrder, Rows(fits, fmt))| && c < |fits|
    ensures var k := SelectOrder(DesiredOrder, Rows(fits, fmt))[r];
      var series := Series(fits[c], fmt);
      var cell := AssembleTable(fits, fmt).cells[r][c];
      && (cell.Missing? <==> k !in KeysOf(series))
      && (cell.Filled? ==> k in KeysOf(series) && cell.text == ValueOf(series, k))
  {
  }
}
