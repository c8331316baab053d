/** The coefficient / standard-error extractor (`format_coef_std`). */
module CoefStd {

  /** One fitted parameter: its name and point estimate (`fit_result.params`). */
  datatype Estimate = Estimate(name: string, value: real)

  /** An entry of an insertion-ordered dict from row name to formatted text. */
  type Entry = (string, string)

  /** The keys of the dict, in insertion order. */
  function KeysOf(d: seq<Entry>): (ks: seq<string>)
    ensures |ks| == |d|
  {
    seq(|d|, i requires 0 <= i < |d| => d[i].0)
  }

  lemma KeysOfCons(e: Entry, d: seq<Entry>)
    ensures KeysOf([e] + d) == [e.0] + KeysOf(d)
  {
  }

  predicate NoDuplicates(xs: seq<string>) {
    forall i, j :: 0 <= i < j < |xs| ==> xs[i] != xs[j]
  }

  /** `d[k]`: the value stored under the first entry for `k`. */
  function ValueOf(d: seq<Entry>, k: string): string
    requires k in KeysOf(d)
  {
    if d[0].0 == k then d[0].1
    else
      KeysOfCons(d[0], d[1..]);
      assert d == [d[0]] + d[1..];
      ValueOf(d[1..], k)
  }

  /** `d[k] = v` on a Python dict: an existing key keeps its position and takes
      the new value; a new key is appended at the end. */
  function Put(d: seq<Entry>, k: string, v: string): (r: seq<Entry>)
    ensures k in KeysOf(d) ==> KeysOf(r) == KeysOf(d)
    ensures k !in KeysOf(d) ==> r == d + [(k, v)]
  {
    if d == [] then [(k, v)]
    else
      assert d == [d[0]] + d[1..];
      KeysOfCons(d[0], d[1..]);
      if d[0].0 == k then
        var r := [(k, v)] + d[1..];
        KeysOfCons((k, v), d[1..]);
        r
      else
        var rest := Put(d[1..], k, v);
        var r := [d[0]] + rest;
        KeysOfCons(d[0], rest);
        r
  }

  /** After `d[k] = v`, reading `k` gives `v` and every other key reads as before. */
  lemma {:induction false} PutThenGet(d: seq<Entry>, k: string, v: string, k': string)
    requires k' in KeysOf(d) || k' == k
    ensures k in KeysOf(Put(d, k, v)) && k' in KeysOf(Put(d, k, v))
    ensures ValueOf(Put(d, k, v), k') == if k' == k then v else ValueOf(d, k')
  {
    var r := Put(d, k, v);
    if k !in KeysOf(d) {
      assert KeysOf(r)[|d|] == k;
      assert KeysOf(r) == KeysOf(d) + [k];
    }
    if d != [] {
      assert d == [d[0]] + d[1..];
      KeysOfCons(d[0], d[1..]);
      if d[0].0 != k {
        var rest := Put(d[1..], k, v);
        KeysOfCons(d[0], rest);
        assert r == [d[0]] + rest;
        if d[0].0 != k' {
          PutThenGet(d[1..], k, v, k');
        }
      }
    }
  }

  /** Storing under a key keeps the keys free of repeats. */
  lemma PutKeepsKeysDistinct(d: seq<Entry>, k: string, v: string)
    requires NoDuplicates(KeysOf(d))
    ensures NoDuplicates(KeysOf(Put(d, k, v)))
    ensures KeysOf(Put(d, k, v)) == if k in KeysOf(d) then KeysOf(d) else KeysOf(d) + [k]
  {
    if k !in KeysOf(d) {
      assert KeysOf(d + [(k, v)]) == KeysOf(d) + [k];
    }
  }

  /** The parameters on which the loop of `format_coef_std` runs to the end.
      Every parameter has a standard error, since `std_errs[name]` raises
      `KeyError` otherwise. No name repeats, since `params[name]` would then be
      a Series, and formatting it with `:.4f` raises `TypeError`. */
  predicate Formattable(params: seq<Estimate>, stdErr: map<string, real>) {
    && (forall i :: 0 <= i < |params| ==> params[i].name in stdErr)
    && (forall i, j :: 0 <= i < j < |params| ==> params[i].name != params[j].name)
  }

  /** What the loop of `format_coef_std` has built after the given parameters:
      for each parameter `name`, `formatted[name] = fmt(estimate)` and then
      `formatted[name + "_std"] = "(" + fmt(std_err) + ")"`. */
  function Formatted(params: seq<Estimate>, stdErr: map<string, real>, fmt: real -> string): seq<Entry>
    requires Formattable(params, stdErr)
  {
    if params == [] then []
    else
      var p := params[|params| - 1];
      var d := Formatted(params[..|params| - 1], stdErr, fmt);
      Put(Put(d, p.name, fmt(p.value)), p.name + "_std", "(" + fmt(stdErr[p.name]) + ")")
  }

  /** `format_coef_std`: the ordered entries of the returned series. The number
      formatter `f"{x:.4f}"` is the parameter `fmt`. */
  method FormatCoefStd(params: seq<Estimate>, stdErr: map<string, real>, fmt: real -> string)
    returns (formatted: seq<Entry>)
    requires Formattable(params, stdErr)
    ensures formatted == Formatted(params, stdErr, fmt)
  {
    formatted := [];
    for i := 0 to |params|
      invariant formatted == Formatted(params[..i], stdErr, fmt)
    {
      var name := params[i].name;
      formatted := Put(formatted, name, fmt(params[i].value));
      formatted := Put(formatted, name + "_std", "(" + fmt(stdErr[name]) + ")");
      assert params[..i + 1][..i] == params[..i];
    }
    assert params[..|params|] == params;
  }

  /** The row names the loop stores for the given parameters, in the order it
      first stores them when no two coincide. */
  function RowNames(params: seq<Estimate>): (r: seq<string>)
    ensures |r| == 2 * |params|
    ensures forall i :: 0 <= i < |params| ==>
      r[2 * i] == params[i].name && r[2 * i + 1] == params[i].name + "_std"
  {
    if params == [] then []
    else
      var n := |params| - 1;
      var r := RowNames(params[..n]) + [params[n].name, params[n].name + "_std"];
      assert forall i :: 0 <= i < n ==> params[..n][i] == params[i];
      r
  }

  lemma FormattablePrefix(params: seq<Estimate>, stdErr: map<string, real>, n: nat)
    requires n <= |params|
    requires Formattable(params, stdErr)
    ensures Formattable(params[..n], stdErr)
  {
  }

  /** The keys are the row names, each stored once: a name that equals another
      parameter's name plus `_std` overwrites that entry instead of adding a
      key. */
  lemma {:induction false} FormattedKeys(params: seq<Estimate>, stdErr: map<string, real>, fmt: real -> string)
    requires Formattable(params, stdErr)
    ensures NoDuplicates(KeysOf(Formatted(params, stdErr, fmt)))
    ensures forall k :: k in KeysOf(Formatted(params, stdErr, fmt)) <==> k in RowNames(params)
  {
    if params != [] {
      var n := |params| - 1;
      var init := params[..n];
      var p := params[n];
      FormattablePrefix(params, stdErr, n);
      FormattedKeys(init, stdErr, fmt);
      var d := Formatted(init, stdErr, fmt);
      var v, w := fmt(p.value), "(" + fmt(stdErr[p.name]) + ")";
      var d1 := Put(d, p.name, v);
      assert Formatted(params, stdErr, fmt) == Put(d1, p.name + "_std", w);
      PutKeepsKeysDistinct(d, p.name, v);
      PutKeepsKeysDistinct(d1, p.name + "_std", w);
      assert RowNames(params) == RowNames(init) + [p.name, p.name + "_std"];
    }
  }

  /** Every parameter name, and every name with `_std` appended, is a key. */
  lemma EveryRowNameIsKey(params: seq<Estimate>, stdErr: map<string, real>, fmt: real -> string)
    requires Formattable(params, stdErr)
    ensures forall i :: 0 <= i < |params| ==>
      params[i].name in KeysOf(Formatted(params, stdErr, fmt)) &&
      params[i].name + "_std" in KeysOf(Formatted(params, stdErr, fmt))
  {
    FormattedKeys(params, stdErr, fmt);
    var r := RowNames(params);
    forall i | 0 <= i < |params|
      ensures params[i].name in r && params[i].name + "_std" in r
    {
      assert r[2 * i] == params[i].name;
      assert r[2 * i + 1] == params[i].name + "_std";
    }
  }

  /** No two of the 2n row names coincide: parameter names are distinct and
      none is another parameter's name with `_std` appended. */
  predicate Unambiguous(params: seq<Estimate>) {
    forall i, j :: 0 <= i < |params| && 0 <= j < |params| ==>
      (i != j ==> params[i].name != params[j].name) && params[i].name != params[j].name + "_std"
  }

  lemma SuffixCancels(a: string, b: string, suffix: string)
    requires a + suffix == b + suffix
    ensures a == b
  {
    assert |a| == |b|;
    assert a == (a + suffix)[..|a|];
  }

  /** Under unambiguous names, the newest parameter's two row names are new. */
  lemma LastNamesFresh(params: seq<Estimate>)
    requires |params| > 0
    requires Unambiguous(params)
    ensures Unambiguous(params[..|params| - 1])
    ensures params[|params| - 1].name !in RowNames(params[..|params| - 1])
    ensures params[|params| - 1].name + "_std" !in RowNames(params[..|params| - 1])
    ensures params[|params| - 1].name != params[|params| - 1].name + "_std"
  {
    var n := |params| - 1;
    var init := params[..n];
    var p := params[n];
    var r := RowNames(init);
    forall k | k in r ensures k != p.name && k != p.name + "_std" {
      var j :| 0 <= j < |r| && r[j] == k;
      var i := j / 2;
      assert init[i] == params[i];
      if p.name + "_std" == params[i].name + "_std" {
        SuffixCancels(p.name, params[i].name, "_std");
      }
      assert j == 2 * i || j == 2 * i + 1;
    }
    assert |p.name + "_std"| != |p.name|;
  }

  /** Storing two new, different keys appends both entries in order. */
  lemma AppendTwo(d: seq<Entry>, k1: string, v1: string, k2: string, v2: string)
    requires k1 !in KeysOf(d) && k2 !in KeysOf(d) && k1 != k2
    ensures Put(Put(d, k1, v1), k2, v2) == d + [(k1, v1), (k2, v2)]
  {
    var d1 := d + [(k1, v1)];
    assert KeysOf(d1) == KeysOf(d) + [k1];
  }

  /** Under unambiguous names the newest parameter appends exactly its two
      entries. */
  lemma FormattedStep(params: seq<Estimate>, stdErr: map<string, real>, fmt: real -> string)
    requires |params| > 0
    requires Formattable(params, stdErr)
    requires Unambiguous(params)
    ensures Formattable(params[..|params| - 1], stdErr)
    ensures Unambiguous(params[..|params| - 1])
    ensures var p := params[|params| - 1];
      Formatted(params, stdErr, fmt) == Formatted(params[..|params| - 1], stdErr, fmt)
        + [(p.name, fmt(p.value)), (p.name + "_std", "(" + fmt(stdErr[p.name]) + ")")]
  {
    var n := |params| - 1;
    var init := params[..n];
    var p := params[n];
    FormattablePrefix(params, stdErr, n);
    LastNamesFresh(params);
    FormattedKeys(init, stdErr, fmt);
    var d := Formatted(init, stdErr, fmt);
    AppendTwo(d, p.name, fmt(p.value), p.name + "_std", "(" + fmt(stdErr[p.name]) + ")");
  }

  /** With unambiguous names the result has exactly 2n entries, alternating a
      parameter's estimate and its parenthesised standard error, in the
      parameters' order. */
  lemma {:induction false} FormattedInterleaved(params: seq<Estimate>, stdErr: map<string, real>, fmt: real -> string)
    requires Formattable(params, stdErr)
    requires Unambiguous(params)
    ensures |Formatted(params, stdErr, fmt)| == 2 * |params|
    ensures forall i :: 0 <= i < |params| ==>
      Formatted(params, stdErr, fmt)[2 * i] == (params[i].name, fmt(params[i].value))
    ensures forall i :: 0 <= i < |params| ==>
      Formatted(params, stdErr, fmt)[2 * i + 1] ==
        (params[i].name + "_std", "(" + fmt(stdErr[params[i].name]) + ")")
  {
    if params != [] {
      var n := |params| - 1;
      var init := params[..n];
      FormattedStep(params, stdErr, fmt);
      FormattedInterleaved(init, stdErr, fmt);
      assert forall i :: 0 <= i < n ==> params[i] == init[i];
    }
  }

  /** Under the same condition every standard-error entry is wrapped in
      parentheses and its key is the parameter name with `_std` appended. */
  lemma StdEntriesParenthesised(params: seq<Estimate>, stdErr: map<string, real>, fmt: real -> string)
    requires Formattable(params, stdErr)
    requires Unambiguous(params)
    ensures |Formatted(params, stdErr, fmt)| == 2 * |params|
    ensures forall i :: 0 <= i < |params| ==>
      var e := Formatted(params, stdErr, fmt)[2 * i + 1];
      && e.0 == params[i].name + "_std"
      && |e.1| >= 2 && e.1[0] == '(' && e.1[|e.1| - 1] == ')'
  {
    FormattedInterleaved(params, stdErr, fmt);
    var f := Formatted(params, stdErr, fmt);
    forall i | 0 <= i < |params|
      ensures f[2 * i + 1].0 == params[i].name + "_std"
      ensures |f[2 * i + 1].1| >= 2 && f[2 * i + 1].1[0] == '(' && f[2 * i + 1].1[|f[2 * i + 1].1| - 1] == ')'
    {
      var x := fmt(stdErr[params[i].name]);
      var t := "(" + x + ")";
      assert f[2 * i + 1] == (params[i].name + "_std", t);
      assert t[0] == '(' && t[|t| - 1] == ')';
    }
  }
}
