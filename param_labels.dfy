/** Display labels for the raw parameter names of the volatility-model
    estimates, and the canonical row order of the results tables. */
module ParamLabels {
  import opened Frames

  /** `PARAM_MAP`: the labels the model scripts apply. Each coefficient maps to
      a symbol, its standard-error row to the empty string. */
  const ParamMap: map<string, string> := map[
    "Const" := @"$\mu$",
    "Const_std" := "",
    "y[1]" := @"$\rho$",
    "y[1]_std" := "",
    "omega" := @"$\eta$",
    "omega_std" := "",
    "alpha[1]" := @"$\alpha$",
    "alpha[1]_std" := "",
    "beta[1]" := @"$\beta_G$",
    "beta[1]_std" := "",
    "beta" := @"$\beta_F$",
    "beta_std" := "",
    "d" := @"$d$",
    "d_std" := "",
    "phi" := @"$\phi$",
    "phi_std" := "",
    "gamma[1]" := @"$\gamma$",
    "gamma[1]_std" := "",
    "delta" := @"$\delta$",
    "delta_std" := ""
  ]

  /** The second map, local to `_apply_parameter_mapping` and applied by every
      LaTeX export. It differs from `ParamMap` on `beta[1]` and `beta` and adds
      `phi[1]`. */
  const LocalParamMap: map<string, string> := map[
    "Const" := @"$\mu$",
    "Const_std" := "",
    "y[1]" := @"$\rho$",
    "y[1]_std" := "",
    "omega" := @"$\eta$",
    "omega_std" := "",
    "alpha[1]" := @"$\alpha$",
    "alpha[1]_std" := "",
    "gamma[1]" := @"$\gamma$",
    "gamma[1]_std" := "",
    "beta[1]" := @"$\beta$",
    "beta[1]_std" := "",
    "beta" := @"$\beta$",
    "beta_std" := "",
    "d" := @"$d$",
    "d_std" := "",
    "phi[1]" := @"$\phi$",
    "phi[1]_std" := "",
    "phi" := @"$\phi$",
    "phi_std" := "",
    "delta" := @"$\delta$",
    "delta_std" := ""
  ]

  /** `DESIRED_ORDER`: the canonical row order, each coefficient directly
      followed by its standard-error row. */
  const DesiredOrder: seq<string> := [
    "Const", "Const_std",
    "y[1]", "y[1]_std",
    "omega", "omega_std",
    "alpha[1]", "alpha[1]_std",
    "beta[1]", "beta[1]_std",
    "gamma[1]", "gamma[1]_std",
    "delta", "delta_std",
    "beta", "beta_std",
    "d", "d_std",
    "phi", "phi_std"
  ]

  /** `m.get(x, x)`: the mapped label, or the name itself when unmapped. */
  function Relabel(m: map<string, string>, x: string): string {
    if x in m then m[x] else x
  }

  /** Relabels a whole row index. */
  function RelabelAll(m: map<string, string>, xs: seq<string>): (r: seq<string>)
    ensures |r| == |xs|
  {
    seq(|xs|, i requires 0 <= i < |xs| => Relabel(m, xs[i]))
  }

  /** `_apply_parameter_mapping`: overwrites the frame's row index with its
      relabelling through the local map; the caller's frame is changed. */
  method ApplyParameterMapping(df: DataFrame)
    requires df.Valid()
    modifies df
    ensures df.Valid()
    ensures df.index == RelabelAll(LocalParamMap, old(df.index))
    ensures df.columns == old(df.columns) && df.cells == old(df.cells)
  {
    df.index := RelabelAll(LocalParamMap, df.index);
  }

  /** Unknown names pass through both maps unchanged; known names get the
      map's label. */
  lemma RelabelFallback(m: map<string, string>, x: string)
    ensures x !in m ==> Relabel(m, x) == x
    ensures x in m ==> Relabel(m, x) == m[x]
  {
  }

  /** No label `ParamMap` produces is a key of the local map. */
  lemma ParamMapValuesNotLocalKeys()
    ensures forall k :: k in ParamMap ==> ParamMap[k] !in LocalParamMap
  {
  }

  /** The local map undoes nothing the scripts did: on a row index of raw names
      that are either mapped by `ParamMap` or unknown to the local map, the
      second pass leaves the script's labels as they are. */
  lemma SecondPassKeepsScriptLabels(xs: seq<string>)
    requires forall i :: 0 <= i < |xs| ==> xs[i] in ParamMap || xs[i] !in LocalParamMap
    ensures RelabelAll(LocalParamMap, RelabelAll(ParamMap, xs)) == RelabelAll(ParamMap, xs)
  {
    ParamMapValuesNotLocalKeys();
  }

  /** Where the two maps disagree. */
  lemma MapsDiverge()
    ensures ParamMap["beta[1]"] == @"$\beta_G$" && LocalParamMap["beta[1]"] == @"$\beta$"
    ensures ParamMap["beta"] == @"$\beta_F$" && LocalParamMap["beta"] == @"$\beta$"
    ensures "phi[1]" in LocalParamMap && "phi[1]" !in ParamMap
    ensures ParamMap.Keys + {"phi[1]", "phi[1]_std"} == LocalParamMap.Keys
  {
  }

  /** `DESIRED_ORDER` lists twenty names, exactly the keys of `ParamMap`. */
  lemma DesiredOrderIsParamMapKeys()
    ensures |DesiredOrder| == 20
    ensures forall i :: 0 <= i < |DesiredOrder| ==> DesiredOrder[i] in ParamMap
    ensures forall k :: k in ParamMap ==> k in DesiredOrder
  {
  }

  /** `DESIRED_ORDER` pairs every coefficient with its standard-error row. */
  lemma DesiredOrderPairs()
    ensures forall i :: 0 <= i < 10 ==> DesiredOrder[2 * i + 1] == DesiredOrder[2 * i] + "_std"
  {
    forall i | 0 <= i < 10 ensures DesiredOrder[2 * i + 1] == DesiredOrder[2 * i] + "_std" {
      var name := DesiredOrder[2 * i];
      assert DesiredOrder[2 * i + 1] == name + "_std";
    }
  }

  /** `PARAM_MAP` labels every standard-error row of `DESIRED_ORDER` with the
      empty string. */
  lemma DesiredStdLabels()
    ensures forall i :: 0 <= i < 10 ==> DesiredOrder[2 * i + 1] in ParamMap && ParamMap[DesiredOrder[2 * i + 1]] == ""
  {
  }

  /** No name appears twice in `DESIRED_ORDER`. */
  lemma DesiredOrderDistinct()
    ensures forall i, j :: 0 <= i < j < |DesiredOrder| ==> DesiredOrder[i] != DesiredOrder[j]
  {
  }
}
