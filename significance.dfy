/** Significance markers for a p-value (`get_stars`). */
module Significance {

  /** The marker appended to a coefficient: three stars below 1%, two below 5%,
      one below 10%, none otherwise. Every threshold is a strict `<`. */
  function Stars(p: real): (r: string)
    ensures |r| <= 3
    ensures forall i :: 0 <= i < |r| ==> r[i] == '*'
  {
    if p < 0.01 then "***"
    else if p < 0.05 then "**"
    else if p < 0.10 then "*"
    else ""
  }

  /** The four classes, each as an if-and-only-if on the p-value. */
  lemma StarsClasses(p: real)
    ensures Stars(p) == "***" <==> p < 0.01
    ensures Stars(p) == "**" <==> 0.01 <= p < 0.05
    ensures Stars(p) == "*" <==> 0.05 <= p < 0.10
    ensures Stars(p) == "" <==> 0.10 <= p
  {
  }

  /** A larger p-value never earns more stars. */
  lemma StarsAntitone(p: real, q: real)
    requires p <= q
    ensures |Stars(q)| <= |Stars(p)|
  {
  }

  /** A p-value exactly on a threshold falls into the weaker class. */
  lemma StarsAtThresholds()
    ensures Stars(0.01) == "**"
    ensures Stars(0.05) == "*"
    ensures Stars(0.10) == ""
  {
  }
}
