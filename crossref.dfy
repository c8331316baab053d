/** The deterministic `\label{...}` of an exported table, computed from the
    output file's stem (`_get_deterministic_label`). Letters are ASCII only. */
module CrossRef {
  import opened Text

  function LowerChar(c: char): char {
    if 'A' <= c <= 'Z' then (c as int + 32) as char else c
  }

  /** `str.lower()` on ASCII text. */
  function Lower(s: string): (r: string)
    ensures |r| == |s|
    ensures forall i :: 0 <= i < |r| ==> !('A' <= r[i] <= 'Z')
  {
    seq(|s|, i requires 0 <= i < |s| => LowerChar(s[i]))
  }

  /** `.replace("_", "-").replace(" ", "-")` */
  function Hyphenate(s: string): string {
    ReplaceAll(ReplaceAll(s, "_", "-"), " ", "-")
  }

  /** The characters a label may keep: `[a-z0-9-]`. */
  predicate SlugChar(c: char) {
    'a' <= c <= 'z' || '0' <= c <= '9' || c == '-'
  }

  predicate AllSlugChars(s: string) {
    forall i :: 0 <= i < |s| ==> SlugChar(s[i])
  }

  predicate NoDoubleHyphen(s: string) {
    forall i :: 0 < i < |s| ==> s[i - 1] != '-' || s[i] != '-'
  }

  /** The shape of a label after `tab:`: only `[a-z0-9-]`, no `--`, and no
      hyphen at either end. */
  predicate IsSlug(s: string) {
    && AllSlugChars(s)
    && NoDoubleHyphen(s)
    && (|s| > 0 ==> s[0] != '-' && s[|s| - 1] != '-')
  }

  /** `re.sub(r"[^a-z0-9\-]", "", s)` */
  function KeepSlugChars(s: string): (r: string)
    ensures AllSlugChars(r)
    ensures |r| <= |s|
  {
    if s == [] then []
    else (if SlugChar(s[0]) then [s[0]] else []) + KeepSlugChars(s[1..])
  }

  /** `s.lstrip(c)`: the suffix left after dropping the leading run of `c`. */
  function TrimLeft(s: string, c: char): (r: string)
    ensures |r| <= |s| && r == s[|s| - |r|..]
    ensures |r| > 0 ==> r[0] != c
    ensures forall i :: 0 <= i < |s| - |r| ==> s[i] == c
  {
    if |s| > 0 && s[0] == c then TrimLeft(s[1..], c) else s
  }

  /** `s.rstrip(c)`: the prefix left after dropping the trailing run of `c`. */
  function TrimRight(s: string, c: char): (r: string)
    ensures |r| <= |s| && r == s[..|r|]
    ensures |r| > 0 ==> r[|r| - 1] != c
    ensures forall i :: |r| <= i < |s| ==> s[i] == c
  {
    if |s| > 0 && s[|s| - 1] == c then TrimRight(s[..|s| - 1], c) else s
  }

  /** `re.sub(r"-+", "-", s)`: every maximal run of hyphens becomes one. A
      hyphen directly followed by another is dropped, so each run keeps only
      its last hyphen. */
  function CollapseHyphens(s: string): (r: string)
    ensures |s| > 0 ==> |r| > 0 && r[0] == s[0]
    ensures AllSlugChars(s) ==> AllSlugChars(r)
    ensures NoDoubleHyphen(r)
  {
    if s == [] then []
    else if |s| > 1 && s[0] == '-' && s[1] == '-' then CollapseHyphens(s[1..])
    else [s[0]] + CollapseHyphens(s[1..])
  }

  /** `s.strip("-")` */
  function Strip(s: string): string {
    TrimRight(TrimLeft(s, '-'), '-')
  }

  /** The label body: lower-case, `_` and space to `-`, drop anything outside
      `[a-z0-9-]`, collapse runs of `-`, trim `-` from both ends. */
  function Normalize(stem: string): string {
    Strip(CollapseHyphens(KeepSlugChars(Hyphenate(Lower(stem)))))
  }

  /** A contiguous piece of a slug-shaped string keeps its characters and its
      freedom from `--`. */
  lemma SliceKeepsShape(s: string, lo: nat, hi: nat)
    requires lo <= hi <= |s|
    requires AllSlugChars(s) && NoDoubleHyphen(s)
    ensures AllSlugChars(s[lo..hi]) && NoDoubleHyphen(s[lo..hi])
  {
    var t := s[lo..hi];
    forall i | 0 < i < |t| ensures t[i - 1] != '-' || t[i] != '-' {
      assert t[i - 1] == s[lo + i - 1] && t[i] == s[lo + i];
    }
  }

  /** Trimming hyphens from both ends of a string without `--` leaves a label body. */
  lemma StripGivesSlug(s: string)
    requires AllSlugChars(s) && NoDoubleHyphen(s)
    ensures IsSlug(Strip(s))
  {
    var left := TrimLeft(s, '-');
    SliceKeepsShape(s, |s| - |left|, |s|);
    var both := TrimRight(left, '-');
    SliceKeepsShape(left, 0, |both|);
    assert |both| > 0 ==> both[0] == left[0];
  }

  /** Every normalised stem has the shape of a label body. */
  lemma NormalizeIsSlug(stem: string)
    ensures IsSlug(Normalize(stem))
  {
    StripGivesSlug(CollapseHyphens(KeepSlugChars(Hyphenate(Lower(stem)))));
  }

  /** `_get_deterministic_label`: `tab:` followed by the normalised stem. */
  function DeterministicLabel(stem: string): (r: string)
    ensures |r| >= 4 && r[..4] == "tab:"
    ensures IsSlug(r[4..])
  {
    NormalizeIsSlug(stem);
    var r := "tab:" + Normalize(stem);
    assert r[4..] == Normalize(stem);
    r
  }

  lemma {:induction false} KeepSlugCharsFixes(s: string)
    requires AllSlugChars(s)
    ensures KeepSlugChars(s) == s
  {
    if s != [] {
      KeepSlugCharsFixes(s[1..]);
      assert s == [s[0]] + s[1..];
    }
  }

  lemma NoDoubleHyphenTail(s: string)
    requires s != [] && NoDoubleHyphen(s)
    ensures NoDoubleHyphen(s[1..])
  {
    forall i | 0 < i < |s[1..]| ensures s[1..][i - 1] != '-' || s[1..][i] != '-' {
      assert s[1..][i - 1] == s[i] && s[1..][i] == s[i + 1];
    }
  }

  lemma {:induction false} CollapseHyphensFixes(s: string)
    requires NoDoubleHyphen(s)
    ensures CollapseHyphens(s) == s
    decreases |s|
  {
    if s != [] {
      NoDoubleHyphenTail(s);
      CollapseHyphensFixes(s[1..]);
      assert |s| > 1 ==> s[0] != '-' || s[1] != '-';
    }
  }

  /** A string that already has the shape of a label body is a fixed point of
      every normalisation step. */
  lemma NormalizeFixesSlugs(t: string)
    requires IsSlug(t)
    ensures Normalize(t) == t
  {
    assert Lower(t) == t;
    ReplaceCharPointwise(t, "_", "-");
    assert ReplaceAll(t, "_", "-") == t;
    ReplaceCharPointwise(t, " ", "-");
    assert Hyphenate(t) == t;
    KeepSlugCharsFixes(t);
    CollapseHyphensFixes(t);
  }

  /** Normalising twice is normalising once. */
  lemma NormalizeIdempotent(stem: string)
    ensures Normalize(Normalize(stem)) == Normalize(stem)
  {
    NormalizeIsSlug(stem);
    NormalizeFixesSlugs(Normalize(stem));
  }

  /** Feeding a label's body back in reproduces the same label, so repeated
      builds keep cross-references stable. */
  lemma DeterministicLabelIdempotent(stem: string)
    ensures DeterministicLabel(DeterministicLabel(stem)[4..]) == DeterministicLabel(stem)
  {
    NormalizeIdempotent(stem);
    assert DeterministicLabel(stem)[4..] == Normalize(stem);
  }

  lemma {:induction false} KeepSlugCharsAppend(a: string, b: string)
    ensures KeepSlugChars(a + b) == KeepSlugChars(a) + KeepSlugChars(b)
  {
    if a != [] {
      KeepSlugCharsAppend(a[1..], b);
      assert (a + b)[1..] == a[1..] + b;
    } else {
      assert a + b == b;
    }
  }

  /** On one character the filter keeps it exactly when it is in
      `[a-z0-9-]`. With `KeepSlugCharsAppend` this determines the filter on
      every string. */
  lemma KeepSlugCharsUnit(c: char)
    ensures KeepSlugChars([c]) == if SlugChar(c) then [c] else []
  {
    assert [c][1..] == [];
  }

  /** Collapsing splits at any boundary that does not join two hyphens. */
  lemma {:induction false} CollapseHyphensAppend(x: string, y: string)
    requires x == [] || y == [] || x[|x| - 1] != '-' || y[0] != '-'
    ensures CollapseHyphens(x + y) == CollapseHyphens(x) + CollapseHyphens(y)
    decreases |x|
  {
    if x == [] {
      assert x + y == y;
    } else {
      assert (x + y)[0] == x[0];
      assert (x + y)[1..] == x[1..] + y;
      if |x| == 1 {
        assert x[1..] + y == y;
      } else {
        assert (x + y)[1] == x[1];
        CollapseHyphensAppend(x[1..], y);
      }
    }
  }

  /** A maximal run of hyphens becomes one hyphen, and any other character is
      kept. With `CollapseHyphensAppend`, splitting a string into its maximal
      runs, this determines the collapse on every string. */
  lemma CollapseHyphensUnits(run: string, c: char)
    requires |run| > 0 && forall i :: 0 <= i < |run| ==> run[i] == '-'
    ensures CollapseHyphens(run) == "-"
    ensures c != '-' ==> CollapseHyphens([c]) == [c]
  {
    assert [c][1..] == [];
    if |run| > 1 {
      assert run[1..][0] == '-';
      CollapseHyphensUnits(run[1..], c);
    }
  }

  /** Once the character filter yields a label body, the rest of the pipeline
      leaves it alone. */
  lemma LabelThroughFilter(stem: string, t: string)
    requires IsSlug(t)
    requires KeepSlugChars(Hyphenate(Lower(stem))) == t
    ensures DeterministicLabel(stem) == "tab:" + t
  {
    CollapseHyphensFixes(t);
  }

  /** Separators only: a lower-case stem whose `_` give `t` labels as `tab:` + `t`. */
  lemma LabelOfSnakeStem(stem: string, t: string)
    requires IsSlug(t)
    requires Lower(stem) == stem
    requires ReplaceAll(stem, "_", "-") == t
    ensures DeterministicLabel(stem) == "tab:" + t
  {
    ReplaceCharPointwise(t, " ", "-");
    assert Hyphenate(stem) == t;
    KeepSlugCharsFixes(t);
    LabelThroughFilter(stem, t);
  }

  // Two worked examples, `VariantsShareLabel` and `SampleEdgeLabel`, each
  // assembled from one helper lemma per step of the pipeline. The concrete
  // stems are passed as parameters equal to literals: a literal argument
  // would let the solver unfold the recursive definitions without bound.

  lemma SampleSlug(t: string)
    requires t == "my-results-table"
    ensures IsSlug(t)
  {
  }

  lemma SampleTitledLowered(stem: string, spaced: string)
    requires stem == "My Results Table!!" && spaced == "my results table!!"
    ensures Lower(stem) == spaced
  {
  }

  lemma SampleNoUnderscore(spaced: string)
    requires spaced == "my results table!!"
    ensures ReplaceAll(spaced, "_", "-") == spaced
  {
    ReplaceCharPointwise(spaced, "_", "-");
  }

  lemma SampleSpacesToHyphens(spaced: string, t: string)
    requires spaced == "my results table!!" && t == "my-results-table"
    ensures ReplaceAll(spaced, " ", "-") == t + "!!"
  {
    ReplaceCharPointwise(spaced, " ", "-");
  }

  lemma SampleSpacedHyphenated(spaced: string, t: string)
    requires spaced == "my results table!!" && t == "my-results-table"
    ensures Hyphenate(spaced) == t + "!!"
  {
    SampleNoUnderscore(spaced);
    SampleSpacesToHyphens(spaced, t);
  }

  lemma SampleBangsDropped(t: string)
    requires t == "my-results-table"
    ensures KeepSlugChars(t + "!!") == t
  {
    SampleSlug(t);
    KeepSlugCharsFixes(t);
    KeepSlugCharsAppend(t, "!!");
    var bang := "!!";
    assert KeepSlugChars(bang[1..]) == [];
  }

  lemma SampleSnakeLower(stem: string)
    requires stem == "my_results_table"
    ensures Lower(stem) == stem
  {
  }

  lemma SampleSnakeHyphenated(stem: string, t: string)
    requires stem == "my_results_table" && t == "my-results-table"
    ensures ReplaceAll(stem, "_", "-") == t
  {
    ReplaceCharPointwise(stem, "_", "-");
  }

  lemma Regroup(a: string, b: string, c: string, d: string, e: string)
    ensures a + b + c + d + e == a + (b + (c + d + e))
    ensures a + (b + (c + d + e)) == a + (b + (c + (d + e)))
  {
  }

  /** A run of hyphens then a word free of double hyphens: the run becomes one
      hyphen, the word is kept, and the rest collapses on its own. */
  lemma CollapseRunWord(run: string, w: string, rest: string)
    requires |run| > 0 && forall i :: 0 <= i < |run| ==> run[i] == '-'
    requires |w| > 0 && NoDoubleHyphen(w) && w[0] != '-' && w[|w| - 1] != '-'
    ensures CollapseHyphens(run + (w + rest)) == "-" + (w + CollapseHyphens(rest))
  {
    CollapseHyphensUnits(run, w[0]);
    CollapseHyphensFixes(w);
    CollapseHyphensAppend(w, rest);
    CollapseHyphensAppend(run, w + rest);
  }

  lemma Rejoin(a: string, b: string, c: string, d: string, e: string)
    ensures a + b + c + d + e == a + (b + c + d) + e
  {
  }

  /** Two words between runs of hyphens collapse to single hyphens. */
  lemma CollapseSeparated(run: string, w1: string, w2: string)
    requires |run| > 0 && forall i :: 0 <= i < |run| ==> run[i] == '-'
    requires |w1| > 0 && NoDoubleHyphen(w1) && w1[0] != '-' && w1[|w1| - 1] != '-'
    requires |w2| > 0 && NoDoubleHyphen(w2) && w2[0] != '-' && w2[|w2| - 1] != '-'
    ensures CollapseHyphens(run + w1 + run + w2 + run) == "-" + w1 + "-" + w2 + "-"
  {
    CollapseHyphensUnits(run, w1[0]);
    CollapseRunWord(run, w2, run);
    CollapseRunWord(run, w1, run + (w2 + run));
    Regroup(run, w1, run, w2, run);
    Regroup("-", w1, "-", w2, "-");
  }

  /** Stripping one hyphen from each end of a hyphen-free-ended word. */
  lemma StripPadded(w: string)
    requires |w| > 0 && w[0] != '-' && w[|w| - 1] != '-'
    ensures Strip("-" + w + "-") == w
  {
    var p := "-" + w + "-";
    assert TrimLeft(p[1..], '-') == p[1..];
    assert TrimLeft(p, '-') == w + "-";
    assert (w + "-")[..|w|] == w;
    assert TrimRight(w, '-') == w;
  }

  /** Two words surrounded and separated by runs of hyphens give the words
      joined by one hyphen. */
  lemma StripSeparated(run: string, w1: string, w2: string)
    requires |run| > 0 && forall i :: 0 <= i < |run| ==> run[i] == '-'
    requires |w1| > 0 && NoDoubleHyphen(w1) && w1[0] != '-' && w1[|w1| - 1] != '-'
    requires |w2| > 0 && NoDoubleHyphen(w2) && w2[0] != '-' && w2[|w2| - 1] != '-'
    ensures Strip(CollapseHyphens(run + w1 + run + w2 + run)) == w1 + "-" + w2
  {
    CollapseSeparated(run, w1, w2);
    var w1h := w1 + "-";
    assert w1h[0] == w1[0];
    var w := w1h + w2;
    assert w[0] == w1h[0];
    assert w[|w| - 1] == w2[|w2| - 1];
    StripPadded(w);
    assert "-" + w1 + "-" + w2 + "-" == "-" + w + "-" by {
      Rejoin("-", w1, "-", w2, "-");
    }
  }

  lemma SampleEdgeLowered(stem: string, low: string)
    requires stem == "__My__Table__" && low == "__my__table__"
    ensures Lower(stem) == low
  {
  }

  lemma SampleEdgeHyphenated(low: string, run: string, my: string, table: string)
    requires low == "__my__table__" && run == "--" && my == "my" && table == "table"
    ensures Hyphenate(low) == run + my + run + table + run
  {
    var h := run + my + run + table + run;
    ReplaceCharPointwise(low, "_", "-");
    assert ReplaceAll(low, "_", "-") == h;
    ReplaceCharPointwise(h, " ", "-");
    assert ReplaceAll(h, " ", "-") == h;
  }

  lemma SampleEdgeSlugChars(run: string, my: string, table: string)
    requires run == "--" && my == "my" && table == "table"
    ensures AllSlugChars(run + my + run + table + run)
  {
  }

  lemma SampleEdgeWords(run: string, my: string, table: string, t: string)
    requires run == "--" && my == "my" && table == "table" && t == "my-table"
    ensures Strip(CollapseHyphens(run + my + run + table + run)) == t
  {
    StripSeparated(run, my, table);
  }

  /** Runs of separators and separators at the ends: `__My__Table__` labels as
      `tab:my-table`. */
  lemma SampleEdgeLabel(stem: string, t: string)
    requires stem == "__My__Table__" && t == "my-table"
    ensures DeterministicLabel(stem) == "tab:" + t
  {
    var run, my, table := "--", "my", "table";
    SampleEdgeLowered(stem, "__my__table__");
    SampleEdgeHyphenated(Lower(stem), run, my, table);
    SampleEdgeSlugChars(run, my, table);
    SampleEdgeWords(run, my, table, t);
    KeepSlugCharsFixes(run + my + run + table + run);
  }

  /** Case, space, underscore and punctuation variants of one stem meet:
      `My Results Table!!` and `my_results_table` both label as
      `tab:my-results-table`. */
  lemma VariantsShareLabel(titled: string, snake: string, t: string)
    requires titled == "My Results Table!!" && snake == "my_results_table"
    requires t == "my-results-table"
    ensures DeterministicLabel(titled) == DeterministicLabel(snake) == "tab:" + t
  {
    SampleSlug(t);
    SampleTitledLowered(titled, "my results table!!");
    SampleSpacedHyphenated(Lower(titled), t);
    SampleBangsDropped(t);
    LabelThroughFilter(titled, t);
    SampleSnakeLower(snake);
    SampleSnakeHyphenated(snake, t);
    LabelOfSnakeStem(snake, t);
  }
}
