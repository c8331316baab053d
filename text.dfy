/** String helpers shared by the table formatter: Python's `str.replace`,
    `str.join` and the decimal rendering of a natural number (`f"{i}"`). */
module Text {

  /** `pat` occurs in `s` starting at index `i`. */
  predicate OccursAt(s: string, pat: string, i: nat) {
    i + |pat| <= |s| && s[i..i + |pat|] == pat
  }

  /** `pat` occurs somewhere in `s` (Python's `pat in s`). */
  predicate Occurs(s: string, pat: string) {
    exists i: nat | i + |pat| <= |s| :: OccursAt(s, pat, i)
  }

  /** Python's `s.replace(pat, rep)` for a non-empty `pat`: the string is scanned
      left to right and every non-overlapping occurrence is replaced; the scan
      resumes after the replaced occurrence, never inside `rep`. */
  function ReplaceAll(s: string, pat: string, rep: string): string
    requires |pat| > 0
    decreases |s|
  {
    if |s| < |pat| then s
    else if s[..|pat|] == pat then rep + ReplaceAll(s[|pat|..], pat, rep)
    else [s[0]] + ReplaceAll(s[1..], pat, rep)
  }

  /** An occurrence in a suffix is an occurrence in the whole string. */
  lemma OccursInSuffix(s: string, pat: string, k: nat, i: nat)
    requires k <= |s|
    ensures OccursAt(s[k..], pat, i) <==> OccursAt(s, pat, i + k)
  {
    if i + k + |pat| <= |s| {
      assert s[k..][i..i + |pat|] == s[i + k..i + k + |pat|];
    }
  }

  /** An occurrence that starts inside the right operand of a concatenation. */
  lemma OccursInRight(a: string, b: string, pat: string, i: nat)
    requires |a| <= i
    ensures OccursAt(a + b, pat, i) <==> OccursAt(b, pat, i - |a|)
  {
    assert (a + b)[|a|..] == b;
    OccursInSuffix(a + b, pat, |a|, i - |a|);
  }

  /** Replacing a pattern by itself changes nothing: `s.replace("%", "%") == s`. */
  lemma {:induction false} ReplaceAllSelf(s: string, pat: string)
    requires |pat| > 0
    ensures ReplaceAll(s, pat, pat) == s
    decreases |s|
  {
    if |s| < |pat| {
    } else if s[..|pat|] == pat {
      ReplaceAllSelf(s[|pat|..], pat);
      assert s == s[..|pat|] + s[|pat|..];
    } else {
      ReplaceAllSelf(s[1..], pat);
      assert s == [s[0]] + s[1..];
    }
  }

  /** Where no occurrence starts at the front, the first character is copied. */
  lemma CopiesFirst(s: string, pat: string, rep: string)
    requires |pat| > 0 && |s| > 0
    requires !OccursAt(s, pat, 0)
    ensures ReplaceAll(s, pat, rep) == [s[0]] + ReplaceAll(s[1..], pat, rep)
  {
    if |s| < |pat| {
      assert |s[1..]| < |pat|;
      assert s == [s[0]] + s[1..];
    } else {
      assert s[..|pat|] == s[0..|pat|];
    }
  }

  /** A string in which the pattern does not occur is left unchanged. */
  lemma {:induction false} ReplaceAllAbsent(s: string, pat: string, rep: string)
    requires |pat| > 0
    requires !Occurs(s, pat)
    ensures ReplaceAll(s, pat, rep) == s
    decreases |s|
  {
    if |s| >= |pat| {
      assert !OccursAt(s, pat, 0);
      CopiesFirst(s, pat, rep);
      forall i: nat ensures !OccursAt(s[1..], pat, i) {
        OccursInSuffix(s, pat, 1, i);
      }
      ReplaceAllAbsent(s[1..], pat, rep);
      assert s == [s[0]] + s[1..];
    }
  }

  /** A prefix in which no occurrence starts is copied unchanged. */
  lemma {:induction false} ReplaceAllKeepsPrefix(s: string, pat: string, rep: string, k: nat)
    requires |pat| > 0 && k <= |s|
    requires forall i: nat :: i < k ==> !OccursAt(s, pat, i)
    ensures ReplaceAll(s, pat, rep) == s[..k] + ReplaceAll(s[k..], pat, rep)
    decreases k
  {
    if k == 0 {
      assert s[k..] == s;
    } else {
      var t := s[1..];
      CopiesFirst(s, pat, rep);
      forall i: nat | i < k - 1 ensures !OccursAt(t, pat, i) {
        OccursInSuffix(s, pat, 1, i);
      }
      ReplaceAllKeepsPrefix(t, pat, rep, k - 1);
      var u := s[k..];
      assert t[k - 1..] == u;
      var tail := ReplaceAll(u, pat, rep);
      assert [s[0]] + t[..k - 1] == s[..k];
      assert [s[0]] + (t[..k - 1] + tail) == s[..k] + tail;
    }
  }

  /** With exactly one occurrence, at `i`, the result splices `rep` in at `i`. */
  lemma ReplaceAllSingle(s: string, pat: string, rep: string, i: nat)
    requires |pat| > 0
    requires OccursAt(s, pat, i)
    requires forall j: nat :: j != i ==> !OccursAt(s, pat, j)
    ensures ReplaceAll(s, pat, rep) == s[..i] + rep + s[i + |pat|..]
  {
    ReplaceAllKeepsPrefix(s, pat, rep, i);
    var rest, tail := s[i..], s[i + |pat|..];
    assert rest[..|pat|] == pat;
    assert rest[|pat|..] == tail;
    assert ReplaceAll(rest, pat, rep) == rep + ReplaceAll(tail, pat, rep);
    forall j: nat ensures !OccursAt(tail, pat, j) {
      OccursInSuffix(s, pat, i + |pat|, j);
    }
    ReplaceAllAbsent(tail, pat, rep);
    calc {
      ReplaceAll(s, pat, rep);
      s[..i] + ReplaceAll(rest, pat, rep);
      s[..i] + (rep + tail);
      s[..i] + rep + tail;
    }
  }

  /** A single-character pattern replaced by a single character is a
      character-by-character substitution. */
  lemma {:induction false} ReplaceCharPointwise(s: string, pat: string, rep: string)
    requires |pat| == 1 && |rep| == 1
    ensures |ReplaceAll(s, pat, rep)| == |s|
    ensures forall i :: 0 <= i < |s| ==>
      ReplaceAll(s, pat, rep)[i] == (if s[i] == pat[0] then rep[0] else s[i])
    decreases |s|
  {
    if |s| > 0 {
      ReplaceCharPointwise(s[1..], pat, rep);
      var r := ReplaceAll(s, pat, rep);
      if s[..1] == pat {
        assert r == rep + ReplaceAll(s[1..], pat, rep);
      } else {
        assert s[0] != pat[0] by { assert s[..1] == [s[0]]; }
        assert r == [s[0]] + ReplaceAll(s[1..], pat, rep);
      }
    }
  }

  /** `pat` is a "marker" pattern for `rep`: its first character occurs nowhere
      else in `pat` or `rep`, `rep` starts with it, and `pat` is not a prefix of
      `rep`. The pair `\end{tabular}` / `\end{tabularx}` is one. */
  predicate Marker(pat: string, rep: string) {
    && |pat| > 0
    && |rep| >= |pat|
    && rep[0] == pat[0]
    && rep[..|pat|] != pat
    && (forall j :: 0 < j < |pat| ==> pat[j] != pat[0])
    && (forall j :: 0 < j < |rep| ==> rep[j] != pat[0])
  }

  /** A single occurrence of a marker pattern, in a text where the replacement
      does not occur yet, leaves exactly one occurrence of the replacement, at
      the same place. */
  lemma SingleMarkerReplaced(s: string, pat: string, rep: string, i: nat)
    requires Marker(pat, rep)
    requires OccursAt(s, pat, i)
    requires forall j: nat :: j != i ==> !OccursAt(s, pat, j)
    requires !Occurs(s, rep)
    ensures OccursAt(ReplaceAll(s, pat, rep), rep, i)
    ensures forall j: nat :: j != i ==> !OccursAt(ReplaceAll(s, pat, rep), rep, j)
  {
    ReplaceAllSingle(s, pat, rep, i);
    var r := s[..i] + rep + s[i + |pat|..];
    assert r[i..i + |rep|] == rep;
    forall j: nat | j != i ensures !OccursAt(r, rep, j) {
      if j < i {
        NoMarkerBefore(s, pat, rep, i, r, j);
      } else {
        NoMarkerAfter(s, pat, rep, i, r, j);
      }
    }
  }

  /** No new occurrence of the replacement starts before the spliced one. */
  lemma NoMarkerBefore(s: string, pat: string, rep: string, i: nat, r: string, j: nat)
    requires Marker(pat, rep) && i + |pat| <= |s| && !Occurs(s, rep)
    requires r == s[..i] + rep + s[i + |pat|..]
    requires j < i
    ensures !OccursAt(r, rep, j)
  {
    if j + |rep| <= i {
      assert r[j..j + |rep|] == s[j..j + |rep|];
      assert !OccursAt(s, rep, j);
    } else if j + |rep| <= |r| {
      assert r[j..j + |rep|][i - j] == r[i] == rep[0];
    }
  }

  /** No new occurrence of the replacement starts after the spliced one. */
  lemma NoMarkerAfter(s: string, pat: string, rep: string, i: nat, r: string, j: nat)
    requires Marker(pat, rep) && i + |pat| <= |s| && !Occurs(s, rep)
    requires r == s[..i] + rep + s[i + |pat|..]
    requires i < j
    ensures !OccursAt(r, rep, j)
  {
    if j < i + |rep| {
      assert r[j] == rep[j - i];
    } else if j + |rep| <= |r| {
      var k := j - |rep| + |pat|;
      assert r[j..j + |rep|] == s[k..k + |rep|];
      assert !OccursAt(s, rep, k);
    }
  }

  /** Up to the first marker character, the output copies the input. */
  lemma {:induction false} CopiesUpToMarker(u: string, pat: string, rep: string, m: nat)
    requires |pat| > 0 && |rep| > 0 && rep[0] == pat[0]
    requires m <= |ReplaceAll(u, pat, rep)|
    requires forall j :: 0 <= j < m ==> ReplaceAll(u, pat, rep)[j] != pat[0]
    ensures m <= |u| && u[..m] == ReplaceAll(u, pat, rep)[..m]
    decreases |u|
  {
    var r := ReplaceAll(u, pat, rep);
    if |u| < |pat| {
    } else if u[..|pat|] == pat {
      assert r[0] == pat[0];
    } else if m > 0 {
      var r' := ReplaceAll(u[1..], pat, rep);
      assert r == [u[0]] + r';
      forall j | 0 <= j < m - 1 ensures r'[j] != pat[0] {
        assert r[j + 1] == r'[j];
      }
      CopiesUpToMarker(u[1..], pat, rep, m - 1);
      assert u[..m] == [u[0]] + u[1..][..m - 1];
      assert r[..m] == [u[0]] + r'[..m - 1];
    }
  }

  /** After replacing a marker pattern, no occurrence of it is left. */
  lemma {:induction false} ReplaceAllRemoves(s: string, pat: string, rep: string)
    requires Marker(pat, rep)
    ensures !Occurs(ReplaceAll(s, pat, rep), pat)
    decreases |s|
  {
    var r := ReplaceAll(s, pat, rep);
    if |s| < |pat| {
      assert forall i: nat :: !OccursAt(r, pat, i);
    } else if s[..|pat|] == pat {
      var r' := ReplaceAll(s[|pat|..], pat, rep);
      ReplaceAllRemoves(s[|pat|..], pat, rep);
      forall i: nat ensures !OccursAt(r, pat, i) {
        if |rep| <= i {
          OccursInRight(rep, r', pat, i);
        } else {
          assert r[i] == rep[i];
        }
      }
    } else {
      var r' := ReplaceAll(s[1..], pat, rep);
      ReplaceAllRemoves(s[1..], pat, rep);
      assert r == [s[0]] + r';
      forall i: nat ensures !OccursAt(r, pat, i) {
        if 1 <= i {
          OccursInRight([s[0]], r', pat, i);
        } else if OccursAt(r, pat, 0) {
          var m := |pat| - 1;
          assert r'[..m] == pat[1..];
          forall j | 0 <= j < m ensures r'[j] != pat[0] {
            assert r'[j] == pat[j + 1];
          }
          CopiesUpToMarker(s[1..], pat, rep, m);
        }
      }
    }
  }

  /** Python's `sep.join(xs)`. */
  function Join(xs: seq<string>, sep: string): string {
    if |xs| == 0 then ""
    else if |xs| == 1 then xs[0]
    else xs[0] + sep + Join(xs[1..], sep)
  }

  predicate IsDigit(c: char) {
    '0' <= c <= '9'
  }

  function DigitChar(d: nat): char
    requires d < 10
  {
    ('0' as int + d) as char
  }

  /** The decimal rendering of a natural number, as `str(n)` or `f"{n}"`. */
  function NatToString(n: nat): (r: string)
    ensures |r| > 0
    ensures forall i :: 0 <= i < |r| ==> IsDigit(r[i])
    ensures |r| > 1 ==> r[0] != '0'
  {
    if n < 10 then [DigitChar(n)] else NatToString(n / 10) + [DigitChar(n % 10)]
  }

  /** The value of a string of decimal digits, as `int(s)`. */
  function ParseNat(s: string): nat
    requires forall i :: 0 <= i < |s| ==> IsDigit(s[i])
  {
    if |s| == 0 then 0
    else assert IsDigit(s[|s| - 1]); ParseNat(s[..|s| - 1]) * 10 + (s[|s| - 1] as int - '0' as int)
  }

  /** Reading the decimal rendering back gives the number. */
  lemma {:induction false} ParseNatToString(n: nat)
    ensures ParseNat(NatToString(n)) == n
  {
    if n >= 10 {
      var s := NatToString(n);
      ParseNatToString(n / 10);
      assert s[..|s| - 1] == NatToString(n / 10);
    }
  }

  /** Distinct numbers are rendered as distinct strings. */
  lemma NatToStringInjective(m: nat, n: nat)
    requires m != n
    ensures NatToString(m) != NatToString(n)
  {
    ParseNatToString(m);
    ParseNatToString(n);
  }
}
