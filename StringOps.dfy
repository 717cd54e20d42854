/** The two JavaScript string operations `resolve` relies on:
    `String.prototype.indexOf` with a literal search string, and
    `String.prototype.split` with the regular expression `/{\d+}/`. */
module StringOps {
  import opened Decimal

  /** `p` occurs in `t` starting at offset `k`. */
  predicate OccursAt(t: string, p: string, k: nat)
  {
    k + |p| <= |t| && t[k..k + |p|] == p
  }

  /** The first offset from `k` on at which `p` occurs in `t`, or -1. */
  function IndexFrom(t: string, p: string, k: nat): int
    decreases |t| - k
  {
    if k + |p| > |t| then -1
    else if OccursAt(t, p, k) then k
    else IndexFrom(t, p, k + 1)
  }

  lemma {:induction false} IndexFromIsFirst(t: string, p: string, k: nat)
    ensures var r := IndexFrom(t, p, k);
      (r == -1 || (k <= r && OccursAt(t, p, r))) &&
      forall j :: k <= j && (r == -1 || j < r) ==> !OccursAt(t, p, j)
    decreases |t| - k
  {
    if k + |p| <= |t| && !OccursAt(t, p, k) {
      IndexFromIsFirst(t, p, k + 1);
    }
  }

  /** `t.indexOf(p)`: the first offset at which `p` occurs, or -1 when it
      occurs nowhere. */
  function IndexOf(t: string, p: string): int
  {
    IndexFrom(t, p, 0)
  }

  /** `indexOf` reports an offset at which `p` occurs and before which it
      does not, or -1 exactly when `p` occurs nowhere. */
  lemma IndexOfIsFirst(t: string, p: string)
    ensures IndexOf(t, p) == -1 || (0 <= IndexOf(t, p) && OccursAt(t, p, IndexOf(t, p)))
    ensures forall j: nat :: (IndexOf(t, p) == -1 || j < IndexOf(t, p)) ==> !OccursAt(t, p, j)
  {
    IndexFromIsFirst(t, p, 0);
  }

  /** The search text for argument `i`: the template literal `{${i}}`. */
  function Placeholder(i: nat): string
  {
    "{" + Dec(i) + "}"
  }

  /** The regular expression `/{\d+}/` matches `t` at offset `q` with a match
      of length `n`: an opening brace, one or more ASCII digits, a closing
      brace. */
  predicate IsMatch(t: string, q: nat, n: nat)
  {
    3 <= n && q + n <= |t| && t[q] == '{' && t[q + n - 1] == '}' &&
    forall j :: q < j < q + n - 1 ==> IsDigit(t[j])
  }

  /** The length of the longest run of digits starting at offset `q`. */
  function DigitRun(t: string, q: nat): nat
    requires q <= |t|
    decreases |t| - q
  {
    if q < |t| && IsDigit(t[q]) then 1 + DigitRun(t, q + 1) else 0
  }

  /** `DigitRun` is the length of the longest run of digits at `q`: every
      character in it is a digit, and the one after it is not. */
  lemma {:induction false} DigitRunIsLongest(t: string, q: nat)
    requires q <= |t|
    ensures q + DigitRun(t, q) <= |t|
    ensures forall j :: q <= j < q + DigitRun(t, q) ==> IsDigit(t[j])
    ensures q + DigitRun(t, q) == |t| || !IsDigit(t[q + DigitRun(t, q)])
    decreases |t| - q
  {
    if q < |t| && IsDigit(t[q]) {
      DigitRunIsLongest(t, q + 1);
    }
  }

  /** The length of the match of `/{\d+}/` at offset `q`, or 0 when the
      pattern does not match there. A match, when there is one, is unique:
      `\d+` is greedy, and no shorter run of digits is followed by `}`. */
  function MatchLen(t: string, q: nat): nat
    requires q <= |t|
  {
    if q < |t| && t[q] == '{' then
      var d := DigitRun(t, q + 1);
      if 1 <= d && q + 1 + d < |t| && t[q + 1 + d] == '}' then d + 2 else 0
    else 0
  }

  /** `MatchLen` is the length of the one match of the pattern at `q`, and 0
      exactly when there is none. */
  lemma MatchLenIsMatch(t: string, q: nat)
    requires q <= |t|
    ensures MatchLen(t, q) == 0 || IsMatch(t, q, MatchLen(t, q))
    ensures forall m :: IsMatch(t, q, m) ==> m == MatchLen(t, q)
  {
    if q < |t| {
      DigitRunIsLongest(t, q + 1);
      var d := DigitRun(t, q + 1);
      forall m | IsMatch(t, q, m)
        ensures m == MatchLen(t, q)
      {
        assert !IsDigit(t[q + m - 1]);
      }
    }
  }

  /** The fragments `t.split(/{\d+}/)` returns when the current fragment began
      at `p` and the scan has reached `q`: each offset is tried in turn, and a
      match ends the current fragment and starts the next one after it. */
  function SplitFrom(t: string, p: nat, q: nat): seq<string>
    requires p <= q <= |t|
    decreases |t| - q
  {
    if q == |t| then [t[p..]]
    else
      var n := MatchLen(t, q);
      if n > 0 then [t[p..q]] + SplitFrom(t, q + n, q + n)
      else SplitFrom(t, p, q + 1)
  }

  /** `t.split(/{\d+}/)`. The empty template yields one empty fragment. */
  function Split(t: string): seq<string>
  {
    SplitFrom(t, 0, 0)
  }

  /** The offsets, from `q` on, at which the scan of `split` finds a match. */
  function MatchesFrom(t: string, q: nat): seq<nat>
    requires q <= |t|
    decreases |t| - q
  {
    if q == |t| then []
    else
      var n := MatchLen(t, q);
      if n > 0 then [q] + MatchesFrom(t, q + n) else MatchesFrom(t, q + 1)
  }

  /** The scan lists, in increasing order, offsets at which the pattern
      matches. */
  lemma {:induction false} MatchesAscending(t: string, q: nat)
    requires q <= |t|
    ensures forall j :: 0 <= j < |MatchesFrom(t, q)| ==>
      q <= MatchesFrom(t, q)[j] < |t| && MatchLen(t, MatchesFrom(t, q)[j]) > 0
    ensures forall i, j :: 0 <= i < j < |MatchesFrom(t, q)| ==> MatchesFrom(t, q)[i] < MatchesFrom(t, q)[j]
    decreases |t| - q
  {
    if q < |t| {
      var n := MatchLen(t, q);
      if n > 0 {
        MatchesAscending(t, q + n);
      } else {
        MatchesAscending(t, q + 1);
      }
    }
  }

  /** The offsets of all matches of `/{\d+}/` in `t`, left to right. */
  function Matches(t: string): seq<nat>
  {
    MatchesFrom(t, 0)
  }

  function Concat(ss: seq<string>): string
  {
    if ss == [] then [] else ss[0] + Concat(ss[1..])
  }

  /** The number written between the braces of the match at `q`. */
  function MatchValue(t: string, q: nat): nat
    requires q <= |t| && MatchLen(t, q) > 0
  {
    MatchLenIsMatch(t, q);
    Value(t[q + 1..q + MatchLen(t, q) - 1])
  }

  /** `split` yields one fragment more than there are matches. */
  lemma {:induction false} SplitLength(t: string, p: nat, q: nat)
    requires p <= q <= |t|
    ensures |SplitFrom(t, p, q)| == |MatchesFrom(t, q)| + 1
    decreases |t| - q
  {
    if q < |t| {
      var n := MatchLen(t, q);
      if n > 0 {
        assert SplitFrom(t, p, q) == [t[p..q]] + SplitFrom(t, q + n, q + n);
        assert MatchesFrom(t, q) == [q] + MatchesFrom(t, q + n);
        SplitLength(t, q + n, q + n);
      } else {
        assert SplitFrom(t, p, q) == SplitFrom(t, p, q + 1);
        assert MatchesFrom(t, q) == MatchesFrom(t, q + 1);
        SplitLength(t, p, q + 1);
      }
    }
  }

  /** The scan of `split` stops at the first listed match: the current
      fragment ends where that match begins, and the next one starts just
      past it. */
  lemma {:induction false} SplitCutsAtFirstMatch(t: string, p: nat, q: nat)
    requires p <= q <= |t| && MatchesFrom(t, q) != []
    ensures var m := MatchesFrom(t, q)[0];
      p <= m < |t| && MatchLen(t, m) > 0 &&
      SplitFrom(t, p, q) == [t[p..m]] + SplitFrom(t, m + MatchLen(t, m), m + MatchLen(t, m)) &&
      MatchesFrom(t, q) == [m] + MatchesFrom(t, m + MatchLen(t, m))
    decreases |t| - q
  {
    if MatchLen(t, q) == 0 {
      SplitCutsAtFirstMatch(t, p, q + 1);
    }
  }

  /** Where fragment `k` begins when the scan started its first fragment at
      `p` and listed the matches `ms`: at `p`, or just past match `k - 1`.
      (The listed matches lie inside the template; the last branch is for
      other sequences only.) */
  function CutStart(t: string, ms: seq<nat>, p: nat, k: nat): nat
    requires k <= |ms|
  {
    if k == 0 then p
    else if ms[k - 1] <= |t| then ms[k - 1] + MatchLen(t, ms[k - 1])
    else p
  }

  /** Where fragment `k` ends: at the start of match `k`, or at the end of
      the template for the last fragment. */
  function CutEnd(t: string, ms: seq<nat>, k: nat): nat
    requires k <= |ms|
  {
    if k == |ms| then |t| else ms[k]
  }

  /** `split` cuts exactly at the listed matches: fragment `k` is the text
      between the end of match `k - 1` and the start of match `k`. */
  lemma {:induction false} SplitCutsAtMatches(t: string, p: nat, q: nat)
    requires p <= q <= |t|
    ensures |SplitFrom(t, p, q)| == |MatchesFrom(t, q)| + 1
    ensures forall k :: 0 <= k <= |MatchesFrom(t, q)| ==>
      CutStart(t, MatchesFrom(t, q), p, k) <= CutEnd(t, MatchesFrom(t, q), k) <= |t| &&
      SplitFrom(t, p, q)[k] == t[CutStart(t, MatchesFrom(t, q), p, k)..CutEnd(t, MatchesFrom(t, q), k)]
    decreases |t| - q
  {
    SplitLength(t, p, q);
    MatchesAscending(t, q);
    var ms := MatchesFrom(t, q);
    if ms == [] {
      SplitWithoutMatches(t, p, q);
    } else {
      SplitCutsAtFirstMatch(t, p, q);
      var e := ms[0] + MatchLen(t, ms[0]);
      MatchLenIsMatch(t, ms[0]);
      var rest := MatchesFrom(t, e);
      assert ms == [ms[0]] + rest;
      SplitCutsAtMatches(t, e, e);
      forall k | 0 <= k <= |ms|
        ensures CutStart(t, ms, p, k) <= CutEnd(t, ms, k) <= |t|
        ensures SplitFrom(t, p, q)[k] == t[CutStart(t, ms, p, k)..CutEnd(t, ms, k)]
      {
        if k > 0 {
          assert ms[k - 1] == if k == 1 then ms[0] else rest[k - 2];
          assert CutStart(t, ms, p, k) == CutStart(t, rest, e, k - 1);
          assert CutEnd(t, ms, k) == CutEnd(t, rest, k - 1);
          assert SplitFrom(t, p, q)[k] == SplitFrom(t, e, e)[k - 1];
        }
      }
    }
  }

  /** Without a match from `q` on, the current fragment runs to the end. */
  lemma {:induction false} SplitWithoutMatches(t: string, p: nat, q: nat)
    requires p <= q <= |t| && MatchesFrom(t, q) == []
    ensures SplitFrom(t, p, q) == [t[p..]]
    decreases |t| - q
  {
    if q < |t| {
      SplitWithoutMatches(t, p, q + 1);
    }
  }

  /** A reference for the text `split` keeps: the template from offset `q`
      on, with every match of `/{\d+}/` skipped whole and every other
      character kept. */
  function StripFrom(t: string, q: nat): string
    requires q <= |t|
    decreases |t| - q
  {
    if q == |t| then []
    else
      var n := MatchLen(t, q);
      if n > 0 then StripFrom(t, q + n) else [t[q]] + StripFrom(t, q + 1)
  }

  /** The template with every match of `/{\d+}/` removed. */
  function Strip(t: string): string
  {
    StripFrom(t, 0)
  }

  /** The fragments from `p` on, put back together, are the text from `p` to
      `q` followed by the rest of the template with its matches removed. */
  lemma {:induction false} SplitConcat(t: string, p: nat, q: nat)
    requires p <= q <= |t|
    ensures Concat(SplitFrom(t, p, q)) == t[p..q] + StripFrom(t, q)
    decreases |t| - q
  {
    if q == |t| {
      assert [t[p..]][1..] == [] && t[p..] == t[p..q] + StripFrom(t, q);
    } else if MatchLen(t, q) > 0 {
      var n := MatchLen(t, q);
      SplitConcat(t, q + n, q + n);
      SplitConcatAtMatch(t, p, q);
    } else {
      SplitConcat(t, p, q + 1);
      SplitConcatNoMatch(t, p, q);
    }
  }

  /** The step of `SplitConcat` where a match ends the current fragment. */
  lemma SplitConcatAtMatch(t: string, p: nat, q: nat)
    requires p <= q < |t| && MatchLen(t, q) > 0
    requires var n := MatchLen(t, q);
      Concat(SplitFrom(t, q + n, q + n)) == t[q + n..q + n] + StripFrom(t, q + n)
    ensures Concat(SplitFrom(t, p, q)) == t[p..q] + StripFrom(t, q)
  {
    var n := MatchLen(t, q);
    var rest := SplitFrom(t, q + n, q + n);
    var stripped := StripFrom(t, q + n);
    calc {
      Concat(SplitFrom(t, p, q));
      Concat([t[p..q]] + rest);
      { assert ([t[p..q]] + rest)[1..] == rest; }
      t[p..q] + Concat(rest);
      t[p..q] + (t[q + n..q + n] + stripped);
      t[p..q] + ([] + stripped);
      { assert [] + stripped == stripped; }
      t[p..q] + stripped;
    }
  }

  /** The step of `SplitConcat` where the character at `q` stays in the
      current fragment. */
  lemma SplitConcatNoMatch(t: string, p: nat, q: nat)
    requires p <= q < |t| && MatchLen(t, q) == 0
    requires Concat(SplitFrom(t, p, q + 1)) == t[p..q + 1] + StripFrom(t, q + 1)
    ensures Concat(SplitFrom(t, p, q)) == t[p..q] + StripFrom(t, q)
  {
    var stripped := StripFrom(t, q + 1);
    calc {
      Concat(SplitFrom(t, p, q));
      Concat(SplitFrom(t, p, q + 1));
      t[p..q + 1] + stripped;
      { assert t[p..q + 1] == t[p..q] + [t[q]]; }
      (t[p..q] + [t[q]]) + stripped;
      t[p..q] + ([t[q]] + stripped);
    }
  }

  /** Concatenating the fragments of `split` gives the template with every
      match of `/{\d+}/` removed. */
  lemma SplitIsStrip(t: string)
    ensures Concat(Split(t)) == Strip(t)
  {
    SplitConcat(t, 0, 0);
  }

  /** Where `{i}` occurs, the pattern `/{\d+}/` matches exactly that text, and
      the number between its braces is `i`. */
  lemma PlaceholderIsMatch(t: string, i: nat, k: nat)
    requires OccursAt(t, Placeholder(i), k)
    ensures k < |t| && MatchLen(t, k) == |Placeholder(i)|
    ensures MatchValue(t, k) == i
  {
    var d := Dec(i);
    var n := |d| + 2;
    assert t[k..k + n] == "{" + d + "}";
    assert t[k] == '{' && t[k + n - 1] == '}';
    forall j | k < j < k + n - 1
      ensures IsDigit(t[j])
    {
      assert t[j] == t[k..k + n][j - k] == d[j - k - 1];
    }
    assert IsMatch(t, k, n);
    MatchLenIsMatch(t, k);
    var w := t[k..k + n];
    assert w == "{" + d + "}";
    assert t[k + 1..k + n - 1] == d by {
      forall j | 0 <= j < |d|
        ensures t[k + 1..k + n - 1][j] == d[j]
      {
        assert t[k + 1 + j] == w[1 + j];
      }
    }
    ValueOfDec(i);
  }

  /** The match that starts at `q` covers no opening brace after `q`, so a
      match that starts later starts at or after its end. */
  lemma MatchesDoNotOverlap(t: string, q: nat, k: nat)
    requires q < k < |t|
    requires MatchLen(t, q) > 0 && MatchLen(t, k) > 0
    ensures q + MatchLen(t, q) <= k
  {
    var n := MatchLen(t, q);
    MatchLenIsMatch(t, q);
    MatchLenIsMatch(t, k);
    assert t[k] == '{' && !IsDigit(t[k]);
    assert forall j :: q < j < q + n - 1 ==> IsDigit(t[j]);
    assert t[q + n - 1] == '}';
  }

  /** The scan from `q` finds every match that starts at or after `q`. */
  lemma {:induction false} MatchIsListed(t: string, q: nat, k: nat)
    requires q <= k < |t| && MatchLen(t, k) > 0
    ensures k in MatchesFrom(t, q)
    decreases |t| - q
  {
    if q < k {
      var n := MatchLen(t, q);
      if n > 0 {
        MatchesDoNotOverlap(t, q, k);
        MatchIsListed(t, q + n, k);
      } else {
        MatchIsListed(t, q + 1, k);
      }
    }
  }

  /** The first `{i}` in the template is one of the matches `split` cuts
      out, and the number written in that match is `i`. */
  lemma FoundPlaceholderIsMatch(t: string, i: nat)
    requires IndexOf(t, Placeholder(i)) >= 0
    ensures IndexOf(t, Placeholder(i)) in Matches(t)
    ensures IndexOf(t, Placeholder(i)) < |t| && MatchLen(t, IndexOf(t, Placeholder(i))) > 0
    ensures MatchValue(t, IndexOf(t, Placeholder(i))) == i
  {
    IndexOfIsFirst(t, Placeholder(i));
    var k := IndexOf(t, Placeholder(i));
    PlaceholderIsMatch(t, i, k);
    MatchIsListed(t, 0, k);
  }
}
