/** `resolve` with the offsets sorted as numbers instead of by the default
    `sort()`, so that the arguments come in the order their placeholders
    appear in the template, the intent the comment at
    src/logic/Translation.ts:17 states. With that order an argument whose
    placeholder is the `k`-th in the template goes in the `k`-th gap,
    whatever the template's length. */
module Findings {
  import opened Decimal
  import opened StringOps
  import opened Translation
  import opened ResolveProperties
  import Examples

  predicate Ascending(s: seq<nat>)
  {
    forall i, j :: 0 <= i < j < |s| ==> s[i] <= s[j]
  }

  predicate StrictlyAscending(s: seq<nat>)
  {
    forall i, j :: 0 <= i < j < |s| ==> s[i] < s[j]
  }

  function InsertNumerically(x: nat, s: seq<nat>): (r: seq<nat>)
    ensures multiset(r) == multiset(s) + multiset{x}
    ensures Ascending(s) ==> Ascending(r)
  {
    if s == [] then [x]
    else if s[0] < x then
      var rest := InsertNumerically(x, s[1..]);
      assert s == [s[0]] + s[1..];
      InsertAfterLess(x, s, rest);
      [s[0]] + rest
    else
      InsertBeforeNotLess(x, s);
      [x] + s
  }

  lemma InsertBeforeNotLess(x: nat, s: seq<nat>)
    requires s != [] && x <= s[0]
    ensures Ascending(s) ==> Ascending([x] + s)
  {
    if Ascending(s) {
      forall i, j | 0 <= i < j < |[x] + s|
        ensures ([x] + s)[i] <= ([x] + s)[j]
      {
        if i == 0 {
          assert s[0] <= s[j - 1];
        }
      }
    }
  }

  lemma InsertAfterLess(x: nat, s: seq<nat>, rest: seq<nat>)
    requires s != [] && s[0] < x
    requires multiset(rest) == multiset(s[1..]) + multiset{x}
    requires Ascending(s) ==> Ascending(rest)
    ensures Ascending(s) ==> Ascending([s[0]] + rest)
  {
    if Ascending(s) {
      forall k | 0 <= k < |rest|
        ensures s[0] <= rest[k]
      {
        assert rest[k] in multiset(rest);
        if rest[k] != x {
          assert rest[k] in s[1..];
        }
      }
    }
  }

  /** `sort((a, b) => a - b)`: a permutation of its input in ascending order. */
  function NumericSort(s: seq<nat>): (r: seq<nat>)
    ensures multiset(r) == multiset(s)
    ensures Ascending(r)
  {
    if s == [] then []
    else
      assert s == [s[0]] + s[1..];
      InsertNumerically(s[0], NumericSort(s[1..]))
  }

  /** The keys of the map in ascending numeric order. */
  function OrderedNumerically(t: string, args: seq<Node>): seq<nat>
  {
    NumericSort(Collect(t, args, |args|).order)
  }

  /** The arguments in ascending numeric order of their offsets. */
  function FillersNumerically(t: string, args: seq<Node>): seq<Node>
  {
    PermutedKeysAreKeys(t, args, OrderedNumerically(t, args));
    Place(Collect(t, args, |args|), OrderedNumerically(t, args))
  }

  /** `resolve` with the numeric sort. */
  function ResolvedNumerically(t: string, args: seq<Node>): seq<Part>
  {
    var frags := Split(t);
    Walk(frags, FillersNumerically(t, args), |frags|)
  }

  /** Every match of `/{\d+}/` in `t` is the first `{i}` of a supplied
      argument `i`: the templates whose placeholders are all used, once. */
  predicate EveryMatchIsAnArgument(t: string, args: seq<Node>)
  {
    forall k :: 0 <= k < |Matches(t)| ==>
      var q := Matches(t)[k];
      q < |t| && MatchLen(t, q) > 0 && MatchValue(t, q) < |args| && ArgOffset(t, MatchValue(t, q)) == q
  }

  /** Two strictly ascending sequences with the same elements are equal. */
  lemma {:induction false} AscendingUnique(a: seq<nat>, b: seq<nat>)
    requires StrictlyAscending(a) && StrictlyAscending(b)
    requires forall x :: x in a <==> x in b
    ensures a == b
  {
    assert a != [] ==> a[0] in a && a[0] in b;
    assert b != [] ==> b[0] in b && b[0] in a;
    if a != [] {
      assert a[0] == b[0] by {
        var i :| 0 <= i < |b| && b[i] == a[0];
        var j :| 0 <= j < |a| && a[j] == b[0];
        assert b[0] <= b[i] && a[0] <= a[j];
      }
      forall x
        ensures x in a[1..] <==> x in b[1..]
      {
        if x in a[1..] {
          var i :| 0 <= i < |a[1..]| && a[1..][i] == x;
          assert a[i + 1] == x && x in a && x != a[0];
          var j :| 0 <= j < |b| && b[j] == x;
          assert b[1..][j - 1] == x;
        }
        if x in b[1..] {
          var j :| 0 <= j < |b[1..]| && b[1..][j] == x;
          assert b[j + 1] == x && x in b && x != b[0];
          var i :| 0 <= i < |a| && a[i] == x;
          assert a[1..][i - 1] == x;
        }
      }
      AscendingUnique(a[1..], b[1..]);
    }
  }

  /** The numerically sorted keys are the map's keys, strictly ascending. */
  lemma OrderedNumericallyKeys(t: string, args: seq<Node>)
    ensures StrictlyAscending(OrderedNumerically(t, args))
    ensures forall k :: k in OrderedNumerically(t, args) <==> k in Collect(t, args, |args|).entries
  {
    var m := Collect(t, args, |args|);
    var o := OrderedNumerically(t, args);
    CollectOrder(t, args, |args|);
    PermutationDistinct(m.order, o);
    forall k
      ensures k in o <==> k in m.entries
    {
      assert k in o <==> k in multiset(o);
      assert k in m.order <==> k in multiset(m.order);
    }
  }

  /** With the numeric sort, when every placeholder is used once, the
      offsets come out in template order and the `k`-th gap holds the
      argument whose number is written in the `k`-th placeholder. */
  lemma NumericSortPlacesInTemplateOrder(t: string, args: seq<Node>)
    requires EveryMatchIsAnArgument(t, args)
    ensures OrderedNumerically(t, args) == Matches(t)
    ensures |FillersNumerically(t, args)| == |Matches(t)|
    ensures forall k :: 0 <= k < |Matches(t)| ==>
      FillersNumerically(t, args)[k] == args[MatchValue(t, Matches(t)[k])]
  {
    var m := Collect(t, args, |args|);
    var o := OrderedNumerically(t, args);
    OrderedNumericallyKeys(t, args);
    CollectFound(t, args, |args|);
    CollectKeys(t, args, |args|);
    MatchesAscending(t, 0);
    forall x
      ensures x in o <==> x in Matches(t)
    {
      if x in m.entries {
        MatchIsListed(t, 0, x);
      }
      if x in Matches(t) {
        var k :| 0 <= k < |Matches(t)| && Matches(t)[k] == x;
        assert ArgOffset(t, MatchValue(t, x)) as nat == x;
      }
    }
    AscendingUnique(o, Matches(t));
    forall k | 0 <= k < |Matches(t)|
      ensures FillersNumerically(t, args)[k] == args[MatchValue(t, Matches(t)[k])]
    {
      assert FillersNumerically(t, args)[k] == m.entries[o[k]];
    }
  }

  /** The output of the corrected `resolve`: when every placeholder is used
      once, the filler after fragment `k` is the argument written in the
      `k`-th placeholder, keyed by its gap if it is an element. */
  lemma ResolvedNumericallyInTemplateOrder(t: string, args: seq<Node>)
    requires EveryMatchIsAnArgument(t, args)
    ensures |FillerNodes(ResolvedNumerically(t, args))| == |Matches(t)|
    ensures forall k :: 0 <= k < |Matches(t)| ==>
      FillerNodes(ResolvedNumerically(t, args))[k] == SlotNode(args[MatchValue(t, Matches(t)[k])], k)
  {
    var frags := Split(t);
    var f := FillersNumerically(t, args);
    NumericSortPlacesInTemplateOrder(t, args);
    SplitLength(t, 0, 0);
    WalkFillers(frags, f, |frags|);
    SlotNodesAt(f, |f|);
  }

  /** Both placeholders of `"ab{1}cdefg{0}"` are found for their arguments. */
  lemma SortTemplateUsesEveryPlaceholder(t: string, a: Node, b: Node)
    requires t == "ab{1}cdefg{0}"
    ensures EveryMatchIsAnArgument(t, [a, b])
  {
    Examples.SortOffset0(t);
    Examples.SortOffset1(t);
    Examples.SortMatches(t);
  }

  /** `"ab{1}cdefg{0}"` uses each of its placeholders once, yet `resolve`
      puts argument 0 in the gap after `"ab"`, where `{1}` is written; the
      numeric sort puts argument 1 there. */
  lemma StringSortMisplaces(t: string, a: Node, b: Node)
    requires t == "ab{1}cdefg{0}"
    ensures EveryMatchIsAnArgument(t, [a, b])
    ensures Fillers(t, [a, b]) == [a, b]
    ensures FillersNumerically(t, [a, b]) == [b, a]
  {
    Examples.SortFillers(t, a, b);
    Examples.SortMatches(t);
    SortTemplateUsesEveryPlaceholder(t, a, b);
    NumericSortPlacesInTemplateOrder(t, [a, b]);
    var f := FillersNumerically(t, [a, b]);
    assert f[0] == [a, b][MatchValue(t, 2)] == b;
    assert f[1] == [a, b][MatchValue(t, 10)] == a;
  }
}
