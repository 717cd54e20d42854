/** Worked templates: what `resolve` returns for a few concrete inputs,
    including the two where it does not do what the template suggests. */
module Examples {
  import opened Decimal
  import opened StringOps
  import opened Translation

  /** `indexOf` passes over a stretch that does not hold the first character
      of the search string. */
  lemma {:induction false} SkipSearch(t: string, p: string, k: nat, m: nat)
    requires |p| > 0 && k + m <= |t|
    requires forall j :: k <= j < k + m ==> t[j] != p[0]
    ensures IndexFrom(t, p, k) == IndexFrom(t, p, k + m)
    decreases m
  {
    if m > 0 {
      if k + |p| <= |t| {
        assert t[k..k + |p|][0] == t[k];
      }
      SkipSearch(t, p, k + 1, m - 1);
    }
  }

  /** `indexOf` passes over an offset where some character differs from
      the search string. */
  lemma SkipMismatch(t: string, p: string, k: nat, d: nat)
    requires d < |p| && k + |p| <= |t| && t[k + d] != p[d]
    ensures IndexFrom(t, p, k) == IndexFrom(t, p, k + 1)
  {
    assert t[k..k + |p|][d] == t[k + d];
  }

  /** `split` passes over a stretch without an opening brace. */
  lemma {:induction false} SkipSplit(t: string, p: nat, q: nat, m: nat)
    requires p <= q && q + m <= |t|
    requires forall j :: q <= j < q + m ==> t[j] != '{'
    ensures SplitFrom(t, p, q) == SplitFrom(t, p, q + m)
    decreases m
  {
    if m > 0 {
      SkipSplit(t, p, q + 1, m - 1);
    }
  }

  /** `split` cuts the fragment at a placeholder and goes on after it. */
  lemma SplitAt(t: string, p: nat, q: nat, i: nat)
    requires p <= q && OccursAt(t, Placeholder(i), q)
    ensures SplitFrom(t, p, q) == [t[p..q]] + SplitFrom(t, q + |Placeholder(i)|, q + |Placeholder(i)|)
  {
    PlaceholderIsMatch(t, i, q);
  }

  // "ab{1}cdefg{0}": `{1}` is found at offset 2 and `{0}` at offset 10.

  lemma SortOffset0(t: string)
    requires t == "ab{1}cdefg{0}"
    ensures ArgOffset(t, 0) == 10
  {
    assert Placeholder(0) == "{0}";
    assert t[..2] == "ab" && t[3..5] == "1}" && t[5..10] == "cdefg" && t[10..] == "{0}";
    SkipSearch(t, "{0}", 0, 2);
    SkipMismatch(t, "{0}", 2, 1);
    SkipSearch(t, "{0}", 3, 7);
  }

  lemma SortOffset1(t: string)
    requires t == "ab{1}cdefg{0}"
    ensures ArgOffset(t, 1) == 2
  {
    assert Placeholder(1) == "{1}";
    assert t[..2] == "ab" && t[2..5] == "{1}";
    SkipSearch(t, "{1}", 0, 2);
  }

  lemma SortCollect(t: string, a: Node, b: Node)
    requires t == "ab{1}cdefg{0}"
    ensures Collect(t, [a, b], 2) == ArgMap(map[10 := a, 2 := b], [10, 2])
  {
    SortOffset0(t);
    SortOffset1(t);
    assert Collect(t, [a, b], 1) == ArgMap(map[10 := a], [10]);
  }

  /** The default sort leaves `[10, 2]` as it is: `"10" < "2"`. */
  lemma StringSortOfOffsets()
    ensures DecLess(10, 2)
    ensures DefaultSort([10, 2]) == [10, 2]
  {
    assert Dec(10) == "10" && Dec(2) == "2";
    assert !DecLess(2, 10);
    assert DefaultSort([2]) == [2];
  }

  lemma SortFillers(t: string, a: Node, b: Node)
    requires t == "ab{1}cdefg{0}"
    ensures Fillers(t, [a, b]) == [a, b]
  {
    SortCollect(t, a, b);
    StringSortOfOffsets();
    FillerAt(t, [a, b], 0);
    FillerAt(t, [a, b], 1);
  }

  lemma SortSplitFirst(t: string)
    requires t == "ab{1}cdefg{0}"
    ensures SplitFrom(t, 0, 0) == ["ab"] + SplitFrom(t, 5, 5)
  {
    assert Placeholder(1) == "{1}";
    assert t[..2] == "ab" && t[2..5] == "{1}";
    SkipSplit(t, 0, 0, 2);
    SplitAt(t, 0, 2, 1);
  }

  lemma SortSplitSecond(t: string)
    requires t == "ab{1}cdefg{0}"
    ensures SplitFrom(t, 5, 5) == ["cdefg", ""]
  {
    assert Placeholder(0) == "{0}";
    assert t[5..10] == "cdefg" && t[10..] == "{0}";
    SkipSplit(t, 5, 5, 5);
    SplitAt(t, 5, 10, 0);
    assert t[13..] == [];
  }

  lemma SortSplit(t: string)
    requires t == "ab{1}cdefg{0}"
    ensures Split(t) == ["ab", "cdefg", ""]
  {
    SortSplitFirst(t);
    SortSplitSecond(t);
    assert ["ab"] + ["cdefg", ""] == ["ab", "cdefg", ""];
  }

  /** The two matches of `/{\d+}/` in `"ab{1}cdefg{0}"`: `{1}` at offset 2
      and `{0}` at offset 10. */
  lemma SortMatches(t: string)
    requires t == "ab{1}cdefg{0}"
    ensures Matches(t) == [2, 10]
    ensures MatchLen(t, 2) > 0 && MatchValue(t, 2) == 1
    ensures MatchLen(t, 10) > 0 && MatchValue(t, 10) == 0
  {
    assert Placeholder(0) == "{0}" && Placeholder(1) == "{1}";
    assert t[2..5] == "{1}" && t[10..13] == "{0}";
    PlaceholderIsMatch(t, 1, 2);
    PlaceholderIsMatch(t, 0, 10);
    MatchIsListed(t, 0, 2);
    MatchIsListed(t, 0, 10);
    SortSplit(t);
    SplitLength(t, 0, 0);
    MatchesAscending(t, 0);
  }

  /** `"ab{1}cdefg{0}"` puts argument 0 after `"ab"`, where `{1}` is written,
      and argument 1 after `"cdefg"`, where `{0}` is written. */
  lemma StringSortExample(t: string, a: Node, b: Node)
    requires t == "ab{1}cdefg{0}"
    ensures Resolved(t, [a, b]) ==
      [Literal("ab"), Filler(SlotNode(a, 0)), Literal("cdefg"), Filler(SlotNode(b, 1))]
  {
    SortFillers(t, a, b);
    SortSplit(t);
    var frags := ["ab", "cdefg", ""];
    assert Walk(frags, [a, b], 1) == [Literal("ab"), Filler(SlotNode(a, 0))];
    assert Walk(frags, [a, b], 2) ==
      [Literal("ab"), Filler(SlotNode(a, 0)), Literal("cdefg"), Filler(SlotNode(b, 1))];
  }

  // "{0} and {0}": `{0}` is found at offset 0, but `split` cuts at both.

  lemma DuplicateFillers(t: string, a: Node)
    requires t == "{0} and {0}"
    ensures Fillers(t, [a]) == [a]
  {
    assert Placeholder(0) == "{0}" && t[..3] == "{0}";
    assert ArgOffset(t, 0) == 0;
    assert Collect(t, [a], 1) == ArgMap(map[0 := a], [0]);
    assert DefaultSort([0]) == [0];
    FillerAt(t, [a], 0);
  }

  lemma DuplicateSplitFirst(t: string)
    requires t == "{0} and {0}"
    ensures SplitFrom(t, 0, 0) == [""] + SplitFrom(t, 3, 3)
  {
    assert Placeholder(0) == "{0}";
    assert t[..3] == "{0}" && t[0..0] == [];
    SplitAt(t, 0, 0, 0);
  }

  lemma DuplicateSplitSecond(t: string)
    requires t == "{0} and {0}"
    ensures SplitFrom(t, 3, 3) == [" and ", ""]
  {
    assert Placeholder(0) == "{0}";
    assert t[3..8] == " and " && t[8..] == "{0}";
    SkipSplit(t, 3, 3, 5);
    SplitAt(t, 3, 8, 0);
    assert t[11..] == [];
  }

  lemma DuplicateSplit(t: string)
    requires t == "{0} and {0}"
    ensures Split(t) == ["", " and ", ""]
  {
    DuplicateSplitFirst(t);
    DuplicateSplitSecond(t);
    assert [""] + [" and ", ""] == ["", " and ", ""];
  }

  /** With `{0}` written twice, the argument is placed once, at the first
      gap, and the second gap stays empty. */
  lemma DuplicatePlaceholderExample(t: string, a: Node)
    requires t == "{0} and {0}"
    ensures Resolved(t, [a]) == [Filler(SlotNode(a, 0)), Literal(" and ")]
  {
    DuplicateFillers(t, a);
    DuplicateSplit(t);
    var frags := ["", " and ", ""];
    assert Walk(frags, [a], 1) == [Filler(SlotNode(a, 0))];
    assert Walk(frags, [a], 2) == [Filler(SlotNode(a, 0)), Literal(" and ")];
  }

  // "Hello {0}!"

  lemma HelloOffset(t: string)
    requires t == "Hello {0}!"
    ensures ArgOffset(t, 0) == 6
  {
    assert Placeholder(0) == "{0}";
    assert t[..6] == "Hello " && t[6..9] == "{0}";
    SkipSearch(t, "{0}", 0, 6);
  }

  lemma HelloFillers(t: string, a: Node)
    requires t == "Hello {0}!"
    ensures Fillers(t, [a]) == [a]
  {
    HelloOffset(t);
    assert Collect(t, [a], 1) == ArgMap(map[6 := a], [6]);
    assert DefaultSort([6]) == [6];
    FillerAt(t, [a], 0);
  }

  lemma HelloSplit(t: string)
    requires t == "Hello {0}!"
    ensures Split(t) == ["Hello ", "!"]
  {
    assert Placeholder(0) == "{0}";
    assert t[..6] == "Hello " && t[6..9] == "{0}" && t[9..] == "!";
    SkipSplit(t, 0, 0, 6);
    SplitAt(t, 0, 6, 0);
    SkipSplit(t, 9, 9, 1);
    assert ["Hello "] + ["!"] == ["Hello ", "!"];
  }

  /** `"Hello {0}!"` with `"World"` gives `["Hello ", "World", "!"]`. */
  lemma HelloExample(t: string)
    requires t == "Hello {0}!"
    ensures Resolved(t, [Text("World")]) == [Literal("Hello "), Filler(Text("World")), Literal("!")]
  {
    HelloFillers(t, Text("World"));
    HelloSplit(t);
    assert Walk(["Hello ", "!"], [Text("World")], 1) == [Literal("Hello "), Filler(Text("World"))];
  }
}
