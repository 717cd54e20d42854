/** What `resolve` promises about its output, proved of the functions in
    module Translation that `Translation.Resolve` is checked against. */
module ResolveProperties {
  import opened Decimal
  import opened StringOps
  import opened Translation

  /** The indices `i < n` whose placeholder `{i}` occurs in the template, in
      increasing order. */
  function FoundIndices(t: string, n: nat): seq<nat>
  {
    if n == 0 then []
    else FoundIndices(t, n - 1) + (if ArgOffset(t, n - 1) >= 0 then [n - 1] else [])
  }

  /** Every key of the map after `n` turns is the offset of a match whose
      number `i < n` is an argument whose `{i}` is first found there. */
  lemma {:induction false} CollectKeys(t: string, args: seq<Node>, n: nat)
    requires n <= |args|
    ensures forall k :: k in Collect(t, args, n).entries ==>
      k < |t| && MatchLen(t, k) > 0 && MatchValue(t, k) < n && ArgOffset(t, MatchValue(t, k)) == k
  {
    if n > 0 {
      CollectKeys(t, args, n - 1);
      var index := ArgOffset(t, n - 1);
      if index >= 0 {
        FoundPlaceholderIsMatch(t, n - 1);
        assert Collect(t, args, n).entries.Keys == Collect(t, args, n - 1).entries.Keys + {index as nat};
      }
    }
  }

  /** The offset found for argument `n` is not yet a key after `n` turns. */
  lemma FoundOnce(t: string, args: seq<Node>, n: nat)
    requires n < |args| && ArgOffset(t, n) >= 0
    ensures ArgOffset(t, n) as nat !in Collect(t, args, n).entries
  {
    CollectKeys(t, args, n);
    FoundPlaceholderIsMatch(t, n);
  }

  /** A found placeholder is never found again for a later argument, so the
      map gains a new key at every turn that finds one. */
  lemma {:induction false} CollectSize(t: string, args: seq<Node>, n: nat)
    requires n <= |args|
    ensures |Collect(t, args, n).order| == |FoundIndices(t, n)|
  {
    if n > 0 {
      CollectSize(t, args, n - 1);
      if ArgOffset(t, n - 1) >= 0 {
        FoundOnce(t, args, n - 1);
      }
    }
  }

  /** After `n` turns the map holds, for every `i < n` whose `{i}` occurs, the
      argument `i` under the offset of that `{i}`: a later argument never
      overwrites it, because its placeholder is first found elsewhere. */
  lemma {:induction false} CollectFound(t: string, args: seq<Node>, n: nat)
    requires n <= |args|
    ensures forall i :: 0 <= i < n && ArgOffset(t, i) >= 0 ==>
      ArgOffset(t, i) as nat in Collect(t, args, n).entries &&
      Collect(t, args, n).entries[ArgOffset(t, i) as nat] == args[i]
  {
    if n > 0 {
      CollectFound(t, args, n - 1);
      if ArgOffset(t, n - 1) >= 0 {
        FoundPlaceholderIsMatch(t, n - 1);
        forall i | 0 <= i < n - 1 && ArgOffset(t, i) >= 0
          ensures ArgOffset(t, i) != ArgOffset(t, n - 1)
        {
          FoundPlaceholderIsMatch(t, i);
        }
      }
    }
  }

  /** The map after `n` turns: what it holds, what its keys are, how many. */
  lemma CollectEntries(t: string, args: seq<Node>, n: nat)
    requires n <= |args|
    ensures forall i :: 0 <= i < n && ArgOffset(t, i) >= 0 ==>
      ArgOffset(t, i) as nat in Collect(t, args, n).entries &&
      Collect(t, args, n).entries[ArgOffset(t, i) as nat] == args[i]
    ensures forall k :: k in Collect(t, args, n).entries ==>
      k < |t| && MatchLen(t, k) > 0 && MatchValue(t, k) < n && ArgOffset(t, MatchValue(t, k)) == k
    ensures |Collect(t, args, n).order| == |FoundIndices(t, n)|
  {
    CollectFound(t, args, n);
    CollectKeys(t, args, n);
    CollectSize(t, args, n);
  }

  lemma {:induction false} DistinctMultiplicity(s: seq<nat>, x: nat)
    requires Distinct(s)
    ensures multiset(s)[x] <= 1
  {
    if s != [] {
      assert s == [s[0]] + s[1..];
      DistinctMultiplicity(s[1..], x);
      if x == s[0] {
        assert x !in s[1..];
      }
    }
  }

  lemma RepeatedMultiplicity(s: seq<nat>, i: nat, j: nat)
    requires i < j < |s| && s[i] == s[j]
    ensures multiset(s)[s[i]] >= 2
  {
    assert s == s[..j] + [s[j]] + s[j + 1..];
    assert s[i] in s[..j];
  }

  /** A permutation of a sequence without repeats has no repeats. */
  lemma PermutationDistinct(s: seq<nat>, r: seq<nat>)
    requires Distinct(s) && multiset(r) == multiset(s)
    ensures Distinct(r)
  {
    forall i, j | 0 <= i < j < |r|
      ensures r[i] != r[j]
    {
      if r[i] == r[j] {
        RepeatedMultiplicity(r, i, j);
        DistinctMultiplicity(s, r[i]);
      }
    }
  }

  /** A sequence without repeats whose elements all occur in `b` is no longer
      than `b`. */
  lemma {:induction false} DistinctWithinIsShorter(a: seq<nat>, b: seq<nat>)
    requires Distinct(a)
    requires forall x :: x in a ==> x in b
    ensures |a| <= |b|
  {
    if a != [] {
      assert a[0] in a;
      var j :| 0 <= j < |b| && b[j] == a[0];
      var b' := b[..j] + b[j + 1..];
      forall x | x in a[1..]
        ensures x in b'
      {
        var i :| 0 <= i < |a[1..]| && a[1..][i] == x;
        assert x == a[i + 1] != a[0];
        assert x in a;
        var l :| 0 <= l < |b| && b[l] == x;
        if l < j {
          assert b'[l] == x;
        } else {
          assert b'[l - 1] == x;
        }
      }
      DistinctWithinIsShorter(a[1..], b');
    }
  }

  /** The sorted keys: each key of the map once, in decimal-string order,
      which is strictly increasing. */
  lemma OrderedKeys(t: string, args: seq<Node>)
    ensures Distinct(Ordered(t, args))
    ensures forall k :: k in Ordered(t, args) <==> k in Collect(t, args, |args|).entries
    ensures |Ordered(t, args)| == |Collect(t, args, |args|).order|
    ensures forall a, b :: 0 <= a < b < |Ordered(t, args)| ==>
      DecLess(Ordered(t, args)[a], Ordered(t, args)[b])
  {
    var m := Collect(t, args, |args|);
    var o := Ordered(t, args);
    CollectOrder(t, args, |args|);
    PermutationDistinct(m.order, o);
    forall k
      ensures k in o <==> k in m.entries
    {
      assert k in o <==> k in multiset(o);
      assert k in m.order <==> k in multiset(m.order);
    }
    assert |o| == |multiset(o)| == |multiset(m.order)| == |m.order|;
    forall a, b | 0 <= a < b < |o|
      ensures DecLess(o[a], o[b])
    {
      DecOrder(o[a], o[b], o[b]);
    }
  }

  /** The index of the argument that goes in gap `k`: the number written in
      the placeholder at the `k`-th sorted offset. */
  function ArgumentInSlot(t: string, args: seq<Node>, k: nat): nat
    requires k < |Ordered(t, args)|
  {
    FillerAt(t, args, k);
    CollectEntries(t, args, |args|);
    MatchValue(t, Ordered(t, args)[k])
  }

  /** Gap `k` holds argument `ArgumentInSlot(k)`, whose `{i}` is first found
      at the `k`-th sorted offset. An argument is placed exactly when it was
      supplied and its `{i}` occurs in the template, and then in exactly one
      gap; every other argument is dropped. */
  lemma ResolvePlacesFoundArguments(t: string, args: seq<Node>)
    ensures forall k :: 0 <= k < |Ordered(t, args)| ==>
      ArgumentInSlot(t, args, k) < |args| &&
      ArgOffset(t, ArgumentInSlot(t, args, k)) == Ordered(t, args)[k] &&
      Fillers(t, args)[k] == args[ArgumentInSlot(t, args, k)]
    ensures forall i :: 0 <= i < |args| ==>
      (ArgOffset(t, i) >= 0 <==> exists k :: 0 <= k < |Ordered(t, args)| && ArgumentInSlot(t, args, k) == i)
    ensures forall k1, k2 :: 0 <= k1 < k2 < |Ordered(t, args)| ==>
      ArgumentInSlot(t, args, k1) != ArgumentInSlot(t, args, k2)
  {
    var o := Ordered(t, args);
    var m := Collect(t, args, |args|);
    OrderedKeys(t, args);
    CollectEntries(t, args, |args|);
    forall k | 0 <= k < |o|
      ensures ArgumentInSlot(t, args, k) < |args|
      ensures ArgOffset(t, ArgumentInSlot(t, args, k)) == o[k]
      ensures Fillers(t, args)[k] == args[ArgumentInSlot(t, args, k)]
    {
      FillerAt(t, args, k);
    }
    forall i | 0 <= i < |args|
      ensures ArgOffset(t, i) >= 0 <==> exists k :: 0 <= k < |o| && ArgumentInSlot(t, args, k) == i
    {
      if ArgOffset(t, i) >= 0 {
        var off := ArgOffset(t, i) as nat;
        assert off in o;
        var k :| 0 <= k < |o| && o[k] == off;
        FoundPlaceholderIsMatch(t, i);
        assert ArgumentInSlot(t, args, k) == i;
      }
    }
  }

  /** At most one argument per match of `/{\d+}/` is placed, so fewer than
      there are fragments: the last fragment is never followed by one. */
  lemma ResolveArgumentCount(t: string, args: seq<Node>)
    ensures |Fillers(t, args)| == |FoundIndices(t, |args|)|
    ensures |Fillers(t, args)| <= |Matches(t)| == |Split(t)| - 1
  {
    var o := Ordered(t, args);
    OrderedKeys(t, args);
    CollectEntries(t, args, |args|);
    forall x | x in o
      ensures x in Matches(t)
    {
      MatchIsListed(t, 0, x);
    }
    DistinctWithinIsShorter(o, Matches(t));
    SplitLength(t, 0, 0);
  }

  /** The texts of the literal parts, in order. */
  function LiteralTexts(parts: seq<Part>): seq<string>
  {
    if parts == [] then []
    else
      var last := parts[|parts| - 1];
      LiteralTexts(parts[..|parts| - 1]) + (if last.Literal? then [last.text] else [])
  }

  /** The nodes of the filler parts, in order. */
  function FillerNodes(parts: seq<Part>): seq<Node>
  {
    if parts == [] then []
    else
      var last := parts[|parts| - 1];
      FillerNodes(parts[..|parts| - 1]) + (if last.Filler? then [last.node] else [])
  }

  /** The non-empty strings of `ss`, in order. */
  function NonEmpty(ss: seq<string>): seq<string>
  {
    if ss == [] then []
    else
      var last := ss[|ss| - 1];
      NonEmpty(ss[..|ss| - 1]) + (if |last| > 0 then [last] else [])
  }

  /** One turn of the emitting loop adds its fragment to the literal parts
      when it is non-empty, and never an empty literal. */
  lemma TurnLiterals(parts: seq<Part>, frag: string, fillers: seq<Node>, k: nat)
    ensures LiteralTexts(Turn(parts, frag, fillers, k)) ==
      LiteralTexts(parts) + (if |frag| > 0 then [frag] else [])
    ensures (forall j :: 0 <= j < |parts| && parts[j].Literal? ==> |parts[j].text| > 0) ==>
      forall j :: 0 <= j < |Turn(parts, frag, fillers, k)| && Turn(parts, frag, fillers, k)[j].Literal? ==>
        |Turn(parts, frag, fillers, k)[j].text| > 0
  {
    var withLiteral := if |frag| > 0 then parts + [Literal(frag)] else parts;
    if |frag| > 0 {
      assert (parts + [Literal(frag)])[..|parts|] == parts;
    }
    if k < |fillers| {
      assert (withLiteral + [Filler(SlotNode(fillers[k], k))])[..|withLiteral|] == withLiteral;
    }
  }

  /** One turn of the emitting loop adds its filler, if there is one, to the
      filler parts. */
  lemma TurnFillers(parts: seq<Part>, frag: string, fillers: seq<Node>, k: nat)
    ensures FillerNodes(Turn(parts, frag, fillers, k)) ==
      FillerNodes(parts) + (if k < |fillers| then [SlotNode(fillers[k], k)] else [])
  {
    var withLiteral := if |frag| > 0 then parts + [Literal(frag)] else parts;
    if |frag| > 0 {
      assert (parts + [Literal(frag)])[..|parts|] == parts;
    }
    assert FillerNodes(withLiteral) == FillerNodes(parts);
    if k < |fillers| {
      assert (withLiteral + [Filler(SlotNode(fillers[k], k))])[..|withLiteral|] == withLiteral;
    }
  }

  /** The walk's literal parts are the non-empty fragments walked so far, and
      all of them are non-empty. */
  lemma {:induction false} WalkLiterals(frags: seq<string>, fillers: seq<Node>, n: nat)
    requires n <= |frags|
    ensures LiteralTexts(Walk(frags, fillers, n)) == NonEmpty(frags[..n])
    ensures forall j :: 0 <= j < |Walk(frags, fillers, n)| && Walk(frags, fillers, n)[j].Literal? ==>
      |Walk(frags, fillers, n)[j].text| > 0
  {
    if n > 0 {
      WalkLiterals(frags, fillers, n - 1);
      TurnLiterals(Walk(frags, fillers, n - 1), frags[n - 1], fillers, n - 1);
      assert frags[..n][..n - 1] == frags[..n - 1];
    }
  }

  /** The first `m` fillers as they are placed: an element in gap `k` keyed
      `"arg_" + k`. */
  function SlotNodes(fillers: seq<Node>, m: nat): seq<Node>
    requires m <= |fillers|
  {
    if m == 0 then [] else SlotNodes(fillers, m - 1) + [SlotNode(fillers[m - 1], m - 1)]
  }

  lemma {:induction false} SlotNodesAt(fillers: seq<Node>, m: nat)
    requires m <= |fillers|
    ensures |SlotNodes(fillers, m)| == m
    ensures forall k :: 0 <= k < m ==> SlotNodes(fillers, m)[k] == SlotNode(fillers[k], k)
  {
    if m > 0 {
      SlotNodesAt(fillers, m - 1);
    }
  }

  /** The walk's filler parts are the first fillers, one per fragment walked. */
  lemma {:induction false} WalkFillers(frags: seq<string>, fillers: seq<Node>, n: nat)
    requires n <= |frags|
    ensures FillerNodes(Walk(frags, fillers, n)) == SlotNodes(fillers, if n < |fillers| then n else |fillers|)
  {
    if n > 0 {
      WalkFillers(frags, fillers, n - 1);
      TurnFillers(Walk(frags, fillers, n - 1), frags[n - 1], fillers, n - 1);
    }
  }

  lemma {:induction false} ConcatAppend(a: seq<string>, b: seq<string>)
    ensures Concat(a + b) == Concat(a) + Concat(b)
  {
    if a != [] {
      assert (a + b)[0] == a[0] && (a + b)[1..] == a[1..] + b;
      ConcatAppend(a[1..], b);
      calc {
        Concat(a + b);
        a[0] + Concat(a[1..] + b);
        a[0] + (Concat(a[1..]) + Concat(b));
        (a[0] + Concat(a[1..])) + Concat(b);
      }
    } else {
      assert a + b == b;
    }
  }

  /** Dropping the empty strings does not change the concatenation. */
  lemma {:induction false} ConcatNonEmpty(ss: seq<string>)
    ensures Concat(NonEmpty(ss)) == Concat(ss)
  {
    if ss != [] {
      var init, last := ss[..|ss| - 1], ss[|ss| - 1];
      assert ss == init + [last];
      ConcatNonEmpty(init);
      ConcatAppend(init, [last]);
      ConcatAppend(NonEmpty(init), if |last| > 0 then [last] else []);
      assert Concat([last]) == last + Concat([]);
    }
  }

  /** Every literal part is non-empty, the literal parts are the template's
      non-empty fragments in order, and together they spell the template
      with every match of `/{\d+}/` removed. */
  lemma ResolveLiterals(t: string, args: seq<Node>)
    ensures forall j :: 0 <= j < |Resolved(t, args)| && Resolved(t, args)[j].Literal? ==>
      |Resolved(t, args)[j].text| > 0
    ensures LiteralTexts(Resolved(t, args)) == NonEmpty(Split(t))
    ensures Concat(LiteralTexts(Resolved(t, args))) == Strip(t)
  {
    var frags := Split(t);
    WalkLiterals(frags, Fillers(t, args), |frags|);
    assert frags[..|frags|] == frags;
    ConcatNonEmpty(frags);
    SplitIsStrip(t);
  }

  /** Every found argument is placed: the filler parts are the fillers in
      slot order, an element placed in gap `k` re-keyed `"arg_" + k`, any
      other argument (an empty string, undefined) passed through as it is. */
  lemma ResolveFillers(t: string, args: seq<Node>)
    ensures |FillerNodes(Resolved(t, args))| == |Fillers(t, args)|
    ensures forall k :: 0 <= k < |Fillers(t, args)| ==>
      var arg := Fillers(t, args)[k];
      FillerNodes(Resolved(t, args))[k] ==
        if arg.Element? then Element(arg.payload, Some("arg_" + Dec(k))) else arg
  {
    var frags := Split(t);
    ResolveArgumentCount(t, args);
    WalkFillers(frags, Fillers(t, args), |frags|);
    SlotNodesAt(Fillers(t, args), |Fillers(t, args)|);
  }

  /** A template without any `{digits}` resolves to itself, or to nothing
      when it is empty, whatever the arguments. */
  lemma ResolveWithoutPlaceholders(t: string, args: seq<Node>)
    requires Matches(t) == []
    ensures Resolved(t, args) == if t == [] then [] else [Literal(t)]
  {
    SplitWithoutMatches(t, 0, 0);
    assert t[0..] == t;
    ResolveArgumentCount(t, args);
    assert Split(t) == [t];
    assert Fillers(t, args) == [];
    assert Walk([t], [], 0) == [];
  }
}
