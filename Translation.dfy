/** A translation that has not been resolved yet: an immutable template with
    `{N}` placeholders, and `resolve`, which substitutes positional arguments
    into it and returns the ordered list of parts to render. */
module Translation {
  import opened Decimal
  import opened StringOps

  datatype Option<T> = None | Some(value: T)

  /** A React node as far as `resolve` tells nodes apart. */
  datatype Node =
    | Text(text: string)                          // a string
    | Element(payload: int, key: Option<string>)  // a React element: `isValidElement` holds of these alone
    | Other(payload: int)                         // a number, boolean, null, undefined or array

  /** An entry of the list `resolve` returns: a fragment of the template, or
      what was put in the gap after a fragment. Both are plain React nodes in
      the original; the tag records where a part came from. */
  datatype Part = Literal(text: string) | Filler(node: Node)

  /** `cloneElement(e, { key })`: the same element under a new key. */
  function CloneElement(e: Node, key: string): Node
    requires e.Element?
  {
    e.(key := Some(key))
  }

  /** `"arg_" + k`: the key an element placed in gap `k` is given. */
  function SlotKey(k: nat): string
  {
    "arg_" + Dec(k)
  }

  /** What is put in gap `k` for the argument `arg`. */
  function SlotNode(arg: Node, k: nat): Node
  {
    if arg.Element? then CloneElement(arg, SlotKey(k)) else arg
  }

  /** The offset `indexOf` reports for argument `i`: where `{i}` first occurs,
      or -1. */
  function ArgOffset(t: string, i: nat): int
  {
    IndexOf(t, Placeholder(i))
  }

  /** A JavaScript `Map` from offsets to arguments: its entries, and its keys
      in insertion order, the order `keys()` yields them in. */
  datatype ArgMap = ArgMap(entries: map<nat, Node>, order: seq<nat>)

  predicate Distinct(s: seq<nat>)
  {
    forall i, j :: 0 <= i < j < |s| ==> s[i] != s[j]
  }

  /** `indicesToArg` after the first `n` turns of the collecting loop. */
  function Collect(t: string, args: seq<Node>, n: nat): ArgMap
    requires n <= |args|
  {
    if n == 0 then ArgMap(map[], [])
    else
      var m := Collect(t, args, n - 1);
      var index := ArgOffset(t, n - 1);
      if index > -1 then
        ArgMap(m.entries[index as nat := args[n - 1]],
               if index as nat in m.entries then m.order else m.order + [index as nat])
      else m
  }

  /** The keys `keys()` yields are the keys of the map, each once. */
  lemma {:induction false} CollectOrder(t: string, args: seq<Node>, n: nat)
    requires n <= |args|
    ensures forall k :: k in Collect(t, args, n).entries <==> k in Collect(t, args, n).order
    ensures Distinct(Collect(t, args, n).order)
  {
    if n > 0 {
      CollectOrder(t, args, n - 1);
    }
  }

  /** `orderedIndices`: the keys of `indicesToArg`, sorted by the default sort. */
  function Ordered(t: string, args: seq<Node>): seq<nat>
  {
    DefaultSort(Collect(t, args, |args|).order)
  }

  /** The arguments the map holds under the keys `ordered`, in that order. */
  function Place(m: ArgMap, ordered: seq<nat>): (f: seq<Node>)
    requires forall k :: k in ordered ==> k in m.entries
    ensures |f| == |ordered|
  {
    seq(|ordered|, k requires 0 <= k < |ordered| => m.entries[ordered[k]])
  }

  /** A rearrangement of the map's keys holds only keys of the map. */
  lemma PermutedKeysAreKeys(t: string, args: seq<Node>, ordered: seq<nat>)
    requires multiset(ordered) == multiset(Collect(t, args, |args|).order)
    ensures forall k :: k in ordered ==> k in Collect(t, args, |args|).entries
  {
    CollectOrder(t, args, |args|);
    forall k | k in ordered
      ensures k in Collect(t, args, |args|).entries
    {
      assert k in multiset(ordered);
    }
  }

  /** The arguments in the order of `orderedIndices`: the `k`-th goes in the
      gap after fragment `k`. */
  function Fillers(t: string, args: seq<Node>): (f: seq<Node>)
    ensures |f| == |Ordered(t, args)|
  {
    PermutedKeysAreKeys(t, args, Ordered(t, args));
    Place(Collect(t, args, |args|), Ordered(t, args))
  }

  /** The parts after one turn of the emitting loop for fragment `k`: the
      fragment is appended unless it is empty, then the `k`-th filler if
      there is one. */
  function Turn(parts: seq<Part>, frag: string, fillers: seq<Node>, k: nat): seq<Part>
  {
    var withLiteral := if |frag| > 0 then parts + [Literal(frag)] else parts;
    if k < |fillers| then withLiteral + [Filler(SlotNode(fillers[k], k))] else withLiteral
  }

  /** The parts the emitting loop has built after its first `n` turns. */
  function Walk(frags: seq<string>, fillers: seq<Node>, n: nat): seq<Part>
    requires n <= |frags|
  {
    if n == 0 then [] else Turn(Walk(frags, fillers, n - 1), frags[n - 1], fillers, n - 1)
  }

  /** The `k`-th filler is the value the map holds for the `k`-th sorted key. */
  lemma FillerAt(t: string, args: seq<Node>, k: nat)
    requires k < |Ordered(t, args)|
    ensures Ordered(t, args)[k] in Collect(t, args, |args|).entries
    ensures Fillers(t, args)[k] == Collect(t, args, |args|).entries[Ordered(t, args)[k]]
  {
    CollectOrder(t, args, |args|);
    assert Ordered(t, args)[k] in multiset(Ordered(t, args));
  }

  /** What `resolve(...args)` returns for template `t`. */
  function Resolved(t: string, args: seq<Node>): seq<Part>
  {
    var frags := Split(t);
    Walk(frags, Fillers(t, args), |frags|)
  }

  class Translation {
    const template: string

    constructor(template: string)
      ensures this.template == template
    {
      this.template := template;
    }

    /** Resolve the parts to display for this translation with `args`
        substituted for `{0}`, `{1}`, ... */
    method Resolve(args: seq<Node>) returns (components: seq<Part>)
      ensures components == Resolved(template, args)
    {
      // the arguments by the offset of their placeholder
      var indicesToArg: map<nat, Node> := map[];
      var keys: seq<nat> := [];
      for i := 0 to |args|
        invariant ArgMap(indicesToArg, keys) == Collect(template, args, i)
      {
        var index := IndexOf(template, Placeholder(i));
        if index > -1 {
          if index as nat !in indicesToArg {
            keys := keys + [index as nat];
          }
          indicesToArg := indicesToArg[index as nat := args[i]];
        }
      }

      var orderedIndices := DefaultSort(keys);
      var split := Split(template);
      ghost var fillers := Fillers(template, args);
      assert |fillers| == |orderedIndices|;
      components := [];

      // the fragments, each followed by the argument for its gap
      for i := 0 to |split|
        invariant components == Walk(split, fillers, i)
      {
        var literal := split[i];
        if |literal| > 0 {
          components := components + [Literal(literal)];
        }
        if i < |orderedIndices| {
          FillerAt(template, args, i);
          var index := orderedIndices[i];
          var arg := indicesToArg[index];
          if arg.Element? {
            components := components + [Filler(CloneElement(arg, SlotKey(i)))];
          } else {
            components := components + [Filler(arg)];
          }
        }
      }
    }
  }
}
