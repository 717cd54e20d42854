# Translation templates: `Translation.resolve`

This project models the localisation template resolver of a media-player web
interface. A `Translation` wraps one immutable template string that holds
positional placeholders `{0}`, `{1}`, … . `resolve(...args)` returns the list
of parts to render: the non-empty text fragments of the template with the
arguments placed between them. An argument that is a React element is
re-keyed `"arg_" + k` by the gap `k` it lands in.

The model follows the code step by step:

1. For each argument `i`, `indexOf("{i}")` finds where its placeholder first
   occurs. When it occurs, the argument is stored in a `Map` under that
   offset.
2. The map's keys are sorted with the default `Array.prototype.sort()`. That
   sort compares the offsets as decimal strings, so offset 10 comes before
   offset 2.
3. The template is split on the regular expression `/{\d+}/`.
4. A loop walks the fragments. It appends each non-empty fragment, then the
   `k`-th argument in sorted order, if there is one.

Modules:

- `Decimal` covers three things:
  - `String(n)` for non-negative integers;
  - JavaScript's string order;
  - the default sort, as a function proved to return a permutation in
    decimal-string order.
- `StringOps` covers:
  - `indexOf`;
  - the match of `/{\d+}/` at an offset;
  - `split` on that pattern;
  - a reference function `Strip` that deletes every match.
- `Translation` has these parts:
  - the argument and part datatypes;
  - functions that specify what each loop of `resolve` has built after `n` turns: `Collect`, `Walk` and `Resolved`;
  - the class `Translation`. Its method `Resolve` keeps the source's two loops and is proved equal to `Resolved`.
- `ResolveProperties` holds what the output is proved to satisfy, for every template and every argument list.
- `Examples` holds worked templates, including the two cases where the result differs from what the template text suggests.
- `Findings` holds the corrected numeric-sort variant and the lemmas that separate it from the code as written.

The comment at src/logic/Translation.ts:17 promises the arguments in the
order their placeholders appear in the template, but line 28 sorts the
offsets as strings. The model follows the code. The numeric order is
modelled separately, under Findings.

Every part of the output carries a tag that the source does not have.
`Literal` marks a piece of the template and `Filler` marks an argument. In
the source, both are plain React nodes.

## Model

| member | source | states |
|---|---|---|
| Decimal.Dec | src/logic/Translation.ts:21 | the decimal form of `i` in the placeholder `{i}` is a non-empty string of digits; it has one digit exactly when `i < 10` and starts with `0` only for `0` |
| Decimal.ValueOfDec | src/logic/Translation.ts:21 | reading the digits of `String(i)` back gives `i`, so distinct arguments search for distinct placeholders |
| Decimal.DecOrder | src/logic/Translation.ts:28 | comparing the decimal strings of two offsets is a strict total order, so the default sort of distinct offsets has exactly one result |
| Decimal.DecLessSameLength | src/logic/Translation.ts:28 | on offsets with the same number of digits, the string order of the default sort agrees with numeric order |
| Decimal.DefaultSort | src/logic/Translation.ts:28 | `sort()` with no comparator returns a permutation of the keys, ordered by their decimal strings |
| StringOps.IndexOfIsFirst | src/logic/Translation.ts:21 | `indexOf` returns an offset where the search string occurs with no earlier occurrence, or -1 exactly when it occurs nowhere |
| StringOps.MatchLenIsMatch | src/logic/Translation.ts:29 | at a given offset the pattern `/{\d+}/` matches with exactly one length: brace, one or more digits, brace |
| StringOps.MatchesAscending | src/logic/Translation.ts:29 | the offsets the scan of `split` lists are matches of the pattern inside the template, strictly increasing; `SplitCutsAtMatches` proves `split` cuts exactly there |
| StringOps.MatchesDoNotOverlap | src/logic/Translation.ts:29 | a match ends before the next match starts |
| StringOps.MatchIsListed | src/logic/Translation.ts:29 | every match of the pattern in the template is in the scan's list, so by `SplitCutsAtMatches` `split` cuts at every match |
| StringOps.SplitLength | src/logic/Translation.ts:29 | `split` returns one more fragment than there are matches |
| StringOps.SplitIsStrip | src/logic/Translation.ts:29 | the fragments of `split`, joined, are the template with every match removed |
| StringOps.SplitCutsAtFirstMatch | src/logic/Translation.ts:29 | `split` ends the current fragment where the first listed match begins and starts the next fragment just past that match |
| StringOps.SplitCutsAtMatches | src/logic/Translation.ts:29 | fragment `k` of `split` is exactly the text from the end of match `k - 1` (the start, for the first) to the start of match `k` (the end, for the last) |
| StringOps.SplitWithoutMatches | src/logic/Translation.ts:29 | with no match of the pattern, `split` returns the text as its one fragment |
| StringOps.PlaceholderIsMatch | src/logic/Translation.ts:21-29 | wherever `{i}` occurs, the pattern matches exactly that text and the number written in it is `i` |
| StringOps.FoundPlaceholderIsMatch | src/logic/Translation.ts:21-29 | the offset `indexOf("{i}")` finds is in the scan's list of matches, which by `SplitCutsAtMatches` are where `split` cuts, and the match there is the number `i` |
| Translation.CollectOrder | src/logic/Translation.ts:18-28 | the map's `keys()` are its keys, each once |
| Translation.Fillers | src/logic/Translation.ts:42-44 | there is one argument to place per sorted offset |
| Translation.FillerAt | src/logic/Translation.ts:43-44 | `indicesToArg.get(index)` is defined for every sorted offset and gives the argument stored there |
| Translation.Translation.constructor | src/logic/Translation.ts:7 | the template is stored as given and is never changed |
| Translation.Translation.Resolve | src/logic/Translation.ts:15-55 | the parts returned are the fragments interleaved with the arguments in sorted-offset order, empty fragments dropped and elements re-keyed by gap |
| ResolveProperties.CollectKeys | src/logic/Translation.ts:20-25 | every key of the map is the offset of a match whose number `i` is an argument index whose `{i}` is first found there |
| ResolveProperties.FoundOnce | src/logic/Translation.ts:23-24 | `set` never overwrites a key: the offset found for argument `i` is not yet in the map |
| ResolveProperties.CollectFound | src/logic/Translation.ts:20-25 | after the loop, each argument whose `{i}` occurs is in the map under the offset of that `{i}` |
| ResolveProperties.CollectSize | src/logic/Translation.ts:20-25 | the map has exactly one key per argument whose placeholder occurs |
| ResolveProperties.CollectEntries | src/logic/Translation.ts:18-26 | the three facts above together: what the map holds, what its keys are, and how many there are |
| ResolveProperties.OrderedKeys | src/logic/Translation.ts:28 | the sorted offsets are the map's keys, each once, in strictly increasing decimal-string order |
| ResolveProperties.ResolvePlacesFoundArguments | src/logic/Translation.ts:20-28 | gap `k` holds the argument whose placeholder is at the `k`-th sorted offset; an argument is placed exactly when it was passed and its `{i}` occurs, and then in one gap only |
| ResolveProperties.ResolveArgumentCount | src/logic/Translation.ts:28-29 | the number of arguments placed equals the number found, which is at most the number of matches, one less than the number of fragments |
| ResolveProperties.TurnLiterals | src/logic/Translation.ts:35-39 | one turn of the loop appends its fragment exactly when it is non-empty |
| ResolveProperties.TurnFillers | src/logic/Translation.ts:42-51 | one turn of the loop appends the argument for its gap exactly when one is left |
| ResolveProperties.WalkLiterals | src/logic/Translation.ts:33-39 | after `n` turns, the text parts are the non-empty fragments among the first `n`, and none is empty |
| ResolveProperties.WalkFillers | src/logic/Translation.ts:33-51 | after `n` turns, the argument parts are the first `min(n, count)` arguments as placed |
| ResolveProperties.SlotNodesAt | src/logic/Translation.ts:42-50 | the first `m` gaps hold, gap by gap, the `k`-th sorted argument as prepared for gap `k`, one part per gap |
| ResolveProperties.ResolveLiterals | src/logic/Translation.ts:29-39 | every text part is non-empty; the text parts are the non-empty fragments in order; joined, they give the template with every `{digits}` removed |
| ResolveProperties.ResolveFillers | src/logic/Translation.ts:41-51 | every found argument is output once, in sorted order; the one in gap `k` is re-keyed `"arg_" + k` if it is an element, and otherwise (a string, `undefined`, a number) is passed through unchanged |
| ResolveProperties.ResolveWithoutPlaceholders | src/logic/Translation.ts:29-39 | a template without `{digits}` resolves to itself, or to nothing when it is empty, whatever the arguments |
| Examples.StringSortOfOffsets | src/logic/Translation.ts:28 | `"10"` compares below `"2"`, so the default sort leaves the offsets `[10, 2]` in that order |
| Examples.SortMatches | src/logic/Translation.ts:29 | `"ab{1}cdefg{0}"` has the matches `{1}` at 2 and `{0}` at 10 |
| Examples.StringSortExample | src/logic/Translation.ts:28 | `"ab{1}cdefg{0}"` with arguments A, B gives `["ab", A, "cdefg", B]`: argument 0 lands where `{1}` is written |
| Examples.DuplicatePlaceholderExample | src/logic/Translation.ts:21-44 | `"{0} and {0}"` with argument A gives `[A, " and "]`: the second gap gets nothing |
| Examples.HelloExample | src/logic/Translation.ts:15-55 | `"Hello {0}!"` with `"World"` gives `["Hello ", "World", "!"]` |
| Findings.NumericSort | src/logic/Translation.ts:28 | the corrected sort returns a permutation of the offsets in ascending numeric order |
| Findings.OrderedNumericallyKeys | src/logic/Translation.ts:28 | with the corrected sort, the offsets are the map's keys in strictly ascending order |
| Findings.NumericSortPlacesInTemplateOrder | src/logic/Translation.ts:28-44 | with the corrected sort, when every placeholder is used once, the sorted offsets are the matches in template order, and gap `k` holds the argument written in the `k`-th placeholder; gap `k` follows fragment `k`, which `SplitCutsAtMatches` proves ends where the `k`-th placeholder begins |
| Findings.ResolvedNumericallyInTemplateOrder | src/logic/Translation.ts:28-51 | the same at the output: the `k`-th argument part is the argument of the `k`-th placeholder, re-keyed by its gap, so each argument stands where its own placeholder was |
| Findings.StringSortMisplaces | src/logic/Translation.ts:28 | for `"ab{1}cdefg{0}"` every placeholder is used once, yet the code places `[A, B]` while the corrected sort places `[B, A]` |

## Left out

- `src/hooks/TranslationHook.ts` is not part of this model. It holds the subscription hook that re-resolves strings when the language changes: React state and listener registration, with no logic of `resolve`.
- `src/components/Queue.tsx` and `src/components/AddToPlaylist.tsx` are not part of this model. They are UI rendering, DOM scrolling, timers and calls into an audio-player object whose source is not available.
- `isValidElement` and `cloneElement` are modelled only as the tag `Node.Element` and the replacement of its key. An element's other props, its identity and React's rendering are not modelled.
- A `ReactNode` argument is modelled as `Text`, `Element` or `Other`. Numbers, booleans, `null`, `undefined` and arrays are all `Other`, which `resolve` passes through unchanged.
- The result is the source's `components` array. The `Literal`/`Filler` tag on each part only records where the part came from.
- Templates with characters outside the Basic Multilingual Plane are not modelled. A Dafny `char` is a Unicode scalar value, so such a character is one `char` where JavaScript counts two UTF-16 code units, and the offsets, which decide the string sort at line 28, would differ. For templates inside that plane, the model's offsets are the UTF-16 offsets `indexOf` reports. `\d` is the ASCII digits, as in a JavaScript regular expression without the `u` flag.
- Decimal.DefaultSort: models the result of the engine's sort, not its in-place algorithm. The comparator is a total order on distinct keys, so the result is fully determined.
- Argument counts and offsets are unbounded integers. JavaScript numbers represent them exactly at any template length a browser can hold.
- `indicesToArg.get(index)` returning `undefined` is not modelled as a case, because `FillerAt` proves the key is always present. The path where `set` overwrites a present key is modelled, and `FoundOnce` proves it is never taken.
- Translation.Translation.Resolve: keeps the code's string sort. The corrected numeric sort is `Findings.ResolvedNumerically`, and only the Findings lemmas use it.

## Findings

| source | as written | input that shows it | evidently intended | confidence | as-written member | corrected member |
|---|---|---|---|---|---|---|
| src/logic/Translation.ts:28 | `[...indicesToArg.keys()].sort()` sorts the offsets as decimal strings | the template `"ab{1}cdefg{0}"` with arguments A, B: the offsets 10 and 2 sort as `[10, 2]`, so A is placed after `"ab"`, where `{1}` is written, and B where `{0}` is written | offsets in ascending numeric order, as the comment on line 17 says ("in order that they are present in the template"), so that each argument lands at its own placeholder | high; not executed | Examples.StringSortExample | Findings.NumericSortPlacesInTemplateOrder |
