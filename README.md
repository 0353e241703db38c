# Greedy photo-slideshow solver, modelled in Dafny

This project models the solver in `HashCode2019/main.swift`. The solver reads
a list of photos. Each photo is horizontal or vertical and carries a set of
tags. It then works in four steps:

1. **Parse.** `Input.init` turns every line into an `Image`. A horizontal
   image becomes a one-image `Slide` at once. A vertical image waits in
   `verticalImages`, keyed by its line index.
2. **Pair.** `matchVerticalSlides` pairs every unmatched vertical image with
   the unmatched vertical image that gives the largest tag union.
3. **Sort.** `sort` orders the slides by decreasing tag count.
4. **Order.** `matchSlides` builds `finalSlides` by a greedy
   nearest-neighbour walk under `Slide.compare`.

`generateDictionary` fills an interest table of positive `compare` scores.

The project has one module per concern:

- `Text`: Foundation's `components(separatedBy:)` for a one-character
  separator, with its inverse.
- `Model`: the value types, `Image.union` and `Slide.compare`.
- `Parsing`: what `Input.init` computes.
- `Pairing`: what `matchVerticalSlides` computes.
- `Sorting`: the order `sort` establishes.
- `Ordering`: what `matchSlides` computes.
- `Interest`: what `generateDictionary` computes.
- `Solver`: the `Input` class. Its constructor and methods update its fields
  in place with the source's loops. The constructor, `MatchSlides`,
  `GenerateDictionary` and a `MatchVerticalSlides` that does not trap are
  proved to leave their fields equal to their module's function. `Sort` is
  proved to leave a permutation of the slides with non-increasing tag counts.

The code has these properties:

- `compare` uses the union size as its first term.
- Both scans keep the first candidate of strictly largest score, because
  the test is `>`.
- Everything runs sequentially.

The model makes these choices:

- **Dictionary order.** Swift's `Dictionary` enumeration order is
  unspecified. The model gives it as a parameter `order`, a duplicate-free
  listing of the keys. Both loops of `matchVerticalSlides` use that same
  order, because the dictionary does not change while they run.
- **`maxSlide!` trap.** When no candidate has a non-empty union,
  `maxSlide!` traps. The model returns `false` instead.
- **Other traps.** Two traps become preconditions:
  - the slice `comps[2..<comps.count]` traps on a line of fewer than two
    tokens, so the constructor requires `WellFormed`;
  - `slides[0]` traps when there are no slides, so `MatchSlides` requires
    `|slides| > 0`.
- **Self-pairing.** The vertical scan does not skip `index1`, so an image
  can be paired with itself.
- **Not a permutation.** The walk of `matchSlides` falls back to index 0
  when no candidate scores above 0. Its result is therefore not always a
  permutation of the slides.

## Model

| member | source | states |
|---|---|---|
| Text.Split | HashCode2019/main.swift:21 | `components(separatedBy:)` returns at least one piece, and no piece contains the separator |
| Text.JoinSplit | HashCode2019/main.swift:21 | joining the pieces with the separator gives the text back |
| Text.SplitWithoutSeparator | HashCode2019/main.swift:21 | a text without the separator is a single piece |
| Text.SplitPrefix | HashCode2019/main.swift:21 | a separator-free prefix joins the first piece of what follows it |
| Text.SplitJoin | HashCode2019/main.swift:21 | splitting joined separator-free pieces gives back exactly those pieces |
| Model.ParseImage | HashCode2019/main.swift:20-24 | `Image(line:)` succeeds exactly on two or more tokens; the image is Horizontal exactly when the first token is "H", and its tags are exactly the tokens from the third on (round trip in ParseFormatLine, the trap in ParseRejectsSingleToken) |
| Model.ParseFormatLine | HashCode2019/main.swift:20-24 | parsing `marker count tag…` gives Horizontal exactly when the marker is "H", and exactly the tags written from the third token on |
| Model.ParseRejectsSingleToken | HashCode2019/main.swift:23 | a line of one token makes `Image(line:)` fail, where the slice traps |
| Model.Union | HashCode2019/main.swift:26-36 | the union holds both tag sets and nothing else |
| Model.UnionCommutes | HashCode2019/main.swift:35 | `a.union(with: b)` equals `b.union(with: a)` |
| Model.UnionSize | HashCode2019/main.swift:35 | the union's size is at least each tag set's size and at most their sum |
| Model.Compare | HashCode2019/main.swift:49-64 | the score is non-negative, at most each of the three terms (union size and both one-sided differences), and equal to one of them |
| Model.CompareSymmetric | HashCode2019/main.swift:63 | `a.compare(b) == b.compare(a)` |
| Model.CompareSameTags | HashCode2019/main.swift:63 | slides with equal tag sets score 0 |
| Model.CompareIsSmallerDifference | HashCode2019/main.swift:63 | the union term never decides the minimum: the score is the smaller one-sided difference |
| Model.ComparePositive | HashCode2019/main.swift:63 | the score is positive exactly when neither tag set contains the other |
| Model.SharedCompare | HashCode2019/main.swift:50-62 | the intended score: non-negative, at most the shared-tag count and both one-sided differences, and equal to one of them |
| Model.SharedComparePositive | HashCode2019/main.swift:50-62 | the intended score is positive exactly when the slides share a tag and neither tag set contains the other |
| Model.CompareScoresDisjointTags | HashCode2019/main.swift:63 | as written, slides `{x}` and `{y}` with no tag in common score 1, where the shared-tag score is 0 |
| Parsing.Lines | HashCode2019/main.swift:84 | the lines are the newline-separated pieces without the first and the last, none holding a newline (LinesOfFile gives the round trip) |
| Parsing.ParsedImages | HashCode2019/main.swift:90-92 | one image per line: `images.count` equals the number of lines |
| Parsing.HorizontalSlides | HashCode2019/main.swift:93-95 | each slide holds one id, the index of a horizontal line, with that image's tags; ids increase along the slides |
| Parsing.Horizontals | HashCode2019/main.swift:93-94 | `horizontalImages` holds one horizontal image per horizontal slide, with the same tags |
| Parsing.VerticalImagesOf | HashCode2019/main.swift:96-97 | a key is in `verticalImages` exactly when its line is vertical, and it maps to that line's image |
| Parsing.ParseStep | HashCode2019/main.swift:90-98 | one more line appends its image to `images`, and extends `horizontalImages` and `slides` (horizontal) or `verticalImages` (vertical) by that image alone |
| Parsing.HorizontalsStep | HashCode2019/main.swift:93-94 | one more image extends `horizontalImages` only when it is horizontal |
| Parsing.HorizontalSlidesStep | HashCode2019/main.swift:93-95 | one more image appends the slide `[index]` only when it is horizontal |
| Parsing.VerticalImagesStep | HashCode2019/main.swift:96-97 | one more image is stored under its index only when it is vertical |
| Parsing.HorizontalSlidesComplete | HashCode2019/main.swift:93-95 | every horizontal line index has its slide `[index]` |
| Parsing.ImagesArePartitioned | HashCode2019/main.swift:93-98 | the horizontal slides plus the vertical images number exactly the images |
| Parsing.LinesOfFile | HashCode2019/main.swift:84 | the lines of a file are exactly those between the header and the final line |
| Pairing.Scan | HashCode2019/main.swift:108-116 | the kept score is 0 with index 0, or positive for an unmatched candidate whose union with `image1` has exactly that size |
| Pairing.ScanIsMax | HashCode2019/main.swift:110-115 | no unmatched candidate has a larger union than the kept one |
| Pairing.ScanIsFirst | HashCode2019/main.swift:111-115 | every unmatched candidate before the kept one has a strictly smaller union |
| Pairing.FindPartner | HashCode2019/main.swift:108-116 | the inner loop ends with the scan's score and index; `maxSlide` is the slide `[index1, maxIndex]` with their union exactly when the score is positive, and nil otherwise |
| Pairing.PairStep | HashCode2019/main.swift:107-126 | one outer pass traps only for an unmatched `index1`; otherwise `index1` ends matched, `matchedIndices` only grows and at most one slide is appended (the pick itself in PairStepPicksFirstMax, the invariant in PairStepKeeps) |
| Pairing.Pairs | HashCode2019/main.swift:106-128 | without a trap, every key visited is matched and at most one slide per key is appended (the invariant in PairsWellPaired, coverage in PairingCovers, disjointness in PairingDisjoint) |
| Pairing.PairsStaysNone | HashCode2019/main.swift:125 | once `maxSlide!` has trapped, the whole loop has trapped |
| Pairing.IdsAppend | HashCode2019/main.swift:123-125 | the ids of the slides plus one are the old ids plus that slide's ids |
| Pairing.AppendKeepsDisjoint | HashCode2019/main.swift:123-125 | a new slide with fresh ids keeps the slides id-disjoint |
| Pairing.AppendKeepsShapes | HashCode2019/main.swift:114 | a new two-image slide whose tags are the images' union keeps every slide of that shape |
| Pairing.ExtendIds | HashCode2019/main.swift:123-125 | pairing two unmatched ids keeps `matchedIndices` equal to the ids used, and the slides id-disjoint |
| Pairing.ExtendKeeps | HashCode2019/main.swift:123-125 | pairing the visited key with an unmatched partner keeps the loop invariant |
| Pairing.PairStepKeeps | HashCode2019/main.swift:106-126 | one pass of the outer loop keeps `matchedIndices` equal to the ids used; it also keeps every visited key matched, every slide two ids with their images' union, and no id in two slides |
| Pairing.PairsWellPaired | HashCode2019/main.swift:106-126 | the loop invariant holds after every pass that did not trap |
| Pairing.PairingCovers | HashCode2019/main.swift:106-126 | without a trap, every vertical image ends up in `matchedIndices` |
| Pairing.PairingDisjoint | HashCode2019/main.swift:107-124 | an image already matched never starts a new slide: two slides made never share an id |
| Pairing.IdsOfPrefix | HashCode2019/main.swift:123-124 | every slide's ids are among the ids used |
| Pairing.PairStepNeverTraps | HashCode2019/main.swift:109-125 | `maxSlide!` is safe whenever `image1` has a non-empty tag set |
| Pairing.PairsNeverTrap | HashCode2019/main.swift:106-126 | when every vertical image has a tag, the loop never traps |
| Pairing.PairStepPicksFirstMax | HashCode2019/main.swift:108-125 | the appended slide is `[index1, maxIndex]` with their union; `maxIndex` is an unmatched candidate, possibly `index1` itself, whose union is maximal, and every earlier unmatched candidate's is strictly smaller |
| Pairing.PairsCanPairImageWithItself | HashCode2019/main.swift:109-115 | two vertical images with the same tags each become a slide of one image used twice |
| Pairing.PairsOfEmpty | HashCode2019/main.swift:105 | with no vertical images nothing is paired or appended |
| Pairing.OrderVisitsEachOnce | HashCode2019/main.swift:106 | the enumeration visits as many keys as the dictionary has |
| Sorting.Insert | HashCode2019/main.swift:132 | inserting a slide adds exactly that slide to the multiset, and the front slide is the new one or the old front |
| Sorting.InsertSorted | HashCode2019/main.swift:132 | inserting into a list of non-increasing tag counts keeps it so |
| Ordering.ScanSlides | HashCode2019/main.swift:147-155 | the kept score is 0 with index 0, or positive for an index that is neither current nor matched and scores exactly that |
| Ordering.ScanSlidesFirstMax | HashCode2019/main.swift:148-155 | no candidate scores more than the kept one, and every candidate before it scores strictly less |
| Ordering.FindNext | HashCode2019/main.swift:147-155 | the inner loop ends with the scan's score and index |
| Ordering.Greedy | HashCode2019/main.swift:140-161 | after `steps` rounds the walk has `steps + 1` picks starting with 0, and the current index is the last pick, a valid index |
| Ordering.GreedyPicks | HashCode2019/main.swift:144-160 | `matchedIndices` is exactly the set of picks, and every pick is an index of `slides` |
| Ordering.Visited | HashCode2019/main.swift:143-158 | after `steps` rounds, `steps + 1` slides have been appended, the first one `slides[0]` |
| Ordering.VisitedAt | HashCode2019/main.swift:157-158 | the `i`-th appended slide is the slide at the `i`-th pick |
| Ordering.AdvanceWalk | HashCode2019/main.swift:156-160 | one round moves to the scan's pick, marks it matched and appends its slide |
| Ordering.Route | HashCode2019/main.swift:135-162 | `finalSlides` grows by exactly `slides.count` slides, starting with `slides[0]`: the loop runs `slides.count - 1` times |
| Ordering.GreedyStep | HashCode2019/main.swift:145-160 | each round picks the first unmatched, non-current index of strictly maximal positive score, or 0 when none is positive |
| Ordering.OnlyFirstRepeats | HashCode2019/main.swift:149-160 | only index 0 can be picked twice |
| Ordering.WalkCanRepeatFirst | HashCode2019/main.swift:147-157 | two slides with equal tags give the picks `[0, 0]` and the route `[s, s]`, which is not a permutation |
| Interest.EmptyTable | HashCode2019/main.swift:168-170 | one empty list for each key `0..<count` |
| Interest.Visit | HashCode2019/main.swift:174-177 | one pass keeps the table's keys |
| Interest.Row | HashCode2019/main.swift:173-178 | the inner loop keeps the table's keys |
| Interest.Rows | HashCode2019/main.swift:171-179 | the outer loop keeps the keys `0..<slides.count` |
| Interest.GeneratedTable | HashCode2019/main.swift:165-180 | the dictionary has exactly the keys `0..<slides.count` |
| Interest.MirroredTable | HashCode2019/main.swift:165-180 | the intended dictionary has exactly the keys `0..<slides.count` |
| Interest.RowEntriesOk | HashCode2019/main.swift:175-177 | the inner loop stores only entries of positive interest that name one of the slides |
| Interest.RowsEntriesOk | HashCode2019/main.swift:175-177 | every stored entry has `interest > 0` and names one of the slides |
| Interest.RowGrows | HashCode2019/main.swift:176-177 | the inner loop only appends: each list is a prefix of its later value |
| Interest.RowsGrow | HashCode2019/main.swift:171-179 | later passes of the outer loop only append to each list |
| Interest.RowRecordsPair | HashCode2019/main.swift:173-177 | after the pass for an offset of positive interest, `slides[index1 + offset]` is under `index1` and `slides[index1]` under the second key |
| Interest.TableRecordsPair | HashCode2019/main.swift:171-179 | every pair `i <= j` of positive interest is in the final table under `i` and under the second key |
| Interest.GeneratedTableRecordsPair | HashCode2019/main.swift:173-177 | as written, `slides[j]` is listed under `i` and `slides[i]` under the offset `j - i` |
| Interest.VisitEntries | HashCode2019/main.swift:174-177 | one pass adds nothing but the partner under `index1` and `slide1` under the second key, and only for a positive interest |
| Interest.RowLastEntry | HashCode2019/main.swift:173-177 | an entry the last pass of the inner loop added is one of that pass's two entries |
| Interest.RowEntriesFiled | HashCode2019/main.swift:173-177 | the inner loop adds nothing but the two entries of each visited pair of positive interest |
| Interest.TableEntriesFiled | HashCode2019/main.swift:171-179 | every entry of the table is the partner filed under `i`, or `slides[i]` filed under the second key, of some pair `i <= j` of positive interest |
| Interest.MirroredTableEntries | HashCode2019/main.swift:173-177 | every entry of the intended table under `k` is some `slides[j]` with its positive interest against `slides[k]` |
| Interest.MirroredTableLists | HashCode2019/main.swift:173-177 | in the intended table, `slides[j]` is listed under `k` with their interest exactly when that interest is positive |
| Interest.MirroredTableIsSymmetric | HashCode2019/main.swift:173-177 | in the intended table, `slides[j]` is listed under `k` exactly when `slides[k]` is listed under `j`, with the same interest |
| Interest.OffsetKeyMisfiles | HashCode2019/main.swift:173-177 | three slides where only slides 1 and 2 score positive: both entries land under key 1 and key 2 stays empty |
| Solver.Input.constructor | HashCode2019/main.swift:83-100 | `images`, `horizontalImages`, `slides` and `verticalImages` are exactly what parsing the lines gives |
| Solver.Input.MatchVerticalSlides | HashCode2019/main.swift:102-129 | it succeeds exactly when the pairing does not trap, and then appends exactly the pairing's slides; `slides` only grows |
| Solver.Input.Sort | HashCode2019/main.swift:131-133 | `slides` becomes a permutation of its old contents with non-increasing tag counts |
| Solver.Input.MatchSlides | HashCode2019/main.swift:135-162 | `finalSlides` becomes its old value followed by the greedy route |
| Solver.Input.GenerateDictionary | HashCode2019/main.swift:165-180 | `dictionary` becomes the table built with the second entry filed under the offset, as written |

## Left out

- `Parser.read` (HashCode2019/main.swift:4-9): it loads a bundled file and cannot be modelled. The constructor takes the file's text instead.
- All `print` calls and `outputResult`: they only write output. `outputResult` prints `finalSlides.count` but then lists the ids of `slides`. No model state depends on that output.
- The top-level script (HashCode2019/main.swift:191-196): it only wires the steps together.
- `reserveCapacity`, `NSString`, `NSMutableDictionary` and `NSMutableArray`: these only affect performance or bridging. Tags are `set<string>` and the dictionary is a sequence of lists indexed by key.
- `Slide.wasMatched`: nothing in the core reads or writes it.
- The trapping inputs: a line of fewer than two tokens and `matchSlides` on no slides are excluded by preconditions. A trap of `maxSlide!` is a `false` result and leaves `slides` partly extended.
- Solver.Input.Sort: it promises only what the comparator fixes, namely a permutation with non-increasing tag counts. It does not promise the order of slides with equally many tags, which Swift's `sort` does not specify either. The method inserts stably.
- Solver.Input.MatchVerticalSlides: when the loop traps, it says only that `slides` grew. A trap ends the program, so the model does not state which slides were appended first.
- Tag text: tokens are split and compared as sequences of characters. Swift's `String ==` uses canonical equivalence, and Foundation may not split at a space followed by a combining mark; the model has neither.
- Object identity: `Image`, `Slide` and `SlideWithInterest` are classes in Swift but are never changed after creation. They are modelled as values, so two slides with equal contents are not told apart.

## Findings

| source | as written | input that shows it | evidently intended | confidence | as-written member | corrected member |
|---|---|---|---|---|---|---|
| HashCode2019/main.swift:173-177 | `enumerated()` over `slides.suffix(from: index1)` counts offsets from 0, so `dictionary[index2]` files `slide1` under the offset instead of under the partner's index | three slides with tags `{}`, `{a, b}`, `{b, c}`: the pair (1, 2) files both entries under key 1, and key 2 stays empty | `slide1` filed under `index1 + index2`, the partner's own index, so that the table is symmetric | not executed | Interest.OffsetKeyMisfiles | Interest.MirroredTableIsSymmetric |
| HashCode2019/main.swift:63 | the first term of `compare` is the size of the union of the two tag sets, which is never smaller than either difference, so the minimum reduces to the smaller difference | slides `{x}` and `{y}` share no tag yet score 1 | the number of tags the two slides share, as the commented-out loop at lines 50-62 counts into its variable `union` | not executed | Model.CompareScoresDisjointTags | Model.SharedComparePositive |
