# Importance cloud layout, modelled in Dafny

The project models `buildImportanceCloud`, the function that turns a list of
`{element, score}` pairs into a weighted tag cloud. It works in five steps:

1. It copies the input and sorts the copy by descending score with the
   comparator `(a, b) => b.score - a.score`. `Array.prototype.sort` is stable
   (section 23.1.3.30 of ECMA-262, 2023 edition), so entries with equal scores
   keep their input order.
2. It returns `[]` for an empty list.
3. It takes the minimum and maximum score.
4. It normalises each score to a weight `t` in [0, 1]. When all scores are
   equal, `t` is 1. It then clamps `t` to [0, 1].
5. It derives the size `16 + 38t` px, the opacity `0.5 + 0.5t`, the rank
   `index + 1` and the tilt `((index % 4) - 1.5) * 2` degrees.

Everything is in `ImportanceCloud.dfy`, module `ImportanceCloud`. The source
is pure, so the model is made of datatypes, functions and lemmas:

- The records are `ImportanceInput` and `ImportanceCloudItem`.
- The constants are `MinSize`, `MaxSize`, `MinAlpha` and `MaxAlpha`.
- `Clamp` and `Normalize` model the two helpers.
- `StableSortDesc` models the copy-and-sort step as a recursive insertion sort
  built on `Compare`, the source's comparator.
- `LayoutSorted` models everything after the sort.
- `BuildImportanceCloud` is the whole function.

The sort is checked against its own specification, `IsStableDescSort`. That
predicate says the output is ordered by non-increasing score, and that for
every score the entries with that score appear in the same order as in the
input. `StableDescSortUnique` proves that exactly one sequence meets this
specification. So the model's insertion sort gives the same result as any
stable sort the engine might use.

Scores and every derived quantity are mathematical reals.

The middle entry of the example with scores 10, 5 and 1 has `t = 4/9`. Its
size is `16 + 38 * 4/9 = 296/9`, about 32.89 px (`ThreeScoresExample`).

## Model

| member | source | states |
|---|---|---|
| `ImportanceCloud.Min` | src/components/TwelveElements/importanceCloud.ts:19 | `Math.min` of two numbers is one of them and is at most both |
| `ImportanceCloud.Max` | src/components/TwelveElements/importanceCloud.ts:19 | `Math.max` of two numbers is one of them and is at least both |
| `ImportanceCloud.Clamp` | src/components/TwelveElements/importanceCloud.ts:18-20 | the result never exceeds `max`; with ordered bounds it lies in [min, max], is `value` inside the range, `min` below it and `max` above it; with reversed bounds it is `max` |
| `ImportanceCloud.ClampIdempotent` | src/components/TwelveElements/importanceCloud.ts:18-20 | clamping twice to the same ordered interval equals clamping once |
| `ImportanceCloud.Normalize` | src/components/TwelveElements/importanceCloud.ts:22-25 | a degenerate scale (`max == min`) gives 1; otherwise interpolating the result back along the scale (`min + t * (max - min)`) gives `value` again |
| `ImportanceCloud.NormalizeAtEnds` | src/components/TwelveElements/importanceCloud.ts:22-25 | on a proper scale `min` normalises to 0 and `max` to 1 |
| `ImportanceCloud.NormalizeInUnit` | src/components/TwelveElements/importanceCloud.ts:22-25 | on a proper scale a value in [min, max] normalises into [0, 1] |
| `ImportanceCloud.NormalizeStrictlyIncreasing` | src/components/TwelveElements/importanceCloud.ts:22-25 | on a proper scale a larger value normalises to a strictly larger weight |
| `ImportanceCloud.Compare` | src/components/TwelveElements/importanceCloud.ts:28 | the comparator is negative exactly when `a` scores higher and zero exactly when the scores are equal |
| `ImportanceCloud.Insert` | src/components/TwelveElements/importanceCloud.ts:28 | inserting adds exactly one copy of `x` (multiset), and inserting into a sorted list keeps it sorted |
| `ImportanceCloud.StableSortDesc` | src/components/TwelveElements/importanceCloud.ts:28 | the sorted copy has the input's length, is a permutation of the input and is ordered by non-increasing score |
| `ImportanceCloud.WithScoreMembership` | src/components/TwelveElements/importanceCloud.ts:28 | an entry is in the group of score `v` exactly when it is in the list with score `v` |
| `ImportanceCloud.WithScoreInsert` | src/components/TwelveElements/importanceCloud.ts:28 | inserting `x` puts it at the front of the group of its own score and leaves every other score's group unchanged |
| `ImportanceCloud.StableSortDescIsStable` | src/components/TwelveElements/importanceCloud.ts:28 | for every score, the entries with that score appear in the sorted copy in input order |
| `ImportanceCloud.StableSortDescMeetsSpec` | src/components/TwelveElements/importanceCloud.ts:28 | the sort meets the stable-descending-sort specification |
| `ImportanceCloud.SortedWithSameScoreGroupsEqual` | src/components/TwelveElements/importanceCloud.ts:28 | two score-sorted lists whose score groups are all equal are the same list |
| `ImportanceCloud.StableDescSortUnique` | src/components/TwelveElements/importanceCloud.ts:28 | a list meets the stable-descending-sort specification if and only if it equals the sort's result |
| `ImportanceCloud.Scores` | src/components/TwelveElements/importanceCloud.ts:32 | the list of scores has the input's length, and entry k is the score of entry k |
| `ImportanceCloud.MinOf` | src/components/TwelveElements/importanceCloud.ts:33 | `Math.min(...scores)` is one of the scores and is at most every score |
| `ImportanceCloud.MaxOf` | src/components/TwelveElements/importanceCloud.ts:34 | `Math.max(...scores)` is one of the scores and is at least every score |
| `ImportanceCloud.SortedEnds` | src/components/TwelveElements/importanceCloud.ts:32-34 | in a sorted list the maximum is the first score and the minimum is the last |
| `ImportanceCloud.ScoresBetweenExtremes` | src/components/TwelveElements/importanceCloud.ts:32-34 | every score lies between the minimum and the maximum |
| `ImportanceCloud.ExtremesOfPermutation` | src/components/TwelveElements/importanceCloud.ts:28-34 | the minimum and maximum score of the sorted copy are those of the input, since the copy is a permutation of it |
| `ImportanceCloud.BetweenEnds` | src/components/TwelveElements/importanceCloud.ts:28-34 | every input score lies between the last and the first score of a sorted permutation of the input |
| `ImportanceCloud.Weight` | src/components/TwelveElements/importanceCloud.ts:37 | `t` lies in [0, 1]; it is 1 when all scores are equal; on a proper scale it is 1 at the maximum, 0 at the minimum, and interpolates back to the score |
| `ImportanceCloud.WeightStrictlyIncreasing` | src/components/TwelveElements/importanceCloud.ts:37 | on a proper scale a higher in-range score gets a strictly higher weight |
| `ImportanceCloud.SizeAt` | src/components/TwelveElements/importanceCloud.ts:38 | a weight in [0, 1] gives a size in [16, 54]; weight 0 gives 16 and weight 1 gives 54 |
| `ImportanceCloud.AlphaAt` | src/components/TwelveElements/importanceCloud.ts:39 | a weight in [0, 1] gives an opacity in [0.5, 1]; weight 0 gives 0.5 and weight 1 gives 1 |
| `ImportanceCloud.SizeAndAlphaIncreasing` | src/components/TwelveElements/importanceCloud.ts:38-39 | size and opacity never decrease as the weight grows |
| `ImportanceCloud.Tilt` | src/components/TwelveElements/importanceCloud.ts:40 | the tilt is -3, -1, 1 or 3 degrees for index mod 4 = 0, 1, 2 or 3 |
| `ImportanceCloud.TiltPeriod` | src/components/TwelveElements/importanceCloud.ts:40 | the tilt repeats every 4 indices and never repeats after 1, 2 or 3 |
| `ImportanceCloud.LayoutItem` | src/components/TwelveElements/importanceCloud.ts:36-48 | each output entry keeps `element` and `score`, has rank `index + 1`, a size in [16, 54], an opacity in [0.5, 1] and the tilt of its index |
| `ImportanceCloud.LayoutSorted` | src/components/TwelveElements/importanceCloud.ts:30-49 | the layout of a list has its length and its entries in order, with contiguous ranks 1..N, sizes and opacities within bounds, and the tilt cycle |
| `ImportanceCloud.BuildImportanceCloud` | src/components/TwelveElements/importanceCloud.ts:27-50 | the output has the input's length; empty input gives empty output; its input fields are the stable descending sort of the input, so they are a permutation of it ordered by non-increasing score; ranks are contiguous 1..N; every size is in [16, 54], every opacity in [0.5, 1], and the tilt follows the cycle |
| `ImportanceCloud.LayoutOfPermutation` | src/components/TwelveElements/importanceCloud.ts:32-39 | laying out any permutation of the input draws entry k at `SizeAt` and `AlphaAt` of the weight of its score between the input's own minimum and maximum |
| `ImportanceCloud.BuildImportanceCloudSizes` | src/components/TwelveElements/importanceCloud.ts:28-39 | entry k of the output has size `16 + 38t` and opacity `0.5 + 0.5t`, where `t` is the clamped weight of its score between the minimum and the maximum score of the input |
| `ImportanceCloud.BuildImportanceCloudIsStableSort` | src/components/TwelveElements/importanceCloud.ts:28 | the output's input fields meet the stable-descending-sort specification |
| `ImportanceCloud.LayoutAllEqual` | src/components/TwelveElements/importanceCloud.ts:23-39 | a list of equal scores is laid out at size 54 and opacity 1 throughout |
| `ImportanceCloud.LayoutExtremes` | src/components/TwelveElements/importanceCloud.ts:32-39 | in a sorted list whose first and last scores differ, the first entry gets size 54 and opacity 1, the last size 16 and opacity 0.5 |
| `ImportanceCloud.LayoutNonIncreasing` | src/components/TwelveElements/importanceCloud.ts:32-39 | down a sorted list's layout, size and opacity never grow, and equal scores are drawn alike |
| `ImportanceCloud.AllEqualScoresGetMaximum` | src/components/TwelveElements/importanceCloud.ts:23-39 | when all scores are equal, the output keeps the input order and every entry has size 54 and opacity 1 |
| `ImportanceCloud.ExtremesGetEndpoints` | src/components/TwelveElements/importanceCloud.ts:28-39 | when two scores differ, the first output entry (a maximum) gets size 54 and opacity 1, and the last (a minimum) size 16 and opacity 0.5 |
| `ImportanceCloud.SizeAndAlphaNonIncreasing` | src/components/TwelveElements/importanceCloud.ts:28-39 | down the output, size and opacity never grow, and two entries of equal score get the same size and opacity |
| `ImportanceCloud.EmptyInputExample` | src/components/TwelveElements/importanceCloud.ts:30 | an empty input gives an empty output |
| `ImportanceCloud.SingleItemExample` | src/components/TwelveElements/importanceCloud.ts:27-50 | a single entry gets rank 1, size 54, opacity 1 and tilt -3 |
| `ImportanceCloud.EqualScoresSortExample` | src/components/TwelveElements/importanceCloud.ts:28 | `a, b, c`, all scoring 5, are already in stable descending order |
| `ImportanceCloud.EqualScoresLayoutExample` | src/components/TwelveElements/importanceCloud.ts:30-48 | the layout of `a, b, c`, all scoring 5: ranks 1..3, size 54, opacity 1, tilts -3, -1, 1 |
| `ImportanceCloud.EqualScoresExample` | src/components/TwelveElements/importanceCloud.ts:27-50 | `a, b, c`, all scoring 5, keep their order, get ranks 1..3, size 54, opacity 1 and tilts -3, -1, 1 |
| `ImportanceCloud.SortThreeExample` | src/components/TwelveElements/importanceCloud.ts:28 | scores 1, 10, 5 sort to 10, 5, 1 |
| `ImportanceCloud.LayoutThreeExample` | src/components/TwelveElements/importanceCloud.ts:32-48 | scores 10, 5, 1 get weights 1, 4/9 and 0: sizes 54, 296/9 and 16, opacities 1, 13/18 and 0.5 |
| `ImportanceCloud.ThreeScoresExample` | src/components/TwelveElements/importanceCloud.ts:27-50 | the full layout of the input with scores 1, 10, 5, in output order 10, 5, 1 |

## Left out

- IEEE-754 arithmetic: scores and derived values are reals, so the model has no NaN, no infinities and no rounding in the division or the interpolations. A NaN score, for example, would make the source's comparator and `clamp` behave differently.
- Extra input fields: the source copies the whole input object with `...item`. The model's records carry exactly `element` and `score`.
- `Math.min(...scores)` and `Math.max(...scores)`: the model folds the two-argument minimum and maximum over the list. The engine's limit on the number of spread arguments is not modelled. Nothing here calls them on an empty list (which would give ±Infinity), because the source returns early in that case.
- The engine's sort algorithm and the in-place sort of the fresh copy: the copy-and-sort step is a value-level function. Because the stable descending sort is unique (`StableDescSortUnique`), any stable sort gives the same result. The copy is never visible to the caller, so no state is modelled.
- `rank` is a `nat`, while the source uses a JavaScript number. The two agree on every value the source produces.
