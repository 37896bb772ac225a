/**
 * A model of the weighted-tag-cloud layout builder: a list of scored
 * elements is sorted by descending score (stably), and every entry is given
 * a rank, a font size, an opacity and a small tilt.
 *
 * Scores and all derived quantities are mathematical reals; the model does
 * not follow IEEE-754 rounding, NaN or the infinities.
 */
module ImportanceCloud {

  // ---------------------------------------------------------------------------
  // Records and constants
  // ---------------------------------------------------------------------------

  /** One scored input entry. */
  datatype ImportanceInput = ImportanceInput(element: string, score: real)

  /** One laid-out entry: the input's fields plus the four layout fields. */
  datatype ImportanceCloudItem = ImportanceCloudItem(
    element: string,
    score: real,
    rank: nat,
    sizePx: real,
    alpha: real,
    tiltDeg: real)

  const MinSize: real := 16.0
  const MaxSize: real := 54.0
  const MinAlpha: real := 0.5
  const MaxAlpha: real := 1.0

  // ---------------------------------------------------------------------------
  // clamp and normalize
  // ---------------------------------------------------------------------------

  /** `Math.min` on two arguments. */
  function Min(a: real, b: real): (r: real)
    ensures r <= a && r <= b
    ensures r == a || r == b
  {
    if a <= b then a else b
  }

  /** `Math.max` on two arguments. */
  function Max(a: real, b: real): (r: real)
    ensures a <= r && b <= r
    ensures r == a || r == b
  {
    if a >= b then a else b
  }

  /**
   * `clamp(value, min, max)` = `Math.min(max, Math.max(min, value))`.
   * When the bounds are in order the result is the point of [min, max]
   * nearest to `value`; when they are not, the upper bound wins.
   */
  function Clamp(value: real, min: real, max: real): (r: real)
    ensures r <= max
    ensures min <= max ==> min <= r
    ensures min <= value <= max ==> r == value
    ensures value < min && min <= max ==> r == min
    ensures max < value ==> r == max
    ensures max < min ==> r == max
  {
    Min(max, Max(min, value))
  }

  /** Clamping twice to the same ordered interval is clamping once. */
  lemma ClampIdempotent(value: real, min: real, max: real)
    requires min <= max
    ensures Clamp(Clamp(value, min, max), min, max) == Clamp(value, min, max)
  {
  }

  /**
   * `normalize(value, min, max)`: the position of `value` on the scale from
   * `min` (0) to `max` (1), and 1 when the scale is degenerate.
   * Interpolating back along the scale recovers `value`.
   */
  function Normalize(value: real, min: real, max: real): (t: real)
    ensures max == min ==> t == 1.0
    ensures max != min ==> min + t * (max - min) == value
  {
    if max == min then 1.0 else (value - min) / (max - min)
  }

  /** On a proper scale the lower end normalizes to 0 and the upper end to 1. */
  lemma NormalizeAtEnds(min: real, max: real)
    requires min != max
    ensures Normalize(min, min, max) == 0.0
    ensures Normalize(max, min, max) == 1.0
  {
    var d := max - min;
    if min < max {
      ScaleCancels(Normalize(min, min, max), 0.0, d);
      ScaleCancels(Normalize(max, min, max), 1.0, d);
    } else {
      ScaleCancels(Normalize(min, min, max), 0.0, -d);
      ScaleCancels(Normalize(max, min, max), 1.0, -d);
    }
  }

  /** A positive factor can be cancelled. */
  lemma ScaleCancels(a: real, b: real, d: real)
    requires 0.0 < d
    ensures a * d == b * d ==> a == b
  {
  }

  /** On a proper scale, a value inside [min, max] normalizes into [0, 1]. */
  lemma NormalizeInUnit(value: real, min: real, max: real)
    requires min < max && min <= value <= max
    ensures 0.0 <= Normalize(value, min, max) <= 1.0
  {
    UnitFromScale(Normalize(value, min, max), value - min, max - min);
  }

  /** A number that a positive factor `d` scales to some `a` in [0, d] lies in [0, 1]. */
  lemma UnitFromScale(t: real, a: real, d: real)
    requires 0.0 < d && t * d == a && 0.0 <= a <= d
    ensures 0.0 <= t <= 1.0
  {
    assert (t - 1.0) * d == a - d;
  }

  /** Scaling by a positive factor keeps, and so reflects, strict order. */
  lemma ScaleReflectsOrder(a: real, b: real, d: real)
    requires 0.0 < d
    ensures a * d < b * d ==> a < b
  {
  }

  /** On a proper scale, normalizing is strictly increasing. */
  lemma NormalizeStrictlyIncreasing(v1: real, v2: real, min: real, max: real)
    requires min < max && v1 < v2
    ensures Normalize(v1, min, max) < Normalize(v2, min, max)
  {
    var t1, t2, d := Normalize(v1, min, max), Normalize(v2, min, max), max - min;
    assert t1 * d == v1 - min && t2 * d == v2 - min;
    ScaleReflectsOrder(t1, t2, d);
  }

  // ---------------------------------------------------------------------------
  // The sort: `[...items].sort((a, b) => b.score - a.score)`
  // ---------------------------------------------------------------------------

  /**
   * The comparator: negative when `a` must come before `b`, positive when
   * `b` must come before `a`, zero when the two keep their input order.
   */
  function Compare(a: ImportanceInput, b: ImportanceInput): (c: real)
    ensures c < 0.0 <==> a.score > b.score
    ensures c == 0.0 <==> a.score == b.score
  {
    b.score - a.score
  }

  /** Non-increasing by score. */
  predicate SortedDesc(s: seq<ImportanceInput>)
  {
    forall i, j :: 0 <= i < j < |s| ==> s[i].score >= s[j].score
  }

  /** The entries of `s` whose score is `v`, in their order in `s`. */
  function WithScore(s: seq<ImportanceInput>, v: real): seq<ImportanceInput>
  {
    if s == [] then []
    else (if s[0].score == v then [s[0]] else []) + WithScore(s[1..], v)
  }

  /** An entry is in the group of score `v` exactly when it is in `s` with score `v`. */
  lemma {:induction false} WithScoreMembership(s: seq<ImportanceInput>, v: real, x: ImportanceInput)
    ensures x in WithScore(s, v) <==> x in s && x.score == v
  {
    if s != [] {
      WithScoreMembership(s[1..], v, x);
      assert s == [s[0]] + s[1..];
    }
  }

  /**
   * The specification of a stable descending sort: `output` is ordered by
   * non-increasing score, and for every score the entries with that score
   * appear in `output` exactly as, and in the order, they appear in `input`
   * (which makes `output` a permutation of `input`).
   */
  ghost predicate IsStableDescSort(input: seq<ImportanceInput>, output: seq<ImportanceInput>)
  {
    && SortedDesc(output)
    && forall v :: WithScore(output, v) == WithScore(input, v)
  }

  /**
   * Inserts `x` in front of the first entry that the comparator does not
   * order before it, so `x` lands before every entry of equal score.
   */
  function Insert(x: ImportanceInput, s: seq<ImportanceInput>): (r: seq<ImportanceInput>)
    ensures |r| == |s| + 1
    ensures multiset(r) == multiset(s) + multiset{x}
    ensures r[0] == x || (s != [] && r[0] == s[0])
    ensures SortedDesc(s) ==> SortedDesc(r)
  {
    if s == [] || Compare(x, s[0]) <= 0.0 then
      ConsSorted(x, s);
      [x] + s
    else
      var rest := Insert(x, s[1..]);
      assert s == [s[0]] + s[1..];
      SortedTail(s);
      ConsSorted(s[0], rest);
      [s[0]] + rest
  }

  /** The tail of a sorted sequence is sorted, and its head scores at most the first entry. */
  lemma SortedTail(s: seq<ImportanceInput>)
    requires s != []
    ensures SortedDesc(s) ==> SortedDesc(s[1..])
    ensures SortedDesc(s) && |s| > 1 ==> s[0].score >= s[1].score
  {
    if SortedDesc(s) {
      forall i, j | 0 <= i < j < |s[1..]| ensures s[1..][i].score >= s[1..][j].score {
        assert s[1..][i] == s[i + 1] && s[1..][j] == s[j + 1];
      }
    }
  }

  /** Putting an entry in front of a sorted sequence keeps it sorted when it scores at least the head. */
  lemma ConsSorted(y: ImportanceInput, t: seq<ImportanceInput>)
    ensures SortedDesc(t) && (t != [] ==> y.score >= t[0].score) ==> SortedDesc([y] + t)
  {
    if SortedDesc(t) && (t != [] ==> y.score >= t[0].score) {
      forall i, j | 0 <= i < j < |[y] + t| ensures ([y] + t)[i].score >= ([y] + t)[j].score {
        if i == 0 {
          assert ([y] + t)[j] == t[j - 1];
        }
      }
    }
  }

  /** A stable sort by descending score (insertion sort). */
  function StableSortDesc(s: seq<ImportanceInput>): (r: seq<ImportanceInput>)
    ensures |r| == |s|
    ensures multiset(r) == multiset(s)
    ensures SortedDesc(r)
  {
    if s == [] then []
    else
      assert s == [s[0]] + s[1..];
      Insert(s[0], StableSortDesc(s[1..]))
  }

  lemma {:induction false} WithScoreAppend(a: seq<ImportanceInput>, b: seq<ImportanceInput>, v: real)
    ensures WithScore(a + b, v) == WithScore(a, v) + WithScore(b, v)
  {
    if a == [] {
      assert a + b == b;
    } else {
      assert (a + b)[0] == a[0] && (a + b)[1..] == a[1..] + b;
      WithScoreCons(a + b, v);
      WithScoreCons(a, v);
      WithScoreAppend(a[1..], b, v);
    }
  }

  /** Inserting `x` adds `x` at the front of its own score's entries only. */
  lemma {:induction false} WithScoreInsert(x: ImportanceInput, s: seq<ImportanceInput>, v: real)
    ensures WithScore(Insert(x, s), v)
         == (if x.score == v then [x] else []) + WithScore(s, v)
  {
    if s == [] || Compare(x, s[0]) <= 0.0 {
      WithScoreAppend([x], s, v);
    } else {
      var rest := Insert(x, s[1..]);
      assert Insert(x, s) == [s[0]] + rest;
      WithScoreUnit(s[0], v);
      WithScoreAppend([s[0]], rest, v);
      WithScoreInsert(x, s[1..], v);
      WithScoreCons(s, v);
    }
  }

  /** The insertion sort keeps every score's entries in input order. */
  lemma {:induction false} StableSortDescIsStable(s: seq<ImportanceInput>, v: real)
    ensures WithScore(StableSortDesc(s), v) == WithScore(s, v)
  {
    if s != [] {
      StableSortDescIsStable(s[1..], v);
      WithScoreInsert(s[0], StableSortDesc(s[1..]), v);
    }
  }

  /** The insertion sort meets the specification of a stable descending sort. */
  lemma StableSortDescMeetsSpec(s: seq<ImportanceInput>)
    ensures IsStableDescSort(s, StableSortDesc(s))
  {
    forall v ensures WithScore(StableSortDesc(s), v) == WithScore(s, v) {
      StableSortDescIsStable(s, v);
    }
  }

  /** The score group of a one-entry sequence. */
  lemma WithScoreUnit(y: ImportanceInput, v: real)
    ensures WithScore([y], v) == if y.score == v then [y] else []
  {
    assert [y][1..] == [];
  }

  /** The score groups of a non-empty sequence, unfolded once. */
  lemma WithScoreCons(s: seq<ImportanceInput>, v: real)
    requires s != []
    ensures WithScore(s, v) == (if s[0].score == v then [s[0]] else []) + WithScore(s[1..], v)
  {
  }

  /**
   * Two sorted sequences with the same score groups start with the same
   * entry: both heads carry the greatest score, and each is the first
   * entry of that score's group.
   */
  lemma SameHead(a: seq<ImportanceInput>, b: seq<ImportanceInput>)
    requires SortedDesc(a) && SortedDesc(b) && a != [] && b != []
    requires forall v :: WithScore(a, v) == WithScore(b, v)
    ensures a[0] == b[0]
  {
    var v, w := a[0].score, b[0].score;
    WithScoreMembership(a, v, a[0]);
    WithScoreMembership(b, v, a[0]);
    WithScoreMembership(b, w, b[0]);
    WithScoreMembership(a, w, b[0]);
    assert a[0] in WithScore(b, v);
    assert b[0] in WithScore(a, w);
    var i :| 0 <= i < |b| && b[i] == a[0];
    var j :| 0 <= j < |a| && a[j] == b[0];
    assert v <= w by { if i > 0 { assert b[0].score >= b[i].score; } }
    assert w <= v by { if j > 0 { assert a[0].score >= a[j].score; } }
    WithScoreCons(a, v);
    WithScoreCons(b, v);
    assert WithScore(a, v)[0] == a[0];
    assert WithScore(b, v)[0] == b[0];
  }

  /** Equal score groups with equal heads leave equal score groups of the tails. */
  lemma SameTailGroups(a: seq<ImportanceInput>, b: seq<ImportanceInput>, u: real)
    requires a != [] && b != [] && a[0] == b[0]
    requires WithScore(a, u) == WithScore(b, u)
    ensures WithScore(a[1..], u) == WithScore(b[1..], u)
  {
    WithScoreCons(a, u);
    WithScoreCons(b, u);
    var p := if a[0].score == u then [a[0]] else [];
    assert WithScore(a[1..], u) == (p + WithScore(a[1..], u))[|p|..];
    assert WithScore(b[1..], u) == (p + WithScore(b[1..], u))[|p|..];
  }

  /**
   * Two sequences ordered by non-increasing score that agree on the
   * entries of every score are the same sequence.
   */
  lemma {:induction false} SortedWithSameScoreGroupsEqual(a: seq<ImportanceInput>, b: seq<ImportanceInput>)
    requires SortedDesc(a) && SortedDesc(b)
    requires forall v :: WithScore(a, v) == WithScore(b, v)
    ensures a == b
  {
    if a != [] && b != [] {
      SameHead(a, b);
      forall u ensures WithScore(a[1..], u) == WithScore(b[1..], u) {
        SameTailGroups(a, b, u);
      }
      SortedWithSameScoreGroupsEqual(a[1..], b[1..]);
      assert a == [a[0]] + a[1..];
      assert b == [b[0]] + b[1..];
    } else if a != [] {
      WithScoreCons(a, a[0].score);
      assert false;
    } else if b != [] {
      WithScoreCons(b, b[0].score);
      assert false;
    }
  }

  /**
   * The stable descending sort of `input` is unique: a sequence meets the
   * specification exactly when it is what the insertion sort returns.
   */
  lemma StableDescSortUnique(input: seq<ImportanceInput>, output: seq<ImportanceInput>)
    ensures IsStableDescSort(input, output) <==> output == StableSortDesc(input)
  {
    StableSortDescMeetsSpec(input);
    if IsStableDescSort(input, output) {
      SortedWithSameScoreGroupsEqual(output, StableSortDesc(input));
    }
  }

  // ---------------------------------------------------------------------------
  // Minimum and maximum: `Math.min(...scores)`, `Math.max(...scores)`
  // ---------------------------------------------------------------------------

  /** `sorted.map((item) => item.score)` */
  function Scores(s: seq<ImportanceInput>): (r: seq<real>)
    ensures |r| == |s|
    ensures forall i :: 0 <= i < |s| ==> r[i] == s[i].score
  {
    seq(|s|, i requires 0 <= i < |s| => s[i].score)
  }

  /** The least element of a non-empty list of numbers. */
  function MinOf(xs: seq<real>): (m: real)
    requires |xs| > 0
    ensures m in xs
    ensures forall i :: 0 <= i < |xs| ==> m <= xs[i]
  {
    if |xs| == 1 then xs[0] else Min(xs[0], MinOf(xs[1..]))
  }

  /** The greatest element of a non-empty list of numbers. */
  function MaxOf(xs: seq<real>): (m: real)
    requires |xs| > 0
    ensures m in xs
    ensures forall i :: 0 <= i < |xs| ==> xs[i] <= m
  {
    if |xs| == 1 then xs[0] else Max(xs[0], MaxOf(xs[1..]))
  }

  // ---------------------------------------------------------------------------
  // Layout of one entry
  // ---------------------------------------------------------------------------

  /** `t = clamp(normalize(score, minScore, maxScore), 0, 1)` */
  function Weight(score: real, minScore: real, maxScore: real): (t: real)
    ensures 0.0 <= t <= 1.0
    ensures maxScore == minScore ==> t == 1.0
    ensures minScore < maxScore && score == maxScore ==> t == 1.0
    ensures minScore < maxScore && score == minScore ==> t == 0.0
    ensures (minScore < maxScore && minScore <= score <= maxScore)
              ==> minScore + t * (maxScore - minScore) == score
  {
    NormalizeInUnitWhenInRange(score, minScore, maxScore);
    NormalizeAtEndsWhenProper(minScore, maxScore);
    Clamp(Normalize(score, minScore, maxScore), 0.0, 1.0)
  }

  lemma NormalizeAtEndsWhenProper(minScore: real, maxScore: real)
    ensures minScore != maxScore ==> Normalize(minScore, minScore, maxScore) == 0.0
    ensures minScore != maxScore ==> Normalize(maxScore, minScore, maxScore) == 1.0
  {
    if minScore != maxScore {
      NormalizeAtEnds(minScore, maxScore);
    }
  }

  lemma NormalizeInUnitWhenInRange(score: real, minScore: real, maxScore: real)
    ensures (minScore < maxScore && minScore <= score <= maxScore)
              ==> 0.0 <= Normalize(score, minScore, maxScore) <= 1.0
  {
    if minScore < maxScore && minScore <= score <= maxScore {
      NormalizeInUnit(score, minScore, maxScore);
    }
  }

  /** On a proper scale, a higher in-range score gets a strictly higher weight. */
  lemma WeightStrictlyIncreasing(s1: real, s2: real, minScore: real, maxScore: real)
    requires minScore < maxScore && minScore <= s1 < s2 <= maxScore
    ensures Weight(s1, minScore, maxScore) < Weight(s2, minScore, maxScore)
  {
    NormalizeStrictlyIncreasing(s1, s2, minScore, maxScore);
  }

  /** `MIN_SIZE + t * (MAX_SIZE - MIN_SIZE)` */
  function SizeAt(t: real): (px: real)
    ensures 0.0 <= t <= 1.0 ==> MinSize <= px <= MaxSize
    ensures t == 0.0 ==> px == MinSize
    ensures t == 1.0 ==> px == MaxSize
  {
    MinSize + t * (MaxSize - MinSize)
  }

  /** `MIN_ALPHA + t * (MAX_ALPHA - MIN_ALPHA)` */
  function AlphaAt(t: real): (a: real)
    ensures 0.0 <= t <= 1.0 ==> MinAlpha <= a <= MaxAlpha
    ensures t == 0.0 ==> a == MinAlpha
    ensures t == 1.0 ==> a == MaxAlpha
  {
    MinAlpha + t * (MaxAlpha - MinAlpha)
  }

  /** Size and opacity both grow with the weight. */
  lemma SizeAndAlphaIncreasing(t1: real, t2: real)
    requires t1 <= t2
    ensures SizeAt(t1) <= SizeAt(t2)
    ensures AlphaAt(t1) <= AlphaAt(t2)
  {
    assert SizeAt(t2) - SizeAt(t1) == (t2 - t1) * (MaxSize - MinSize);
    assert AlphaAt(t2) - AlphaAt(t1) == (t2 - t1) * (MaxAlpha - MinAlpha);
  }

  /** `((index % 4) - 1.5) * 2`: -3, -1, 1, 3 degrees, over and over. */
  function Tilt(index: nat): (deg: real)
    ensures index % 4 == 0 ==> deg == -3.0
    ensures index % 4 == 1 ==> deg == -1.0
    ensures index % 4 == 2 ==> deg == 1.0
    ensures index % 4 == 3 ==> deg == 3.0
  {
    ((index % 4) as real - 1.5) * 2.0
  }

  /** The tilt repeats with period 4 and with no shorter period. */
  lemma TiltPeriod(index: nat)
    ensures Tilt(index + 4) == Tilt(index)
    ensures Tilt(index + 1) != Tilt(index)
    ensures Tilt(index + 2) != Tilt(index)
    ensures Tilt(index + 3) != Tilt(index)
  {
  }

  /** The layout of the entry at sorted position `index`. */
  function LayoutItem(item: ImportanceInput, index: nat, minScore: real, maxScore: real): (c: ImportanceCloudItem)
    ensures c.element == item.element && c.score == item.score
    ensures c.rank == index + 1
    ensures MinSize <= c.sizePx <= MaxSize
    ensures MinAlpha <= c.alpha <= MaxAlpha
    ensures c.tiltDeg == Tilt(index)
  {
    var t := Weight(item.score, minScore, maxScore);
    ImportanceCloudItem(item.element, item.score, index + 1, SizeAt(t), AlphaAt(t), Tilt(index))
  }

  // ---------------------------------------------------------------------------
  // buildImportanceCloud
  // ---------------------------------------------------------------------------

  /** The input fields of every laid-out entry. */
  function Inputs(out: seq<ImportanceCloudItem>): (r: seq<ImportanceInput>)
    ensures |r| == |out|
    ensures forall k :: 0 <= k < |out| ==>
              r[k].element == out[k].element && r[k].score == out[k].score
  {
    seq(|out|, k requires 0 <= k < |out| => ImportanceInput(out[k].element, out[k].score))
  }

  /**
   * Everything after the sort: an empty list gives an empty layout;
   * otherwise the minimum and maximum are taken over the list's scores and
   * each entry is laid out at its position.
   */
  function LayoutSorted(sorted: seq<ImportanceInput>): (out: seq<ImportanceCloudItem>)
    ensures |out| == |sorted|
    ensures Inputs(out) == sorted
    ensures forall k :: 0 <= k < |out| ==> out[k].rank == k + 1
    ensures forall k :: 0 <= k < |out| ==> MinSize <= out[k].sizePx <= MaxSize
    ensures forall k :: 0 <= k < |out| ==> MinAlpha <= out[k].alpha <= MaxAlpha
    ensures forall k :: 0 <= k < |out| ==> out[k].tiltDeg == Tilt(k)
  {
    if |sorted| == 0 then []
    else
      var scores := Scores(sorted);
      var minScore := MinOf(scores);
      var maxScore := MaxOf(scores);
      var out := seq(|sorted|, index requires 0 <= index < |sorted| =>
                       LayoutItem(sorted[index], index, minScore, maxScore));
      assert Inputs(out) == sorted;
      out
  }

  /** A list contained in another has its scores' extremes within the other's. */
  lemma ExtremesOfContained(a: seq<ImportanceInput>, b: seq<ImportanceInput>)
    requires |a| > 0 && |b| > 0 && multiset(a) <= multiset(b)
    ensures MinOf(Scores(b)) <= MinOf(Scores(a))
    ensures MaxOf(Scores(a)) <= MaxOf(Scores(b))
  {
    var sa, sb := Scores(a), Scores(b);
    var i :| 0 <= i < |sa| && sa[i] == MinOf(sa);
    var j :| 0 <= j < |sa| && sa[j] == MaxOf(sa);
    assert a[i] in multiset(b) && a[j] in multiset(b);
    var i' :| 0 <= i' < |b| && b[i'] == a[i];
    var j' :| 0 <= j' < |b| && b[j'] == a[j];
    assert sb[i'] == sa[i] && sb[j'] == sa[j];
  }

  /** Reordering a list changes neither the minimum nor the maximum of its scores. */
  lemma ExtremesOfPermutation(a: seq<ImportanceInput>, b: seq<ImportanceInput>)
    requires |a| > 0 && multiset(a) == multiset(b)
    ensures |b| == |a|
    ensures MinOf(Scores(a)) == MinOf(Scores(b))
    ensures MaxOf(Scores(a)) == MaxOf(Scores(b))
  {
    assert |b| == |multiset(b)| == |multiset(a)| == |a|;
    ExtremesOfContained(a, b);
    ExtremesOfContained(b, a);
  }

  /**
   * Laying out any reordering of `items` draws each entry at the size and
   * opacity of its score's weight between the minimum and the maximum of
   * `items` itself.
   */
  lemma LayoutOfPermutation(items: seq<ImportanceInput>, sorted: seq<ImportanceInput>)
    requires items != [] && multiset(sorted) == multiset(items)
    ensures |sorted| == |items|
    ensures forall k :: 0 <= k < |sorted| ==>
              && LayoutSorted(sorted)[k].sizePx == SizeAt(Weight(sorted[k].score, MinOf(Scores(items)), MaxOf(Scores(items))))
              && LayoutSorted(sorted)[k].alpha == AlphaAt(Weight(sorted[k].score, MinOf(Scores(items)), MaxOf(Scores(items))))
  {
    ExtremesOfPermutation(items, sorted);
    forall k | 0 <= k < |sorted|
      ensures && LayoutSorted(sorted)[k].sizePx == SizeAt(Weight(sorted[k].score, MinOf(Scores(items)), MaxOf(Scores(items))))
              && LayoutSorted(sorted)[k].alpha == AlphaAt(Weight(sorted[k].score, MinOf(Scores(items)), MaxOf(Scores(items))))
    {
      LayoutSortedAt(sorted, k);
    }
  }

  /** The entry at position `k` of the layout, with the list's own minimum and maximum. */
  lemma LayoutSortedAt(sorted: seq<ImportanceInput>, k: nat)
    requires k < |sorted|
    ensures LayoutSorted(sorted)[k]
         == LayoutItem(sorted[k], k, MinOf(Scores(sorted)), MaxOf(Scores(sorted)))
  {
  }

  /** The weighted-tag-cloud layout of `items`. */
  function BuildImportanceCloud(items: seq<ImportanceInput>): (out: seq<ImportanceCloudItem>)
    ensures |out| == |items|
    ensures items == [] ==> out == []
    ensures Inputs(out) == StableSortDesc(items)
    ensures multiset(Inputs(out)) == multiset(items)
    ensures forall i, j :: 0 <= i < j < |out| ==> out[i].score >= out[j].score
    ensures forall k :: 0 <= k < |out| ==> out[k].rank == k + 1
    ensures forall k :: 0 <= k < |out| ==> MinSize <= out[k].sizePx <= MaxSize
    ensures forall k :: 0 <= k < |out| ==> MinAlpha <= out[k].alpha <= MaxAlpha
    ensures forall k :: 0 <= k < |out| ==> out[k].tiltDeg == Tilt(k)
  {
    LayoutSorted(StableSortDesc(items))
  }

  /**
   * Each entry of the layout is drawn at the size and opacity of its
   * score's weight between the minimum and the maximum score of the input.
   */
  lemma BuildImportanceCloudSizes(items: seq<ImportanceInput>, k: nat)
    requires k < |items|
    ensures var out, lo, hi := BuildImportanceCloud(items), MinOf(Scores(items)), MaxOf(Scores(items));
            && out[k].sizePx == SizeAt(Weight(out[k].score, lo, hi))
            && out[k].alpha == AlphaAt(Weight(out[k].score, lo, hi))
  {
    var sorted := StableSortDesc(items);
    LayoutOfPermutation(items, sorted);
    assert Inputs(LayoutSorted(sorted))[k].score == sorted[k].score;
  }

  /**
   * The input fields of the layout are the stable descending sort of the
   * input, as the sorting primitive's contract demands.
   */
  lemma BuildImportanceCloudIsStableSort(items: seq<ImportanceInput>)
    ensures IsStableDescSort(items, Inputs(BuildImportanceCloud(items)))
  {
    StableSortDescMeetsSpec(items);
  }

  // ---------------------------------------------------------------------------
  // Properties of the weights in the layout
  // ---------------------------------------------------------------------------

  /** The first sorted entry carries the maximum, the last the minimum. */
  lemma SortedEnds(sorted: seq<ImportanceInput>)
    requires SortedDesc(sorted) && |sorted| > 0
    ensures MaxOf(Scores(sorted)) == sorted[0].score
    ensures MinOf(Scores(sorted)) == sorted[|sorted| - 1].score
  {
    var scores := Scores(sorted);
    assert scores[0] == sorted[0].score;
    assert scores[|sorted| - 1] == sorted[|sorted| - 1].score;
  }

  /** Every score lies between the minimum and the maximum of the scores. */
  lemma ScoresBetweenExtremes(sorted: seq<ImportanceInput>, k: nat)
    requires k < |sorted|
    ensures MinOf(Scores(sorted)) <= sorted[k].score <= MaxOf(Scores(sorted))
  {
    assert Scores(sorted)[k] == sorted[k].score;
  }

  /** A list of equal scores is laid out at the largest size and full opacity. */
  lemma LayoutAllEqual(sorted: seq<ImportanceInput>, v: real)
    requires forall i :: 0 <= i < |sorted| ==> sorted[i].score == v
    ensures forall k :: 0 <= k < |sorted| ==>
              LayoutSorted(sorted)[k].sizePx == MaxSize && LayoutSorted(sorted)[k].alpha == MaxAlpha
  {
    if |sorted| > 0 {
      var scores := Scores(sorted);
      var lo, hi := MinOf(scores), MaxOf(scores);
      assert lo == v && hi == v;
      forall k | 0 <= k < |sorted|
        ensures LayoutSorted(sorted)[k].sizePx == MaxSize && LayoutSorted(sorted)[k].alpha == MaxAlpha
      {
        LayoutSortedAt(sorted, k);
      }
    }
  }

  /**
   * In a sorted list whose first and last scores differ, the first entry
   * gets weight 1 and the last weight 0.
   */
  lemma LayoutExtremes(sorted: seq<ImportanceInput>)
    requires SortedDesc(sorted) && |sorted| > 0
    requires sorted[0].score != sorted[|sorted| - 1].score
    ensures var out, last := LayoutSorted(sorted), |sorted| - 1;
            && out[0].sizePx == MaxSize && out[0].alpha == MaxAlpha
            && out[last].sizePx == MinSize && out[last].alpha == MinAlpha
  {
    SortedEnds(sorted);
    LayoutSortedAt(sorted, 0);
    LayoutSortedAt(sorted, |sorted| - 1);
  }

  /** Down a sorted list's layout, sizes and opacities never grow. */
  lemma LayoutNonIncreasing(sorted: seq<ImportanceInput>, i: nat, j: nat)
    requires SortedDesc(sorted) && i < j < |sorted|
    ensures var out := LayoutSorted(sorted);
            && out[i].sizePx >= out[j].sizePx && out[i].alpha >= out[j].alpha
            && (out[i].score == out[j].score ==>
                  out[i].sizePx == out[j].sizePx && out[i].alpha == out[j].alpha)
  {
    var scores := Scores(sorted);
    var lo, hi := MinOf(scores), MaxOf(scores);
    LayoutSortedAt(sorted, i);
    LayoutSortedAt(sorted, j);
    ScoresBetweenExtremes(sorted, i);
    ScoresBetweenExtremes(sorted, j);
    var ti, tj := Weight(sorted[i].score, lo, hi), Weight(sorted[j].score, lo, hi);
    if lo < hi && sorted[j].score < sorted[i].score {
      WeightStrictlyIncreasing(sorted[j].score, sorted[i].score, lo, hi);
    }
    SizeAndAlphaIncreasing(tj, ti);
  }

  /**
   * When every score is the same, the layout keeps the input order and
   * every entry is drawn at the largest size and full opacity.
   */
  lemma AllEqualScoresGetMaximum(items: seq<ImportanceInput>, v: real)
    requires forall i :: 0 <= i < |items| ==> items[i].score == v
    ensures var out := BuildImportanceCloud(items);
            && Inputs(out) == items
            && forall k :: 0 <= k < |out| ==> out[k].sizePx == MaxSize && out[k].alpha == MaxAlpha
  {
    assert SortedDesc(items);
    assert IsStableDescSort(items, items);
    StableDescSortUnique(items, items);
    LayoutAllEqual(items, v);
  }

  /** Every entry of a list lies between the last and the first score of a sorted permutation of it. */
  lemma BetweenEnds(items: seq<ImportanceInput>, sorted: seq<ImportanceInput>, i: nat)
    requires i < |items| && SortedDesc(sorted) && multiset(sorted) == multiset(items)
    ensures |sorted| > 0 && sorted[|sorted| - 1].score <= items[i].score <= sorted[0].score
  {
    assert items[i] in multiset(items);
    assert items[i] in sorted;
    var k :| 0 <= k < |sorted| && sorted[k] == items[i];
    if 0 < k {
      assert sorted[0].score >= sorted[k].score;
    }
    if k < |sorted| - 1 {
      assert sorted[k].score >= sorted[|sorted| - 1].score;
    }
  }

  /**
   * When the scores are not all equal, the first entry of the layout (a
   * maximum score) gets weight 1 and the last (a minimum score) weight 0.
   */
  lemma ExtremesGetEndpoints(items: seq<ImportanceInput>, i: nat, j: nat)
    requires i < |items| && j < |items| && items[i].score != items[j].score
    ensures var out, last := BuildImportanceCloud(items), |items| - 1;
            && out[0].sizePx == MaxSize && out[0].alpha == MaxAlpha
            && out[last].sizePx == MinSize && out[last].alpha == MinAlpha
  {
    var sorted := StableSortDesc(items);
    BetweenEnds(items, sorted, i);
    BetweenEnds(items, sorted, j);
    SortedEnds(sorted);
    LayoutExtremes(sorted);
  }

  /**
   * Down the layout sizes and opacities never grow, and two entries of
   * equal score are drawn alike.
   */
  lemma SizeAndAlphaNonIncreasing(items: seq<ImportanceInput>, i: nat, j: nat)
    requires i < j < |items|
    ensures var out := BuildImportanceCloud(items);
            && out[i].sizePx >= out[j].sizePx && out[i].alpha >= out[j].alpha
            && (out[i].score == out[j].score ==>
                  out[i].sizePx == out[j].sizePx && out[i].alpha == out[j].alpha)
  {
    LayoutNonIncreasing(StableSortDesc(items), i, j);
  }

  // ---------------------------------------------------------------------------
  // Worked examples
  // ---------------------------------------------------------------------------

  /** No entries, no layout. */
  lemma EmptyInputExample()
    ensures BuildImportanceCloud([]) == []
  {
  }

  /** A single entry is drawn at rank 1, full size and opacity, tilted -3 degrees. */
  lemma SingleItemExample(x: ImportanceInput)
    ensures BuildImportanceCloud([x])
         == [ImportanceCloudItem(x.element, x.score, 1, MaxSize, MaxAlpha, -3.0)]
  {
    AllEqualScoresGetMaximum([x], x.score);
  }

  /** Three equal scores are already in stable descending order. */
  lemma EqualScoresSortExample(items: seq<ImportanceInput>)
    requires items == [ImportanceInput("a", 5.0), ImportanceInput("b", 5.0), ImportanceInput("c", 5.0)]
    ensures StableSortDesc(items) == items
  {
    assert SortedDesc(items);
    StableDescSortUnique(items, items);
  }

  /** Three equal scores are all drawn at full size and opacity, tilted -3, -1 and 1 degrees. */
  lemma EqualScoresLayoutExample(sorted: seq<ImportanceInput>)
    requires sorted == [ImportanceInput("a", 5.0), ImportanceInput("b", 5.0), ImportanceInput("c", 5.0)]
    ensures LayoutSorted(sorted)
         == [ ImportanceCloudItem("a", 5.0, 1, 54.0, 1.0, -3.0),
              ImportanceCloudItem("b", 5.0, 2, 54.0, 1.0, -1.0),
              ImportanceCloudItem("c", 5.0, 3, 54.0, 1.0, 1.0) ]
  {
    LayoutAllEqual(sorted, 5.0);
    var out := LayoutSorted(sorted);
    assert Inputs(out)[0] == sorted[0] && Inputs(out)[1] == sorted[1] && Inputs(out)[2] == sorted[2];
    assert out[0] == ImportanceCloudItem("a", 5.0, 1, 54.0, 1.0, Tilt(0));
    assert out[1] == ImportanceCloudItem("b", 5.0, 2, 54.0, 1.0, Tilt(1));
    assert out[2] == ImportanceCloudItem("c", 5.0, 3, 54.0, 1.0, Tilt(2));
  }

  /** Three equal scores keep their order, ranks 1..3, all at full size. */
  lemma EqualScoresExample(items: seq<ImportanceInput>)
    requires items == [ImportanceInput("a", 5.0), ImportanceInput("b", 5.0), ImportanceInput("c", 5.0)]
    ensures BuildImportanceCloud(items)
         == [ ImportanceCloudItem("a", 5.0, 1, 54.0, 1.0, -3.0),
              ImportanceCloudItem("b", 5.0, 2, 54.0, 1.0, -1.0),
              ImportanceCloudItem("c", 5.0, 3, 54.0, 1.0, 1.0) ]
  {
    EqualScoresSortExample(items);
    EqualScoresLayoutExample(items);
  }

  /** Sorting scores 1, 10, 5 moves the first entry to the end. */
  lemma SortThreeExample(items: seq<ImportanceInput>)
    requires items == [ImportanceInput("c", 1.0), ImportanceInput("a", 10.0), ImportanceInput("b", 5.0)]
    ensures StableSortDesc(items) == [items[1], items[2], items[0]]
  {
    var a, b, c := items[1], items[2], items[0];
    assert items[1..] == [a, b] && items[1..][1..] == [b] && [b][1..] == [];
    assert StableSortDesc([b]) == [b];
    assert Insert(a, [b]) == [a, b];
    assert StableSortDesc([a, b]) == [a, b];
    assert Insert(c, [b]) == [b, c];
    assert Insert(c, [a, b]) == [a, b, c];
  }

  /** Scores 10, 5, 1 in that order get weights 1, 4/9 and 0. */
  lemma LayoutThreeExample(sorted: seq<ImportanceInput>)
    requires sorted == [ImportanceInput("a", 10.0), ImportanceInput("b", 5.0), ImportanceInput("c", 1.0)]
    ensures LayoutSorted(sorted)
         == [ ImportanceCloudItem("a", 10.0, 1, 54.0, 1.0, -3.0),
              ImportanceCloudItem("b", 5.0, 2, 296.0 / 9.0, 13.0 / 18.0, -1.0),
              ImportanceCloudItem("c", 1.0, 3, 16.0, 0.5, 1.0) ]
  {
    assert SortedDesc(sorted);
    SortedEnds(sorted);
    var lo, hi := MinOf(Scores(sorted)), MaxOf(Scores(sorted));
    assert lo == 1.0 && hi == 10.0;
    assert Weight(10.0, lo, hi) == 1.0;
    assert Weight(5.0, lo, hi) == 4.0 / 9.0;
    assert Weight(1.0, lo, hi) == 0.0;
    var out := LayoutSorted(sorted);
    LayoutSortedAt(sorted, 0);
    assert out[0] == ImportanceCloudItem("a", 10.0, 1, 54.0, 1.0, -3.0);
    LayoutSortedAt(sorted, 1);
    assert out[1] == ImportanceCloudItem("b", 5.0, 2, 296.0 / 9.0, 13.0 / 18.0, -1.0);
    LayoutSortedAt(sorted, 2);
    assert out[2] == ImportanceCloudItem("c", 1.0, 3, 16.0, 0.5, 1.0);
  }

  /** Scores 1, 10, 5 are laid out as 10, 5, 1 with weights 1, 4/9 and 0. */
  lemma ThreeScoresExample(items: seq<ImportanceInput>)
    requires items == [ImportanceInput("c", 1.0), ImportanceInput("a", 10.0), ImportanceInput("b", 5.0)]
    ensures BuildImportanceCloud(items)
         == [ ImportanceCloudItem("a", 10.0, 1, 54.0, 1.0, -3.0),
              ImportanceCloudItem("b", 5.0, 2, 296.0 / 9.0, 13.0 / 18.0, -1.0),
              ImportanceCloudItem("c", 1.0, 3, 16.0, 0.5, 1.0) ]
  {
    SortThreeExample(items);
    LayoutThreeExample([items[1], items[2], items[0]]);
  }
}
