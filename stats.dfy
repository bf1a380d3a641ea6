/**
 * Filter (version 0.3): statistics over the most recent `sampleSize`
 * readings, kept newest first in `_values` (values[0] is the latest).
 *
 * All arithmetic is on C `int`/`long`, so `/` and `%` truncate toward zero;
 * TruncDiv and TruncMod model them. Integers here are unbounded.
 */
module Stats {
  import opened Ordering
  import Queue

  // ---------------------------------------------------------------------
  // C integer division

  /** C's `a / b` for a positive divisor: the quotient rounded toward zero. */
  function TruncDiv(a: int, b: int): (q: int)
    requires b > 0
    ensures a >= 0 ==> 0 <= q && q * b <= a < q * b + b
    ensures a < 0 ==> q <= 0 && q * b - b < a <= q * b
  {
    if a >= 0 then
      FloorDivBounds(a, b);
      a / b
    else
      FloorDivBounds(-a, b);
      NegateProduct((-a) / b, b);
      -((-a) / b)
  }

  lemma FloorDivBounds(a: int, b: int)
    requires a >= 0 && b > 0
    ensures 0 <= a / b && (a / b) * b <= a < (a / b) * b + b
  {
    assert a == (a / b) * b + a % b;
  }

  lemma NegateProduct(p: int, b: int)
    ensures (-p) * b == -(p * b)
  {
  }

  /** C's `a % b` for a positive divisor: it takes the sign of `a`. */
  function TruncMod(a: int, b: int): (r: int)
    requires b > 0
    ensures TruncDiv(a, b) * b + r == a
    ensures a >= 0 ==> 0 <= r < b
    ensures a < 0 ==> -b < r <= 0
  {
    a - TruncDiv(a, b) * b
  }

  lemma MulMonotone(x: int, y: int, b: int)
    requires b > 0 && x <= y
    ensures x * b <= y * b
    ensures (x + 1) * b == x * b + b
  {
  }

  /** Truncating division by b maps [b*lo, b*hi] into [lo, hi]. */
  lemma TruncDivBetween(a: int, b: int, lo: int, hi: int)
    requires b > 0 && lo * b <= a <= hi * b
    ensures lo <= TruncDiv(a, b) <= hi
  {
    var q := TruncDiv(a, b);
    if q > hi {
      MulMonotone(hi + 1, q, b);
      MulMonotone(hi, hi, b);
      assert false;
    }
    if q < lo {
      MulMonotone(q + 1, lo, b);
      MulMonotone(q, q, b);
      assert false;
    }
  }

  // ---------------------------------------------------------------------
  // Specification of the statistics

  /** The sum of the values, accumulated from the front as Filter::mean does. */
  function Sum(s: seq<int>): (r: int)
    ensures (forall i :: 0 <= i < |s| ==> 0 <= s[i]) ==> 0 <= r
    ensures (forall i :: 0 <= i < |s| ==> s[i] <= 0) ==> r <= 0
  {
    if s == [] then 0 else Sum(s[..|s| - 1]) + s[|s| - 1]
  }

  /** Values between lo and hi sum to between |s|*lo and |s|*hi. */
  lemma {:induction false} SumBounds(s: seq<int>, lo: int, hi: int)
    requires forall i :: 0 <= i < |s| ==> lo <= s[i] <= hi
    ensures |s| * lo <= Sum(s) <= |s| * hi
  {
    if s != [] {
      var n := |s|;
      SumBounds(s[..n - 1], lo, hi);
      assert Sum(s) == Sum(s[..n - 1]) + s[n - 1];
      assert lo <= s[n - 1] <= hi;
      MulSucc(n - 1, lo);
      MulSucc(n - 1, hi);
    }
  }

  lemma MulSucc(x: int, b: int)
    ensures x * b + b == (x + 1) * b
  {
  }

  /**
   * Filter::mean: the sum scaled by 100, divided by the count (truncating),
   * then divided by 100, adding one when the two dropped decimals are 50 or
   * more.
   */
  function MeanOf(s: seq<int>): (r: int)
    requires |s| > 0
    ensures Sum(s) >= 0 ==> r >= 0
    ensures Sum(s) < 0 ==> r <= 0
  {
    var q := TruncDiv(100 * Sum(s), |s|);
    if TruncMod(q, 100) < 50 then TruncDiv(q, 100) else TruncDiv(q, 100) + 1
  }

  /** The mean lies within any bounds of the values: between their minimum and maximum. */
  lemma MeanBounded(s: seq<int>, lo: int, hi: int)
    requires |s| > 0
    requires forall i :: 0 <= i < |s| ==> lo <= s[i] <= hi
    ensures lo <= MeanOf(s) <= hi
  {
    var n := |s|;
    SumBounds(s, lo, hi);
    ScaledBounds(n, lo, hi, Sum(s));
    TruncDivBetween(100 * Sum(s), n, 100 * lo, 100 * hi);
    RoundedBetween(TruncDiv(100 * Sum(s), n), lo, hi);
  }

  lemma ScaledBounds(n: int, lo: int, hi: int, x: int)
    requires n * lo <= x <= n * hi
    ensures (100 * lo) * n <= 100 * x <= (100 * hi) * n
  {
    assert (100 * lo) * n == 100 * (n * lo);
    assert (100 * hi) * n == 100 * (n * hi);
  }

  /** Rounding a scaled value between 100*lo and 100*hi back down stays in [lo, hi]. */
  lemma RoundedBetween(q: int, lo: int, hi: int)
    requires lo * 100 <= q <= hi * 100
    ensures var d := TruncDiv(q, 100);
      lo <= (if TruncMod(q, 100) < 50 then d else d + 1) <= hi
  {
    TruncDivBetween(q, 100, lo, hi);
  }

  /**
   * For a non-negative sum, the mean is the scaled quotient q (the exact
   * mean times 100, truncated) rounded to the nearest multiple of 100, a
   * remainder of exactly 50 rounding up.
   */
  lemma MeanRoundsHalfUp(s: seq<int>)
    requires |s| > 0 && Sum(s) >= 0
    ensures var q := TruncDiv(100 * Sum(s), |s|);
      q * |s| <= 100 * Sum(s) < q * |s| + |s| &&
      100 * MeanOf(s) - 50 <= q < 100 * MeanOf(s) + 50
  {
  }

  /**
   * For a negative sum the remainder is never 50 or more, so the mean is
   * truncated toward zero rather than rounded.
   */
  lemma MeanTruncatesNegative(s: seq<int>)
    requires |s| > 0 && Sum(s) < 0
    ensures MeanOf(s) == TruncDiv(TruncDiv(100 * Sum(s), |s|), 100)
    ensures MeanOf(s) <= 0
  {
  }

  /** Readings -1, -2, -2 (exact mean -1.67) give -1, not the nearest -2. */
  lemma MeanOfNegativeExample()
    ensures MeanOf([-2, -2, -1]) == -1
  {
    var s := [-2, -2, -1];
    assert s[..2] == [-2, -2] && s[..2][..1] == [-2] && s[..2][..1][..0] == [];
    assert Sum(s[..2][..1]) == -2;
    assert Sum(s[..2]) == -4;
    assert Sum(s) == -5;
  }

  /**
   * The middle of an ascending snapshot, with the middle pair the code's
   * comments describe: the middle value for an odd count, the truncated
   * average of the two middle values for an even count.
   */
  function MiddleOf(t: seq<int>): (r: int)
    requires |t| > 0
    ensures |t| % 2 == 1 ==> r in t
    ensures |t| % 2 == 0 ==> Between(r, t[|t| / 2 - 1], t[|t| / 2])
  {
    var m := |t| / 2;
    if |t| % 2 == 1 then t[m] else PairAverage(t[m - 1], t[m])
  }

  /** r lies between a and b, in whichever order they come. */
  predicate Between(r: int, a: int, b: int) {
    (a <= r <= b) || (b <= r <= a)
  }

  /** `(a + b) / 2` in C: the truncated average, which lies between the two. */
  function PairAverage(a: int, b: int): (r: int)
    ensures Between(r, a, b)
  {
    if a <= b then
      TruncDivBetween(a + b, 2, a, b);
      TruncDiv(a + b, 2)
    else
      TruncDivBetween(a + b, 2, b, a);
      TruncDiv(a + b, 2)
  }

  /**
   * Filter::median: the middle of the sorted snapshot of the readings. For
   * an odd count it is one of the readings.
   */
  function MedianOf(s: seq<int>): (r: int)
    requires |s| > 0
    ensures |s| % 2 == 1 ==> r in s
  {
    var t := Snapshot(s);
    var r := MiddleOf(t);
    assert |s| % 2 == 1 ==> r in multiset(t);
    r
  }

  /**
   * In an ascending snapshot the middle lies between the two middle values
   * (is the middle value itself for an odd count), so the first half of the
   * snapshot is at most it and the second half at least it.
   */
  lemma MiddleSplits(t: seq<int>)
    requires |t| > 0 && Sorted(t)
    ensures var m := |t| / 2;
      (|t| % 2 == 1 ==> MiddleOf(t) == t[m]) &&
      (|t| % 2 == 0 ==> t[m - 1] <= MiddleOf(t) <= t[m]) &&
      (forall i :: 0 <= i < m ==> t[i] <= MiddleOf(t)) &&
      (forall i :: m <= i < |t| ==> MiddleOf(t) <= t[i])
  {
    var m := |t| / 2;
    var mid := MiddleOf(t);
    if |t| % 2 == 0 {
      assert t[m - 1] <= t[m];
      forall i | 0 <= i < m ensures t[i] <= mid {
        assert t[i] <= t[m - 1];
      }
    } else {
      forall i | 0 <= i < m ensures t[i] <= mid {
        assert t[i] <= t[m];
      }
    }
    forall i | m <= i < |t| ensures mid <= t[i] {
      assert t[m] <= t[i];
    }
  }

  /**
   * At least half of the readings are at most the median and at least half
   * are at least it: the median splits the sorted snapshot of the readings.
   */
  lemma MedianSplits(s: seq<int>)
    requires |s| > 0
    ensures var t, m := Snapshot(s), |s| / 2;
      (forall i :: 0 <= i < m ==> t[i] <= MedianOf(s)) &&
      (forall i :: m <= i < |s| ==> MedianOf(s) <= t[i])
  {
    MiddleSplits(Snapshot(s));
  }

  /** The median lies within any bounds of the readings. */
  lemma MedianBounded(s: seq<int>, lo: int, hi: int)
    requires |s| > 0
    requires forall i :: 0 <= i < |s| ==> lo <= s[i] <= hi
    ensures lo <= MedianOf(s) <= hi
  {
    var t, m := Snapshot(s), |s| / 2;
    forall i | 0 <= i < |t| ensures lo <= t[i] <= hi {
      assert t[i] in multiset(s);
    }
  }

  /** The median depends only on which readings are stored, not on their order. */
  lemma MedianIgnoresOrder(s: seq<int>, u: seq<int>)
    requires |s| > 0 && multiset(s) == multiset(u)
    ensures |u| == |s| && MedianOf(s) == MedianOf(u)
  {
    assert |s| == |multiset(s)| == |multiset(u)| == |u|;
    SnapshotIgnoresOrder(s, u);
  }

  /**
   * Filter::median as written (line 91): for an even count it averages the
   * snapshot values at count/2 and count/2 + 1, one place too far right.
   * For a count of 2 the second index is past the snapshot, so that case is
   * excluded here.
   */
  function MedianAsWritten(t: seq<int>): (r: int)
    requires |t| > 0 && (|t| % 2 == 1 || |t| / 2 + 1 < |t|)
    ensures |t| % 2 == 1 ==> r in t
    ensures |t| % 2 == 0 ==> Between(r, t[|t| / 2], t[|t| / 2 + 1])
  {
    var m := |t| / 2;
    if |t| % 2 == 1 then t[m] else PairAverage(t[m], t[m + 1])
  }

  /**
   * Readings 4, 3, 2, 1 sort to 1, 2, 3, 4: the code as written answers 3,
   * the middle pair gives 2.
   */
  lemma MedianAsWrittenOffByOne(s: seq<int>)
    requires s == [4, 3, 2, 1]
    ensures Snapshot(s) == [1, 2, 3, 4]
    ensures MedianAsWritten(Snapshot(s)) == 3
    ensures MedianOf(s) == 2
  {
    var t := [1, 2, 3, 4];
    assert Sorted(t) && multiset(s) == multiset(t);
    SnapshotIs(s, t);
    MiddlesOfFourSorted(t);
  }

  /** On 1, 2, 3, 4 the pair the code as written averages is 3, 4; the middle pair is 2, 3. */
  lemma MiddlesOfFourSorted(t: seq<int>)
    requires t == [1, 2, 3, 4]
    ensures MedianAsWritten(t) == 3
    ensures MiddleOf(t) == 2
  {
    assert t[2] + t[3] == 7 && t[1] + t[2] == 5;
  }

  /** Worked example: readings 10, 20, 20, 30, 40 (sum 120) have mean 24. */
  lemma FiveReadingsMean()
    ensures MeanOf([40, 30, 20, 20, 10]) == 24
  {
    var s := [40, 30, 20, 20, 10];
    assert s[..4] == [40, 30, 20, 20] && s[..4][..3] == [40, 30, 20];
    assert s[..4][..3][..2] == [40, 30] && s[..4][..3][..2][..1] == [40];
    assert s[..4][..3][..2][..1][..0] == [];
    assert Sum([40]) == 40;
    assert Sum([40, 30]) == 70;
    assert Sum([40, 30, 20]) == 90;
    assert Sum([40, 30, 20, 20]) == 110;
    assert Sum(s) == 120;
  }

  /** The same readings sort to 10, 20, 20, 30, 40: the median is 20. */
  lemma FiveReadingsMedian(s: seq<int>)
    requires s == [40, 30, 20, 20, 10]
    ensures MedianOf(s) == 20
  {
    var t := [10, 20, 20, 30, 40];
    assert multiset(s) == multiset{10, 20, 20, 30, 40} == multiset(t);
    assert Sorted(t);
    SnapshotIs(s, t);
    assert MiddleOf(t) == t[2];
  }

  // ---------------------------------------------------------------------
  // The newest-first window and the oldest-first queue

  /**
   * The stored readings after prepend(v) on a window `w` of capacity n:
   * v first, then the old readings shifted one place, the oldest dropped
   * once the window is full.
   */
  function Prepended(w: seq<int>, n: int, v: int): (r: seq<int>)
    requires 1 <= n && |w| <= n
    ensures |r| == if |w| < n then |w| + 1 else n
    ensures r[0] == v
    ensures forall i :: 1 <= i < |r| ==> r[i] == w[i - 1]
  {
    ([v] + w)[..if |w| < n then |w| + 1 else n]
  }

  /** `s` back to front. */
  function Reverse(s: seq<int>): (r: seq<int>)
    ensures |r| == |s|
    ensures forall i :: 0 <= i < |s| ==> r[i] == s[|s| - 1 - i]
  {
    if s == [] then [] else [s[|s| - 1]] + Reverse(s[..|s| - 1])
  }

  lemma ReverseCons(v: int, x: seq<int>)
    ensures Reverse([v] + x) == Reverse(x) + [v]
  {
    assert |Reverse([v] + x)| == |Reverse(x) + [v]|;
  }

  lemma ReverseDropLast(w: seq<int>)
    requires w != []
    ensures Reverse(w[..|w| - 1]) == Reverse(w)[1..]
  {
  }

  /**
   * The two components orient their buffers oppositely, but they keep the
   * same window: read back to front, prepend on Filter is write on a
   * FilterQueue of the same capacity.
   */
  lemma PrependMirrorsWrite(w: seq<int>, n: int, v: int)
    requires 1 <= n && |w| <= n
    ensures Queue.WriteDefined(|w|, n)
    ensures Reverse(Prepended(w, n, v)) == Queue.Written(Reverse(w), n, v)
  {
    if |w| < n {
      MirrorWithRoom(w, n, v);
      Queue.WrittenWithRoom(Reverse(w), n, v);
    } else {
      MirrorWhenFull(w, n, v);
      Queue.WrittenWhenFull(Reverse(w), n, v);
    }
  }

  lemma MirrorWithRoom(w: seq<int>, n: int, v: int)
    requires 1 <= n && |w| < n
    ensures Reverse(Prepended(w, n, v)) == Reverse(w) + [v]
  {
    assert Prepended(w, n, v) == [v] + w;
    ReverseCons(v, w);
  }

  lemma MirrorWhenFull(w: seq<int>, n: int, v: int)
    requires 1 <= n && |w| == n
    ensures Reverse(Prepended(w, n, v)) == Reverse(w)[1..] + [v]
  {
    assert Prepended(w, n, v) == [v] + w[..n - 1];
    ReverseCons(v, w[..n - 1]);
    ReverseDropLast(w);
  }

  // ---------------------------------------------------------------------
  // The Filter object

  class Filter {
    /** `_sampleSize`: how many readings the statistics use. */
    const sampleSize: nat
    /** `_values`, newest first. */
    var values: array<int>
    /** `_valuesCount` */
    var valuesCount: nat
    /** `_medianValues`: scratch space for the sorted snapshot. */
    var medianValues: array<int>
    /** `_medianValuesCount` */
    var medianValuesCount: nat
    /** The last result of each statistic, as the source keeps it. */
    var mean: int
    var median: int
    var maximum: int
    var minimum: int

    ghost predicate Valid()
      reads this
    {
      values.Length == sampleSize && medianValues.Length == sampleSize &&
      values != medianValues &&
      valuesCount <= sampleSize && medianValuesCount <= sampleSize
    }

    /** The readings in use, newest first. */
    ghost function Stored(): seq<int>
      reads this, values
      requires Valid()
    {
      values[..valuesCount]
    }

    /** Filter(sampleSize): two arrays of sampleSize slots, nothing stored yet. */
    constructor (sampleSize: nat)
      ensures Valid() && this.sampleSize == sampleSize
      ensures valuesCount == 0 && medianValuesCount == 0 && Stored() == []
      ensures values[..] == seq(sampleSize, _ => 0)
      ensures fresh(values) && fresh(medianValues)
    {
      this.sampleSize := sampleSize;
      values := new int[sampleSize](_ => 0);
      medianValues := new int[sampleSize](_ => 0);
      valuesCount, medianValuesCount := 0, 0;
    }

    /**
     * prepend(v): shift every slot one place toward the end (the last slot
     * is lost), put v in slot 0 and count it, up to sampleSize.
     */
    method Prepend(v: int)
      requires Valid() && sampleSize >= 1
      modifies values, this`valuesCount
      ensures Valid()
      ensures values[..] == [v] + old(values[..sampleSize - 1])
      ensures valuesCount == if old(valuesCount) < sampleSize then old(valuesCount) + 1 else old(valuesCount)
      ensures Stored() == Prepended(old(Stored()), sampleSize, v)
    {
      var i := values.Length - 1;
      while i > 0
        invariant 0 <= i < values.Length && valuesCount == old(valuesCount)
        invariant forall k :: 0 <= k <= i ==> values[k] == old(values[k])
        invariant forall k :: i < k < values.Length ==> values[k] == old(values[k - 1])
      {
        values[i] := values[i - 1];
        i := i - 1;
      }
      values[0] := v;
      if valuesCount < sampleSize {
        valuesCount := valuesCount + 1;
      }
      assert values[..] == [v] + old(values[..sampleSize - 1]);
    }

    /**
     * prepend(v) as written (line 41): the shift starts at
     * sizeof(_values)/sizeof(int) - 1, and `_values` is an `int *`, whose
     * size on the AVR boards equals that of an `int`; the loop therefore
     * never runs and only slot 0 is overwritten.
     */
    method PrependAsWritten(v: int)
      requires Valid() && sampleSize >= 1
      modifies values, this`valuesCount
      ensures Valid()
      ensures values[..] == old(values[..])[0 := v]
      ensures valuesCount == if old(valuesCount) < sampleSize then old(valuesCount) + 1 else old(valuesCount)
    {
      values[0] := v;
      if valuesCount < sampleSize {
        valuesCount := valuesCount + 1;
      }
    }

    /**
     * mean(): scale each reading by 100, sum, divide by the count and round
     * back (see MeanOf). The count must be positive: the source divides by it.
     */
    method Mean() returns (r: int)
      requires Valid() && valuesCount > 0
      modifies this`mean
      ensures Valid() && Stored() == old(Stored())
      ensures mean == r && r == MeanOf(Stored())
    {
      var sum := 0;
      var i := 0;
      while i < valuesCount
        invariant 0 <= i <= valuesCount
        invariant sum == 100 * Sum(values[..i])
      {
        assert values[..i + 1][..i] == values[..i];
        sum := sum + values[i] * 100;
        i := i + 1;
      }
      var q := TruncDiv(sum, valuesCount);
      if TruncMod(q, 100) < 50 {
        mean := TruncDiv(q, 100);
      } else {
        mean := TruncDiv(q, 100) + 1;
      }
      r := mean;
    }

    /**
     * _orderedInsert(v), written as the sorted insertion its callers need:
     * find the first snapshot value strictly greater than v, shift it and
     * the rest one slot right, and put v in the gap.
     */
    method OrderedInsert(v: int)
      requires Valid() && medianValuesCount < sampleSize
      modifies medianValues, this`medianValuesCount
      ensures Valid()
      ensures medianValuesCount == old(medianValuesCount) + 1
      ensures medianValues[..medianValuesCount] == Inserted(old(medianValues[..medianValuesCount]), v)
    {
      var n := medianValuesCount;
      ghost var s := medianValues[..n];
      var k := FindSlot(v);
      OpenGap(k);
      medianValues[k] := v;
      medianValuesCount := n + 1;
      ghost var r := s[..k] + [v] + s[k..];
      assert forall m :: 0 <= m < n + 1 ==> medianValues[m] == r[m];
      assert medianValues[..n + 1] == r;
    }

    /** The search half of the insertion: the first snapshot slot holding a value greater than v. */
    method FindSlot(v: int) returns (k: nat)
      requires Valid()
      ensures k == InsertionPoint(medianValues[..medianValuesCount], v)
    {
      k := 0;
      while k < medianValuesCount && !(v < medianValues[k])
        invariant 0 <= k <= medianValuesCount
        invariant forall j :: 0 <= j < k ==> medianValues[j] <= v
      {
        k := k + 1;
      }
      InsertionPointUnique(medianValues[..medianValuesCount], v, k);
    }

    /** Move the snapshot slots from k on one place right, last first. */
    method OpenGap(k: nat)
      requires Valid() && k <= medianValuesCount < sampleSize
      modifies medianValues
      ensures forall m :: 0 <= m < k ==> medianValues[m] == old(medianValues[m])
      ensures forall m :: k < m <= medianValuesCount ==> medianValues[m] == old(medianValues[m - 1])
    {
      var j := medianValuesCount;
      while j > k
        invariant k <= j <= medianValuesCount
        invariant forall m :: 0 <= m < j ==> medianValues[m] == old(medianValues[m])
        invariant forall m :: j < m <= medianValuesCount ==> medianValues[m] == old(medianValues[m - 1])
      {
        medianValues[j] := medianValues[j - 1];
        j := j - 1;
      }
    }

    /**
     * The first half of median(): reset `_medianValuesCount` and insert the
     * stored readings into `_medianValues` one at a time, `_values[0]` first.
     */
    method FillSnapshot()
      requires Valid()
      modifies this`medianValuesCount, medianValues
      ensures Valid()
      ensures medianValuesCount == valuesCount
      ensures medianValues[..medianValuesCount] == Snapshot(Stored())
    {
      medianValuesCount := 0;
      var i := 0;
      while i < valuesCount
        invariant Valid() && 0 <= i <= valuesCount
        invariant medianValuesCount == i
        invariant medianValues[..i] == Snapshot(values[..i])
      {
        SnapshotStep(values[..], i);
        assert values[..][..i] == values[..i] && values[..][..i + 1] == values[..i + 1];
        OrderedInsert(values[i]);
        i := i + 1;
      }
    }

    /**
     * The second half of median(): the middle slot of the snapshot when the
     * count is odd, otherwise the truncated average of the two middle slots.
     */
    method Middle() returns (r: int)
      requires Valid() && medianValuesCount > 0
      ensures r == MiddleOf(medianValues[..medianValuesCount])
    {
      ghost var t := medianValues[..medianValuesCount];
      var midpoint := medianValuesCount / 2;
      if medianValuesCount % 2 == 1 {
        r := medianValues[midpoint];
        assert r == t[midpoint];
      } else {
        var lower, upper := medianValues[midpoint - 1], medianValues[midpoint];
        assert lower == t[midpoint - 1] && upper == t[midpoint];
        r := PairAverage(lower, upper);
      }
    }

    /**
     * median(): rebuild the sorted snapshot of the stored readings in
     * `_medianValues` and take its middle (see MiddleOf).
     */
    method Median() returns (r: int)
      requires Valid() && valuesCount > 0
      modifies this`median, this`medianValuesCount, medianValues
      ensures Valid() && Stored() == old(Stored())
      ensures medianValuesCount == valuesCount
      ensures medianValues[..medianValuesCount] == Snapshot(Stored())
      ensures median == r && r == MedianOf(Stored())
    {
      FillSnapshot();
      r := Middle();
      assert r == MedianOf(Stored());
      median := r;
    }

    /**
     * maximum(): start from slot 0 and keep the larger of it and each later
     * reading. With nothing stored the source still returns slot 0.
     */
    method Maximum() returns (r: int)
      requires Valid() && sampleSize >= 1
      modifies this`maximum
      ensures Valid() && maximum == r
      ensures valuesCount == 0 ==> r == values[0]
      ensures valuesCount > 0 ==> r in Stored()
      ensures forall i :: 0 <= i < valuesCount ==> values[i] <= r
    {
      maximum := values[0];
      var i := 1;
      while i < valuesCount
        invariant 1 <= i <= values.Length
        invariant valuesCount > 0 ==> i <= valuesCount
        invariant valuesCount == 0 ==> i == 1
        invariant i == 1 ==> maximum == values[0]
        invariant maximum in values[..i]
        invariant forall k :: 0 <= k < i ==> values[k] <= maximum
      {
        if values[i] > maximum {
          maximum := values[i];
        }
        i := i + 1;
      }
      r := maximum;
    }

    /**
     * minimum(), with the loop test the comment describes (`i < count`):
     * the smallest stored reading; slot 0 when nothing is stored.
     */
    method Minimum() returns (r: int)
      requires Valid() && sampleSize >= 1
      modifies this`minimum
      ensures Valid() && minimum == r
      ensures valuesCount == 0 ==> r == values[0]
      ensures valuesCount > 0 ==> r in Stored()
      ensures forall i :: 0 <= i < valuesCount ==> r <= values[i]
    {
      minimum := values[0];
      var i := 1;
      while i < valuesCount
        invariant 1 <= i <= values.Length
        invariant valuesCount > 0 ==> i <= valuesCount
        invariant valuesCount == 0 ==> i == 1
        invariant i == 1 ==> minimum == values[0]
        invariant minimum in values[..i]
        invariant forall k :: 0 <= k < i ==> minimum <= values[k]
      {
        if values[i] < minimum {
          minimum := values[i];
        }
        i := i + 1;
      }
      r := minimum;
    }

    /**
     * minimum() as written (line 185): the loop test is `i > _valuesCount`,
     * false from the start once a reading is stored, so the result is
     * always slot 0, the newest reading. (With nothing stored the test
     * stays true and the loop runs off the array; that case is excluded.)
     */
    method MinimumAsWritten() returns (r: int)
      requires Valid() && valuesCount >= 1
      modifies this`minimum
      ensures Valid() && minimum == r
      ensures r == values[0]
    {
      minimum := values[0];
      r := minimum;
    }
  }

  /**
   * Readings 1 then 5 (newest first: 5, 1): minimum() as written answers
   * 5, the corrected scan answers 1.
   */
  method MinimumAsWrittenExample() returns (asWritten: int, corrected: int)
    ensures asWritten == 5 && corrected == 1
  {
    var f := new Filter(2);
    f.Prepend(1);
    f.Prepend(5);
    assert f.values[..] == [5, 1];
    assert f.values[0] == 5 && f.values[1] == 1;
    asWritten := f.MinimumAsWritten();
    corrected := f.Minimum();
  }

  /**
   * Readings 1 then 2 in a window of two: prepend() as written loses the 1,
   * the corrected shift keeps it.
   */
  method PrependAsWrittenExample() returns (asWritten: seq<int>, corrected: seq<int>)
    ensures asWritten == [2, 0] && corrected == [2, 1]
  {
    var f := new Filter(2);
    f.PrependAsWritten(1);
    f.PrependAsWritten(2);
    asWritten := f.values[..f.valuesCount];
    var g := new Filter(2);
    g.Prepend(1);
    g.Prepend(2);
    corrected := g.values[..g.valuesCount];
  }
}
