/**
 * The arithmetic behind `getMetrics` (WordStore.class.js, lines 99-159):
 * the length buckets are read in ascending key order, and the words they hold
 * form a grouped list of lengths. `Run` spells that grouped list out, so that
 * the median and the average computed from bucket sizes alone can be compared
 * with the median and the average of the lengths themselves.
 *
 * The source takes the keys of a plain object, which are strings: it sorts
 * them as strings ("10" before "9"), reports min and max as strings and, in
 * the even boundary case, adds two strings before dividing. Here lengths are
 * numbers, sorted numerically and added numerically.
 */
module LengthStats {
  import opened Wrappers

  predicate StrictlyIncreasing(s: seq<nat>) {
    forall i, j :: 0 <= i < j < |s| ==> s[i] < s[j]
  }

  predicate NonDecreasing(s: seq<nat>) {
    forall i, j :: 0 <= i < j < |s| ==> s[i] <= s[j]
  }

  predicate IsLeast(x: nat, K: set<nat>) {
    x in K && forall k :: k in K ==> x <= k
  }

  predicate IsGreatest(x: nat, K: set<nat>) {
    x in K && forall k :: k in K ==> k <= x
  }

  /** Every finite non-empty set of naturals has a least element. */
  lemma {:induction false} MinExists(K: set<nat>)
    requires K != {}
    ensures exists m :: IsLeast(m, K)
  {
    var y :| y in K;
    if K == {y} {
      assert IsLeast(y, K);
    } else {
      MinExists(K - {y});
      var m :| IsLeast(m, K - {y});
      var least := if y < m then y else m;
      forall x | x in K ensures least <= x {
        if x != y {
          assert x in K - {y};
        }
      }
      assert IsLeast(least, K);
    }
  }

  /** The least element of a non-empty set of naturals. */
  function SetMin(K: set<nat>): (m: nat)
    requires K != {}
    ensures IsLeast(m, K)
  {
    MinExists(K);
    var m :| IsLeast(m, K);
    m
  }

  /** The bucket keys in ascending numeric order (`sizes.sort()`). */
  function Ascending(K: set<nat>): (r: seq<nat>)
    ensures StrictlyIncreasing(r)
    ensures forall x :: x in r <==> x in K
    ensures |r| == |K|
    decreases |K|
  {
    if K == {} then []
    else
      var m := SetMin(K);
      var rest := Ascending(K - {m});
      assert forall x :: x in rest ==> m < x;
      [m] + rest
  }

  /** Every listed length has a bucket. */
  predicate Covers(sizes: seq<nat>, buckets: map<nat, set<string>>) {
    forall k :: k in sizes ==> k in buckets
  }

  /** Number of words in the first `i` buckets (the running total `n`). */
  function Prefix(sizes: seq<nat>, buckets: map<nat, set<string>>, i: nat): nat
    requires i <= |sizes| && Covers(sizes, buckets)
  {
    if i == 0 then 0 else Prefix(sizes, buckets, i - 1) + |buckets[sizes[i - 1]]|
  }

  /**
   * Sum over the first `i` buckets of length times bucket size (the
   * map/reduce of line 154): the sum of the lengths of the words they hold.
   */
  function TotalLength(sizes: seq<nat>, buckets: map<nat, set<string>>, i: nat): (t: nat)
    requires i <= |sizes| && Covers(sizes, buckets)
    ensures t == Sum(Run(sizes, buckets, i))
  {
    if i == 0 then 0
    else
      var k, n := sizes[i - 1], |buckets[sizes[i - 1]]|;
      SumConcat(Run(sizes, buckets, i - 1), Repeat(k, n));
      SumRepeat(k, n);
      TotalLength(sizes, buckets, i - 1) + n * k
  }

  function Repeat(k: nat, n: nat): (r: seq<nat>)
    ensures |r| == n && forall t :: 0 <= t < n ==> r[t] == k
  {
    seq(n, _ => k)
  }

  /** The lengths of the words in the first `i` buckets, bucket after bucket. */
  function Run(sizes: seq<nat>, buckets: map<nat, set<string>>, i: nat): seq<nat>
    requires i <= |sizes| && Covers(sizes, buckets)
  {
    if i == 0 then [] else Run(sizes, buckets, i - 1) + Repeat(sizes[i - 1], |buckets[sizes[i - 1]]|)
  }

  lemma {:induction false} RunLength(sizes: seq<nat>, buckets: map<nat, set<string>>, i: nat)
    requires i <= |sizes| && Covers(sizes, buckets)
    ensures |Run(sizes, buckets, i)| == Prefix(sizes, buckets, i)
  {
    if i > 0 {
      RunLength(sizes, buckets, i - 1);
    }
  }

  /** The running total never decreases. */
  lemma {:induction false} PrefixMonotone(sizes: seq<nat>, buckets: map<nat, set<string>>, i: nat, j: nat)
    requires i <= j <= |sizes| && Covers(sizes, buckets)
    ensures Prefix(sizes, buckets, i) <= Prefix(sizes, buckets, j)
  {
    if i < j {
      PrefixMonotone(sizes, buckets, i, j - 1);
    }
  }

  /** The positions `Prefix(i) .. Prefix(i+1)-1` of the grouped list hold the length `sizes[i]`. */
  lemma {:induction false} RunAt(sizes: seq<nat>, buckets: map<nat, set<string>>, i: nat, m: nat, t: nat)
    requires i < m <= |sizes| && Covers(sizes, buckets)
    requires Prefix(sizes, buckets, i) <= t < Prefix(sizes, buckets, i + 1)
    ensures t < |Run(sizes, buckets, m)| && Run(sizes, buckets, m)[t] == sizes[i]
  {
    RunLength(sizes, buckets, m - 1);
    if m == i + 1 {
      assert Run(sizes, buckets, m)[t] == Repeat(sizes[i], |buckets[sizes[i]]|)[t - Prefix(sizes, buckets, i)];
    } else {
      RunAt(sizes, buckets, i, m - 1, t);
    }
  }

  /** The grouped list is sorted, and holds only lengths listed so far. */
  lemma {:induction false} RunSorted(sizes: seq<nat>, buckets: map<nat, set<string>>, i: nat)
    requires i <= |sizes| && Covers(sizes, buckets) && StrictlyIncreasing(sizes)
    ensures NonDecreasing(Run(sizes, buckets, i))
    ensures forall t :: 0 <= t < |Run(sizes, buckets, i)| ==> Run(sizes, buckets, i)[t] in sizes[..i]
  {
    if i > 0 {
      RunSorted(sizes, buckets, i - 1);
      var prev, last := Run(sizes, buckets, i - 1), Repeat(sizes[i - 1], |buckets[sizes[i - 1]]|);
      assert Run(sizes, buckets, i) == prev + last;
      forall t | 0 <= t < |prev| ensures prev[t] < sizes[i - 1] {
        assert prev[t] in sizes[..i - 1];
      }
      forall t | 0 <= t < |prev + last| ensures (prev + last)[t] in sizes[..i] {
        if t < |prev| {
          assert prev[t] in sizes[..i - 1];
        } else {
          assert sizes[i - 1] == sizes[..i][i - 1];
        }
      }
    }
  }

  /** Each length occurs in the grouped list as many times as its bucket has words. */
  lemma {:induction false} RunCount(sizes: seq<nat>, buckets: map<nat, set<string>>, i: nat, k: nat)
    requires i <= |sizes| && Covers(sizes, buckets) && StrictlyIncreasing(sizes)
    ensures multiset(Run(sizes, buckets, i))[k] == if k in sizes[..i] then |buckets[k]| else 0
  {
    if i > 0 {
      RunCount(sizes, buckets, i - 1, k);
      RunStepCount(sizes, buckets, i, k);
      NewKey(sizes, i, k);
    }
  }

  /** The last bucket of a prefix adds its words' count to its own length only. */
  lemma RunStepCount(sizes: seq<nat>, buckets: map<nat, set<string>>, i: nat, k: nat)
    requires 0 < i <= |sizes| && Covers(sizes, buckets)
    ensures multiset(Run(sizes, buckets, i))[k] ==
      multiset(Run(sizes, buckets, i - 1))[k] + if k == sizes[i - 1] then |buckets[k]| else 0
  {
    var last: seq<nat> := Repeat(sizes[i - 1], |buckets[sizes[i - 1]]|);
    RepeatCount(sizes[i - 1], |buckets[sizes[i - 1]]|, k);
    assert Run(sizes, buckets, i) == Run(sizes, buckets, i - 1) + last;
  }

  /** In a strictly increasing list, the key at `i - 1` is not among the keys before it. */
  lemma NewKey(sizes: seq<nat>, i: nat, k: nat)
    requires 0 < i <= |sizes| && StrictlyIncreasing(sizes)
    ensures k in sizes[..i] <==> k in sizes[..i - 1] || k == sizes[i - 1]
    ensures k == sizes[i - 1] ==> k !in sizes[..i - 1]
  {
    assert sizes[..i] == sizes[..i - 1] + [sizes[i - 1]];
  }

  /** `Repeat(k, n)` holds `n` copies of `k` and nothing else. */
  lemma {:induction false} RepeatCount(k: nat, n: nat, j: nat)
    ensures multiset(Repeat(k, n))[j] == if j == k then n else 0
  {
    if n > 0 {
      RepeatCount(k, n - 1, j);
      assert Repeat(k, n) == Repeat(k, n - 1) + [k];
    }
  }

  function Sum(s: seq<nat>): nat {
    if s == [] then 0 else s[0] + Sum(s[1..])
  }

  lemma {:induction false} SumConcat(a: seq<nat>, b: seq<nat>)
    ensures Sum(a + b) == Sum(a) + Sum(b)
  {
    if a != [] {
      assert (a + b)[1..] == a[1..] + b;
      SumConcat(a[1..], b);
    } else {
      assert a + b == b;
    }
  }

  lemma {:induction false} SumRepeat(k: nat, n: nat)
    ensures Sum(Repeat(k, n)) == k * n
  {
    if n > 0 {
      assert Repeat(k, n)[1..] == Repeat(k, n - 1);
      SumRepeat(k, n - 1);
    }
  }

  /** The median of a sorted list of lengths: its middle element, or the mean of its two middle elements. */
  function MedianOf(lengths: seq<nat>): real
    requires |lengths| > 0
  {
    var h := |lengths| / 2;
    if |lengths| % 2 == 1 then lengths[h] as real
    else (lengths[h - 1] + lengths[h]) as real / 2.0
  }

  /**
   * The first bucket at or after `j` that holds a word. It exists whenever
   * some word lies beyond the first `j` buckets.
   */
  function NextPopulated(sizes: seq<nat>, buckets: map<nat, set<string>>, j: nat): (k: nat)
    requires j <= |sizes| && Covers(sizes, buckets)
    requires Prefix(sizes, buckets, j) < Prefix(sizes, buckets, |sizes|)
    ensures j <= k < |sizes| && |buckets[sizes[k]]| > 0
    ensures Prefix(sizes, buckets, k) == Prefix(sizes, buckets, j)
    decreases |sizes| - j
  {
    if j == |sizes| then j
    else if |buckets[sizes[j]]| > 0 then j
    else NextPopulated(sizes, buckets, j + 1)
  }

  /**
   * The mean of the length at `i` and the length of the next bucket after
   * it that holds a word.
   */
  function PairMedian(sizes: seq<nat>, buckets: map<nat, set<string>>, i: nat): real
    requires i < |sizes| && Covers(sizes, buckets)
    requires Prefix(sizes, buckets, i + 1) < Prefix(sizes, buckets, |sizes|)
  {
    (sizes[i] + sizes[NextPopulated(sizes, buckets, i + 1)]) as real / 2.0
  }

  /**
   * The bucket walk finds the median: if bucket `i` is the first one at
   * which the running total reaches ceil(count/2), the median of the grouped
   * list is that bucket's length, except when the count is even and the
   * total lands exactly on ceil(count/2): then it is the mean of that length
   * and the length of the next bucket that holds a word.
   */
  lemma MedianFromBuckets(sizes: seq<nat>, buckets: map<nat, set<string>>, i: nat, count: nat, target: nat)
    requires i < |sizes| && Covers(sizes, buckets)
    requires count == Prefix(sizes, buckets, |sizes|) && count > 0 && target == (count + 1) / 2
    requires Prefix(sizes, buckets, i) < target <= Prefix(sizes, buckets, i + 1)
    ensures |Run(sizes, buckets, |sizes|)| == count
    ensures count % 2 == 1 || Prefix(sizes, buckets, i + 1) > target ==>
      MedianOf(Run(sizes, buckets, |sizes|)) == sizes[i] as real
    ensures count % 2 == 0 && Prefix(sizes, buckets, i + 1) == target ==>
      && Prefix(sizes, buckets, i + 1) < count
      && MedianOf(Run(sizes, buckets, |sizes|)) == PairMedian(sizes, buckets, i)
  {
    var lengths := Run(sizes, buckets, |sizes|);
    RunLength(sizes, buckets, |sizes|);
    RunAt(sizes, buckets, i, |sizes|, target - 1);
    if count % 2 == 0 {
      if Prefix(sizes, buckets, i + 1) > target {
        RunAt(sizes, buckets, i, |sizes|, target);
      } else {
        var j := NextPopulated(sizes, buckets, i + 1);
        PrefixMonotone(sizes, buckets, i + 1, j);
        RunAt(sizes, buckets, j, |sizes|, target);
      }
    }
  }

  /**
   * The median loop of `getMetrics`: walk the buckets in `sizes` order,
   * counting words, until the bucket holding the middle word. With an odd
   * count that bucket's length is the median; with an even count it is too,
   * unless the middle pair straddles two buckets, when the next bucket that
   * holds a word supplies the second length.
   */
  method MedianScan(sizes: seq<nat>, buckets: map<nat, set<string>>) returns (median: real)
    requires Covers(sizes, buckets) && Prefix(sizes, buckets, |sizes|) > 0
    ensures |Run(sizes, buckets, |sizes|)| > 0
    ensures median == MedianOf(Run(sizes, buckets, |sizes|))
  {
    var count := Prefix(sizes, buckets, |sizes|);
    var target := (count + 1) / 2;
    var n := 0;
    var sizeIndex := 0;
    while true
      invariant sizeIndex < |sizes|
      invariant n == Prefix(sizes, buckets, sizeIndex) && n < target
      decreases |sizes| - sizeIndex
    {
      var nextSize := sizes[sizeIndex];
      var sizeCount := |buckets[nextSize]|;
      if n + sizeCount >= target {
        MedianFromBuckets(sizes, buckets, sizeIndex, count, target);
        if count % 2 == 0 {
          if n + sizeCount > target {
            median := nextSize as real;
          } else {
            var next := NextPopulated(sizes, buckets, sizeIndex + 1);
            median := (nextSize + sizes[next]) as real / 2.0;
          }
        } else {
          median := nextSize as real;
        }
        return;
      }
      n := n + sizeCount;
      sizeIndex := sizeIndex + 1;
      PrefixMonotone(sizes, buckets, sizeIndex, |sizes|);
    }
  }

  /** The first and the last of ascending keys are the least and the greatest key. */
  lemma FirstLast(sizes: seq<nat>, K: set<nat>)
    requires StrictlyIncreasing(sizes) && |sizes| > 0
    requires forall x :: x in sizes <==> x in K
    ensures IsLeast(sizes[0], K) && IsGreatest(sizes[|sizes| - 1], K)
  {
    forall k | k in K ensures sizes[0] <= k <= sizes[|sizes| - 1] {
      var j :| 0 <= j < |sizes| && sizes[j] == k;
      assert sizes[0] <= sizes[j] <= sizes[|sizes| - 1];
    }
  }

  /** `v` is the key at `j`, or the mean of the keys at `j` and `j + 1`. */
  predicate KeyOrPairAt(sizes: seq<nat>, j: nat, v: real)
    requires j < |sizes|
  {
    v == sizes[j] as real || (j + 1 < |sizes| && v == (sizes[j] + sizes[j + 1]) as real / 2.0)
  }

  /**
   * The median loop as the source writes it (lines 124-151): the even
   * boundary case pairs the bucket with the next KEY, `sizes[i + 1]`, whether
   * or not that bucket still holds a word. Its answer is always a key, or the
   * mean of a key and the key after it. `None` stands for the walk leaving
   * `sizes`: past the last key the source would read `sizeMap[undefined]`
   * and throw, and in the even boundary case at the last key it would pair
   * with `undefined` and produce NaN. Neither happens when the bucket sizes
   * add up to the count (MedianScanTerminates).
   */
  function MedianScanAsWritten(sizes: seq<nat>, buckets: map<nat, set<string>>, count: nat, i: nat, n: nat): (r: Option<real>)
    requires Covers(sizes, buckets)
    ensures r.Some? ==> exists j :: i <= j < |sizes| && KeyOrPairAt(sizes, j, r.value)
    decreases |sizes| - i
  {
    if i >= |sizes| then None
    else
      var sizeCount := |buckets[sizes[i]]|;
      var target := (count + 1) / 2;
      assert KeyOrPairAt(sizes, i, sizes[i] as real);
      assert i + 1 < |sizes| ==> KeyOrPairAt(sizes, i, (sizes[i] + sizes[i + 1]) as real / 2.0);
      if n + sizeCount >= target then
        if count % 2 == 0 then
          if n + sizeCount > target then Some(sizes[i] as real)
          else if i + 1 < |sizes| then Some((sizes[i] + sizes[i + 1]) as real / 2.0)
          else None
        else Some(sizes[i] as real)
      else MedianScanAsWritten(sizes, buckets, count, i + 1, n + sizeCount)
  }

  /**
   * When the bucket sizes add up to `count`, the source's median loop stops
   * inside `sizes`: it never reads past the last key.
   */
  lemma {:induction false} MedianScanTerminates(sizes: seq<nat>, buckets: map<nat, set<string>>, count: nat, i: nat)
    requires i <= |sizes| && Covers(sizes, buckets)
    requires count > 0 && Prefix(sizes, buckets, |sizes|) == count
    requires Prefix(sizes, buckets, i) < (count + 1) / 2
    ensures MedianScanAsWritten(sizes, buckets, count, i, Prefix(sizes, buckets, i)).Some?
    decreases |sizes| - i
  {
    if i == |sizes| {
      assert false;
    }
    var target := (count + 1) / 2;
    if Prefix(sizes, buckets, i + 1) >= target {
      if count % 2 == 0 && Prefix(sizes, buckets, i + 1) == target {
        PrefixMonotone(sizes, buckets, i + 1, |sizes|);
        assert i + 1 != |sizes|;
      }
    } else {
      MedianScanTerminates(sizes, buckets, count, i + 1);
    }
  }

  /**
   * As long as no bucket is empty, the loop as written finds the true median:
   * the next key is then the next bucket that holds a word, so the
   * discrepancy of the even boundary case needs an emptied bucket.
   */
  lemma MedianAsWrittenWithoutEmptyBuckets(sizes: seq<nat>, buckets: map<nat, set<string>>, count: nat)
    requires Covers(sizes, buckets) && forall j :: 0 <= j < |sizes| ==> |buckets[sizes[j]]| > 0
    requires count == Prefix(sizes, buckets, |sizes|) && count > 0
    ensures |Run(sizes, buckets, |sizes|)| > 0
    ensures MedianScanAsWritten(sizes, buckets, count, 0, 0) == Some(MedianOf(Run(sizes, buckets, |sizes|)))
  {
    RunLength(sizes, buckets, |sizes|);
    MedianAsWrittenFrom(sizes, buckets, count, 0);
  }

  /** The same, for the walk resumed at bucket `i` before the middle is reached. */
  lemma {:induction false} MedianAsWrittenFrom(sizes: seq<nat>, buckets: map<nat, set<string>>, count: nat, i: nat)
    requires Covers(sizes, buckets) && forall j :: 0 <= j < |sizes| ==> |buckets[sizes[j]]| > 0
    requires count == Prefix(sizes, buckets, |sizes|) && count > 0
    requires i <= |sizes| && Prefix(sizes, buckets, i) < (count + 1) / 2
    ensures |Run(sizes, buckets, |sizes|)| > 0
    ensures MedianScanAsWritten(sizes, buckets, count, i, Prefix(sizes, buckets, i)) == Some(MedianOf(Run(sizes, buckets, |sizes|)))
    decreases |sizes| - i
  {
    RunLength(sizes, buckets, |sizes|);
    if i == |sizes| {
      assert false;
    }
    var target := (count + 1) / 2;
    if Prefix(sizes, buckets, i + 1) >= target {
      MedianFromBuckets(sizes, buckets, i, count, target);
      if count % 2 == 0 && Prefix(sizes, buckets, i + 1) == target {
        assert NextPopulated(sizes, buckets, i + 1) == i + 1;
      }
    } else {
      MedianAsWrittenFrom(sizes, buckets, count, i + 1);
    }
  }

  /**
   * The source's boundary case goes wrong once a bucket has been emptied:
   * words of lengths 2 and 4 with an empty bucket for length 3 give 2.5
   * (11.5 with the source's string keys, where "2" + "3" is "23"), while the
   * median of the lengths [2, 4] is 3.
   */
  lemma MedianAsWrittenCounterexample()
    ensures var sizes := [2, 3, 4];
      var buckets := map[2 := {"ab"}, 3 := {}, 4 := {"abcd"}];
      && MedianScanAsWritten(sizes, buckets, 2, 0, 0) == Some(2.5)
      && Run(sizes, buckets, 3) == [2, 4]
      && MedianOf(Run(sizes, buckets, 3)) == 3.0
  {
    var sizes := [2, 3, 4];
    var buckets := map[2 := {"ab"}, 3 := {}, 4 := {"abcd"}];
    assert Run(sizes, buckets, 1) == [2];
    assert Run(sizes, buckets, 2) == [2];
    assert Run(sizes, buckets, 3) == [2, 4];
  }
}
