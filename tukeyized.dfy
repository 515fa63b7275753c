/** Tukey's outlier filter: keep the samples inside the inclusive fence
    [Q1 - 1.5 * IQR, Q3 + 1.5 * IQR], where Q1 and Q3 are the medians of the lower and
    upper halves of the sorted sample and IQR = Q3 - Q1. */
module Tukeyized {
  import opened Sorting

  /** Whether `x` lies between `a` and `b`, in whichever order those two come. */
  predicate Between(x: real, a: real, b: real)
  {
    a <= x <= b || b <= x <= a
  }

  /** The median of an ascending sequence: the middle element for odd length, the mean of
      the two middle elements for even length. An empty argument is a caller error. */
  function Middle(values: seq<real>): (m: real)
    requires |values| > 0
    // lies between the two central values, which coincide for odd length
    ensures Between(m, values[(|values| - 1) / 2], values[|values| / 2])
    ensures |values| % 2 == 1 ==> m == values[|values| / 2]
  {
    var mid := |values| / 2;
    if |values| % 2 == 1 then values[mid] else (values[mid - 1] + values[mid]) / 2.0
  }

  /** On ascending input the median splits the values: the first half (rounded up) lies at
      or below it and the second half (rounded up) at or above it. */
  lemma MiddleSplits(values: seq<real>)
    requires |values| > 0
    requires Sorted(values)
    ensures forall i :: 0 <= i < (|values| + 1) / 2 ==> values[i] <= Middle(values)
    ensures forall i :: |values| / 2 <= i < |values| ==> Middle(values) <= values[i]
  {
  }

  /** On ascending input the median lies between the first and the last value. */
  lemma MiddleWithinRange(values: seq<real>)
    requires |values| > 0
    requires Sorted(values)
    ensures values[0] <= Middle(values) <= values[|values| - 1]
  {
    MiddleSplits(values);
  }

  /** The lower and upper halves of a sample. For odd length the middle element belongs to
      neither half. */
  function Halves(s: seq<real>): (h: (seq<real>, seq<real>))
    ensures |h.0| == |h.1| == |s| / 2
    // the lower half is the first n/2 values, the upper half the last n/2 values
    ensures h.0 == s[0..|s| / 2]
    ensures h.1 == s[|s| - |s| / 2..|s|]
  {
    var mid := |s| / 2;
    if |s| % 2 == 0 then (s[..mid], s[mid..]) else (s[..mid], s[mid + 1..])
  }

  /** The hinges (Q1, Q3): the medians of the lower and upper halves. Both halves are
      non-empty because the sample has at least two values. */
  function Hinge(s: seq<real>): (q: (real, real))
    requires |s| >= 2
    // Q1 is the median of the first n/2 values, Q3 the median of the last n/2 values
    ensures q.0 == Middle(s[0..|s| / 2])
    ensures q.1 == Middle(s[|s| - |s| / 2..|s|])
  {
    var h := Halves(s);
    (Middle(h.0), Middle(h.1))
  }

  /** On ascending input the median of a slice lies between the slice's end values. */
  lemma SliceMiddleWithin(s: seq<real>, lo: int, hi: int)
    requires 0 <= lo < hi <= |s|
    requires Sorted(s)
    ensures s[lo] <= Middle(s[lo..hi]) <= s[hi - 1]
  {
    SortedSlice(s, lo, hi);
    MiddleWithinRange(s[lo..hi]);
  }

  /** On ascending input the lower hinge lies between the first value and the last value of
      the lower half. */
  lemma LowerHingeWithinHalf(s: seq<real>)
    requires |s| >= 2
    requires Sorted(s)
    ensures s[0] <= Hinge(s).0 <= s[|s| / 2 - 1]
  {
    SliceMiddleWithin(s, 0, |s| / 2);
  }

  /** On ascending input the upper hinge lies between the first value and the last value of
      the upper half. */
  lemma UpperHingeWithinHalf(s: seq<real>)
    requires |s| >= 2
    requires Sorted(s)
    ensures s[|s| - |s| / 2] <= Hinge(s).1 <= s[|s| - 1]
  {
    SliceMiddleWithin(s, |s| - |s| / 2, |s|);
  }

  /** On ascending input the hinges are ordered, lie within the sample's range and bracket
      the median of the whole sample. */
  lemma HingeOrdered(s: seq<real>)
    requires |s| >= 2
    requires Sorted(s)
    ensures s[0] <= Hinge(s).0 <= Hinge(s).1 <= s[|s| - 1]
    ensures Hinge(s).0 <= Middle(s) <= Hinge(s).1
  {
    LowerHingeWithinHalf(s);
    UpperHingeWithinHalf(s);
    MiddleSplits(s);
    assert s[|s| / 2 - 1] <= Middle(s) <= s[|s| - |s| / 2];
  }

  /** The fence (min, max) derived from the hinges: centred on the midhinge and four
      interquartile ranges wide. */
  function Fences(q1: real, q3: real): (f: (real, real))
    ensures (f.0 + f.1) / 2.0 == (q1 + q3) / 2.0
    ensures f.1 - f.0 == 4.0 * (q3 - q1)
    ensures q1 <= q3 ==> f.0 <= q1 && q3 <= f.1
  {
    var range := q3 - q1;
    (q1 - 1.5 * range, q3 + 1.5 * range)
  }

  /** Whether `x` lies in the inclusive fence `f`. */
  predicate InFence(x: real, f: (real, real))
  {
    f.0 <= x <= f.1
  }

  /** The values of `values` inside the fence `f`, in their original order. */
  function Filter(values: seq<real>, f: (real, real)): (kept: seq<real>)
    ensures |kept| <= |values|
  {
    if values == [] then
      []
    else
      var rest := Filter(values[1..], f);
      if InFence(values[0], f) then [values[0]] + rest else rest
  }

  /** Every value inside the fence is kept with its multiplicity, every other value is
      dropped. */
  lemma {:induction false} FilterMultiplicity(values: seq<real>, f: (real, real))
    ensures forall x :: multiset(Filter(values, f))[x] == if InFence(x, f) then multiset(values)[x] else 0
  {
    if values != [] {
      assert values == [values[0]] + values[1..];
      FilterMultiplicity(values[1..], f);
    }
  }

  /** `idx` lists, in increasing order, positions of `s` whose values make up `sub`. */
  predicate Embeds(idx: seq<int>, sub: seq<real>, s: seq<real>)
  {
    && |idx| == |sub|
    && (forall k :: 0 <= k < |idx| ==> 0 <= idx[k] < |s| && sub[k] == s[idx[k]])
    && (forall k, l :: 0 <= k < l < |idx| ==> idx[k] < idx[l])
  }

  /** Positions of `values[1..]` as positions of `values`. */
  function Shift(idx: seq<int>): seq<int>
  {
    seq(|idx|, k requires 0 <= k < |idx| => idx[k] + 1)
  }

  /** An embedding into the tail of `s` is, shifted by one, an embedding into `s` that avoids
      position 0, and it holds position `i` exactly when the tail one holds `i - 1`. */
  lemma ShiftEmbeds(idx: seq<int>, sub: seq<real>, s: seq<real>)
    requires |s| > 0
    requires Embeds(idx, sub, s[1..])
    ensures Embeds(Shift(idx), sub, s)
    ensures 0 !in Shift(idx)
    ensures forall i :: 1 <= i < |s| ==> (i in Shift(idx) <==> i - 1 in idx)
  {
    var shifted := Shift(idx);
    forall i | 1 <= i < |s| ensures i in shifted <==> i - 1 in idx {
      if i - 1 in idx {
        var k :| 0 <= k < |idx| && idx[k] == i - 1;
        assert shifted[k] == i;
      }
    }
  }

  /** An embedding into the tail of `s`, shifted by one and preceded by position 0, embeds the
      tail's result preceded by `s[0]`. */
  lemma ConsEmbeds(idx: seq<int>, sub: seq<real>, s: seq<real>)
    requires |s| > 0
    requires Embeds(idx, sub, s[1..])
    ensures Embeds([0] + Shift(idx), [s[0]] + sub, s)
    ensures forall i :: 1 <= i < |s| ==> (i in [0] + Shift(idx) <==> i - 1 in idx)
  {
    ShiftEmbeds(idx, sub, s);
    var shifted := Shift(idx);
    var r := [0] + shifted;
    forall k, l | 0 <= k < l < |r| ensures r[k] < r[l] {
      assert r[l] == shifted[l - 1];
      if k > 0 {
        assert r[k] == shifted[k - 1];
      }
    }
    forall i | 1 <= i < |s| ensures i in r <==> i in shifted {
    }
  }

  /** The filter keeps exactly the positions whose values lie inside the fence, in their
      original order: the result is a subsequence of the input. */
  lemma {:induction false} FilterPositions(values: seq<real>, f: (real, real)) returns (idx: seq<int>)
    ensures Embeds(idx, Filter(values, f), values)
    ensures forall i :: 0 <= i < |values| ==> (i in idx <==> InFence(values[i], f))
  {
    if values == [] {
      idx := [];
    } else {
      var rest := Filter(values[1..], f);
      var tail := FilterPositions(values[1..], f);
      assert forall i :: 1 <= i < |values| ==> (i - 1 in tail <==> InFence(values[i], f)) by {
        forall i | 1 <= i < |values| ensures i - 1 in tail <==> InFence(values[i], f) {
          assert values[1..][i - 1] == values[i];
        }
      }
      if InFence(values[0], f) {
        ConsEmbeds(tail, rest, values);
        idx := [0] + Shift(tail);
      } else {
        ShiftEmbeds(tail, rest, values);
        idx := Shift(tail);
      }
    }
  }

  /** The quartiles of a sample of at least two values, taken from its sorted copy. */
  function Quartiles(values: seq<real>): (q: (real, real))
    requires |values| >= 2
    ensures q.0 <= q.1
    ensures exists i :: 0 <= i < |values| && values[i] <= q.0
    ensures exists i :: 0 <= i < |values| && q.1 <= values[i]
  {
    var order := SortedCopy(values);
    SortedCopySortedPermutation(values);
    HingeOrdered(order);
    assert order[0] in multiset(values);
    assert order[|order| - 1] in multiset(values);
    Hinge(order)
  }

  /** The inlier fence of a sample of at least two values. */
  function Bounds(values: seq<real>): (f: (real, real))
    requires |values| >= 2
    ensures f.0 <= Quartiles(values).0 <= Quartiles(values).1 <= f.1
  {
    var q := Quartiles(values);
    Fences(q.0, q.1)
  }

  /** What the filter returns: samples of fewer than three values unchanged, otherwise the
      values inside the fence of the sample, in their original order. */
  function Inliers(values: seq<real>): (kept: seq<real>)
    ensures |values| < 3 ==> kept == values
    ensures |kept| <= |values|
  {
    if |values| < 3 then values else Filter(values, Bounds(values))
  }

  /** Membership is exact: a value of a sample of three or more appears in the result, with
      its multiplicity, exactly when it lies inside the sample's fence; no other value
      appears. */
  lemma InliersMultiplicity(values: seq<real>)
    requires |values| >= 3
    ensures forall x :: multiset(Inliers(values))[x]
                     == if InFence(x, Bounds(values)) then multiset(values)[x] else 0
  {
    FilterMultiplicity(values, Bounds(values));
  }

  /** The filtering driver: copy the sample, sort the copy in place, take the hinges of the
      sorted copy and keep the values of the original sample that lie inside the fence. */
  method Trim(values: seq<real>) returns (kept: seq<real>)
    ensures kept == Inliers(values)
  {
    if |values| < 3 {
      return values;
    }
    var order := new real[|values|](i requires 0 <= i < |values| => values[i]);
    assert order[..] == values;
    SortInPlace(order);
    var q := Hinge(order[..]);
    var f := Fences(q.0, q.1);
    kept := Filter(values, f);
  }

  /** The public entry point; it only delegates to Trim. */
  method Tukeyize(values: seq<real>) returns (kept: seq<real>)
    ensures kept == Inliers(values)
  {
    kept := Trim(values);
  }

  /** Every value between the two hinges is kept. */
  lemma CentralValuesKept(values: seq<real>, x: real)
    requires |values| >= 3
    requires x in values
    requires Quartiles(values).0 <= x <= Quartiles(values).1
    ensures x in Inliers(values)
  {
    InliersMultiplicity(values);
    assert x in multiset(values);
    assert x in multiset(Inliers(values));
  }

  /** The result is order-preserving: some increasing choice of positions of the input yields
      it, and those positions are exactly the ones whose values are inliers. */
  lemma InliersAreSubsequence(values: seq<real>) returns (idx: seq<int>)
    ensures Embeds(idx, Inliers(values), values)
    ensures |values| >= 3 ==>
      forall i :: 0 <= i < |values| ==> (i in idx <==> InFence(values[i], Bounds(values)))
  {
    if |values| < 3 {
      idx := seq(|values|, k requires 0 <= k < |values| => k);
    } else {
      idx := FilterPositions(values, Bounds(values));
    }
  }

  /** A filter that lets every value through returns its input. */
  lemma {:induction false} FilterKeepsAll(values: seq<real>, f: (real, real))
    requires forall i :: 0 <= i < |values| ==> InFence(values[i], f)
    ensures Filter(values, f) == values
  {
    if values != [] {
      FilterKeepsAll(values[1..], f);
    }
  }

  /** The median of identical values is that value. */
  lemma ConstantMiddle(s: seq<real>, c: real)
    requires |s| > 0
    requires forall i :: 0 <= i < |s| ==> s[i] == c
    ensures Middle(s) == c
  {
  }

  /** The hinges of a sample of identical values are that value. */
  lemma ConstantHinges(s: seq<real>, c: real)
    requires |s| >= 2
    requires forall i :: 0 <= i < |s| ==> s[i] == c
    ensures Hinge(s) == (c, c)
  {
    var h := Halves(s);
    assert forall i :: 0 <= i < |h.0| ==> h.0[i] == s[i];
    assert forall i :: 0 <= i < |h.1| ==> h.1[i] == s[|s| - |h.1| + i];
    ConstantMiddle(h.0, c);
    ConstantMiddle(h.1, c);
  }

  /** A sample of identical values is returned unchanged: the hinges coincide with the value
      and the fence collapses onto it. */
  lemma AllIdenticalKept(values: seq<real>, c: real)
    requires forall i :: 0 <= i < |values| ==> values[i] == c
    ensures Inliers(values) == values
  {
    if |values| >= 3 {
      var order := SortedCopy(values);
      SortedCopySortedPermutation(values);
      forall i | 0 <= i < |order| ensures order[i] == c {
        assert order[i] in multiset(values);
      }
      ConstantHinges(order, c);
      assert Quartiles(values) == (c, c);
      var f := Bounds(values);
      assert f == Fences(c, c);
      FilterKeepsAll(values, f);
    }
  }

  // The lemmas from here to the end of the module only evaluate the filter on the library's
  // concrete samples. `SortedCopyUnfold`, `FilterUnfold` and `UsageExampleStep1` to
  // `UsageExampleStep8` state no property of the filter: they split literal evaluation into
  // small steps so that each one stays cheap for the verifier.

  /** One step of the reference sort: the first value is inserted into the sorted rest. */
  lemma SortedCopyUnfold(s: seq<real>)
    requires s != []
    ensures SortedCopy(s) == Insert(s[0], SortedCopy(s[1..]))
  {
  }

  /** One step of the filter: the first value is kept exactly when it lies in the fence. */
  lemma FilterUnfold(s: seq<real>, f: (real, real))
    requires s != []
    ensures Filter(s, f) == if InFence(s[0], f) then [s[0]] + Filter(s[1..], f) else Filter(s[1..], f)
  {
  }

  // The insertions that sort the usage example's sample, last value first.
  lemma UsageExampleStep1() ensures Insert(-19292.0, []) == [-19292.0] {}
  lemma UsageExampleStep2() ensures Insert(8.0, [-19292.0]) == [-19292.0, 8.0] {}
  lemma UsageExampleStep3() ensures Insert(2.0, [-19292.0, 8.0]) == [-19292.0, 2.0, 8.0] {}
  lemma UsageExampleStep4()
    ensures Insert(3.0, [-19292.0, 2.0, 8.0]) == [-19292.0, 2.0, 3.0, 8.0]
  {
    assert Insert(3.0, [2.0, 8.0]) == [2.0, 3.0, 8.0];
  }
  lemma UsageExampleStep5()
    ensures Insert(8888.0, [-19292.0, 2.0, 3.0, 8.0]) == [-19292.0, 2.0, 3.0, 8.0, 8888.0]
  {
    assert Insert(8888.0, [8.0]) == [8.0, 8888.0];
    assert Insert(8888.0, [3.0, 8.0]) == [3.0, 8.0, 8888.0];
    assert Insert(8888.0, [2.0, 3.0, 8.0]) == [2.0, 3.0, 8.0, 8888.0];
  }
  lemma UsageExampleStep6()
    ensures Insert(3.0, [-19292.0, 2.0, 3.0, 8.0, 8888.0])
         == [-19292.0, 2.0, 3.0, 3.0, 8.0, 8888.0]
  {
    assert Insert(3.0, [2.0, 3.0, 8.0, 8888.0]) == [2.0, 3.0, 3.0, 8.0, 8888.0];
  }
  lemma UsageExampleStep7()
    ensures Insert(6.0, [-19292.0, 2.0, 3.0, 3.0, 8.0, 8888.0])
         == [-19292.0, 2.0, 3.0, 3.0, 6.0, 8.0, 8888.0]
  {
    assert Insert(6.0, [3.0, 8.0, 8888.0]) == [3.0, 6.0, 8.0, 8888.0];
    assert Insert(6.0, [3.0, 3.0, 8.0, 8888.0]) == [3.0, 3.0, 6.0, 8.0, 8888.0];
    assert Insert(6.0, [2.0, 3.0, 3.0, 8.0, 8888.0]) == [2.0, 3.0, 3.0, 6.0, 8.0, 8888.0];
  }
  lemma UsageExampleStep8()
    ensures Insert(1.0, [-19292.0, 2.0, 3.0, 3.0, 6.0, 8.0, 8888.0])
         == [-19292.0, 1.0, 2.0, 3.0, 3.0, 6.0, 8.0, 8888.0]
  {
  }

  /** The sorted copy of the usage example's sample, given value by value. */
  lemma UsageExampleSortedValues(v: seq<real>)
    requires |v| == 8
    requires v[0] == 1.0 && v[1] == 6.0 && v[2] == 3.0 && v[3] == 8888.0
    requires v[4] == 3.0 && v[5] == 2.0 && v[6] == 8.0 && v[7] == -19292.0
    ensures SortedCopy(v) == [-19292.0, 1.0, 2.0, 3.0, 3.0, 6.0, 8.0, 8888.0]
  {
    UsageExampleStep1();
    UsageExampleStep2();
    UsageExampleStep3();
    UsageExampleStep4();
    UsageExampleStep5();
    UsageExampleStep6();
    UsageExampleStep7();
    UsageExampleStep8();
    assert SortedCopy(v[8..]) == [];
    SortedCopyUnfold(v[7..]);
    assert SortedCopy(v[7..]) == [-19292.0];
    SortedCopyUnfold(v[6..]);
    assert SortedCopy(v[6..]) == [-19292.0, 8.0];
    SortedCopyUnfold(v[5..]);
    assert SortedCopy(v[5..]) == [-19292.0, 2.0, 8.0];
    SortedCopyUnfold(v[4..]);
    assert SortedCopy(v[4..]) == [-19292.0, 2.0, 3.0, 8.0];
    SortedCopyUnfold(v[3..]);
    assert SortedCopy(v[3..]) == [-19292.0, 2.0, 3.0, 8.0, 8888.0];
    SortedCopyUnfold(v[2..]);
    assert SortedCopy(v[2..]) == [-19292.0, 2.0, 3.0, 3.0, 8.0, 8888.0];
    SortedCopyUnfold(v[1..]);
    assert SortedCopy(v[1..]) == [-19292.0, 2.0, 3.0, 3.0, 6.0, 8.0, 8888.0];
    SortedCopyUnfold(v);
  }

  /** The sorted copy of the usage example's sample. */
  lemma UsageExampleSorted()
    ensures SortedCopy([1.0, 6.0, 3.0, 8888.0, 3.0, 2.0, 8.0, -19292.0])
         == [-19292.0, 1.0, 2.0, 3.0, 3.0, 6.0, 8.0, 8888.0]
  {
    UsageExampleSortedValues([1.0, 6.0, 3.0, 8888.0, 3.0, 2.0, 8.0, -19292.0]);
  }

  /** The hinges of the usage example's sorted sample: the medians of
      [-19292, 1, 2, 3] and [3, 6, 8, 8888]. */
  lemma UsageExampleHinges()
    ensures Hinge([-19292.0, 1.0, 2.0, 3.0, 3.0, 6.0, 8.0, 8888.0]) == (1.5, 7.0)
  {
    var order := [-19292.0, 1.0, 2.0, 3.0, 3.0, 6.0, 8.0, 8888.0];
    assert Halves(order) == ([-19292.0, 1.0, 2.0, 3.0], [3.0, 6.0, 8.0, 8888.0]) by {
      assert order[..4] == [-19292.0, 1.0, 2.0, 3.0];
      assert order[4..] == [3.0, 6.0, 8.0, 8888.0];
    }
  }

  /** The usage example's hinges are 1.5 and 7, so its fence is [-6.75, 15.25]. */
  lemma UsageExampleFence()
    ensures Quartiles([1.0, 6.0, 3.0, 8888.0, 3.0, 2.0, 8.0, -19292.0]) == (1.5, 7.0)
    ensures Bounds([1.0, 6.0, 3.0, 8888.0, 3.0, 2.0, 8.0, -19292.0]) == (-6.75, 15.25)
  {
    UsageExampleSorted();
    UsageExampleHinges();
  }

  /** The usage example's fence keeps every value but the two extremes. */
  lemma UsageExampleFilter()
    ensures Filter([1.0, 6.0, 3.0, 8888.0, 3.0, 2.0, 8.0, -19292.0], (-6.75, 15.25))
         == [1.0, 6.0, 3.0, 3.0, 2.0, 8.0]
  {
  }

  /** The usage example: the two extreme values are removed, the rest keep their order. */
  lemma UsageExample()
    ensures Inliers([1.0, 6.0, 3.0, 8888.0, 3.0, 2.0, 8.0, -19292.0])
         == [1.0, 6.0, 3.0, 3.0, 2.0, 8.0]
  {
    UsageExampleFence();
    UsageExampleFilter();
  }

  /** The hinges of `[1, 5, 5, 5, 5, 5, 9]`, given value by value: the sample is already
      ascending, and both of its halves have median 5. */
  lemma EqualHingesQuartiles(v: seq<real>)
    requires |v| == 7 && v[0] == 1.0 && v[6] == 9.0
    requires v[1] == 5.0 && v[2] == 5.0 && v[3] == 5.0 && v[4] == 5.0 && v[5] == 5.0
    ensures Quartiles(v) == (5.0, 5.0)
  {
    assert Sorted(v);
    SortedCopyOfSorted(v);
    assert Halves(v) == (v[..3], v[4..]);
  }

  /** The fence collapsed onto 5 keeps the five 5s of `[1, 5, 5, 5, 5, 5, 9]`, given value by
      value, and drops 1 and 9. */
  lemma EqualHingesFilter(v: seq<real>)
    requires |v| == 7 && v[0] == 1.0 && v[6] == 9.0
    requires v[1] == 5.0 && v[2] == 5.0 && v[3] == 5.0 && v[4] == 5.0 && v[5] == 5.0
    ensures Filter(v, (5.0, 5.0)) == [5.0, 5.0, 5.0, 5.0, 5.0]
  {
    var f := (5.0, 5.0);
    assert Filter(v[7..], f) == [];
    FilterUnfold(v[6..], f);
    assert Filter(v[6..], f) == [];
    FilterUnfold(v[5..], f);
    assert Filter(v[5..], f) == [5.0];
    FilterUnfold(v[4..], f);
    assert Filter(v[4..], f) == [5.0, 5.0];
    FilterUnfold(v[3..], f);
    assert Filter(v[3..], f) == [5.0, 5.0, 5.0];
    FilterUnfold(v[2..], f);
    assert Filter(v[2..], f) == [5.0, 5.0, 5.0, 5.0];
    FilterUnfold(v[1..], f);
    assert Filter(v[1..], f) == [5.0, 5.0, 5.0, 5.0, 5.0];
    FilterUnfold(v, f);
  }

  /** Equal hinges do not in general keep every value: only when the fence, collapsed onto
      the common hinge, holds the whole sample. Here the hinges are both 5 and the values 1
      and 9 are dropped. */
  lemma EqualHingesCanDrop()
    ensures Quartiles([1.0, 5.0, 5.0, 5.0, 5.0, 5.0, 9.0]) == (5.0, 5.0)
    ensures Inliers([1.0, 5.0, 5.0, 5.0, 5.0, 5.0, 9.0]) == [5.0, 5.0, 5.0, 5.0, 5.0]
  {
    EqualHingesQuartiles([1.0, 5.0, 5.0, 5.0, 5.0, 5.0, 9.0]);
    EqualHingesFilter([1.0, 5.0, 5.0, 5.0, 5.0, 5.0, 9.0]);
  }
}
