/** The ordering step of the filter: a sorted copy of the sample.
    The sample's values are exact reals, so every pair of values is comparable
    and the "not a number" case of the original comparator cannot arise. */
module Sorting {

  /** Ascending order: no later element is smaller than an earlier one. */
  predicate Sorted(s: seq<real>)
  {
    forall i, j :: 0 <= i < j < |s| ==> s[i] <= s[j]
  }

  /** Places `x` before the first element of `s` that is not smaller than it. */
  function Insert(x: real, s: seq<real>): (r: seq<real>)
    ensures |r| == |s| + 1
  {
    if s == [] || x <= s[0] then [x] + s else [s[0]] + Insert(x, s[1..])
  }

  /** A value at most every element of an ascending sequence can be put in front of it. */
  lemma SortedCons(y: real, r: seq<real>)
    requires Sorted(r)
    requires forall k :: 0 <= k < |r| ==> y <= r[k]
    ensures Sorted([y] + r)
  {
  }

  /** Inserting adds exactly `x` to the multiset of values. */
  lemma {:induction false} InsertPermutation(x: real, s: seq<real>)
    ensures multiset(Insert(x, s)) == multiset(s) + multiset{x}
  {
    if s != [] && x > s[0] {
      InsertPermutation(x, s[1..]);
      assert s == [s[0]] + s[1..];
      assert Insert(x, s) == [s[0]] + Insert(x, s[1..]);
    } else {
      assert Insert(x, s) == [x] + s;
    }
  }

  /** A lower bound of `x` and of every element of `s` bounds every element after inserting. */
  lemma {:induction false} InsertLowerBound(y: real, x: real, s: seq<real>)
    requires y <= x
    requires forall k :: 0 <= k < |s| ==> y <= s[k]
    ensures forall k :: 0 <= k < |Insert(x, s)| ==> y <= Insert(x, s)[k]
  {
    if s != [] && x > s[0] {
      InsertLowerBound(y, x, s[1..]);
      assert Insert(x, s) == [s[0]] + Insert(x, s[1..]);
    } else {
      assert Insert(x, s) == [x] + s;
    }
  }

  /** Inserting into an ascending sequence keeps it ascending. */
  lemma {:induction false} InsertSorted(x: real, s: seq<real>)
    requires Sorted(s)
    ensures Sorted(Insert(x, s))
  {
    if s != [] && x > s[0] {
      SortedTail(s);
      InsertSorted(x, s[1..]);
      InsertLowerBound(s[0], x, s[1..]);
      SortedCons(s[0], Insert(x, s[1..]));
      assert Insert(x, s) == [s[0]] + Insert(x, s[1..]);
    } else {
      SortedCons(x, s);
      assert Insert(x, s) == [x] + s;
    }
  }

  /** The reference sorted copy of a sample, by repeated insertion. */
  function SortedCopy(s: seq<real>): (r: seq<real>)
    ensures |r| == |s|
  {
    if s == [] then [] else Insert(s[0], SortedCopy(s[1..]))
  }

  /** The sorted copy is ascending. */
  lemma {:induction false} SortedCopySorted(s: seq<real>)
    ensures Sorted(SortedCopy(s))
  {
    if s != [] {
      SortedCopySorted(s[1..]);
      InsertSorted(s[0], SortedCopy(s[1..]));
    }
  }

  /** The sorted copy holds the sample's values with their multiplicities. */
  lemma {:induction false} SortedCopyPermutation(s: seq<real>)
    ensures multiset(SortedCopy(s)) == multiset(s)
  {
    if s != [] {
      SortedCopyPermutation(s[1..]);
      InsertPermutation(s[0], SortedCopy(s[1..]));
      assert s == [s[0]] + s[1..];
    }
  }

  /** The sorted copy is an ascending permutation of the sample. */
  lemma SortedCopySortedPermutation(s: seq<real>)
    ensures Sorted(SortedCopy(s))
    ensures multiset(SortedCopy(s)) == multiset(s)
  {
    SortedCopySorted(s);
    SortedCopyPermutation(s);
  }

  /** The first element of an ascending sequence is at most any of its values. */
  lemma SortedHeadIsLeast(s: seq<real>, x: real)
    requires Sorted(s)
    requires x in s
    ensures s[0] <= x
  {
    var j :| 0 <= j < |s| && s[j] == x;
  }

  /** Every slice of an ascending sequence is ascending. */
  lemma SortedSlice(s: seq<real>, lo: int, hi: int)
    requires 0 <= lo <= hi <= |s|
    requires Sorted(s)
    ensures Sorted(s[lo..hi])
  {
  }

  /** The tail of an ascending sequence is ascending. */
  lemma SortedTail(s: seq<real>)
    requires s != []
    requires Sorted(s)
    ensures Sorted(s[1..])
  {
  }

  /** Removing equal heads from two sequences with the same multiset leaves tails with the
      same multiset. */
  lemma MultisetTails(a: seq<real>, b: seq<real>)
    requires a != [] && b != []
    requires a[0] == b[0]
    requires multiset(a) == multiset(b)
    ensures multiset(a[1..]) == multiset(b[1..])
  {
    assert a == [a[0]] + a[1..];
    assert b == [b[0]] + b[1..];
    calc {
      multiset(a[1..]);
      multiset(a) - multiset{a[0]};
      multiset(b) - multiset{b[0]};
      multiset(b[1..]);
    }
  }

  /** A sample has exactly one ascending arrangement: two sorted sequences holding the same
      values with the same multiplicities are equal. Hence the filter's result does not depend
      on which sorting algorithm produced the ordered copy. */
  lemma {:induction false} SortedPermutationUnique(a: seq<real>, b: seq<real>)
    requires Sorted(a) && Sorted(b)
    requires multiset(a) == multiset(b)
    ensures a == b
  {
    assert |a| == |multiset(a)| == |multiset(b)| == |b|;
    if a != [] {
      assert a[0] in multiset(b) && b[0] in multiset(a);
      SortedHeadIsLeast(b, a[0]);
      SortedHeadIsLeast(a, b[0]);
      MultisetTails(a, b);
      SortedTail(a);
      SortedTail(b);
      SortedPermutationUnique(a[1..], b[1..]);
      assert a == [a[0]] + a[1..] && b == [b[0]] + b[1..];
    }
  }

  /** Sorting an ascending sample changes nothing. */
  lemma SortedCopyOfSorted(s: seq<real>)
    requires Sorted(s)
    ensures SortedCopy(s) == s
  {
    SortedCopySortedPermutation(s);
    SortedPermutationUnique(SortedCopy(s), s);
  }

  /** The state of `InsertInto` while it moves the value at `j` leftwards: apart from
      position `j`, the prefix `s[..i + 1]` is ascending, and the value at `j` is at most
      every value after it in that prefix. */
  predicate Sifting(s: seq<real>, i: nat, j: nat)
  {
    j <= i < |s|
    && (forall p, q :: 0 <= p < q <= i && p != j && q != j ==> s[p] <= s[q])
    && (forall q :: j < q <= i ==> s[j] <= s[q])
  }

  /** Swapping the moving value with a larger left neighbour keeps the sifting state, one
      place further left, and keeps the multiset. */
  lemma SiftingSwap(s: seq<real>, i: nat, j: nat)
    requires Sifting(s, i, j)
    requires 0 < j && s[j - 1] > s[j]
    ensures Sifting(s[j - 1 := s[j]][j := s[j - 1]], i, j - 1)
    ensures multiset(s[j - 1 := s[j]][j := s[j - 1]]) == multiset(s)
  {
  }

  /** Once the moving value has reached the front or a neighbour not larger than it, the
      prefix is ascending. */
  lemma SiftingDone(s: seq<real>, i: nat, j: nat)
    requires Sifting(s, i, j)
    requires j == 0 || s[j - 1] <= s[j]
    ensures Sorted(s[..i + 1])
  {
  }

  /** Moves `a[i]` left past every larger element, so that the prefix `a[..i + 1]` becomes
      ascending when `a[..i]` already was. Elements from `i + 1` on are untouched. */
  method InsertInto(a: array<real>, i: nat)
    requires i < a.Length
    requires Sorted(a[..i])
    modifies a
    ensures Sorted(a[..i + 1])
    ensures multiset(a[..]) == multiset(old(a[..]))
    ensures a[i + 1..] == old(a[i + 1..])
  {
    var j: nat := i;
    assert Sifting(a[..], i, j);
    while j > 0 && a[j - 1] > a[j]
      invariant Sifting(a[..], i, j)
      invariant multiset(a[..]) == multiset(old(a[..]))
      invariant a[i + 1..] == old(a[i + 1..])
    {
      SiftingSwap(a[..], i, j);
      a[j - 1], a[j] := a[j], a[j - 1];
      j := j - 1;
    }
    SiftingDone(a[..], i, j);
  }

  /** Sorts `a` in place by insertion. Afterwards `a` holds the reference sorted copy of what
      it held before. */
  method SortInPlace(a: array<real>)
    modifies a
    ensures Sorted(a[..])
    ensures multiset(a[..]) == multiset(old(a[..]))
    ensures a[..] == SortedCopy(old(a[..]))
  {
    var i := 0;
    while i < a.Length
      invariant 0 <= i <= a.Length
      invariant Sorted(a[..i])
      invariant multiset(a[..]) == multiset(old(a[..]))
    {
      InsertInto(a, i);
      i := i + 1;
    }
    assert a[..a.Length] == a[..];
    SortedCopySortedPermutation(old(a[..]));
    SortedPermutationUnique(a[..], SortedCopy(old(a[..])));
  }
}
