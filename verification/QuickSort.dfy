/** The quicksort of the GC-info encoder: it recurses on the smaller partition and loops on the larger. */
module QuickSort {

  /** The comparison is a total preorder: its sign is antisymmetric and "not greater" is transitive. */
  ghost predicate TotalPreorder<T(!new)>(compare: (T, T) -> int)
  {
    && (forall x, y :: compare(x, y) < 0 <==> compare(y, x) > 0)
    && (forall x, y, z :: compare(x, y) <= 0 && compare(y, z) <= 0 ==> compare(x, z) <= 0)
  }

  ghost predicate Sorted<T>(compare: (T, T) -> int, s: seq<T>)
  {
    forall i, j :: 0 <= i < j < |s| ==> compare(s[i], s[j]) <= 0
  }

  function Pow2(n: nat): nat
  {
    if n == 0 then 1 else 2 * Pow2(n - 1)
  }

  /** Outside a range two sequences agree, and inside it one permutes the other. */
  ghost predicate PermutesRange<T>(s: seq<T>, t: seq<T>, left: nat, right: nat)
    requires left <= right <= |s| && |s| == |t|
  {
    s[..left] == t[..left] && s[right..] == t[right..] && multiset(s[left..right]) == multiset(t[left..right])
  }

  lemma PermutesRangeTransitive<T>(s: seq<T>, t: seq<T>, u: seq<T>, left: nat, right: nat)
    requires left <= right <= |s| && |s| == |t| == |u|
    requires PermutesRange(s, t, left, right) && PermutesRange(t, u, left, right)
    ensures PermutesRange(s, u, left, right)
  {
  }

  /** Permuting a smaller range permutes the larger one. */
  lemma PermutesWider<T>(s: seq<T>, t: seq<T>, left: nat, l: nat, r: nat, right: nat)
    requires left <= l <= r <= right <= |s| && |s| == |t| && PermutesRange(s, t, l, r)
    ensures PermutesRange(s, t, left, right)
  {
    assert s[..left] == s[..l][..left] && t[..left] == t[..l][..left];
    assert s[right..] == s[r..][right - r..] && t[right..] == t[r..][right - r..];
    Split(s, left, l, r, right);
    Split(t, left, l, r, right);
    assert s[left..l] == s[..l][left..] && t[left..l] == t[..l][left..];
    assert s[r..right] == s[r..][..right - r] && t[r..right] == t[r..][..right - r];
  }

  lemma Split<T>(s: seq<T>, left: nat, l: nat, r: nat, right: nat)
    requires left <= l <= r <= right <= |s|
    ensures s[left..right] == s[left..l] + s[l..r] + s[r..right]
    ensures multiset(s[left..right]) == multiset(s[left..l]) + multiset(s[l..r]) + multiset(s[r..right])
  {
    assert s[left..right] == s[left..l] + s[l..r] + s[r..right];
  }

  lemma SwapPermutes<T>(s: seq<T>, i: nat, j: nat, left: nat, right: nat)
    requires left <= i < right <= |s| && left <= j < right
    ensures PermutesRange(s, s[i := s[j]][j := s[i]], left, right)
  {
    var t := s[i := s[j]][j := s[i]];
    var u, v := s[left..right], t[left..right];
    assert v == u[i - left := u[j - left]][j - left := u[i - left]];
  }

  lemma SwapKeepsPermuting<T>(original: seq<T>, s: seq<T>, i: nat, j: nat, left: nat, right: nat)
    requires left <= i < right <= |s| == |original| && left <= j < right && PermutesRange(original, s, left, right)
    ensures PermutesRange(original, s[i := s[j]][j := s[i]], left, right)
  {
    SwapPermutes(s, i, j, left, right);
    PermutesRangeTransitive(original, s, s[i := s[j]][j := s[i]], left, right);
  }

  /** What holds of every element of a range holds after permuting it. */
  lemma PermutedMembers<T>(s: seq<T>, t: seq<T>, left: nat, right: nat, k: nat)
    requires left <= k < right <= |s| && |s| == |t| && PermutesRange(s, t, left, right)
    ensures t[k] in s[left..right]
  {
    assert t[k] == t[left..right][k - left];
    assert t[k] in multiset(t[left..right]);
  }

  // ---------------------------------------------------------------------------
  // Placing pivots
  // ---------------------------------------------------------------------------

  /** Nothing from left up to the pivot at last compares greater than it, and nothing after it,
      up to right, compares less. */
  ghost predicate Partitioned<T>(compare: (T, T) -> int, s: seq<T>, left: int, last: int, right: int)
    requires 0 <= left <= last <= right < |s|
  {
    && (forall k :: left <= k < last ==> compare(s[k], s[last]) <= 0)
    && (forall k :: last < k <= right ==> compare(s[k], s[last]) >= 0)
  }

  /** Between lo and hi, every pair with an element outside left to right is in order. */
  ghost predicate Placed<T>(compare: (T, T) -> int, s: seq<T>, lo: int, left: int, right: int, hi: int)
    requires 0 <= lo <= left <= right + 1 <= hi + 1 <= |s|
  {
    forall i, j :: lo <= i < j <= hi && (i < left || right < j) ==> compare(s[i], s[j]) <= 0
  }

  lemma PlacedPermuted<T>(compare: (T, T) -> int, s: seq<T>, t: seq<T>, lo: int, left: int, right: int, hi: int)
    requires 0 <= lo <= left <= right + 1 <= hi + 1 <= |s| == |t|
    requires Placed(compare, s, lo, left, right, hi) && PermutesRange(s, t, left, right + 1)
    ensures Placed(compare, t, lo, left, right, hi)
  {
    forall i, j | lo <= i < j <= hi && (i < left || right < j) ensures compare(t[i], t[j]) <= 0 {
      var k := PermutedFrom(s, t, left, right, i);
      var l := PermutedFrom(s, t, left, right, j);
      assert compare(s[k], s[l]) <= 0;
    }
  }

  /** Where an element of the permuted sequence stood before, on the same side of the range. */
  lemma PermutedFrom<T>(s: seq<T>, t: seq<T>, left: int, right: int, i: int) returns (k: int)
    requires 0 <= left <= right + 1 <= |s| == |t| && 0 <= i < |s| && PermutesRange(s, t, left, right + 1)
    ensures if left <= i <= right then left <= k <= right else k == i
    ensures 0 <= k < |s| && t[i] == s[k]
  {
    if left <= i <= right {
      PermutedMembers(s, t, left, right + 1, i);
      var j :| 0 <= j < right + 1 - left && s[left..right + 1][j] == t[i];
      k := left + j;
    } else {
      k := i;
      if i < left {
        assert s[i] == s[..left][i] == t[..left][i];
      } else {
        assert s[i] == s[right + 1..][i - right - 1] == t[right + 1..][i - right - 1];
      }
    }
  }

  /** Permuting one side leaves the pivot in its place. */
  lemma PartitionedPermuted<T>(compare: (T, T) -> int, s: seq<T>, t: seq<T>,
                            left: int, last: int, right: int, l: int, r: int)
    requires 0 <= left <= last <= right < |s| == |t| && Partitioned(compare, s, left, last, right)
    requires (l == left && r == last - 1) || (l == last + 1 && r == right)
    requires PermutesRange(s, t, l, r + 1)
    ensures Partitioned(compare, t, left, last, right)
  {
    forall k | left <= k <= right
      ensures k == last || if k < last then compare(t[k], t[last]) <= 0 else compare(t[k], t[last]) >= 0 {
      var j := PermutedFrom(s, t, l, r, k);
      var p := PermutedFrom(s, t, l, r, last);
      if k < last {
        assert compare(s[j], s[last]) <= 0;
      } else if k > last {
        assert compare(s[j], s[last]) >= 0;
      }
    }
  }

  /** Once the left side is sorted, the pivot and everything before it are placed. */
  lemma LeftPlaced<T(!new)>(compare: (T, T) -> int, s: seq<T>, lo: int, left: int, last: int, right: int, hi: int)
    requires TotalPreorder(compare) && 0 <= lo <= left <= last <= right <= hi < |s|
    requires Placed(compare, s, lo, left, right, hi) && Partitioned(compare, s, left, last, right)
    requires Sorted(compare, s[left..last])
    ensures Placed(compare, s, lo, last + 1, right, hi)
  {
    forall i, j | lo <= i < j <= hi && i <= last && left <= i && j <= right ensures compare(s[i], s[j]) <= 0 {
      if j < last {
        assert compare(s[left..last][i - left], s[left..last][j - left]) <= 0;
      } else if i < last < j {
        assert compare(s[i], s[last]) <= 0 && compare(s[last], s[j]) <= 0;
      }
    }
  }

  /** Once the right side is sorted, the pivot and everything after it are placed. */
  lemma RightPlaced<T(!new)>(compare: (T, T) -> int, s: seq<T>, lo: int, left: int, last: int, right: int, hi: int)
    requires TotalPreorder(compare) && 0 <= lo <= left <= last <= right <= hi < |s|
    requires Placed(compare, s, lo, left, right, hi) && Partitioned(compare, s, left, last, right)
    requires Sorted(compare, s[last + 1..right + 1])
    ensures Placed(compare, s, lo, left, last - 1, hi)
  {
    forall i, j | lo <= i < j <= hi && last <= j && left <= i && j <= right ensures compare(s[i], s[j]) <= 0 {
      if last < i {
        assert compare(s[last + 1..right + 1][i - last - 1], s[last + 1..right + 1][j - last - 1]) <= 0;
      } else if i < last < j {
        assert compare(s[i], s[last]) <= 0 && compare(s[last], s[j]) <= 0;
      }
    }
  }

  class CQuickSort<T(!new)> {
    const base: array<T>
    const compare: (T, T) -> int

    constructor (base: array<T>, compare: (T, T) -> int)
      ensures this.base == base && this.compare == compare
    {
      this.base, this.compare := base, compare;
    }

    /** The array ends sorted and permuted, and recursive calls nest at most log2(n + 1) deep. */
    method Sort() returns (ghost depth: nat)
      requires TotalPreorder(compare)
      modifies base
      ensures Sorted(compare, base[..])
      ensures multiset(base[..]) == multiset(old(base[..]))
      ensures Pow2(depth) <= base.Length + 1
    {
      depth := SortRange(0, base.Length - 1);
      assert base[..] == base[..][0..base.Length] && old(base[..]) == old(base[..])[0..base.Length];
    }

    method Swap(first: nat, second: nat)
      requires first < base.Length && second < base.Length
      modifies base
      ensures base[..] == old(base[..])[first := old(base[second])][second := old(base[first])]
    {
      if first == second {
        return;
      }
      var temp := base[first];
      base[first] := base[second];
      base[second] := temp;
    }

    /** A swap inside a range, seen from the sequence the partition started with. */
    method SwapWithin(first: nat, second: nat, ghost original: seq<T>, ghost left: nat, ghost right: nat)
      requires left <= first <= right < base.Length && left <= second <= right
      requires |original| == base.Length && PermutesRange(original, base[..], left, right + 1)
      modifies base
      ensures base[first] == old(base[second]) && base[second] == old(base[first])
      ensures forall k :: 0 <= k < base.Length && k != first && k != second ==> base[k] == old(base[k])
      ensures PermutesRange(original, base[..], left, right + 1)
    {
      ghost var s := base[..];
      SwapKeepsPermuting(original, s, first, second, left, right + 1);
      Swap(first, second);
      assert forall k :: 0 <= k < base.Length ==> base[k] == base[..][k] && s[k] == old(base[k]);
    }

    /** The middle element becomes the pivot and ends between the smaller and the other elements. */
    method Partition(left: nat, right: nat) returns (last: nat)
      requires left < right < base.Length
      modifies base
      ensures left <= last <= right && Partitioned(compare, base[..], left, last, right)
      ensures PermutesRange(old(base[..]), base[..], left, right + 1)
    {
      ghost var original := base[..];
      SwapWithin(left, (left + right) / 2, original, left, right);
      last := left;
      for i := left + 1 to right + 1
        invariant left <= last < i
        invariant forall k :: left < k <= last ==> compare(base[k], base[left]) < 0
        invariant forall k :: last < k < i ==> compare(base[k], base[left]) >= 0
        invariant PermutesRange(original, base[..], left, right + 1)
      {
        if compare(base[i], base[left]) < 0 {
          last := last + 1;
          SwapWithin(i, last, original, left, right);
        }
      }
      SwapWithin(left, last, original, left, right);
    }

    /** Sorts the elements from left0 to right0, both included; nothing outside moves. */
    method SortRange(left0: int, right0: int) returns (ghost depth: nat)
      requires TotalPreorder(compare) && 0 <= left0 <= right0 + 1 <= base.Length
      modifies base
      ensures Sorted(compare, base[..][left0..right0 + 1])
      ensures PermutesRange(old(base[..]), base[..], left0, right0 + 1)
      ensures Pow2(depth) <= right0 - left0 + 2
      decreases right0 - left0 + 1
    {
      var left, right := left0, right0;
      depth := 0;
      while left < right
        invariant left0 <= left <= right + 1 <= right0 + 1
        invariant PermutesRange(old(base[..]), base[..], left0, right0 + 1)
        invariant Placed(compare, base[..], left0, left, right, right0)
        invariant Pow2(depth) <= right0 - left0 + 2
        decreases right - left
      {
        ghost var inner;
        left, right, inner := SortStep(left, right, left0, right0, old(base[..]));
        depth := if inner + 1 > depth then inner + 1 else depth;
      }
    }

    /** One turn of the loop: partition, sort the smaller side, go on with the larger one. */
    method SortStep(left0: int, right0: int, ghost lo: int, ghost hi: int, ghost original: seq<T>)
      returns (left: int, right: int, ghost inner: nat)
      requires TotalPreorder(compare) && 0 <= lo <= left0 < right0 <= hi < base.Length
      requires Placed(compare, base[..], lo, left0, right0, hi)
      requires |original| == base.Length && PermutesRange(original, base[..], lo, hi + 1)
      modifies base
      ensures left0 <= left <= right + 1 <= right0 + 1 && right - left < right0 - left0
      ensures Placed(compare, base[..], lo, left, right, hi)
      ensures PermutesRange(original, base[..], lo, hi + 1)
      ensures 2 * Pow2(inner) <= right0 - left0 + 2
      decreases right0 - left0, 0
    {
      var last := PartitionInPlace(left0, right0, lo, hi, original);
      var leftLast, rightFirst := last - 1, last + 1;
      ghost var s := base[..];
      if leftLast - left0 < right0 - rightFirst {
        inner := SortRange(left0, leftLast);
        AfterSide(original, s, base[..], lo, left0, last, right0, hi, left0, leftLast);
        LeftPlaced(compare, base[..], lo, left0, last, right0, hi);
        left, right := rightFirst, right0;
      } else {
        inner := SortRange(rightFirst, right0);
        AfterSide(original, s, base[..], lo, left0, last, right0, hi, rightFirst, right0);
        RightPlaced(compare, base[..], lo, left0, last, right0, hi);
        left, right := left0, leftLast;
      }
    }

    /** Partitioning a range inside a larger one whose other elements are placed. */
    method PartitionInPlace(left: int, right: int, ghost lo: int, ghost hi: int, ghost original: seq<T>)
      returns (last: int)
      requires 0 <= lo <= left < right <= hi < base.Length && Placed(compare, base[..], lo, left, right, hi)
      requires |original| == base.Length && PermutesRange(original, base[..], lo, hi + 1)
      modifies base
      ensures left <= last <= right && Partitioned(compare, base[..], left, last, right)
      ensures Placed(compare, base[..], lo, left, right, hi) && PermutesRange(original, base[..], lo, hi + 1)
    {
      ghost var s := base[..];
      last := Partition(left, right);
      PartitionKeepsPlaced(original, s, base[..], lo, left, right, hi);
    }

    lemma PartitionKeepsPlaced(original: seq<T>, s: seq<T>, t: seq<T>, lo: int, left: int, right: int, hi: int)
      requires 0 <= lo <= left <= right <= hi < |s| && |s| == |t| == |original|
      requires Placed(compare, s, lo, left, right, hi) && PermutesRange(original, s, lo, hi + 1)
      requires PermutesRange(s, t, left, right + 1)
      ensures Placed(compare, t, lo, left, right, hi) && PermutesRange(original, t, lo, hi + 1)
    {
      PlacedPermuted(compare, s, t, lo, left, right, hi);
      PermutesWider(s, t, lo, left, right + 1, hi + 1);
      PermutesRangeTransitive(original, s, t, lo, hi + 1);
    }

    lemma AfterSide(s0: seq<T>, s1: seq<T>, s2: seq<T>,
                    lo: int, left: int, last: int, right: int, hi: int, l: int, r: int)
      requires 0 <= lo <= left <= last <= right <= hi < |s0| == |s1| == |s2|
      requires (l == left && r == last - 1) || (l == last + 1 && r == right)
      requires Placed(compare, s1, lo, left, right, hi) && Partitioned(compare, s1, left, last, right)
      requires PermutesRange(s0, s1, lo, hi + 1) && PermutesRange(s1, s2, l, r + 1)
      ensures Placed(compare, s2, lo, left, right, hi) && Partitioned(compare, s2, left, last, right)
      ensures PermutesRange(s0, s2, lo, hi + 1)
    {
      SidePlaced(s1, s2, lo, left, right, hi, l, r);
      PartitionedPermuted(compare, s1, s2, left, last, right, l, r);
      SidePermutes(s0, s1, s2, lo, l, r, hi);
    }

    lemma SidePlaced(s1: seq<T>, s2: seq<T>, lo: int, left: int, right: int, hi: int, l: int, r: int)
      requires 0 <= lo <= left <= l <= r + 1 <= right + 1 <= hi + 1 <= |s1| == |s2|
      requires Placed(compare, s1, lo, left, right, hi) && PermutesRange(s1, s2, l, r + 1)
      ensures Placed(compare, s2, lo, left, right, hi)
    {
      PermutesWider(s1, s2, left, l, r + 1, right + 1);
      PlacedPermuted(compare, s1, s2, lo, left, right, hi);
    }

    lemma SidePermutes(s0: seq<T>, s1: seq<T>, s2: seq<T>, lo: int, l: int, r: int, hi: int)
      requires 0 <= lo <= l <= r + 1 <= hi + 1 <= |s0| == |s1| == |s2|
      requires PermutesRange(s0, s1, lo, hi + 1) && PermutesRange(s1, s2, l, r + 1)
      ensures PermutesRange(s0, s2, lo, hi + 1)
    {
      PermutesWider(s1, s2, lo, l, r + 1, hi + 1);
      PermutesRangeTransitive(s0, s1, s2, lo, hi + 1);
    }
  }
}
