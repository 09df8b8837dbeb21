/** The order in which rebalanceHelper re-adds the sorted contents of a
    subtree: the midpoint of the range first, then the left half, then the
    right half, each in the same way. */
module Rebuild {

  /** The indices `rebalanceHelper(start, end)` passes to `add`, in call
      order. A range of one or two indices has no left half; otherwise the
      midpoint lies strictly inside. Indices are non-negative, so `/` agrees
      with Java's. */
  function MedianOrder(start: int, end: int): seq<int>
    requires 0 <= start <= end
    decreases end - start
  {
    if start == end then [start]
    else if start + 1 == end then [start, end]
    else
      var middle := (start + end) / 2;
      [middle] + MedianOrder(start, middle - 1) + MedianOrder(middle + 1, end)
  }

  /** The order in rebalanceHelper's own terms: the midpoint, then the left
      half when the midpoint is not the start, then the right half when it is
      not the end. */
  lemma {:induction false} MedianOrderUnfold(start: int, end: int)
    requires 0 <= start <= end
    ensures var middle := (start + end) / 2;
      start <= middle <= end &&
      MedianOrder(start, end) ==
        [middle]
        + (if middle != start then MedianOrder(start, middle - 1) else [])
        + (if middle != end then MedianOrder(middle + 1, end) else [])
  {
    if start + 1 == end {
      assert MedianOrder(end, end) == [end];
    }
  }

  /** The orders of the two halves around `middle`, left then right; a
      half is empty when `middle` is the range's end on that side. */
  function Halves(start: int, middle: int, end: int): seq<int>
    requires 0 <= start <= middle <= end
  {
    (if middle != start then MedianOrder(start, middle - 1) else [])
    + (if middle != end then MedianOrder(middle + 1, end) else [])
  }

  /** The order of a range is its midpoint followed by the orders of the
      two halves. */
  lemma {:induction false} MedianOrderJoin(start: int, end: int)
    requires 0 <= start <= end
    ensures var middle := (start + end) / 2;
      start <= middle <= end && MedianOrder(start, end) == [middle] + Halves(start, middle, end)
  {
    MedianOrderUnfold(start, end);
    var middle := (start + end) / 2;
    AppendAssoc([middle], if middle != start then MedianOrder(start, middle - 1) else [],
                if middle != end then MedianOrder(middle + 1, end) else []);
  }

  lemma {:induction false} AppendAssoc(a: seq<int>, b: seq<int>, c: seq<int>)
    ensures a + (b + c) == a + b + c
  {
  }

  predicate NoRepeats(s: seq<int>)
  {
    forall i, j :: 0 <= i < j < |s| ==> s[i] != s[j]
  }

  /** A middle element followed by repeat-free runs below and above it has
      no repeats. */
  lemma {:induction false} NoRepeatsJoin(m: int, a: seq<int>, b: seq<int>)
    requires NoRepeats(a) && NoRepeats(b)
    requires forall k :: 0 <= k < |a| ==> a[k] < m
    requires forall k :: 0 <= k < |b| ==> m < b[k]
    ensures NoRepeats([m] + a + b)
  {
    var s := [m] + a + b;
    forall i, j | 0 <= i < j < |s| ensures s[i] != s[j] {
      if i == 0 {
        if j <= |a| {
          assert s[j] == a[j - 1];
        } else {
          assert s[j] == b[j - 1 - |a|];
        }
      } else if j <= |a| {
        assert s[i] == a[i - 1] && s[j] == a[j - 1];
      } else if i <= |a| {
        assert s[i] == a[i - 1] && s[j] == b[j - 1 - |a|];
      } else {
        assert s[i] == b[i - 1 - |a|] && s[j] == b[j - 1 - |a|];
      }
    }
  }

  /** The calls stay inside the range and number one per index. */
  lemma {:induction false} MedianOrderBounds(start: int, end: int)
    requires 0 <= start <= end
    ensures |MedianOrder(start, end)| == end - start + 1
    ensures forall k :: 0 <= k < |MedianOrder(start, end)| ==> start <= MedianOrder(start, end)[k] <= end
    decreases end - start
  {
    if start + 1 < end {
      var middle := (start + end) / 2;
      MedianOrderBounds(start, middle - 1);
      MedianOrderBounds(middle + 1, end);
      JoinBounds(start, middle, end, MedianOrder(start, middle - 1), MedianOrder(middle + 1, end));
    }
  }

  lemma {:induction false} JoinBounds(start: int, middle: int, end: int, a: seq<int>, b: seq<int>)
    requires start <= middle <= end
    requires forall k :: 0 <= k < |a| ==> start <= a[k] < middle
    requires forall k :: 0 <= k < |b| ==> middle < b[k] <= end
    ensures forall k :: 0 <= k < |[middle] + a + b| ==> start <= ([middle] + a + b)[k] <= end
  {
    var s := [middle] + a + b;
    forall k | 0 <= k < |s| ensures start <= s[k] <= end {
      if 0 < k <= |a| {
        assert s[k] == a[k - 1];
      } else if k > |a| {
        assert s[k] == b[k - 1 - |a|];
      }
    }
  }

  /** Every index of the range is called. */
  lemma {:induction false} MedianOrderCovers(start: int, end: int, i: int)
    requires 0 <= start <= i <= end
    ensures i in MedianOrder(start, end)
    decreases end - start
  {
    if start + 1 < end {
      var middle := (start + end) / 2;
      if i < middle {
        MedianOrderCovers(start, middle - 1, i);
      } else if i > middle {
        MedianOrderCovers(middle + 1, end, i);
      }
    }
  }

  lemma {:induction false} MedianOrderNoRepeats(start: int, end: int)
    requires 0 <= start <= end
    ensures NoRepeats(MedianOrder(start, end))
    decreases end - start
  {
    if start + 1 < end {
      var middle := (start + end) / 2;
      var a, b := MedianOrder(start, middle - 1), MedianOrder(middle + 1, end);
      MedianOrderNoRepeats(start, middle - 1);
      MedianOrderBounds(start, middle - 1);
      MedianOrderNoRepeats(middle + 1, end);
      MedianOrderBounds(middle + 1, end);
      NoRepeatsJoin(middle, a, b);
    }
  }

  /** Every index of the range is added exactly once, the midpoint first. */
  lemma {:induction false} MedianOrderIsPermutation(start: int, end: int)
    requires 0 <= start <= end
    ensures |MedianOrder(start, end)| == end - start + 1
    ensures forall i :: start <= i <= end ==> i in MedianOrder(start, end)
    ensures forall k :: 0 <= k < |MedianOrder(start, end)| ==> start <= MedianOrder(start, end)[k] <= end
    ensures NoRepeats(MedianOrder(start, end))
    ensures MedianOrder(start, end)[0] == (start + end) / 2
  {
    MedianOrderUnfold(start, end);
    MedianOrderBounds(start, end);
    forall i | start <= i <= end ensures i in MedianOrder(start, end) {
      MedianOrderCovers(start, end, i);
    }
    MedianOrderNoRepeats(start, end);
  }
}
