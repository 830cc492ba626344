/**
 * The sort the exercise creator applies to the scene's rings before stacking them: a quicksort
 * by size indicator over a list of rings, in place.
 *
 * The sort as written (QuickSortMethod and partition) is modelled twice: by the functions
 * PartitionAsWritten and QuickSortAsWritten, which follow its loops and branches step by step,
 * and by the in-place methods PartitionInPlace and QuickSortInPlace, proved to do exactly what
 * those functions say. Two of its results are not what its comment promises (an ascending
 * order): three rings of sizes 3, 1, 2 come out as 2, 1, 3, and a single ring makes partition
 * read the index -1. PartitionBySize and SortBySize are the corrected sort, proved to order
 * the rings and to keep them.
 */
module RingSorts {

  import opened Wrappers
  import opened SelectableRings

  /** Ascending size indicators between lo and hi. */
  ghost predicate SortedBetween(s: seq<SelectableRing>, lo: int, hi: int)
  {
    forall i, j | lo <= i < j < hi && 0 <= i && j < |s| :: s[i].sizeIndicator <= s[j].sizeIndicator
  }

  /** Ascending size indicators: the order the sort's comment promises. */
  ghost predicate SortedBySize(s: seq<SelectableRing>)
  {
    SortedBetween(s, 0, |s|)
  }

  /** The swap partition performs with a temporary. */
  function Swap(s: seq<SelectableRing>, i: int, j: int): (t: seq<SelectableRing>)
    requires 0 <= i < |s| && 0 <= j < |s|
    ensures |t| == |s| && t[i] == s[j] && t[j] == s[i]
  {
    s[i := s[j]][j := s[i]]
  }

  // ---------------------------------------------------------------------------------------
  // The sort as written, as functions
  // ---------------------------------------------------------------------------------------

  /** The first inner loop of partition: left moves past rings no larger than the pivot, but
      never up to right. */
  function ScanUp(s: seq<SelectableRing>, left: int, right: int, pivot: int): (l: int)
    requires 0 <= left < right < |s|
    ensures left <= l < right
    ensures s[l].sizeIndicator <= pivot ==> l + 1 >= right
    decreases right - left
  {
    if s[left].sizeIndicator <= pivot && left + 1 < right then ScanUp(s, left + 1, right, pivot)
    else left
  }

  /** The second inner loop of partition: right moves back past rings larger than the pivot,
      but never down to left. */
  function ScanDown(s: seq<SelectableRing>, left: int, right: int, pivot: int): (r: int)
    requires 0 <= left < right < |s|
    ensures left < r <= right
    ensures s[r].sizeIndicator > pivot ==> r - 1 <= left
    decreases right
  {
    if s[right].sizeIndicator > pivot && right - 1 > left then ScanDown(s, left, right - 1, pivot)
    else right
  }

  /** The state partition's outer loop leaves: the rings and the two cursors. */
  datatype Scan = Scan(rings: seq<SelectableRing>, left: int, right: int)

  /** The outer loop of partition: scan from both sides and swap a larger ring on the left with
      a ring no larger than the pivot on the right, until the cursors meet. */
  function Sweep(s: seq<SelectableRing>, left: int, right: int, pivot: int): (r: Scan)
    requires 0 <= left <= right + 1 && right < |s|
    ensures |r.rings| == |s|
    ensures left <= r.left <= r.right + 1 && r.right <= right && r.left + 1 >= r.right
    ensures left <= right ==> r.left <= r.right
    decreases right - left
  {
    if left + 1 < right then
      var l := ScanUp(s, left, right, pivot);
      var r := ScanDown(s, l, right, pivot);
      if s[l].sizeIndicator > pivot && s[r].sizeIndicator <= pivot then Sweep(Swap(s, l, r), l + 1, r, pivot)
      else Sweep(s, l, r, pivot)
    else Scan(s, left, right)
  }

  /** What partition hands back: the rings and the position it reports for the pivot. */
  datatype Parted = Parted(rings: seq<SelectableRing>, pivotAt: int)

  /** partition(target, start, end) as written: the last ring of the range is the pivot, the
      cursors start at start and end - 2, and after the sweep the pivot is swapped with the
      left cursor's ring if that is larger, else with the right cursor's ring if that is
      larger, else it stays. None is the exception the list throws when the right cursor is
      -1, which happens exactly for the range [0, 1). For any other one-ring range the right
      cursor is start - 1, outside the range, and the pivot may be swapped with it. */
  function PartitionAsWritten(s: seq<SelectableRing>, start: int, end: int): (r: Option<Parted>)
    requires 0 <= start < end <= |s|
    ensures r.None? <==> start == 0 && end == 1
    ensures r.Some? ==> |r.value.rings| == |s|
    ensures r.Some? ==> start - 1 <= r.value.pivotAt < end
    ensures r.Some? && r.value.pivotAt == start - 1 ==>
      end == start + 1 && s[start - 1].sizeIndicator > s[start].sizeIndicator && r.value.rings == Swap(s, start - 1, start)
  {
    var swept := Sweep(s, start, end - 2, s[end - 1].sizeIndicator);
    Settle(swept.rings, swept.left, swept.right, end)
  }

  /** The end of partition: the pivot, the last ring of the range, goes to the left cursor if
      the ring there is larger, else to the right cursor if the ring there is larger, else it
      stays. None is the exception for the right cursor -1. */
  function Settle(t: seq<SelectableRing>, left: int, right: int, end: int): Option<Parted>
    requires 0 <= left < end <= |t| && right < end
  {
    var pivot := t[end - 1].sizeIndicator;
    if t[left].sizeIndicator > pivot then Some(Parted(Swap(t, left, end - 1), left))
    else if right < 0 then None
    else if t[right].sizeIndicator > pivot then Some(Parted(Swap(t, right, end - 1), right))
    else Some(Parted(t, end - 1))
  }

  /** 1 when [start, end) is one ring whose left neighbour is larger: the one case where
      QuickSortMethod calls itself again on the same range (after partition swapped the two). */
  function Inverted(s: seq<SelectableRing>, start: int, end: int): nat
    requires 0 <= start && end <= |s|
  {
    if end - start == 1 && start > 0 && s[start - 1].sizeIndicator > s[start].sizeIndicator then 1 else 0
  }

  /** QuickSortMethod(target, start, end) as written: partition, then the two recursive calls
      around the pivot. None is the exception partition throws, and it happens only on the
      range [0, 1): a list of exactly one ring, when the whole list is sorted. */
  function QuickSortAsWritten(s: seq<SelectableRing>, start: int, end: int): (r: Option<seq<SelectableRing>>)
    requires 0 <= start <= end <= |s|
    ensures r.None? <==> start == 0 && end == 1
    ensures r.Some? ==> |r.value| == |s|
    decreases end - start, Inverted(s, start, end), 1
  {
    if start >= end then Some(s)
    else
      var part := PartitionAsWritten(s, start, end);
      if part.None? then None
      else SortAroundPivot(part.value.rings, start, part.value.pivotAt, end)
  }

  /** The rest of QuickSortMethod once partition reported the pivot at p: sort the left part
      when it holds more than one ring, then the part right of the pivot (the test guarding
      that call always passes). The second requires is what partition guarantees when it
      reports start - 1. Neither call can throw. */
  function SortAroundPivot(t: seq<SelectableRing>, start: int, p: int, end: int): (r: Option<seq<SelectableRing>>)
    requires 0 <= start < end <= |t| && !(start == 0 && end == 1) && start - 1 <= p < end
    requires p == start - 1 ==> end == start + 1 && Inverted(t, start, end) == 0
    ensures r.Some? && |r.value| == |t|
    decreases if p < start then end - start else end - start - 1, if p < start then 0 else 2, 2
  {
    var left := if p - start > 1 then QuickSortAsWritten(t, start, p) else Some(t);
    if end - p + 1 > 1 then QuickSortAsWritten(left.value, p + 1, end) else left
  }

  /** b holds the same rings as a, as often each. */
  ghost predicate Permutes(a: seq<SelectableRing>, b: seq<SelectableRing>)
  {
    multiset(a) == multiset(b)
  }

  /** The sweep only swaps, so it neither loses nor duplicates a ring. */
  lemma {:induction false} SweepPermutes(s: seq<SelectableRing>, left: int, right: int, pivot: int)
    requires 0 <= left <= right + 1 && right < |s|
    ensures Permutes(Sweep(s, left, right, pivot).rings, s)
    decreases right - left
  {
    if left + 1 < right {
      var l := ScanUp(s, left, right, pivot);
      var r := ScanDown(s, l, right, pivot);
      SweepStep(s, left, right, pivot);
      if s[l].sizeIndicator > pivot && s[r].sizeIndicator <= pivot {
        var t := Swap(s, l, r);
        SweepPermutes(t, l + 1, r, pivot);
        SwapPermutes(s, l, r);
        PermutesTrans(Sweep(t, l + 1, r, pivot).rings, t, s);
      } else {
        SweepPermutes(s, l, r, pivot);
      }
    }
  }

  /** One turn of the sweep, unfolded: the proofs about the sweep go through this equation. */
  lemma SweepStep(s: seq<SelectableRing>, left: int, right: int, pivot: int)
    requires 0 <= left && left + 1 < right < |s|
    ensures var l := ScanUp(s, left, right, pivot);
      var r := ScanDown(s, l, right, pivot);
      Sweep(s, left, right, pivot) ==
        if s[l].sizeIndicator > pivot && s[r].sizeIndicator <= pivot then Sweep(Swap(s, l, r), l + 1, r, pivot)
        else Sweep(s, l, r, pivot)
  {
  }

  /** A permutation of a permutation is one. */
  lemma PermutesTrans(a: seq<SelectableRing>, b: seq<SelectableRing>, c: seq<SelectableRing>)
    requires Permutes(a, b) && Permutes(b, c)
    ensures Permutes(a, c)
  {
  }

  /** partition only swaps: its rings are a permutation of the list it was given. */
  lemma PartitionPermutes(s: seq<SelectableRing>, start: int, end: int)
    requires 0 <= start < end <= |s| && !(start == 0 && end == 1)
    ensures Permutes(PartitionAsWritten(s, start, end).value.rings, s)
  {
    var swept := Sweep(s, start, end - 2, s[end - 1].sizeIndicator);
    SweepPermutes(s, start, end - 2, s[end - 1].sizeIndicator);
    SettlePermutes(swept.rings, swept.left, swept.right, end);
  }

  /** Placing the pivot only swaps. */
  lemma SettlePermutes(t: seq<SelectableRing>, left: int, right: int, end: int)
    requires 0 <= left < end <= |t| && right < end && Settle(t, left, right, end).Some?
    ensures Permutes(Settle(t, left, right, end).value.rings, t)
  {
    var pivot := t[end - 1].sizeIndicator;
    if t[left].sizeIndicator > pivot {
      SwapPermutes(t, left, end - 1);
    } else if t[right].sizeIndicator > pivot {
      SwapPermutes(t, right, end - 1);
    }
  }

  /** A swap neither loses nor duplicates a ring. */
  lemma SwapPermutes(s: seq<SelectableRing>, i: int, j: int)
    requires 0 <= i < |s| && 0 <= j < |s|
    ensures Permutes(Swap(s, i, j), s)
  {
  }

  /** The sort as written only swaps: whenever it does not throw, its result is a permutation
      of the list it was given. */
  lemma {:induction false} QuickSortPermutes(s: seq<SelectableRing>, start: int, end: int)
    requires 0 <= start <= end <= |s| && !(start == 0 && end == 1)
    ensures Permutes(QuickSortAsWritten(s, start, end).value, s)
    decreases end - start, Inverted(s, start, end), 1
  {
    if start < end {
      PartitionPermutes(s, start, end);
      var part := PartitionAsWritten(s, start, end).value;
      AroundPivotPermutes(part.rings, start, part.pivotAt, end);
    }
  }

  /** The two recursive calls after partition only permute. */
  lemma {:induction false} AroundPivotPermutes(t: seq<SelectableRing>, start: int, p: int, end: int)
    requires 0 <= start < end <= |t| && !(start == 0 && end == 1) && start - 1 <= p < end
    requires p == start - 1 ==> end == start + 1 && Inverted(t, start, end) == 0
    ensures Permutes(SortAroundPivot(t, start, p, end).value, t)
    decreases if p < start then end - start else end - start - 1, if p < start then 0 else 2, 2
  {
    if p - start > 1 {
      BothSidesPermute(t, start, p, end);
    } else {
      QuickSortPermutes(t, p + 1, end);
    }
  }

  /** Sorting the left part and then the part right of the pivot only permutes. */
  lemma {:induction false} BothSidesPermute(t: seq<SelectableRing>, start: int, p: int, end: int)
    requires 0 <= start && start + 1 < p < end <= |t|
    ensures Permutes(QuickSortAsWritten(QuickSortAsWritten(t, start, p).value, p + 1, end).value, t)
    decreases end - start - 1, 2, 1
  {
    QuickSortPermutes(t, start, p);
    QuickSortPermutes(QuickSortAsWritten(t, start, p).value, p + 1, end);
  }

  /** A scene with a single ring: partition reads index -1 and the sort throws. */
  lemma SingleRingFails(x: SelectableRing)
    ensures QuickSortAsWritten([x], 0, 1) == None
  {
  }

  /** Three rings of sizes 3, 1, 2 come out as 2, 1, 3: not ascending. The first partition
      swaps the 3 with the pivot 2 and reports position 0; the part right of it, 1 and 3, is
      already in order, and nothing ever compares the 2 with the 1. */
  lemma ThreeRingsMisordered(x: SelectableRing, y: SelectableRing, z: SelectableRing)
    requires x.sizeIndicator == 3 && y.sizeIndicator == 1 && z.sizeIndicator == 2
    ensures QuickSortAsWritten([x, y, z], 0, 3) == Some([z, y, x])
    ensures !SortedBySize([z, y, x])
  {
    var s := [x, y, z];
    assert Sweep(s, 0, 1, 2) == Scan(s, 0, 1);
    assert Swap(s, 0, 2) == [z, y, x];
    assert PartitionAsWritten(s, 0, 3) == Some(Parted([z, y, x], 0));
    var t := [z, y, x];
    assert Sweep(t, 1, 1, 3) == Scan(t, 1, 1);
    assert PartitionAsWritten(t, 1, 3) == Some(Parted(t, 2));
    assert QuickSortAsWritten(t, 1, 3) == Some(t);
  }

  // ---------------------------------------------------------------------------------------
  // The sort as written, in place
  // ---------------------------------------------------------------------------------------

  /** QuickSortMethod, in place on the list: the same calls, proved to leave the list as
      QuickSortAsWritten says. The result false is the exception, which only a list of one
      ring raises. */
  method QuickSortInPlace(a: array<SelectableRing>, start: int, end: int) returns (ok: bool)
    requires 0 <= start <= end <= a.Length
    modifies a
    ensures ok == QuickSortAsWritten(old(a[..]), start, end).Some?
    ensures ok ==> QuickSortAsWritten(old(a[..]), start, end) == Some(a[..])
    decreases end - start, Inverted(a[..], start, end), 1
  {
    if start >= end {
      return true;
    }
    var p := PartitionInPlace(a, start, end);
    if p.None? {
      return false;
    }
    SortAroundPivotInPlace(a, start, p.value, end);
    ok := true;
  }

  /** The two recursive calls of QuickSortMethod after partition, in place. */
  method SortAroundPivotInPlace(a: array<SelectableRing>, start: int, p: int, end: int)
    requires 0 <= start < end <= a.Length && !(start == 0 && end == 1) && start - 1 <= p < end
    requires p == start - 1 ==> end == start + 1 && Inverted(a[..], start, end) == 0
    modifies a
    ensures SortAroundPivot(old(a[..]), start, p, end) == Some(a[..])
    decreases if p < start then end - start else end - start - 1, if p < start then 0 else 2, 2
  {
    if p - start > 1 {
      var _ := QuickSortInPlace(a, start, p);
    }
    if end - p + 1 > 1 {
      var _ := QuickSortInPlace(a, p + 1, end);
    }
  }

  /** The list went from before to after and the method reported p, as the function's result
      r says: the same rings and the same position, or the exception with nothing changed. */
  ghost predicate Reports(r: Option<Parted>, before: seq<SelectableRing>, after: seq<SelectableRing>, p: Option<int>)
  {
    match r
    case None => p.None? && after == before
    case Some(part) => p == Some(part.pivotAt) && after == part.rings
  }

  /** partition, in place on the list: the same loops and branches, proved to leave the list
      as PartitionAsWritten says and to report the same position. The exception is the
      result None, with the list untouched. */
  method PartitionInPlace(a: array<SelectableRing>, start: int, end: int) returns (p: Option<int>)
    requires 0 <= start < end <= a.Length
    modifies a
    ensures Reports(PartitionAsWritten(old(a[..]), start, end), old(a[..]), a[..], p)
  {
    ghost var s := a[..];
    var left, right := SweepInPlace(a, start, end - 2, a[end - 1].sizeIndicator);
    assert PartitionAsWritten(s, start, end) == Settle(a[..], left, right, end);
    p := SettleInPlace(a, left, right, end);
  }

  /** The end of partition, on the list. */
  method SettleInPlace(a: array<SelectableRing>, left: int, right: int, end: int) returns (p: Option<int>)
    requires 0 <= left < end <= a.Length && right < end
    modifies a
    ensures Reports(Settle(old(a[..]), left, right, end), old(a[..]), a[..], p)
  {
    if a[left].sizeIndicator > a[end - 1].sizeIndicator {
      a[left], a[end - 1] := a[end - 1], a[left];
      return Some(left);
    } else if right < 0 {
      return None;
    } else if a[right].sizeIndicator > a[end - 1].sizeIndicator {
      a[right], a[end - 1] := a[end - 1], a[right];
      return Some(right);
    }
    return Some(end - 1);
  }

  /** The outer loop of partition, on the list. */
  method SweepInPlace(a: array<SelectableRing>, start: int, end: int, pivot: int) returns (left: int, right: int)
    requires 0 <= start <= end + 1 && end < a.Length
    modifies a
    ensures Scan(a[..], left, right) == Sweep(old(a[..]), start, end, pivot)
  {
    left, right := start, end;
    while left + 1 < right
      invariant start <= left <= right + 1 && right <= end
      invariant Sweep(a[..], left, right, pivot) == Sweep(old(a[..]), start, end, pivot)
      decreases right - left
    {
      left, right := SweepOnce(a, left, right, pivot);
    }
  }

  /** One turn of partition's outer loop: the two inner loops, then the swap of the rings the
      cursors stopped on when they are on the wrong sides. The cursors close in, and what is
      left of the sweep is unchanged. */
  method SweepOnce(a: array<SelectableRing>, left: int, right: int, pivot: int) returns (l: int, r: int)
    requires 0 <= left && left + 1 < right < a.Length
    modifies a
    ensures left <= l <= r + 1 && r <= right && r - l < right - left
    ensures Sweep(a[..], l, r, pivot) == Sweep(old(a[..]), left, right, pivot)
  {
    l := ScanUpInPlace(a, left, right, pivot);
    r := ScanDownInPlace(a, l, right, pivot);
    if a[l].sizeIndicator > pivot && a[r].sizeIndicator <= pivot {
      a[l], a[r] := a[r], a[l];
      l := l + 1;
    }
  }

  /** The first inner loop of partition, on the list. */
  method ScanUpInPlace(a: array<SelectableRing>, left: int, right: int, pivot: int) returns (l: int)
    requires 0 <= left < right < a.Length
    ensures l == ScanUp(a[..], left, right, pivot)
  {
    l := left;
    while a[l].sizeIndicator <= pivot && l + 1 < right
      invariant left <= l < right
      invariant ScanUp(a[..], l, right, pivot) == ScanUp(a[..], left, right, pivot)
      decreases right - l
    {
      l := l + 1;
    }
  }

  /** The second inner loop of partition, on the list. */
  method ScanDownInPlace(a: array<SelectableRing>, left: int, right: int, pivot: int) returns (r: int)
    requires 0 <= left < right < a.Length
    ensures r == ScanDown(a[..], left, right, pivot)
  {
    r := right;
    while a[r].sizeIndicator > pivot && r - 1 > left
      invariant left < r <= right
      invariant ScanDown(a[..], left, r, pivot) == ScanDown(a[..], left, right, pivot)
      decreases r
    {
      r := r - 1;
    }
  }

  // ---------------------------------------------------------------------------------------
  // The corrected sort
  // ---------------------------------------------------------------------------------------

  /** Every ring in [lo, hi) is at most x in size. */
  ghost predicate AtMost(s: seq<SelectableRing>, lo: int, hi: int, x: int)
  {
    forall i | lo <= i < hi && 0 <= i < |s| :: s[i].sizeIndicator <= x
  }

  /** Every ring in [lo, hi) is larger than x. */
  ghost predicate Above(s: seq<SelectableRing>, lo: int, hi: int, x: int)
  {
    forall i | lo <= i < hi && 0 <= i < |s| :: s[i].sizeIndicator > x
  }

  /** t is s with the rings of [lo, hi) rearranged among themselves and the rest in place. */
  ghost predicate Rearranged(s: seq<SelectableRing>, t: seq<SelectableRing>, lo: int, hi: int)
  {
    && 0 <= lo <= hi <= |s| == |t|
    && (forall i | 0 <= i < |s| && !(lo <= i < hi) :: s[i] == t[i])
    && multiset(s[lo..hi]) == multiset(t[lo..hi])
  }

  /** A swap inside [lo, hi) rearranges [lo, hi). */
  lemma SwapRearranges(s: seq<SelectableRing>, i: int, j: int, lo: int, hi: int)
    requires 0 <= lo <= i < hi <= |s| && lo <= j < hi
    ensures Rearranged(s, Swap(s, i, j), lo, hi)
  {
    var t := Swap(s, i, j);
    assert t[lo..hi] == s[lo..hi][i - lo := s[j]][j - lo := s[i]];
  }

  /** Two rearrangements of the same range make one. */
  lemma RearrangedTrans(s: seq<SelectableRing>, t: seq<SelectableRing>, u: seq<SelectableRing>, lo: int, hi: int)
    requires Rearranged(s, t, lo, hi) && Rearranged(t, u, lo, hi)
    ensures Rearranged(s, u, lo, hi)
  {
  }

  /** A rearrangement of [lo, hi) is a rearrangement of any range around it. */
  lemma RearrangedWiden(s: seq<SelectableRing>, t: seq<SelectableRing>, lo: int, hi: int, lo': int, hi': int)
    requires Rearranged(s, t, lo, hi) && 0 <= lo' <= lo && hi <= hi' <= |s|
    ensures Rearranged(s, t, lo', hi')
  {
    assert s[lo'..hi'] == s[lo'..lo] + s[lo..hi] + s[hi..hi'];
    assert t[lo'..hi'] == t[lo'..lo] + t[lo..hi] + t[hi..hi'];
    assert s[lo'..lo] == t[lo'..lo];
    assert s[hi..hi'] == t[hi..hi'];
  }

  /** A bound on every ring of a range survives rearranging the range. */
  lemma RearrangedKeepsBounds(s: seq<SelectableRing>, t: seq<SelectableRing>, lo: int, hi: int, x: int)
    requires Rearranged(s, t, lo, hi)
    ensures AtMost(s, lo, hi, x) ==> AtMost(t, lo, hi, x)
    ensures Above(s, lo, hi, x) ==> Above(t, lo, hi, x)
  {
    forall i | lo <= i < hi
      ensures exists k :: lo <= k < hi && s[k] == t[i]
    {
      assert t[i] == t[lo..hi][i - lo];
      assert t[i] in multiset(s[lo..hi]);
      var k :| 0 <= k < hi - lo && s[lo..hi][k] == t[i];
      assert s[lo + k] == t[i];
    }
  }

  /** Two sorted ranges either side of a ring no smaller than the left one and smaller than
      the right one make one sorted range. */
  lemma SortedAround(s: seq<SelectableRing>, lo: int, p: int, hi: int)
    requires 0 <= lo <= p < hi <= |s|
    requires SortedBetween(s, lo, p) && SortedBetween(s, p + 1, hi)
    requires AtMost(s, lo, p, s[p].sizeIndicator) && Above(s, p + 1, hi, s[p].sizeIndicator)
    ensures SortedBetween(s, lo, hi)
  {
  }

  /** The swap, in place. */
  method SwapInPlace(a: array<SelectableRing>, i: int, j: int)
    requires 0 <= i < a.Length && 0 <= j < a.Length
    modifies a
    ensures a[..] == Swap(old(a[..]), i, j)
  {
    a[i], a[j] := a[j], a[i];
  }

  /** The state of the corrected partition's loop over s, which began as before: the rings
      of [lo, i) are no larger than the pivot, those of [i, j) are larger, and the pivot is
      still the last ring of the range. */
  ghost predicate Partitioning(before: seq<SelectableRing>, s: seq<SelectableRing>, lo: int, hi: int, i: int, j: int, pivot: int)
  {
    && lo <= i <= j < hi
    && Rearranged(before, s, lo, hi)
    && s[hi - 1].sizeIndicator == pivot
    && AtMost(s, lo, i, pivot) && Above(s, i, j, pivot)
  }

  /** The partition the sort needs: the last ring of [lo, hi) is the pivot; the rings no larger
      go before it, the larger ones after it, and p is where it ends up. */
  method PartitionBySize(a: array<SelectableRing>, lo: int, hi: int) returns (p: int)
    requires 0 <= lo < hi <= a.Length
    modifies a
    ensures lo <= p < hi
    ensures AtMost(a[..], lo, p, a[p].sizeIndicator) && Above(a[..], p + 1, hi, a[p].sizeIndicator)
    ensures Rearranged(old(a[..]), a[..], lo, hi)
  {
    var pivot := a[hi - 1].sizeIndicator;
    var i, j := lo, lo;
    while j < hi - 1
      invariant Partitioning(old(a[..]), a[..], lo, hi, i, j, pivot)
      decreases hi - j
    {
      i := PartitionStep(a, lo, hi, i, j, pivot, old(a[..]));
      j := j + 1;
    }
    p := PartitionFinish(a, lo, hi, i, pivot, old(a[..]));
  }

  /** One turn of the corrected partition's loop: a ring no larger than the pivot joins the
      front part by a swap. */
  method PartitionStep(a: array<SelectableRing>, lo: int, hi: int, i: int, j: int, pivot: int, ghost before: seq<SelectableRing>)
    returns (i': int)
    requires Partitioning(before, a[..], lo, hi, i, j, pivot) && j < hi - 1
    modifies a
    ensures Partitioning(before, a[..], lo, hi, i', j + 1, pivot)
  {
    i' := i;
    if a[j].sizeIndicator <= pivot {
      ghost var s := a[..];
      SwapInPlace(a, i, j);
      SwapRearranges(s, i, j, lo, hi);
      RearrangedTrans(before, s, a[..], lo, hi);
      SwapGrowsFront(s, lo, i, j, pivot);
      i' := i + 1;
    }
  }

  /** Swapping a ring no larger than the pivot at j with the first larger ring at i grows the
      front part by one and moves the larger part one place on. */
  lemma SwapGrowsFront(s: seq<SelectableRing>, lo: int, i: int, j: int, pivot: int)
    requires 0 <= lo <= i <= j < |s| && s[j].sizeIndicator <= pivot
    requires AtMost(s, lo, i, pivot) && Above(s, i, j, pivot)
    ensures AtMost(Swap(s, i, j), lo, i + 1, pivot) && Above(Swap(s, i, j), i + 1, j + 1, pivot)
  {
  }

  /** The end of the corrected partition: the pivot swaps with the first larger ring. */
  method PartitionFinish(a: array<SelectableRing>, lo: int, hi: int, i: int, pivot: int, ghost before: seq<SelectableRing>)
    returns (p: int)
    requires Partitioning(before, a[..], lo, hi, i, hi - 1, pivot)
    modifies a
    ensures lo <= p < hi
    ensures AtMost(a[..], lo, p, a[p].sizeIndicator) && Above(a[..], p + 1, hi, a[p].sizeIndicator)
    ensures Rearranged(before, a[..], lo, hi)
  {
    ghost var s := a[..];
    SwapInPlace(a, i, hi - 1);
    SwapRearranges(s, i, hi - 1, lo, hi);
    RearrangedTrans(before, s, a[..], lo, hi);
    p := i;
  }

  /** QuickSortMethod as its comment means it: the rings of [lo, hi) end in ascending size
      order, rearranged among themselves, and nothing outside the range moves. One ring or
      none is already sorted. */
  method SortBySize(a: array<SelectableRing>, lo: int, hi: int)
    requires 0 <= lo <= hi <= a.Length
    modifies a
    ensures SortedBetween(a[..], lo, hi)
    ensures Rearranged(old(a[..]), a[..], lo, hi)
    decreases hi - lo
  {
    if hi - lo > 1 {
      var p := PartitionBySize(a, lo, hi);
      SortParts(a, lo, p, hi);
    }
  }

  /** The two recursive calls of the corrected sort around a partitioned pivot. */
  method SortParts(a: array<SelectableRing>, lo: int, p: int, hi: int)
    requires 0 <= lo <= p < hi <= a.Length
    requires AtMost(a[..], lo, p, a[p].sizeIndicator) && Above(a[..], p + 1, hi, a[p].sizeIndicator)
    modifies a
    ensures SortedBetween(a[..], lo, hi)
    ensures Rearranged(old(a[..]), a[..], lo, hi)
    decreases hi - lo, 0
  {
    ghost var s0 := a[..];
    SortBySize(a, lo, p);
    ghost var s1 := a[..];
    LeftPartSorted(s0, s1, lo, p, hi);
    SortBySize(a, p + 1, hi);
    RightPartSorted(s0, s1, a[..], lo, p, hi);
  }

  /** After the part left of the pivot is sorted, the partition still holds around it. */
  lemma LeftPartSorted(s0: seq<SelectableRing>, s1: seq<SelectableRing>, lo: int, p: int, hi: int)
    requires 0 <= lo <= p < hi <= |s0| && Rearranged(s0, s1, lo, p)
    requires AtMost(s0, lo, p, s0[p].sizeIndicator) && Above(s0, p + 1, hi, s0[p].sizeIndicator)
    ensures s1[p] == s0[p]
    ensures AtMost(s1, lo, p, s0[p].sizeIndicator) && Above(s1, p + 1, hi, s0[p].sizeIndicator)
  {
    RearrangedKeepsBounds(s0, s1, lo, p, s0[p].sizeIndicator);
    UntouchedKeeps(s0, s1, lo, p, p + 1, hi, s0[p].sizeIndicator);
  }

  /** After the part right of the pivot is sorted too, the whole range is sorted and holds the
      rings it held before the partition's caller's calls. */
  lemma RightPartSorted(s0: seq<SelectableRing>, s1: seq<SelectableRing>, s2: seq<SelectableRing>, lo: int, p: int, hi: int)
    requires 0 <= lo <= p < hi <= |s1| && Rearranged(s0, s1, lo, p) && Rearranged(s1, s2, p + 1, hi)
    requires SortedBetween(s1, lo, p) && SortedBetween(s2, p + 1, hi)
    requires AtMost(s1, lo, p, s1[p].sizeIndicator) && Above(s1, p + 1, hi, s1[p].sizeIndicator)
    ensures SortedBetween(s2, lo, hi) && Rearranged(s0, s2, lo, hi)
  {
    var pivot := s1[p].sizeIndicator;
    RearrangedKeepsBounds(s1, s2, p + 1, hi, pivot);
    UntouchedKeeps(s1, s2, p + 1, hi, lo, p, pivot);
    SortedAround(s2, lo, p, hi);
    RearrangedWiden(s0, s1, lo, p, lo, hi);
    RearrangedWiden(s1, s2, p + 1, hi, lo, hi);
    RearrangedTrans(s0, s1, s2, lo, hi);
  }

  /** Rearranging [lo, hi) leaves what holds of a range beside it as it was. */
  lemma UntouchedKeeps(s: seq<SelectableRing>, t: seq<SelectableRing>, lo: int, hi: int, lo': int, hi': int, x: int)
    requires Rearranged(s, t, lo, hi) && 0 <= lo' <= hi' <= |s| && (hi' <= lo || hi <= lo')
    ensures AtMost(s, lo', hi', x) ==> AtMost(t, lo', hi', x)
    ensures Above(s, lo', hi', x) ==> Above(t, lo', hi', x)
    ensures SortedBetween(s, lo', hi') ==> SortedBetween(t, lo', hi')
  {
  }

}
