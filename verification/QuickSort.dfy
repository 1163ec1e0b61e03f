/** Sorting an array in place (Libraries/RECore/REArray.h). */
module QuickSorting {

  /** Sorted from low up to high. */
  ghost predicate SortedRange(s: seq<int>, low: int, high: int)
    requires 0 <= low <= high <= |s|
  {
    forall i, j :: low <= i < j < high ==> s[i] <= s[j]
  }

  /** s and t differ between low and high only, and there by a permutation. */
  ghost predicate Rearranged(s: seq<int>, t: seq<int>, low: int, high: int)
    requires 0 <= low <= high <= |s|
  {
    && |t| == |s|
    && t[..low] == s[..low] && t[high..] == s[high..]
    && multiset(t[low..high]) == multiset(s[low..high])
  }

  /** Past the range there is an element greater than all of it. */
  ghost predicate HasStop(s: seq<int>, low: int, high: int)
    requires 0 <= low <= high <= |s|
  {
    exists stop :: IsStop(s, low, high, stop)
  }

  ghost predicate IsStop(s: seq<int>, low: int, high: int, stop: int)
    requires 0 <= low <= high <= |s|
  {
    high <= stop < |s| && forall i :: low <= i < high ==> s[i] < s[stop]
  }

  ghost predicate Partitioned(s: seq<int>, low: int, j: int, high: int)
    requires 0 <= low <= j < high <= |s|
  {
    && (forall i :: low <= i <= j ==> s[i] <= s[j])
    && (forall i :: j < i < high ==> s[j] < s[i])
  }

  lemma SwapRearranges(s: seq<int>, t: seq<int>, low: int, high: int, i: int, j: int)
    requires 0 <= low <= i < high <= |s| && low <= j < high
    requires t == s[i := s[j]][j := s[i]]
    ensures Rearranged(s, t, low, high)
  {
    var a, b := s[low..high], t[low..high];
    assert b == a[i - low := a[j - low]][j - low := a[i - low]];
  }

  lemma RearrangedTwice(s: seq<int>, t: seq<int>, u: seq<int>, low: int, high: int)
    requires 0 <= low <= high <= |s|
    requires Rearranged(s, t, low, high) && Rearranged(t, u, low, high)
    ensures Rearranged(s, u, low, high)
  {}

  method Swap(a: array<int>, i: int, j: int)
    requires 0 <= i < a.Length && 0 <= j < a.Length
    modifies a
    ensures a[..] == old(a[..])[i := old(a[j])][j := old(a[i])]
  {
    a[i], a[j] := a[j], a[i];
  }

  /** What one range rearrangement does to bounds on the elements. */
  lemma RearrangedKeeps(s: seq<int>, t: seq<int>, low: int, high: int, p: int -> bool)
    requires 0 <= low <= high <= |s|
    requires Rearranged(s, t, low, high)
    requires forall i :: low <= i < high ==> p(s[i])
    ensures forall i :: low <= i < high ==> p(t[i])
  {
    forall i | low <= i < high
      ensures p(t[i])
    {
      assert t[i] == t[low..high][i - low];
      assert t[i] in multiset(t[low..high]);
      assert t[i] in s[low..high];
    }
  }

  lemma RearrangedOutside(s: seq<int>, t: seq<int>, low: int, high: int)
    requires 0 <= low <= high <= |s| && Rearranged(s, t, low, high)
    ensures |t| == |s|
    ensures forall i :: 0 <= i < low || high <= i < |s| ==> t[i] == s[i]
  {
    forall i | 0 <= i < low || high <= i < |s|
      ensures t[i] == s[i]
    {
      if i < low {
        assert t[..low][i] == s[..low][i];
      } else {
        assert t[high..][i - high] == s[high..][i - high];
      }
    }
  }

  /** Rearranging the range neither makes nor removes a stop. */
  lemma RearrangedKeepsStops(s: seq<int>, t: seq<int>, low: int, high: int)
    requires 0 <= low <= high <= |s|
    requires Rearranged(s, t, low, high)
    ensures HasStop(s, low, high) <==> HasStop(t, low, high)
  {
    RearrangedOutside(s, t, low, high);
    forall stop | IsStop(s, low, high, stop)
      ensures IsStop(t, low, high, stop)
    {
      RearrangedKeeps(s, t, low, high, (x: int) => x < s[stop]);
    }
    forall stop | IsStop(t, low, high, stop)
      ensures IsStop(s, low, high, stop)
    {
      RearrangedKeeps(t, s, low, high, (x: int) => x < t[stop]);
    }
  }

  /** A rearrangement of a part is one of the whole. */
  lemma RearrangedWider(s: seq<int>, t: seq<int>, low: int, high: int, low': int, high': int)
    requires 0 <= low' <= low <= high <= high' <= |s|
    requires Rearranged(s, t, low, high)
    ensures Rearranged(s, t, low', high')
  {
    RearrangedOutside(s, t, low, high);
    assert s[low'..high'] == s[low'..low] + s[low..high] + s[high..high'];
    assert t[low'..high'] == t[low'..low] + t[low..high] + t[high..high'];
    assert t[low'..low] == s[low'..low];
    assert t[high..high'] == s[high..high'];
  }

  // ---------------------------------------------------------------- one partition

  /** While the scans have not met: what they have passed is on its side. */
  ghost predicate Scanned(s: seq<int>, low: int, high: int, i: int, j: int)
    requires 0 <= low < high <= |s|
  {
    if i < j then
      && low <= i < j <= high
      && (forall k :: low <= k <= i ==> s[k] <= s[low])
      && (forall k :: j <= k < high ==> s[low] < s[k])
    else
      && low <= j < high
      && (forall k :: low <= k <= j ==> s[k] <= s[low])
      && (forall k :: j < k < high ==> s[low] < s[k])
  }

  lemma ScannedAfterSwap(s: seq<int>, t: seq<int>, low: int, high: int, i: int, j: int)
    requires 0 <= low < i < j < high <= |s|
    requires t == s[i := s[j]][j := s[i]]
    requires forall k :: low <= k < i ==> s[k] <= s[low]
    requires forall k :: j < k < high ==> s[low] < s[k]
    requires s[low] < s[i] && s[j] <= s[low]
    ensures Scanned(t, low, high, i, j)
  {}

  lemma PartitionedAfterSwap(s: seq<int>, t: seq<int>, low: int, high: int, i: int, j: int)
    requires 0 <= low < high <= |s| && j <= i && Scanned(s, low, high, i, j)
    requires t == s[low := s[j]][j := s[low]]
    ensures Partitioned(t, low, j, high)
  {}

  /** Splits the range around its first element. The upward scan has no bound of its own; ok is
      false if it would read past the array, which means that nothing there could have stopped it. */
  method Partition(a: array<int>, low: int, high: int) returns (ok: bool, j: int)
    requires 0 <= low < high <= a.Length
    modifies a
    ensures Rearranged(old(a[..]), a[..], low, high)
    ensures ok ==> low <= j < high && Partitioned(a[..], low, j, high)
    ensures ok && j == high - 1 ==> exists stop :: high <= stop < a.Length && a[j] < a[stop]
    ensures !ok ==> !HasStop(old(a[..]), low, high)
  {
    var i := low;
    j := high;
    while i < j
      invariant Scanned(a[..], low, high, i, j)
      invariant Rearranged(old(a[..]), a[..], low, high)
      invariant i >= j ==> i < a.Length && a[low] < a[i]
      decreases j
    {
      ghost var was := a[..];
      ok, i := ScanUp(a, low, i);
      if !ok {
        RearrangedKeepsStops(old(a[..]), a[..], low, high);
        return;
      }
      j := ScanDown(a, low, j);
      if i < j {
        Swap(a, i, j);
        ScannedAfterSwap(was, a[..], low, high, i, j);
        SwapRearranges(was, a[..], low, high, i, j);
        RearrangedTwice(old(a[..]), was, a[..], low, high);
      }
    }
    ghost var was := a[..];
    Swap(a, low, j);
    SwapRearranges(was, a[..], low, high, low, j);
    RearrangedTwice(old(a[..]), was, a[..], low, high);
    PartitionedAfterSwap(was, a[..], low, high, i, j);
    RearrangedOutside(was, a[..], low, high);
    ok := true;
  }

  /** do i++ while (a[i] <= a[low]), not ok if that leaves the array. */
  method ScanUp(a: array<int>, low: int, start: int) returns (ok: bool, i: int)
    requires 0 <= low <= start < a.Length
    ensures start < i
    ensures forall k :: start < k < i && k < a.Length ==> a[k] <= a[low]
    ensures if ok then i < a.Length && a[i] > a[low] else i == a.Length
  {
    i := start + 1;
    while i < a.Length && a[i] <= a[low]
      invariant start < i <= a.Length
      invariant forall k :: start < k < i ==> a[k] <= a[low]
    {
      i := i + 1;
    }
    ok := i < a.Length;
  }

  /** do j-- while (a[j] > a[low]). */
  method ScanDown(a: array<int>, low: int, start: int) returns (j: int)
    requires 0 <= low < start <= a.Length
    ensures low <= j < start
    ensures forall k :: j < k < start ==> a[k] > a[low]
    ensures a[j] <= a[low]
  {
    j := start - 1;
    while a[j] > a[low]
      invariant low <= j < start
      invariant forall k :: j < k < start ==> a[k] > a[low]
      decreases j
    {
      j := j - 1;
    }
  }

  // ---------------------------------------------------------------- sorting

  lemma SortedTogether(s: seq<int>, t: seq<int>, u: seq<int>, low: int, j: int, high: int)
    requires 0 <= low <= j < high <= |s|
    requires Partitioned(s, low, j, high)
    requires Rearranged(s, t, low, j) && SortedRange(t, low, j)
    requires |t| == |s| && Rearranged(t, u, j + 1, high) && SortedRange(u, j + 1, high)
    ensures SortedRange(u, low, high)
    ensures Rearranged(s, u, low, high)
  {
    RearrangedOutside(s, t, low, j);
    RearrangedOutside(t, u, j + 1, high);
    RearrangedKeeps(s, t, low, j, (x: int) => x <= s[j]);
    RearrangedKeeps(t, u, j + 1, high, (x: int) => s[j] < x);
    RearrangedWider(s, t, low, j, low, high);
    RearrangedWider(t, u, j + 1, high, low, high);
  }

  lemma StopOfPart(s: seq<int>, low: int, high: int, low': int, high': int)
    requires 0 <= low <= low' <= high' <= high <= |s|
    requires HasStop(s, low, high)
    ensures HasStop(s, low', high')
  {
    var stop :| IsStop(s, low, high, stop);
    assert IsStop(s, low', high', stop);
  }

  /** What stops the scans of the right part, or of the pivot if that is last, is past everything. */
  lemma StopOfRightPart(s: seq<int>, t: seq<int>, low: int, j: int, high: int)
    requires 0 <= low <= j < high <= |s| && Partitioned(s, low, j, high)
    requires Rearranged(s, t, low, j)
    requires j + 1 < high ==> HasStop(t, j + 1, high)
    requires j + 1 == high ==> exists stop :: high <= stop < |s| && s[j] < s[stop]
    ensures HasStop(s, low, high)
  {
    RearrangedOutside(s, t, low, j);
    if j + 1 < high {
      var stop :| IsStop(t, j + 1, high, stop);
      assert s[j] < s[j + 1] < s[stop];
      assert IsStop(s, low, high, stop);
    } else {
      var stop :| high <= stop < |s| && s[j] < s[stop];
      assert IsStop(s, low, high, stop);
    }
  }

  lemma NoStopFromPart(s: seq<int>, low: int, high: int, low': int, high': int)
    requires 0 <= low <= low' <= high' <= high <= |s|
    requires !HasStop(s, low', high')
    ensures !HasStop(s, low, high)
  {
    if HasStop(s, low, high) {
      StopOfPart(s, low, high, low', high');
    }
  }

  lemma LeftPart(first: seq<int>, split: seq<int>, leftDone: seq<int>, low: int, j: int, high: int)
    requires 0 <= low <= j < high <= |first|
    requires Rearranged(first, split, low, high) && Rearranged(split, leftDone, low, j)
    ensures Rearranged(first, leftDone, low, high)
    ensures low < j && !HasStop(split, low, j) ==> !HasStop(first, low, high)
  {
    RearrangedWider(split, leftDone, low, j, low, high);
    RearrangedTwice(first, split, leftDone, low, high);
    RearrangedKeepsStops(first, split, low, high);
    if !HasStop(split, low, j) {
      NoStopFromPart(split, low, high, low, j);
    }
  }

  lemma RightPart(first: seq<int>, leftDone: seq<int>, last: seq<int>, low: int, j: int, high: int)
    requires 0 <= low <= j < high <= |first|
    requires Rearranged(first, leftDone, low, high) && Rearranged(leftDone, last, j + 1, high)
    ensures Rearranged(first, last, low, high)
    ensures j + 1 < high && !HasStop(leftDone, j + 1, high) ==> !HasStop(first, low, high)
  {
    RearrangedWider(leftDone, last, j + 1, high, low, high);
    RearrangedTwice(first, leftDone, last, low, high);
    RearrangedKeepsStops(first, leftDone, low, high);
    if !HasStop(leftDone, j + 1, high) {
      NoStopFromPart(leftDone, low, high, j + 1, high);
    }
  }

  /** Sorts a range, if it has elements exactly when some element past it stops the scans. */
  method QuickSortRange(a: array<int>, low: int, high: int) returns (ok: bool)
    requires 0 <= low <= high <= a.Length
    modifies a
    ensures Rearranged(old(a[..]), a[..], low, high)
    ensures ok ==> SortedRange(a[..], low, high)
    ensures ok <==> low == high || HasStop(old(a[..]), low, high)
    decreases high - low
  {
    if low == high {
      return true;
    }
    ghost var first := a[..];
    var j;
    ok, j := Partition(a, low, high);
    if !ok {
      return;
    }
    ghost var split := a[..];
    ok := QuickSortRange(a, low, j);
    ghost var leftDone := a[..];
    LeftPart(first, split, leftDone, low, j, high);
    if !ok {
      return;
    }
    ok := QuickSortRange(a, j + 1, high);
    RightPart(first, leftDone, a[..], low, j, high);
    if ok {
      SortedTogether(split, leftDone, a[..], low, j, high);
      StopOfRightPart(split, leftDone, low, j, high);
      RearrangedKeepsStops(first, split, low, high);
    }
  }

  /** A size as the int that it is passed on as, which keeps the low 32 bits. */
  function Narrowed(size: nat): (n: int)
    ensures -0x8000_0000 <= n < 0x8000_0000
  {
    var low := size % 0x1_0000_0000;
    if low < 0x8000_0000 then low else low - 0x1_0000_0000
  }

  /** How many elements a call sorts: all of them exactly if there are fewer than 2^31. */
  function SortedCount(size: nat): (n: nat)
    ensures n <= size
    ensures n == size <==> size < 0x8000_0000
  {
    if Narrowed(size) < 0 then 0 else Narrowed(size)
  }

  /** Sorts the first `size` elements of the array, if there are fewer than 2^31 and else as many as
      are left of the size, and leaves the rest alone. It can do so, without reading past the array,
      exactly when one of the elements after them is greater than all of them, or there is nothing
      to sort. */
  method QuickSort(a: array<int>, size: nat) returns (ok: bool)
    requires size <= a.Length
    modifies a
    ensures ok <==> SortedCount(size) == 0 || HasStop(old(a[..]), 0, SortedCount(size))
    ensures ok ==> SortedRange(a[..], 0, SortedCount(size))
    ensures size < 0x8000_0000 && ok ==> forall i, j :: 0 <= i < j < size ==> a[i] <= a[j]
    ensures multiset(a[..SortedCount(size)]) == multiset(old(a[..SortedCount(size)]))
    ensures a[SortedCount(size)..] == old(a[SortedCount(size)..])
  {
    var highest := Narrowed(size);
    if highest <= 0 {
      return true;
    }
    ghost var was := a[..];
    ok := QuickSortRange(a, 0, highest);
    assert was[0..highest] == old(a[..highest]) && a[..][0..highest] == a[..highest];
    assert was[highest..] == old(a[highest..]) && a[..][highest..] == a[highest..];
  }

  /** A full array has nothing past its elements, so unless it is empty sorting it always fails. */
  method SortFullArray(a: array<int>) returns (ok: bool)
    modifies a
    ensures a.Length < 0x8000_0000 ==> (ok <==> a.Length == 0)
  {
    ok := QuickSort(a, a.Length);
  }

  /** Of 2^31 elements none are sorted, whatever they are. */
  method SortTooMany(a: array<int>) returns (ok: bool)
    requires a.Length >= 0x8000_0000
    modifies a
    ensures ok && a[..] == old(a[..])
  {
    ok := QuickSort(a, 0x8000_0000);
    assert a[..] == a[0..] && old(a[..]) == old(a[0..]);
  }

  /** The unused part of an array starts as zeros: those stop the scan exactly if all elements are
      negative. */
  lemma ZerosStopIff(s: seq<int>, size: int)
    requires 0 <= size < |s| && forall k :: size <= k < |s| ==> s[k] == 0
    ensures HasStop(s, 0, size) <==> forall k :: 0 <= k < size ==> s[k] < 0
  {
    if forall k :: 0 <= k < size ==> s[k] < 0 {
      assert IsStop(s, 0, size, size);
    }
  }
}
