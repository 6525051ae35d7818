/** The sorting exercise: an XOR-based cell exchange, three in-place
    exchange sorts over a mutable list (modelled as an array of integers),
    and a recursive merge sort that builds fresh lists. */
module Sorting {

  /** Every element is at most every later element. */
  predicate Sorted(s: seq<int>)
  {
    forall i, j :: 0 <= i < j < |s| ==> s[i] <= s[j]
  }

  /** Every cell before `start` is no larger than any later cell. */
  predicate PrefixSettled(s: seq<int>, start: int)
  {
    forall p, q :: 0 <= p < q < |s| && p < start ==> s[p] <= s[q]
  }

  /** Every cell from `end` on is no smaller than any earlier cell. */
  predicate SuffixSettled(s: seq<int>, end: int)
  {
    forall p, q :: 0 <= p < q < |s| && end <= q ==> s[p] <= s[q]
  }

  /** `s` with its cells `i` and `j` exchanged. */
  function Exchanged(s: seq<int>, i: int, j: int): seq<int>
    requires 0 <= i < |s| && 0 <= j < |s|
  {
    s[i := s[j]][j := s[i]]
  }

  /** Exchanging two cells inside the window `[start, end)` keeps what is
      settled on either side of the window. */
  lemma ExchangeInsideWindow(s: seq<int>, i: int, j: int, start: int, end: int)
    requires 0 <= start <= i < end <= |s| && start <= j < end
    requires PrefixSettled(s, start) && SuffixSettled(s, end)
    ensures PrefixSettled(Exchanged(s, i, j), start)
    ensures SuffixSettled(Exchanged(s, i, j), end)
  {
    var t := Exchanged(s, i, j);
    forall p, q | 0 <= p < q < |t| && p < start ensures t[p] <= t[q] {
      assert t[p] == s[p];
      assert t[q] == s[q] || t[q] == s[i] || t[q] == s[j];
    }
    forall p, q | 0 <= p < q < |t| && end <= q ensures t[p] <= t[q] {
      assert t[q] == s[q];
      assert t[p] == s[p] || t[p] == s[i] || t[p] == s[j];
    }
  }

  /** Once the settled prefix and the settled suffix meet, all is sorted. */
  lemma SettledIsSorted(s: seq<int>, start: int, end: int)
    requires end <= start
    requires PrefixSettled(s, start) && SuffixSettled(s, end)
    ensures Sorted(s)
  {
    forall p, q | 0 <= p < q < |s| ensures s[p] <= s[q] {
      if p >= start {
        assert end <= q;
      }
    }
  }

  /** A window maximum placed at the window's top joins the settled suffix. */
  lemma MaximumSettles(s: seq<int>, start: int, end: int)
    requires 0 <= start < end <= |s|
    requires PrefixSettled(s, start) && SuffixSettled(s, end)
    requires forall p :: start <= p < end ==> s[p] <= s[end - 1]
    ensures SuffixSettled(s, end - 1)
  {
    forall p, q | 0 <= p < q < |s| && end - 1 <= q ensures s[p] <= s[q] {
      if q == end - 1 && p < start {
        assert PrefixSettled(s, start);
      }
    }
  }

  /** A window minimum placed at the window's bottom joins the settled prefix. */
  lemma MinimumSettles(s: seq<int>, start: int, end: int)
    requires 0 <= start < end <= |s|
    requires PrefixSettled(s, start) && SuffixSettled(s, end - 1)
    requires forall q :: start <= q < end ==> s[start] <= s[q]
    ensures PrefixSettled(s, start + 1)
  {
    forall p, q | 0 <= p < q < |s| && p < start + 1 ensures s[p] <= s[q] {
      if p == start && end - 1 <= q {
        assert SuffixSettled(s, end - 1);
      }
    }
  }

  // ---------------------------------------------------------------------
  // switch_vairables
  // ---------------------------------------------------------------------

  /** The three-XOR exchange of two machine words `x` and `y`, written as the
      source writes it: `a ^= b; b ^= a; a ^= b`. */
  function XorExchange(x: bv64, y: bv64): (r: (bv64, bv64))
    ensures r.0 == y && r.1 == x
  {
    var x1 := x ^ y;
    var y1 := y ^ x1;
    var x2 := x1 ^ y1;
    (x2, y1)
  }

  /** The same three steps when both operands are one and the same cell:
      every step reads the value the previous step wrote, and the cell ends
      up zero, whatever it held. */
  function XorExchangeSelf(x: bv64): (r: bv64)
    ensures r == 0
  {
    var x1 := x ^ x;
    var x2 := x1 ^ x1;
    x2 ^ x2
  }

  /** Exchanges cells `i` and `j` of `a` and leaves every other cell alone.
      The two indices must differ: on one cell the XOR exchange zeroes it
      (see `XorExchangeSelf`). */
  method SwitchVariables(a: array<int>, i: int, j: int)
    requires 0 <= i < a.Length && 0 <= j < a.Length && i != j
    modifies a
    ensures a[i] == old(a[j]) && a[j] == old(a[i])
    ensures forall k :: 0 <= k < a.Length && k != i && k != j ==> a[k] == old(a[k])
    ensures a[..] == Exchanged(old(a[..]), i, j)
    ensures multiset(a[..]) == multiset(old(a[..]))
  {
    a[i], a[j] := a[j], a[i];
  }

  // ---------------------------------------------------------------------
  // bubble_sort and shaker_sort
  // ---------------------------------------------------------------------

  /** What holds during the upward pass before step `i`: the settled prefix
      and suffix are kept, and cell `i` holds the maximum of the window from
      `start` to it. */
  predicate UpPassInv(s: seq<int>, start: int, end: int, i: int)
    requires 0 <= start <= i < end <= |s|
  {
    && PrefixSettled(s, start) && SuffixSettled(s, end)
    && forall p :: start <= p <= i ==> s[p] <= s[i]
  }

  /** One step of the upward pass at `i`: after the conditional exchange of
      cells `i` and `i + 1`, cell `i + 1` holds the maximum of the window
      from `start` to it. */
  lemma BubbleUpStep(s: seq<int>, start: int, end: int, i: int)
    requires 0 <= start <= i && i + 1 < end <= |s|
    requires UpPassInv(s, start, end, i)
    ensures s[i] > s[i + 1] ==> UpPassInv(Exchanged(s, i, i + 1), start, end, i + 1)
    ensures s[i] <= s[i + 1] ==> UpPassInv(s, start, end, i + 1)
  {
    if s[i] > s[i + 1] {
      ExchangeInsideWindow(s, i, i + 1, start, end);
    }
  }

  /** At the end of the upward pass the window's maximum is at its top and
      joins the settled suffix. */
  lemma UpPassDone(s: seq<int>, start: int, end: int)
    requires 0 <= start < end <= |s|
    requires UpPassInv(s, start, end, end - 1)
    ensures forall p :: start <= p < end ==> s[p] <= s[end - 1]
    ensures PrefixSettled(s, start) && SuffixSettled(s, end - 1)
  {
    MaximumSettles(s, start, end);
  }

  /** The body of the upward pass at `i`: exchanges cells `i` and `i + 1`
      when they are out of order. */
  method UpStep(a: array<int>, start: int, end: int, i: int)
    requires 0 <= start <= i && i + 1 < end <= a.Length
    requires UpPassInv(a[..], start, end, i)
    modifies a
    ensures multiset(a[..]) == multiset(old(a[..]))
    ensures UpPassInv(a[..], start, end, i + 1)
  {
    BubbleUpStep(a[..], start, end, i);
    if a[i] > a[i + 1] {
      SwitchVariables(a, i, i + 1);
    }
  }

  /** The upward pass `for i in range(start, end - 1)`: exchanges every
      out-of-order neighbour pair from left to right, which carries the
      maximum of the window `[start, end)` into `a[end - 1]`. */
  method BubbleUpPass(a: array<int>, start: int, end: int)
    requires 0 <= start < end <= a.Length
    requires PrefixSettled(a[..], start) && SuffixSettled(a[..], end)
    modifies a
    ensures multiset(a[..]) == multiset(old(a[..]))
    ensures forall p :: start <= p < end ==> a[p] <= a[end - 1]
    ensures PrefixSettled(a[..], start) && SuffixSettled(a[..], end - 1)
  {
    for i := start to end - 1
      invariant multiset(a[..]) == multiset(old(a[..]))
      invariant UpPassInv(a[..], start, end, i)
    {
      UpStep(a, start, end, i);
    }
    UpPassDone(a[..], start, end);
  }

  /** What holds during the downward pass before the step at `i`: the
      settled prefix and suffix are kept, and cell `i - 1` holds the minimum
      of the window from it to `end`. */
  predicate DownPassInv(s: seq<int>, start: int, end: int, i: int)
    requires 0 <= start < i <= end <= |s|
  {
    && PrefixSettled(s, start) && SuffixSettled(s, end - 1)
    && forall q :: i - 1 <= q < end ==> s[i - 1] <= s[q]
  }

  /** One step of the downward pass at `i`: after the conditional exchange
      of cells `i - 1` and `i`, cell `i - 1` holds the minimum of the window
      from it to `end`. */
  lemma SinkDownStep(s: seq<int>, start: int, end: int, i: int)
    requires 0 <= start < i < end <= |s|
    requires DownPassInv(s, start, end, i + 1)
    ensures s[i] < s[i - 1] ==> DownPassInv(Exchanged(s, i, i - 1), start, end, i)
    ensures s[i - 1] <= s[i] ==> DownPassInv(s, start, end, i)
  {
    if s[i] < s[i - 1] {
      // the window's maximum at `end - 1` is never moved
      assert s[i - 1] <= s[end - 1];
      ExchangeInsideWindow(s, i, i - 1, start, end - 1);
    }
  }

  /** The downward pass `for i in range(end - 1, start, -1)` of a shaker
      round: exchanges every out-of-order neighbour pair from right to left,
      which carries the minimum of the window `[start, end)` into
      `a[start]`. The window's maximum, already at `end - 1`, stays put. */
  method SinkDownPass(a: array<int>, start: int, end: int)
    requires 0 <= start < end <= a.Length
    requires PrefixSettled(a[..], start) && SuffixSettled(a[..], end - 1)
    modifies a
    ensures multiset(a[..]) == multiset(old(a[..]))
    ensures forall q :: start <= q < end ==> a[start] <= a[q]
    ensures PrefixSettled(a[..], start + 1) && SuffixSettled(a[..], end - 1)
  {
    for i := end downto start + 1
      invariant multiset(a[..]) == multiset(old(a[..]))
      invariant DownPassInv(a[..], start, end, i)
    {
      SinkDownStep(a[..], start, end, i);
      if a[i] < a[i - 1] {
        SwitchVariables(a, i, i - 1);
      }
    }
    MinimumSettles(a[..], start, end);
  }

  /** Sorts `a` in place and returns that same array. After the pass with
      `end_index = k`, `a[k - 1]` is the maximum of `a[..k]`, and the cells
      from `k - 1` on are sorted and no smaller than any cell before them. */
  method BubbleSort(a: array<int>) returns (r: array<int>)
    modifies a
    ensures r == a
    ensures Sorted(a[..])
    ensures multiset(a[..]) == multiset(old(a[..]))
  {
    var end := a.Length;
    while end > 0
      invariant 0 <= end <= a.Length
      invariant multiset(a[..]) == multiset(old(a[..]))
      invariant SuffixSettled(a[..], end)
    {
      BubbleUpPass(a, 0, end);
      end := end - 1;
    }
    SettledIsSorted(a[..], 0, 0);
    r := a;
  }

  /** Sorts `a` in place and returns that same array. Each round carries the
      window's maximum up to `end - 1` and then its minimum down to `start`;
      the window `[start, end)` then shrinks by one cell at each side. */
  method ShakerSort(a: array<int>) returns (r: array<int>)
    modifies a
    ensures r == a
    ensures Sorted(a[..])
    ensures multiset(a[..]) == multiset(old(a[..]))
  {
    var start, end := 0, a.Length;
    while start < end
      invariant 0 <= start && end <= a.Length && start + end == a.Length
      invariant multiset(a[..]) == multiset(old(a[..]))
      invariant PrefixSettled(a[..], start) && SuffixSettled(a[..], end)
    {
      BubbleUpPass(a, start, end);
      SinkDownPass(a, start, end);
      start, end := start + 1, end - 1;
    }
    SettledIsSorted(a[..], start, end);
    r := a;
  }

  // ---------------------------------------------------------------------
  // insertion_sort
  // ---------------------------------------------------------------------

  /** Sorts `a` in place and returns that same array. Outer step `i` sinks
      the value at `i` leftwards by exchanges until its left neighbour is no
      larger, so that `a[..i + 1]` is sorted afterwards. */
  method InsertionSort(a: array<int>) returns (r: array<int>)
    modifies a
    ensures r == a
    ensures Sorted(a[..])
    ensures multiset(a[..]) == multiset(old(a[..]))
  {
    if a.Length > 0 {  // `range(1, 0)` is empty: nothing happens on an empty list
      for i := 1 to a.Length
        invariant multiset(a[..]) == multiset(old(a[..]))
        invariant Sorted(a[..i])
      {
        var pos := i;
        var value := a[i];
        while pos > 0 && a[pos - 1] > value
          invariant 0 <= pos <= i
          invariant a[pos] == value
          invariant multiset(a[..]) == multiset(old(a[..]))
          // apart from the cell holding `value`, the prefix is sorted ...
          invariant forall p, q :: 0 <= p < q <= i && p != pos && q != pos ==> a[p] <= a[q]
          // ... and everything already moved past `value` is larger than it
          invariant forall q :: pos < q <= i ==> value < a[q]
        {
          SwitchVariables(a, pos, pos - 1);
          pos := pos - 1;
        }
      }
    }
    r := a;
  }

  // ---------------------------------------------------------------------
  // merge_sort and its inner merge
  // ---------------------------------------------------------------------

  /** The list `merge` builds from `left` and `right`: the head of `left`
      whenever it is no larger than the head of `right`, otherwise the head
      of `right`, and whatever remains once one side runs out. */
  function Merged(left: seq<int>, right: seq<int>): (m: seq<int>)
    ensures |m| == |left| + |right|
    ensures multiset(m) == multiset(left) + multiset(right)
    decreases |left| + |right|
  {
    if left == [] then right
    else if right == [] then left
    else if left[0] <= right[0] then
      assert left == [left[0]] + left[1..];
      [left[0]] + Merged(left[1..], right)
    else
      assert right == [right[0]] + right[1..];
      [right[0]] + Merged(left, right[1..])
  }

  /** A value no larger than any element of a sorted list can be put in
      front of it. */
  lemma ConsSorted(h: int, rest: seq<int>)
    requires Sorted(rest)
    requires forall k :: 0 <= k < |rest| ==> h <= rest[k]
    ensures Sorted([h] + rest)
  {
    var s := [h] + rest;
    forall i, j | 0 <= i < j < |s| ensures s[i] <= s[j] {
      assert s[j] == rest[j - 1];
      if i > 0 {
        assert s[i] == rest[i - 1];
      }
    }
  }

  /** Every element of the merge is an element of one of the inputs. */
  lemma MergedElements(left: seq<int>, right: seq<int>, b: int)
    requires forall k :: 0 <= k < |left| ==> b <= left[k]
    requires forall k :: 0 <= k < |right| ==> b <= right[k]
    ensures forall k :: 0 <= k < |Merged(left, right)| ==> b <= Merged(left, right)[k]
  {
    var m := Merged(left, right);
    forall k | 0 <= k < |m| ensures b <= m[k] {
      assert m[k] in multiset(left) + multiset(right);
      if m[k] in multiset(left) {
        var i :| 0 <= i < |left| && left[i] == m[k];
      } else {
        var i :| 0 <= i < |right| && right[i] == m[k];
      }
    }
  }

  /** Merging two sorted lists gives a sorted list. */
  lemma {:induction false} MergedIsSorted(left: seq<int>, right: seq<int>)
    requires Sorted(left) && Sorted(right)
    ensures Sorted(Merged(left, right))
    decreases |left| + |right|
  {
    if left != [] && right != [] {
      if left[0] <= right[0] {
        MergedIsSorted(left[1..], right);
        MergedElements(left[1..], right, left[0]);
        ConsSorted(left[0], Merged(left[1..], right));
      } else {
        MergedIsSorted(left, right[1..]);
        MergedElements(left, right[1..], right[0]);
        ConsSorted(right[0], Merged(left, right[1..]));
      }
    }
  }

  /** One step of the merge from cursors `i` and `j`, with `merged` built so
      far: the smaller head comes next, the left one on a tie. */
  lemma MergedStep(left: seq<int>, right: seq<int>, i: int, j: int, merged: seq<int>)
    requires 0 <= i < |left| && 0 <= j < |right|
    requires merged + Merged(left[i..], right[j..]) == Merged(left, right)
    ensures left[i] <= right[j] ==> (merged + [left[i]]) + Merged(left[i + 1..], right[j..]) == Merged(left, right)
    ensures right[j] < left[i] ==> (merged + [right[j]]) + Merged(left[i..], right[j + 1..]) == Merged(left, right)
  {
    assert left[i..][1..] == left[i + 1..];
    assert right[j..][1..] == right[j + 1..];
    if left[i] <= right[j] {
      assert Merged(left[i..], right[j..]) == [left[i]] + Merged(left[i + 1..], right[j..]);
    } else {
      assert Merged(left[i..], right[j..]) == [right[j]] + Merged(left[i..], right[j + 1..]);
    }
  }

  /** Once one cursor has run out, the rest of the merge is the rest of the
      other list. */
  lemma MergedRest(left: seq<int>, right: seq<int>, i: int, j: int, merged: seq<int>)
    requires 0 <= i <= |left| && 0 <= j <= |right| && (i == |left| || j == |right|)
    requires merged + Merged(left[i..], right[j..]) == Merged(left, right)
    ensures i == |left| ==> merged + right[j..] == Merged(left, right)
    ensures i < |left| ==> merged + left[i..] == Merged(left, right)
  {
  }

  /** The inner `merge`: two cursors walk `left` and `right`, appending the
      smaller head (the left one on a tie) until one list is used up; the
      rest of the other list is then appended. */
  method Merge(left: seq<int>, right: seq<int>) returns (merged: seq<int>)
    ensures merged == Merged(left, right)
  {
    merged := [];
    var i, j := 0, 0;
    assert left[i..] == left && right[j..] == right;
    while i < |left| && j < |right|
      invariant 0 <= i <= |left| && 0 <= j <= |right|
      invariant merged + Merged(left[i..], right[j..]) == Merged(left, right)
      decreases |left| - i + |right| - j
    {
      MergedStep(left, right, i, j, merged);
      if left[i] <= right[j] {
        merged := merged + [left[i]];
        i := i + 1;
      } else {
        merged := merged + [right[j]];
        j := j + 1;
      }
    }
    MergedRest(left, right, i, j, merged);
    if i == |left| {
      merged := merged + right[j..];
    } else {
      merged := merged + left[i..];
    }
  }

  /** The list `merge_sort` returns: a one-element list as it is, any longer
      one split at `len // 2`, both halves sorted and merged. The empty list
      is excluded: on it the source recurses forever (see
      `EmptyListSplitsIntoItself`). */
  function MergeSortOf(s: seq<int>): (r: seq<int>)
    requires |s| >= 1
    ensures Sorted(r)
    ensures multiset(r) == multiset(s)
    ensures |s| == 1 ==> r == s
    decreases |s|
  {
    if |s| == 1 then s
    else
      var mid := |s| / 2;
      assert s == s[..mid] + s[mid..];
      MergedIsSorted(MergeSortOf(s[..mid]), MergeSortOf(s[mid..]));
      Merged(MergeSortOf(s[..mid]), MergeSortOf(s[mid..]))
  }

  /** `merge_sort` as written: returns a sorted permutation of a non-empty
      list, built by recursive halving and `Merge`. */
  method MergeSort(s: seq<int>) returns (r: seq<int>)
    requires |s| >= 1
    ensures r == MergeSortOf(s)
    ensures Sorted(r) && multiset(r) == multiset(s)
    decreases |s|
  {
    if |s| == 1 {
      return s;
    }
    var left, right := s[..|s| / 2], s[|s| / 2..];
    var sortedLeft := MergeSort(left);
    var sortedRight := MergeSort(right);
    r := Merge(sortedLeft, sortedRight);
  }

  /** On the empty list both halves of the split are the empty list again,
      so `merge_sort([])` calls itself on its own argument. */
  lemma EmptyListSplitsIntoItself(s: seq<int>)
    requires |s| == 0
    ensures |s| != 1
    ensures s[..|s| / 2] == s && s[|s| / 2..] == s
  {
  }

  /** The evidently intended merge sort, with the base case `len <= 1`: it
      terminates on every list and agrees with `MergeSortOf` wherever that
      one is defined. */
  function MergeSortTotal(s: seq<int>): (r: seq<int>)
    ensures Sorted(r)
    ensures multiset(r) == multiset(s)
    ensures |s| >= 1 ==> r == MergeSortOf(s)
    decreases |s|
  {
    if |s| <= 1 then s
    else
      var mid := |s| / 2;
      assert s == s[..mid] + s[mid..];
      MergedIsSorted(MergeSortTotal(s[..mid]), MergeSortTotal(s[mid..]));
      Merged(MergeSortTotal(s[..mid]), MergeSortTotal(s[mid..]))
  }

  /** The head of a sorted list is no larger than any of its elements. */
  lemma SortedHeadIsLeast(s: seq<int>, x: int)
    requires Sorted(s) && x in multiset(s)
    ensures s[0] <= x
  {
    assert x in s;
    var k :| 0 <= k < |s| && s[k] == x;
  }

  /** A sorted list stays sorted without its head. */
  lemma SortedTail(s: seq<int>)
    requires Sorted(s) && s != []
    ensures Sorted(s[1..])
  {
  }

  /** Two non-empty lists with the same head and the same multiset have
      tails with the same multiset. */
  lemma SameHeadTails(a: seq<int>, b: seq<int>)
    requires a != [] && b != [] && a[0] == b[0]
    requires multiset(a) == multiset(b)
    ensures multiset(a[1..]) == multiset(b[1..])
  {
    assert a == [a[0]] + a[1..];
    assert b == [b[0]] + b[1..];
    assert multiset(a[1..]) == multiset(a) - multiset{a[0]};
    assert multiset(b[1..]) == multiset(b) - multiset{b[0]};
  }

  /** Two non-empty lists with the same head and the same tail are equal. */
  lemma SameHeadSameTail(a: seq<int>, b: seq<int>)
    requires a != [] && b != [] && a[0] == b[0] && a[1..] == b[1..]
    ensures a == b
  {
    assert a == [a[0]] + a[1..];
    assert b == [b[0]] + b[1..];
  }

  /** A sorted list is determined by its multiset of elements: any two of
      the sorts above, and Python's own `list.sort`, give the same list. */
  lemma {:induction false} SortedPermutationUnique(a: seq<int>, b: seq<int>)
    requires Sorted(a) && Sorted(b)
    requires multiset(a) == multiset(b)
    ensures a == b
    decreases |a|
  {
    if a == [] {
      assert |multiset(b)| == 0;
    } else {
      assert a[0] in multiset(b);
      assert b != [];
      assert b[0] in multiset(a);
      SortedHeadIsLeast(a, b[0]);
      SortedHeadIsLeast(b, a[0]);
      SameHeadTails(a, b);
      SortedTail(a);
      SortedTail(b);
      SortedPermutationUnique(a[1..], b[1..]);
      SameHeadSameTail(a, b);
    }
  }

  /** The in-place sorts and the merge sort return the same list for the
      same non-empty input. */
  method SortsAgree(input: seq<int>) returns (bubble: seq<int>, shaker: seq<int>, insertion: seq<int>)
    requires |input| >= 1
    ensures bubble == shaker == insertion == MergeSortOf(input)
  {
    var a := new int[|input|](k requires 0 <= k < |input| => input[k]);
    assert a[..] == input;
    var r := BubbleSort(a);
    bubble := r[..];
    SortedPermutationUnique(bubble, MergeSortOf(input));
    a := new int[|input|](k requires 0 <= k < |input| => input[k]);
    assert a[..] == input;
    r := ShakerSort(a);
    shaker := r[..];
    SortedPermutationUnique(shaker, MergeSortOf(input));
    a := new int[|input|](k requires 0 <= k < |input| => input[k]);
    assert a[..] == input;
    r := InsertionSort(a);
    insertion := r[..];
    SortedPermutationUnique(insertion, MergeSortOf(input));
  }
}
