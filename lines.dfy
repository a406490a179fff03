/**
  One line of the image (a column for the vertical sort, a row for the
  horizontal sort): the sort key of a pixel, the contract of the library's
  index sort (OpenCV's Core.sortIdx with SORT_ASCENDING), and what writing
  the line back in that index order does, both from a snapshot of the line
  and from the live line that the writes alias.
 */
module Lines {

  /** A pixel is the vector of its channel values. */
  type Pixel = seq<int>

  /** The sort key of a pixel: its first channel (0 for a pixel without channels). */
  function Key(p: Pixel): int
  {
    if |p| == 0 then 0 else p[0]
  }

  /** The keys of a line, position by position. */
  function Keys(line: seq<Pixel>): seq<int>
  {
    seq(|line|, i requires 0 <= i < |line| => Key(line[i]))
  }

  /** The indices 0, 1, ..., n - 1 in order. */
  function Range(n: nat): seq<int>
  {
    seq(n, i => i)
  }

  ghost predicate Sorted(s: seq<int>)
  {
    forall i, j :: 0 <= i < j < |s| ==> s[i] <= s[j]
  }

  /** `idx` lists every index of a line of length `n` exactly once. */
  ghost predicate IsIndexPermutation(idx: seq<int>, n: nat)
  {
    && |idx| == n
    && (forall j :: 0 <= j < n ==> 0 <= idx[j] < n)
    && multiset(idx) == multiset(Range(n))
  }

  /** Reading `keys` through `idx` stays in range and gives non-decreasing values. */
  ghost predicate OrdersBy(keys: seq<int>, idx: seq<int>)
  {
    && (forall j :: 0 <= j < |idx| ==> 0 <= idx[j] < |keys|)
    && forall i, j :: 0 <= i < j < |idx| ==> keys[idx[i]] <= keys[idx[j]]
  }

  /**
    The contract of the index sort: `idx` is a permutation of the indices of
    `keys`, and reading `keys` through `idx` gives non-decreasing values.
    Nothing is promised about the order of equal keys.
   */
  ghost predicate SortsAscending(keys: seq<int>, idx: seq<int>)
  {
    IsIndexPermutation(idx, |keys|) && OrdersBy(keys, idx)
  }

  /**
    An index-sort routine, such as Core.sortIdx: on every line of keys it
    returns an index list meeting the sort contract. Which of the allowed
    lists it returns when keys tie is the routine's own affair.
   */
  ghost predicate IndexSort(sortIdx: seq<int> -> seq<int>)
  {
    forall keys :: SortsAscending(keys, sortIdx(keys))
  }

  /** Position `j` of the result is the element of `s` at index `idx[j]`. */
  function Gather<T>(s: seq<T>, idx: seq<int>): seq<T>
    requires forall j :: 0 <= j < |idx| ==> 0 <= idx[j] < |s|
  {
    seq(|idx|, j requires 0 <= j < |idx| => s[idx[j]])
  }

  /** Putting an index with a key no larger than the first one's in front keeps an index list ordered. */
  lemma ConsOrdered(keys: seq<int>, h: int, rest: seq<int>)
    requires 0 <= h < |keys|
    requires OrdersBy(keys, rest)
    requires |rest| > 0 ==> keys[h] <= keys[rest[0]]
    ensures OrdersBy(keys, [h] + rest)
  {
  }

  /** Inserts index `x` into the key-ordered index list `idx`, after every index with an equal key. */
  function Insert(keys: seq<int>, idx: seq<int>, x: int): (r: seq<int>)
    requires 0 <= x < |keys|
    requires OrdersBy(keys, idx)
    ensures |r| == |idx| + 1
    ensures multiset(r) == multiset(idx) + multiset{x}
    ensures OrdersBy(keys, r)
    ensures r[0] == x || (|idx| > 0 && r[0] == idx[0])
  {
    if idx == [] || keys[x] < keys[idx[0]] then
      ConsOrdered(keys, x, idx);
      [x] + idx
    else
      assert OrdersBy(keys, idx[1..]);
      var rest := Insert(keys, idx[1..], x);
      assert idx == [idx[0]] + idx[1..];
      ConsOrdered(keys, idx[0], rest);
      [idx[0]] + rest
  }

  /** An index order of all keys but the last also orders the full key line, and lacks only its last index. */
  lemma ExtendOrder(keys: seq<int>, prev: seq<int>)
    requires |keys| > 0
    requires SortsAscending(keys[..|keys| - 1], prev)
    ensures OrdersBy(keys, prev)
    ensures multiset(prev) + multiset{|keys| - 1} == multiset(Range(|keys|))
  {
    var n := |keys| - 1;
    assert forall j :: 0 <= j < |prev| ==> keys[prev[j]] == keys[..n][prev[j]];
    assert Range(n + 1) == Range(n) + [n];
  }

  /**
    One index-sort routine (a stable insertion sort), showing that the
    contract `IndexSort` can be met. The library's algorithm is not part of
    this model: the sorts are parameterised by any routine meeting
    `IndexSort`, so they promise nothing about the order of equal keys.
   */
  function SortIdx(keys: seq<int>): (idx: seq<int>)
    ensures SortsAscending(keys, idx)
  {
    if |keys| == 0 then
      []
    else
      var prev := SortIdx(keys[..|keys| - 1]);
      ExtendOrder(keys, prev);
      Insert(keys, prev, |keys| - 1)
  }

  /** The stand-in routine meets the contract every sort requires. */
  lemma SortIdxMeetsIndexSort()
    ensures IndexSort(SortIdx)
  {
  }

  /** Removing the largest index from an index permutation leaves a permutation of the smaller range. */
  lemma DropLargest(idx: seq<int>, m: nat, k: nat)
    requires IsIndexPermutation(idx, m + 1)
    requires k < |idx| && idx[k] == m
    ensures IsIndexPermutation(idx[..k] + idx[k + 1..], m)
  {
    var rest := idx[..k] + idx[k + 1..];
    assert Range(m + 1) == Range(m) + [m];
    assert idx == idx[..k] + [m] + idx[k + 1..];
    assert multiset(idx) == multiset(rest) + multiset{m};
    assert multiset(idx) == multiset(Range(m)) + multiset{m};
    assert multiset(rest) == multiset(idx) - multiset{m};
    assert multiset(rest) == multiset(Range(m));
    forall j | 0 <= j < |rest|
      ensures 0 <= rest[j] < m
    {
      assert rest[j] in multiset(rest);
      assert rest[j] in Range(m);
    }
  }

  /** Gathering through `idx` is gathering through `idx` without its entry `k`, with `s[idx[k]]` put back. */
  lemma GatherDrop<T>(s: seq<T>, idx: seq<int>, k: nat)
    requires forall j :: 0 <= j < |idx| ==> 0 <= idx[j] < |s|
    requires k < |idx|
    ensures multiset(Gather(s, idx)) == multiset(Gather(s, idx[..k] + idx[k + 1..])) + multiset{s[idx[k]]}
  {
    var rest := idx[..k] + idx[k + 1..];
    var g := Gather(s, rest);
    var whole := Gather(s, idx);
    forall j | 0 <= j < |idx|
      ensures whole[j] == (g[..k] + [s[idx[k]]] + g[k..])[j]
    {
      if j < k {
        assert rest[j] == idx[j];
      } else if j > k {
        assert rest[j - 1] == idx[j];
      }
    }
    assert whole == g[..k] + [s[idx[k]]] + g[k..];
    assert g == g[..k] + g[k..];
  }

  /** Gathering from a prefix of `s` is gathering from `s` itself. */
  lemma GatherPrefix<T>(s: seq<T>, m: nat, idx: seq<int>)
    requires m <= |s|
    requires forall j :: 0 <= j < |idx| ==> 0 <= idx[j] < m
    ensures Gather(s[..m], idx) == Gather(s, idx)
  {
  }

  /** Gathering a line through an index permutation keeps its multiset of elements. */
  lemma {:induction false} GatherPermutes<T>(s: seq<T>, idx: seq<int>)
    requires IsIndexPermutation(idx, |s|)
    ensures multiset(Gather(s, idx)) == multiset(s)
  {
    if |s| > 0 {
      var m := |s| - 1;
      assert Range(m + 1) == Range(m) + [m];
      assert m in multiset(idx);
      var k :| 0 <= k < |idx| && idx[k] == m;
      var rest := idx[..k] + idx[k + 1..];
      DropLargest(idx, m, k);
      GatherDrop(s, idx, k);
      GatherPrefix(s, m, rest);
      GatherPermutes(s[..m], rest);
      assert s == s[..m] + [s[m]];
    }
  }

  /** Two sorted sequences with the same elements are equal. */
  lemma {:induction false} SortedUnique(a: seq<int>, b: seq<int>)
    requires Sorted(a) && Sorted(b)
    requires multiset(a) == multiset(b)
    ensures a == b
  {
    assert |a| == |multiset(a)| == |multiset(b)| == |b|;
    if |a| > 0 {
      assert a[0] in multiset(b);
      assert b[0] in multiset(a);
      assert a[0] == b[0];
      assert a == [a[0]] + a[1..];
      assert b == [b[0]] + b[1..];
      assert multiset(a[1..]) == multiset(a) - multiset{a[0]};
      assert multiset(b[1..]) == multiset(b) - multiset{b[0]};
      SortedUnique(a[1..], b[1..]);
    }
  }

  /**
    Any index list meeting the sort contract turns a line into a permutation
    of it whose keys are non-decreasing.
   */
  lemma GatherSorts(line: seq<Pixel>, idx: seq<int>)
    requires SortsAscending(Keys(line), idx)
    ensures multiset(Gather(line, idx)) == multiset(line)
    ensures Sorted(Keys(Gather(line, idx)))
  {
    GatherPermutes(line, idx);
  }

  /**
    Re-sorting a line whose keys are already non-decreasing, through any
    index list meeting the sort contract, leaves its key sequence as it was
    (the pixels of equal keys may change places).
   */
  lemma ResortKeepsKeys(line: seq<Pixel>, idx: seq<int>)
    requires Sorted(Keys(line))
    requires SortsAscending(Keys(line), idx)
    ensures Keys(Gather(line, idx)) == Keys(line)
  {
    assert Keys(Gather(line, idx)) == Gather(Keys(line), idx);
    GatherPermutes(Keys(line), idx);
    SortedUnique(Gather(Keys(line), idx), Keys(line));
  }

  /**
    One line after the sort with the write-back reading from a snapshot of
    the line: position j holds the line's pixel at index sortIdx(keys)[j].
   */
  function SortLine(line: seq<Pixel>, sortIdx: seq<int> -> seq<int>): (r: seq<Pixel>)
    requires IndexSort(sortIdx)
    ensures multiset(r) == multiset(line)
    ensures Sorted(Keys(r))
  {
    var idx := sortIdx(Keys(line));
    GatherSorts(line, idx);
    Gather(line, idx)
  }

  /**
    The key sequence of a sorted line does not depend on the index-sort
    routine: routines may differ only in which of several equal-key pixels
    goes first.
   */
  lemma SortLineKeysAgree(line: seq<Pixel>, sortIdx1: seq<int> -> seq<int>, sortIdx2: seq<int> -> seq<int>)
    requires IndexSort(sortIdx1) && IndexSort(sortIdx2)
    ensures Keys(SortLine(line, sortIdx1)) == Keys(SortLine(line, sortIdx2))
  {
    var idx1, idx2 := sortIdx1(Keys(line)), sortIdx2(Keys(line));
    assert Keys(SortLine(line, sortIdx1)) == Gather(Keys(line), idx1);
    assert Keys(SortLine(line, sortIdx2)) == Gather(Keys(line), idx2);
    GatherPermutes(Keys(line), idx1);
    GatherPermutes(Keys(line), idx2);
    SortedUnique(Gather(Keys(line), idx1), Gather(Keys(line), idx2));
  }

  /** Sorting a line a second time, by any index-sort routine, leaves its key sequence unchanged. */
  lemma SortLineIdempotentKeys(line: seq<Pixel>, sortIdx1: seq<int> -> seq<int>, sortIdx2: seq<int> -> seq<int>)
    requires IndexSort(sortIdx1) && IndexSort(sortIdx2)
    ensures Keys(SortLine(SortLine(line, sortIdx1), sortIdx2)) == Keys(SortLine(line, sortIdx1))
  {
    var once := SortLine(line, sortIdx1);
    ResortKeepsKeys(once, sortIdx2(Keys(once)));
  }

  /** Every pixel of a sorted line keeps the channel count shared by the line's pixels. */
  lemma SortLineKeepsChannels(line: seq<Pixel>, sortIdx: seq<int> -> seq<int>, channels: nat)
    requires IndexSort(sortIdx)
    requires forall p :: p in line ==> |p| == channels
    ensures |SortLine(line, sortIdx)| == |line|
    ensures forall p :: p in SortLine(line, sortIdx) ==> |p| == channels
  {
  }

  /**
    The write-back as the source performs it on a line that is a view of the
    image: for j = start, ..., |idx| - 1 in turn, position j receives what
    position idx[j] holds at that moment, which may already have been
    overwritten by an earlier step.
   */
  function LiveWrite<T>(s: seq<T>, idx: seq<int>, start: nat): (r: seq<T>)
    requires start <= |idx| == |s|
    requires forall j :: 0 <= j < |idx| ==> 0 <= idx[j] < |s|
    ensures |r| == |s|
    decreases |idx| - start
  {
    if start == |idx| then s else LiveWrite(s[start := s[idx[start]]], idx, start + 1)
  }

  /** The live write-back creates no pixel: everything it leaves was already in the line. */
  lemma {:induction false} LiveWriteFromLine<T>(s: seq<T>, idx: seq<int>, start: nat)
    requires start <= |idx| == |s|
    requires forall j :: 0 <= j < |idx| ==> 0 <= idx[j] < |s|
    ensures forall j :: 0 <= j < |s| ==> LiveWrite(s, idx, start)[j] in s
    decreases |idx| - start
  {
    if start < |idx| {
      var next := s[start := s[idx[start]]];
      LiveWriteFromLine(next, idx, start + 1);
      forall j | 0 <= j < |s|
        ensures LiveWrite(s, idx, start)[j] in s
      {
        assert LiveWrite(s, idx, start) == LiveWrite(next, idx, start + 1);
        var p := LiveWrite(s, idx, start)[j];
        assert p in next;
        var k :| 0 <= k < |next| && next[k] == p;
        if k == start {
          assert p == s[idx[start]];
        } else {
          assert p == s[k];
        }
      }
    }
  }

  /** The only index list the sort contract allows for keys [5, 1, 3] is [1, 2, 0]. */
  lemma OrderOf513(idx: seq<int>)
    requires SortsAscending([5, 1, 3], idx)
    ensures idx == [1, 2, 0]
  {
    var keys := [5, 1, 3];
    assert Range(3) == [0, 1, 2];
    assert multiset(idx) == multiset{0, 1, 2};
    assert idx == [idx[0], idx[1], idx[2]];
    assert 0 in idx && 1 in idx && 2 in idx;
    assert keys[idx[0]] <= keys[idx[1]] <= keys[idx[2]];
  }

  /**
    One line after the sort as the source writes it back, through a view of
    the line itself. Every pixel it holds was already in the line, but it
    need not be a permutation of the line (see SortLineLiveOf513), and its
    keys can depend on how the routine orders ties (see LiveWriteTies).
   */
  function SortLineLive(line: seq<Pixel>, sortIdx: seq<int> -> seq<int>): (r: seq<Pixel>)
    requires IndexSort(sortIdx)
    ensures |r| == |line|
    ensures forall j :: 0 <= j < |r| ==> r[j] in line
  {
    var idx := sortIdx(Keys(line));
    LiveWriteFromLine(line, idx, 0);
    LiveWrite(line, idx, 0)
  }

  /** A line whose keys are [5, 1, 3] is sorted to its pixels 1, 2, 0, with keys [1, 3, 5]. */
  lemma SortLineOf513(line: seq<Pixel>, sortIdx: seq<int> -> seq<int>)
    requires IndexSort(sortIdx)
    requires Keys(line) == [5, 1, 3]
    ensures SortLine(line, sortIdx) == [line[1], line[2], line[0]]
    ensures Keys(SortLine(line, sortIdx)) == [1, 3, 5]
  {
    OrderOf513(sortIdx(Keys(line)));
    assert Key(line[0]) == 5 && Key(line[1]) == 1 && Key(line[2]) == 3;
  }

  /** One step of the live write-back. */
  lemma LiveWriteStep<T>(s: seq<T>, idx: seq<int>, start: nat)
    requires start < |idx| == |s|
    requires forall j :: 0 <= j < |idx| ==> 0 <= idx[j] < |s|
    ensures LiveWrite(s, idx, start) == LiveWrite(s[start := s[idx[start]]], idx, start + 1)
  {
  }

  /** Writing a three-element line back in place through the order [1, 2, 0]. */
  lemma LiveWriteOrder120<T>(line: seq<T>, order: seq<int>)
    requires |line| == |order| == 3
    requires order[0] == 1 && order[1] == 2 && order[2] == 0
    ensures LiveWrite(line, order, 0) == [line[1], line[2], line[1]]
  {
    var s1 := line[0 := line[1]];
    var s2 := s1[1 := s1[2]];
    var s3 := s2[2 := s2[0]];
    LiveWriteStep(line, order, 0);
    LiveWriteStep(s1, order, 1);
    LiveWriteStep(s2, order, 2);
    assert s3 == [line[1], line[2], line[1]];
  }

  /**
    With the write-back as written, a line whose keys are [5, 1, 3] becomes
    its pixels 1, 2, 1, with keys [1, 3, 1]: the pixel with key 5 is lost
    and the one with key 1 is written twice.
   */
  lemma SortLineLiveOf513(line: seq<Pixel>, sortIdx: seq<int> -> seq<int>)
    requires IndexSort(sortIdx)
    requires Keys(line) == [5, 1, 3]
    ensures SortLineLive(line, sortIdx) == [line[1], line[2], line[1]]
    ensures Keys(SortLineLive(line, sortIdx)) == [1, 3, 1]
    ensures multiset(SortLineLive(line, sortIdx)) != multiset(line)
  {
    var order := sortIdx(Keys(line));
    OrderOf513(order);
    LiveWriteOrder120(line, order);
    assert Key(line[0]) == 5 && Key(line[1]) == 1 && Key(line[2]) == 3;
    var r := SortLineLive(line, sortIdx);
    assert line[0] !in r;
    assert multiset(r)[line[0]] == 0 < multiset(line)[line[0]];
  }

  /** Writing a three-element line back in place through the order [2, a, 1 - a]. */
  lemma LiveWriteOrder2<T>(line: seq<T>, order: seq<int>, a: int)
    requires |line| == |order| == 3
    requires a == 0 || a == 1
    requires order[0] == 2 && order[1] == a && order[2] == 1 - a
    ensures LiveWrite(line, order, 0) == [line[2], if a == 0 then line[2] else line[1], line[2]]
  {
    var s1 := line[0 := line[2]];
    var s2 := s1[1 := s1[a]];
    var s3 := s2[2 := s2[1 - a]];
    LiveWriteStep(line, order, 0);
    LiveWriteStep(s1, order, 1);
    LiveWriteStep(s2, order, 2);
    assert s3 == [line[2], if a == 0 then line[2] else line[1], line[2]];
  }

  /** The indices of a three-pixel line, as a multiset. */
  lemma Range3()
    ensures multiset(Range(3)) == multiset{0, 1, 2}
  {
    assert Range(3) == [0, 1, 2];
  }

  /** Both [2, 0, 1] and [2, 1, 0] list every index of a three-pixel line once. */
  lemma TiedPermutation(order: seq<int>)
    requires order == [2, 0, 1] || order == [2, 1, 0]
    ensures IsIndexPermutation(order, 3)
  {
    Range3();
    assert multiset(order) == multiset{0, 1, 2};
    assert forall j :: 0 <= j < 3 ==> 0 <= order[j] < 3;
  }

  /** For keys [1, 1, 0], both [2, 0, 1] and [2, 1, 0] meet the sort contract. */
  lemma TiedOrder(keys: seq<int>, order: seq<int>)
    requires keys == [1, 1, 0]
    requires order == [2, 0, 1] || order == [2, 1, 0]
    ensures SortsAscending(keys, order)
  {
    TiedPermutation(order);
    assert keys[order[0]] == 0 && keys[order[1]] == 1 && keys[order[2]] == 1;
  }

  /**
    With the write-back as written, the keys of the result depend on how the
    index sort orders ties: for keys [1, 1, 0] the contract allows both
    [2, 0, 1] and [2, 1, 0], and they leave keys [0, 0, 0] and [0, 1, 0].
   */
  lemma LiveWriteTies(line: seq<Pixel>)
    requires Keys(line) == [1, 1, 0]
    ensures SortsAscending(Keys(line), [2, 0, 1]) && SortsAscending(Keys(line), [2, 1, 0])
    ensures Keys(LiveWrite(line, [2, 0, 1], 0)) == [0, 0, 0]
    ensures Keys(LiveWrite(line, [2, 1, 0], 0)) == [0, 1, 0]
  {
    TiedOrder(Keys(line), [2, 0, 1]);
    TiedOrder(Keys(line), [2, 1, 0]);
    assert Keys(line)[1] == Key(line[1]) == 1;
    assert Keys(line)[2] == Key(line[2]) == 0;
    LiveWriteOrder2(line, [2, 0, 1], 0);
    LiveWriteOrder2(line, [2, 1, 0], 1);
  }
}
