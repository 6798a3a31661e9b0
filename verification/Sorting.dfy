/** Insertion sort and two-way merge: the computations a worker runs on a task. */
module Sorting {

  ghost predicate Sorted(s: seq<int>) {
    forall i, j :: 0 <= i < j < |s| ==> s[i] <= s[j]
  }

  /** v put after the last element that is not larger than v */
  function Insert(s: seq<int>, v: int): seq<int> {
    if s == [] || s[|s| - 1] <= v then s + [v]
    else Insert(s[..|s| - 1], v) + [s[|s| - 1]]
  }

  function Sort(s: seq<int>): seq<int> {
    if s == [] then [] else Insert(Sort(s[..|s| - 1]), s[|s| - 1])
  }

  /** On equal heads the right one is taken first. */
  function Merge(a: seq<int>, b: seq<int>): seq<int>
    decreases |a| + |b|
  {
    if a == [] then b
    else if b == [] then a
    else if a[0] < b[0] then [a[0]] + Merge(a[1..], b)
    else [b[0]] + Merge(a, b[1..])
  }

  lemma {:induction false} InsertPermutes(s: seq<int>, v: int)
    ensures multiset(Insert(s, v)) == multiset(s) + multiset{v}
  {
    if s != [] && s[|s| - 1] > v {
      InsertPermutes(s[..|s| - 1], v);
      assert s == s[..|s| - 1] + [s[|s| - 1]];
    }
  }

  /** A rearrangement of s keeps every upper bound of s. */
  lemma BoundKept(s: seq<int>, t: seq<int>, last: int)
    requires multiset(t) <= multiset(s)
    requires forall x :: x in s ==> x <= last
    ensures forall i :: 0 <= i < |t| ==> t[i] <= last
  {
    forall i | 0 <= i < |t| ensures t[i] <= last {
      assert t[i] in multiset(t);
      assert t[i] in multiset(s);
      assert t[i] in s;
    }
  }

  lemma {:induction false} InsertSorts(s: seq<int>, v: int)
    requires Sorted(s)
    ensures Sorted(Insert(s, v))
  {
    if s != [] && s[|s| - 1] > v {
      var front, last := s[..|s| - 1], s[|s| - 1];
      InsertSorts(front, v);
      InsertPermutes(front, v);
      assert multiset(front + [v]) == multiset(front) + multiset{v};
      BoundKept(front + [v], Insert(front, v), last);
    }
  }

  lemma {:induction false} SortCorrect(s: seq<int>)
    ensures Sorted(Sort(s))
    ensures multiset(Sort(s)) == multiset(s)
    ensures |Sort(s)| == |s|
  {
    if s != [] {
      var front, last := s[..|s| - 1], s[|s| - 1];
      assert s == front + [last];
      SortCorrect(front);
      InsertSorts(Sort(front), last);
      InsertPermutes(Sort(front), last);
    }
    assert |multiset(Sort(s))| == |multiset(s)|;
  }

  lemma HeadNumbers(a: seq<int>)
    requires a != []
    ensures multiset(a) == multiset{a[0]} + multiset(a[1..])
    ensures multiset(a[1..]) == multiset(a) - multiset{a[0]}
  {
    assert a == [a[0]] + a[1..];
  }

  lemma ConsNumbers(x: int, s: seq<int>, t: seq<int>)
    requires t == [x] + s
    ensures multiset(t) == multiset{x} + multiset(s)
  {}

  lemma {:induction false} MergeLength(a: seq<int>, b: seq<int>)
    ensures |Merge(a, b)| == |a| + |b|
    decreases |a| + |b|
  {
    if a != [] && b != [] {
      if a[0] < b[0] { MergeLength(a[1..], b); } else { MergeLength(a, b[1..]); }
    }
  }

  lemma {:induction false} MergeNumbers(a: seq<int>, b: seq<int>)
    ensures multiset(Merge(a, b)) == multiset(a) + multiset(b)
    decreases |a| + |b|
  {
    if a != [] && b != [] {
      if a[0] < b[0] {
        MergeNumbers(a[1..], b);
        ConsNumbers(a[0], a[1..], a);
        ConsNumbers(a[0], Merge(a[1..], b), Merge(a, b));
      } else {
        MergeNumbers(a, b[1..]);
        ConsNumbers(b[0], b[1..], b);
        ConsNumbers(b[0], Merge(a, b[1..]), Merge(a, b));
      }
    }
  }

  lemma MergePermutes(a: seq<int>, b: seq<int>)
    ensures multiset(Merge(a, b)) == multiset(a) + multiset(b)
    ensures |Merge(a, b)| == |a| + |b|
  {
    MergeNumbers(a, b);
    MergeLength(a, b);
  }

  lemma {:induction false} MergeSorts(a: seq<int>, b: seq<int>)
    requires Sorted(a) && Sorted(b)
    ensures Sorted(Merge(a, b))
    decreases |a| + |b|
  {
    if a != [] && b != [] {
      if a[0] < b[0] {
        MergeSorts(a[1..], b);
        HeadIsLeast(a[1..], b, a[0]);
      } else {
        MergeSorts(a, b[1..]);
        HeadIsLeast(a, b[1..], b[0]);
      }
    }
  }

  lemma HeadIsLeast(a: seq<int>, b: seq<int>, v: int)
    requires forall x :: x in a || x in b ==> v <= x
    ensures forall i :: 0 <= i < |Merge(a, b)| ==> v <= Merge(a, b)[i]
  {
    MergePermutes(a, b);
    var m := Merge(a, b);
    forall i | 0 <= i < |m| ensures v <= m[i] {
      assert m[i] in multiset(m);
      assert m[i] in multiset(a) || m[i] in multiset(b);
      assert m[i] in a || m[i] in b;
    }
  }

  lemma HeadBounds(a: seq<int>, b: seq<int>)
    requires Sorted(a) && multiset(a) == multiset(b) && a != [] && b != []
    ensures a[0] <= b[0]
  {
    assert b[0] in multiset(a);
    var i :| 0 <= i < |a| && a[i] == b[0];
  }

  /** Two sorted arrangements of the same numbers are the same sequence. */
  lemma {:induction false} SortedUnique(a: seq<int>, b: seq<int>)
    requires Sorted(a) && Sorted(b) && multiset(a) == multiset(b)
    ensures a == b
  {
    assert |multiset(a)| == |a| && |multiset(b)| == |b|;
    if a != [] {
      HeadBounds(a, b);
      HeadBounds(b, a);
      HeadNumbers(a);
      HeadNumbers(b);
      SortedUnique(a[1..], b[1..]);
      assert a == [a[0]] + a[1..] && b == [b[0]] + b[1..];
    }
  }

  method InsertionSort(a: array<int>)
    modifies a
    ensures a[..] == Sort(old(a[..]))
  {
    ghost var was := a[..];
    for i := 0 to a.Length
      invariant a[..i] == Sort(was[..i])
      invariant forall k :: i <= k < a.Length ==> a[k] == was[k]
    {
      assert was[..i + 1][..i] == was[..i];
      ShiftIntoPlace(a, i);
    }
    assert a[..] == a[..a.Length] && was == was[..a.Length];
  }

  /** The value lands behind the last element that is not larger. */
  lemma {:induction false} InsertLands(s: seq<int>, v: int, p: nat)
    requires p <= |s| && (p > 0 ==> s[p - 1] <= v)
    requires forall k :: p <= k < |s| ==> s[k] > v
    ensures Insert(s, v) == s[..p] + [v] + s[p..]
    decreases |s| - p
  {
    if p == |s| {
      assert s[..p] == s && s[p..] == [];
    } else {
      var front, last := s[..|s| - 1], s[|s| - 1];
      InsertLands(front, v, p);
      assert front[..p] == s[..p] && s[p..] == front[p..] + [last];
    }
  }

  /** The inner loop of the insertion sort: a[i] moves left over the larger elements. */
  method ShiftIntoPlace(a: array<int>, i: nat)
    requires i < a.Length
    modifies a
    ensures a[..i + 1] == Insert(old(a[..i]), old(a[i]))
    ensures forall k :: i < k < a.Length ==> a[k] == old(a[k])
  {
    ghost var prev := a[..i];
    var value := a[i];
    var j := i - 1;
    while j >= 0 && a[j] > value
      invariant -1 <= j < i
      invariant forall k :: 0 <= k <= j ==> a[k] == prev[k]
      invariant forall k :: j + 1 <= k < i ==> a[k + 1] == prev[k] && prev[k] > value
      invariant forall k :: i < k < a.Length ==> a[k] == old(a[k])
    {
      a[j + 1] := a[j];
      j := j - 1;
    }
    a[j + 1] := value;
    GapFilled(a[..i + 1], prev, value, j + 1);
  }

  lemma GapFilled(s: seq<int>, prev: seq<int>, value: int, p: nat)
    requires p <= |prev| && |s| == |prev| + 1 && s[p] == value
    requires forall k :: 0 <= k < p ==> s[k] == prev[k]
    requires forall k :: p <= k < |prev| ==> s[k + 1] == prev[k] && prev[k] > value
    requires p > 0 ==> prev[p - 1] <= value
    ensures s == Insert(prev, value)
  {
    InsertLands(prev, value, p);
    var t := prev[..p] + [value] + prev[p..];
    forall k | 0 <= k < |s| ensures s[k] == t[k] {
      if k > p {
        assert s[(k - 1) + 1] == prev[k - 1];
      }
    }
  }

  /** From position k on, `whole` is the merge of x from i on with y from j on. */
  ghost predicate MergesTo(x: seq<int>, i: nat, y: seq<int>, j: nat, whole: seq<int>, k: nat)
    requires i <= |x| && j <= |y|
    decreases |x| - i + |y| - j
  {
    if i == |x| && j == |y| then k == |whole|
    else
      && k < |whole|
      && if j == |y| || (i < |x| && x[i] < y[j])
         then whole[k] == x[i] && MergesTo(x, i + 1, y, j, whole, k + 1)
         else whole[k] == y[j] && MergesTo(x, i, y, j + 1, whole, k + 1)
  }

  lemma {:induction false} MergeMergesTo(x: seq<int>, i: nat, y: seq<int>, j: nat, whole: seq<int>, k: nat)
    requires i <= |x| && j <= |y| && k <= |whole| && whole[k..] == Merge(x[i..], y[j..])
    ensures MergesTo(x, i, y, j, whole, k)
    decreases |x| - i + |y| - j
  {
    MergePermutes(x[i..], y[j..]);
    if i < |x| || j < |y| {
      MergeStep(x, i, y, j, whole, k);
      if j == |y| || (i < |x| && x[i] < y[j]) {
        MergeMergesTo(x, i + 1, y, j, whole, k + 1);
      } else {
        MergeMergesTo(x, i, y, j + 1, whole, k + 1);
      }
    }
  }

  lemma MergeWhole(x: seq<int>, y: seq<int>)
    ensures MergesTo(x, 0, y, 0, Merge(x, y), 0) && |Merge(x, y)| == |x| + |y|
  {
    MergePermutes(x, y);
    assert x[0..] == x && y[0..] == y && Merge(x, y)[0..] == Merge(x, y);
    MergeMergesTo(x, 0, y, 0, Merge(x, y), 0);
  }

  method MergeArrays(a: array<int>, b: array<int>) returns (c: array<int>)
    ensures fresh(c)
    ensures c[..] == Merge(a[..], b[..])
  {
    ghost var x, y := a[..], b[..];
    ghost var whole := Merge(x, y);
    MergeWhole(x, y);
    c := new int[a.Length + b.Length];
    var i, j := MergeHeads(a, b, c, whole);
    CopyRest(a, i, c, i + j, whole);
    CopyRest(b, j, c, a.Length + j, whole);
    assert a[..] == x && b[..] == y;
    assert forall m :: 0 <= m < c.Length ==> c[m] == whole[m];
  }

  /** The loop that runs while both sides last */
  method MergeHeads(a: array<int>, b: array<int>, c: array<int>, ghost whole: seq<int>) returns (i: nat, j: nat)
    requires c != a && c != b && c.Length == |whole| == a.Length + b.Length
    requires MergesTo(a[..], 0, b[..], 0, whole, 0)
    modifies c
    ensures i <= a.Length && j <= b.Length && (i == a.Length || j == b.Length)
    ensures forall m :: 0 <= m < i + j ==> c[m] == whole[m]
    ensures forall m :: i <= m < a.Length ==> a[m] == whole[i + j + (m - i)]
    ensures forall m :: j <= m < b.Length ==> b[m] == whole[a.Length + j + (m - j)]
  {
    ghost var x, y := a[..], b[..];
    var k := 0;
    i, j := 0, 0;
    while i < a.Length && j < b.Length
      invariant i <= a.Length && j <= b.Length && k == i + j
      invariant forall m :: 0 <= m < k ==> c[m] == whole[m]
      invariant MergesTo(x, i, y, j, whole, k)
    {
      if a[i] < b[j] {
        c[k] := a[i];
        i := i + 1;
      } else {
        c[k] := b[j];
        j := j + 1;
      }
      k := k + 1;
    }
    MergeTail(x, i, y, j, whole, k);
  }

  /** The loops that empty whichever side of a merge is left over */
  method CopyRest(src: array<int>, from: nat, dst: array<int>, at: nat, ghost whole: seq<int>)
    requires src != dst
    requires from <= src.Length && at + (src.Length - from) <= dst.Length == |whole|
    requires forall m :: 0 <= m < at ==> dst[m] == whole[m]
    requires forall m :: from <= m < src.Length ==> src[m] == whole[at + (m - from)]
    modifies dst
    ensures forall m :: 0 <= m < at + (src.Length - from) ==> dst[m] == whole[m]
  {
    var i, k := from, at;
    while i < src.Length
      invariant from <= i <= src.Length && k == at + (i - from)
      invariant forall m :: 0 <= m < k ==> dst[m] == whole[m]
    {
      dst[k] := src[i];
      i, k := i + 1, k + 1;
    }
  }

  /** When one side is used up, the rest of the other side is the rest of the result. */
  lemma {:induction false} MergeTail(x: seq<int>, i: nat, y: seq<int>, j: nat, whole: seq<int>, k: nat)
    requires i <= |x| && j <= |y| && (i == |x| || j == |y|)
    requires MergesTo(x, i, y, j, whole, k)
    ensures |whole| == k + (|x| - i) + (|y| - j)
    ensures forall m :: i <= m < |x| ==> x[m] == whole[k + (m - i)]
    ensures forall m :: j <= m < |y| ==> y[m] == whole[k + (|x| - i) + (m - j)]
    decreases |x| - i + |y| - j
  {
    if i < |x| {
      MergeTail(x, i + 1, y, j, whole, k + 1);
    } else if j < |y| {
      MergeTail(x, i, y, j + 1, whole, k + 1);
    }
  }

  /** The next number of the result, and what is left to merge after it */
  lemma MergeStep(x: seq<int>, i: nat, y: seq<int>, j: nat, whole: seq<int>, k: nat)
    requires i <= |x| && j <= |y| && (i < |x| || j < |y|)
    requires k < |whole| && whole[k..] == Merge(x[i..], y[j..])
    ensures i < |x| && (j == |y| || x[i] < y[j]) ==>
              whole[k] == x[i] && whole[k + 1..] == Merge(x[i + 1..], y[j..])
    ensures j < |y| && !(i < |x| && x[i] < y[j]) ==>
              whole[k] == y[j] && whole[k + 1..] == Merge(x[i..], y[j + 1..])
  {
    var m := whole[k..];
    assert whole[k] == m[0] && whole[k + 1..] == m[1..];
    if i < |x| && (j == |y| || x[i] < y[j]) {
      assert x[i..][1..] == x[i + 1..];
      assert m == [x[i]] + Merge(x[i + 1..], y[j..]);
    } else {
      assert y[j..][1..] == y[j + 1..];
      assert m == [y[j]] + Merge(x[i..], y[j + 1..]);
    }
  }
}
