/**
 * Merging the workers' results: flatten the per-chunk record lists, sort the
 * records by frame index and split them into frames and durations.
 */
module Merge {
  import opened Imaging
  import opened ChunkDecoder

  /** `[ii for iia in chunks for ii in iia]` */
  function Flatten(chunks: seq<seq<Record>>): (r: seq<Record>)
    ensures forall x :: x in r <==> exists c :: c in chunks && x in c
  {
    if chunks == [] then [] else chunks[0] + Flatten(chunks[1..])
  }

  function Indices(s: seq<Record>): seq<int>
  {
    seq(|s|, k requires 0 <= k < |s| => s[k].index)
  }

  /** The indices `0, 1, ..., n-1`. */
  function IndexRange(n: nat): seq<int>
  {
    seq(n, k => k)
  }

  predicate SortedByIndex(s: seq<Record>)
  {
    forall k :: 0 <= k < |s| - 1 ==> s[k].index <= s[k + 1].index
  }

  /** Puts `r` in front of the first record of `s` whose index is not
      smaller, so that it stays ahead of records with an equal index. */
  function Insert(r: Record, s: seq<Record>): (t: seq<Record>)
    ensures |t| == |s| + 1
    ensures multiset(t) == multiset(s) + multiset{r}
    ensures s != [] ==> t[0] == r || t[0] == s[0]
    ensures SortedByIndex(s) ==> SortedByIndex(t)
  {
    if s == [] || r.index <= s[0].index then [r] + s
    else
      assert s == [s[0]] + s[1..];
      var u := Insert(r, s[1..]);
      assert multiset(s) == multiset{s[0]} + multiset(s[1..]);
      assert SortedByIndex(s) ==> SortedByIndex(s[1..]) && s[0].index <= u[0].index;
      assert ([s[0]] + u)[0] == s[0];
      [s[0]] + u
  }

  /** `sorted(records, key=lambda x: x[1])`: a stable insertion sort. */
  function SortByIndex(s: seq<Record>): (t: seq<Record>)
    ensures |t| == |s|
    ensures multiset(t) == multiset(s)
    ensures SortedByIndex(t)
  {
    if s == [] then []
    else
      assert s == [s[0]] + s[1..];
      Insert(s[0], SortByIndex(s[1..]))
  }

  /** Sorting a list that is already in index order leaves it unchanged. */
  lemma {:induction false} SortOfSortedIsIdentity(s: seq<Record>)
    requires SortedByIndex(s)
    ensures SortByIndex(s) == s
  {
    if s != [] {
      assert SortedByIndex(s[1..]);
      SortOfSortedIsIdentity(s[1..]);
    }
  }

  /** Sorting twice is sorting once. */
  lemma SortIsIdempotent(s: seq<Record>)
    ensures SortByIndex(SortByIndex(s)) == SortByIndex(s)
  {
    SortOfSortedIsIdentity(SortByIndex(s));
  }

  lemma FlattenAppend(a: seq<seq<Record>>, b: seq<seq<Record>>)
    ensures Flatten(a + b) == Flatten(a) + Flatten(b)
  {
    if a == [] {
      assert a + b == b;
    } else {
      assert (a + b)[0] == a[0];
      assert (a + b)[1..] == a[1..] + b;
      FlattenAppend(a[1..], b);
    }
  }

  /** Taking the first element off `a` and a matching element off `b` keeps
      the two multisets equal. */
  lemma RemoveMatching<T>(a: seq<T>, b: seq<T>, j: nat)
    requires multiset(a) == multiset(b)
    requires a != [] && j < |b| && b[j] == a[0]
    ensures multiset(a[1..]) == multiset(b[..j] + b[j + 1..])
  {
    assert a == [a[0]] + a[1..];
    assert multiset(b) == multiset(b[..j]) + multiset{b[j]} + multiset(b[j + 1..]) by {
      assert b == b[..j] + [b[j]] + b[j + 1..];
    }
    assert multiset(b[..j] + b[j + 1..]) == multiset(b[..j]) + multiset(b[j + 1..]);
    assert multiset(a) == multiset(a[1..]) + multiset{a[0]};
    var ra, rb := multiset(a[1..]), multiset(b[..j] + b[j + 1..]);
    assert ra + multiset{a[0]} == rb + multiset{a[0]};
    forall x
      ensures ra[x] == rb[x]
    {
      assert (ra + multiset{a[0]})[x] == (rb + multiset{a[0]})[x];
    }
  }

  /** A position of `b` holding `a[0]`. */
  lemma FindMatching<T>(a: seq<T>, b: seq<T>) returns (j: nat)
    requires multiset(a) == multiset(b) && a != []
    ensures j < |b| && b[j] == a[0]
  {
    assert a[0] in multiset(b);
    j :| 0 <= j < |b| && b[j] == a[0];
  }

  /** Flattening chunks in another arrival order gives a permutation of the
      same records. */
  lemma {:induction false} FlattenPermutation(a: seq<seq<Record>>, b: seq<seq<Record>>)
    requires multiset(a) == multiset(b)
    ensures multiset(Flatten(a)) == multiset(Flatten(b))
    decreases |a|
  {
    if a != [] {
      var j := FindMatching(a, b);
      var rest := b[..j] + b[j + 1..];
      RemoveMatching(a, b, j);
      assert b == b[..j] + ([b[j]] + b[j + 1..]);
      FlattenPermutation(a[1..], rest);
      FlattenAppend(b[..j], [b[j]] + b[j + 1..]);
      FlattenAppend([b[j]], b[j + 1..]);
      FlattenAppend(b[..j], b[j + 1..]);
      assert Flatten([b[j]]) == b[j];
    }
  }

  /** Permuting records permutes their indices. */
  lemma {:induction false} IndicesPermutation(a: seq<Record>, b: seq<Record>)
    requires multiset(a) == multiset(b)
    ensures multiset(Indices(a)) == multiset(Indices(b))
    decreases |a|
  {
    if a != [] {
      var j := FindMatching(a, b);
      var rest := b[..j] + b[j + 1..];
      RemoveMatching(a, b, j);
      IndicesPermutation(a[1..], rest);
      assert Indices(a) == [a[0].index] + Indices(a[1..]);
      assert Indices(b) == Indices(b[..j]) + [a[0].index] + Indices(b[j + 1..]);
      assert Indices(rest) == Indices(b[..j]) + Indices(b[j + 1..]);
    }
  }

  /** Every index of `0 .. n-1` occurs once in `IndexRange(n)`, and nothing else. */
  lemma {:induction false} IndexRangeCounts(n: nat, v: int)
    ensures multiset(IndexRange(n))[v] == if 0 <= v < n then 1 else 0
  {
    if n > 0 {
      assert IndexRange(n) == IndexRange(n - 1) + [n - 1];
      IndexRangeCounts(n - 1, v);
    }
  }

  lemma {:induction false} StrictLowerBound(x: seq<int>, k: nat)
    requires forall j :: 0 <= j < |x| ==> 0 <= x[j]
    requires forall j :: 0 <= j < |x| - 1 ==> x[j] < x[j + 1]
    requires k < |x|
    ensures k <= x[k]
  {
    if k > 0 { StrictLowerBound(x, k - 1); }
  }

  lemma {:induction false} StrictUpperBound(x: seq<int>, k: nat)
    requires forall j :: 0 <= j < |x| ==> x[j] < |x|
    requires forall j :: 0 <= j < |x| - 1 ==> x[j] < x[j + 1]
    requires k < |x|
    ensures x[k] <= k
    decreases |x| - k
  {
    if k < |x| - 1 { StrictUpperBound(x, k + 1); }
  }

  /** A list sorted by index whose indices are a permutation of `0 .. n-1`
      carries index `k` at position `k`. */
  lemma SortedPermutationOfRange(s: seq<Record>, n: nat)
    requires SortedByIndex(s)
    requires multiset(Indices(s)) == multiset(IndexRange(n))
    ensures Indices(s) == IndexRange(n)
  {
    var x := Indices(s);
    assert |x| == |multiset(x)| == n;
    forall j | 0 <= j < n
      ensures 0 <= x[j] < n
    {
      assert x[j] in multiset(x);
      IndexRangeCounts(n, x[j]);
    }
    forall j | 0 <= j < n - 1
      ensures x[j] < x[j + 1]
    {
      if x[j] == x[j + 1] {
        assert x == x[..j] + [x[j], x[j + 1]] + x[j + 2..];
        assert multiset(x)[x[j]] >= 2;
        IndexRangeCounts(n, x[j]);
        assert false;
      }
    }
    forall k | 0 <= k < n
      ensures x[k] == k
    {
      StrictLowerBound(x, k);
      StrictUpperBound(x, k);
    }
  }

  /**
   * Whatever order the chunks arrive in, merging them restores presentation
   * order: when the chunks, in range order, hold the indices `0 .. n-1`, the
   * sorted merge of any rearrangement of them carries index `k` at position
   * `k` and is a permutation of the records in range order.
   */
  lemma MergeRestoresOrder(chunks: seq<seq<Record>>, arrived: seq<seq<Record>>, n: nat)
    requires Indices(Flatten(chunks)) == IndexRange(n)
    requires multiset(arrived) == multiset(chunks)
    ensures Indices(SortByIndex(Flatten(arrived))) == IndexRange(n)
    ensures multiset(SortByIndex(Flatten(arrived))) == multiset(Flatten(chunks))
  {
    var merged := SortByIndex(Flatten(arrived));
    FlattenPermutation(arrived, chunks);
    IndicesPermutation(merged, Flatten(chunks));
    SortedPermutationOfRange(merged, n);
  }

  /** Splits the sorted records into the frame list and the duration list. */
  method Unzip(sorted: seq<Record>) returns (images: seq<FrameData>, frameTimes: seq<int>)
    ensures |images| == |sorted| && |frameTimes| == |sorted|
    ensures forall k :: 0 <= k < |sorted| ==>
      images[k] == sorted[k].frame && frameTimes[k] == sorted[k].duration
  {
    images, frameTimes := [], [];
    for k := 0 to |sorted|
      invariant |images| == k && |frameTimes| == k
      invariant forall j :: 0 <= j < k ==>
        images[j] == sorted[j].frame && frameTimes[j] == sorted[j].duration
    {
      images := images + [sorted[k].frame];
      frameTimes := frameTimes + [sorted[k].duration];
    }
  }
}
