/** The first pass of the suffix sort: a bucket sort by the first byte. */
module SuffixBuckets {
  import opened Bytes
  import opened Counting
  import opened SuffixOrder
  import opened SuffixGroups
  import opened SuffixRounds

  /** How many of the first `i` bytes equal `c`. */
  function Occ(t: seq<byte>, c: int, i: nat): (n: nat)
    requires i <= |t|
    ensures n <= i
  {
    if i == 0 then 0 else Occ(t, c, i - 1) + (if t[i - 1] == c then 1 else 0)
  }

  /** How many of the first `i` bytes are below `c`. */
  function Less(t: seq<byte>, c: int, i: nat): (n: nat)
    requires i <= |t|
    ensures n <= i
  {
    if i == 0 then 0 else Less(t, c, i - 1) + (if t[i - 1] < c then 1 else 0)
  }

  lemma {:induction false} LessNext(t: seq<byte>, c: int, i: nat)
    requires i <= |t|
    ensures Less(t, c + 1, i) == Less(t, c, i) + Occ(t, c, i)
    decreases i
  {
    if i > 0 {
      LessNext(t, c, i - 1);
    }
  }

  lemma {:induction false} LessMonotone(t: seq<byte>, c: int, d: int, i: nat)
    requires i <= |t| && c <= d
    ensures Less(t, c, i) <= Less(t, d, i)
    decreases i
  {
    if i > 0 {
      LessMonotone(t, c, d, i - 1);
    }
  }

  lemma {:induction false} LessNone(t: seq<byte>, i: nat)
    requires i <= |t|
    ensures Less(t, 0, i) == 0
    decreases i
  {
    if i > 0 {
      LessNone(t, i - 1);
    }
  }

  lemma {:induction false} OccMonotone(t: seq<byte>, c: int, i: nat, k: nat)
    requires i <= k <= |t|
    ensures Occ(t, c, i) <= Occ(t, c, k)
    decreases k
  {
    if i < k {
      OccMonotone(t, c, i, k - 1);
    }
  }

  /** A byte that occurs stands somewhere. */
  lemma {:induction false} OccWhere(t: seq<byte>, c: int, i: nat) returns (j: nat)
    requires i <= |t| && Occ(t, c, i) > 0
    ensures j < i && t[j] == c
    decreases i
  {
    if t[i - 1] == c {
      j := i - 1;
    } else {
      j := OccWhere(t, c, i - 1);
    }
  }

  /** The position of suffix `j` after the bucket sort: behind the empty suffix, the smaller bytes
      and the equal bytes before it. */
  function Rank(t: seq<byte>, j: nat): (r: nat)
    requires j < |t|
  {
    Less(t, t[j], |t|) + Occ(t, t[j], j + 1)
  }

  /** The last position of a byte's bucket. */
  function BucketEnd(t: seq<byte>, c: int): nat {
    Less(t, c + 1, |t|)
  }

  lemma RankInBucket(t: seq<byte>, j: nat)
    requires j < |t|
    ensures Less(t, t[j], |t|) < Rank(t, j) <= BucketEnd(t, t[j]) <= |t|
  {
    LessNext(t, t[j], |t|);
    OccMonotone(t, t[j], j + 1, |t|);
  }

  /** A smaller byte has the lower bucket. */
  lemma BucketsApart(t: seq<byte>, c: int, d: int)
    requires c < d
    ensures BucketEnd(t, c) <= Less(t, d, |t|)
  {
    LessMonotone(t, c + 1, d, |t|);
  }

  lemma RankDistinct(t: seq<byte>, j: nat, k: nat)
    requires j < |t| && k < |t| && j != k
    ensures Rank(t, j) != Rank(t, k)
  {
    RankInBucket(t, j);
    RankInBucket(t, k);
    if t[j] < t[k] {
      BucketsApart(t, t[j], t[k]);
    } else if t[k] < t[j] {
      BucketsApart(t, t[k], t[j]);
    } else if j < k {
      OccMonotone(t, t[j], j + 1, k);
    } else {
      OccMonotone(t, t[j], k + 1, j);
    }
  }

  /** The table after the bucket sort. */
  ghost predicate Filled(t: seq<byte>, P: seq<int>) {
    && |P| == |t| + 1 && P[0] == |t|
    && forall j :: 0 <= j < |t| ==> 1 <= Rank(t, j) <= |t| && P[Rank(t, j)] == j
  }

  /** Every position of the table was filled, with the suffix that ranks there. */
  lemma FilledAt(t: seq<byte>, P: seq<int>, k: nat)
    requires Filled(t, P) && 1 <= k <= |t|
    ensures 0 <= P[k] < |t| && Rank(t, P[k]) == k
  {
    hide Rank;
    var ranks := seq(|t|, j requires 0 <= j < |t| => Rank(t, j) - 1);
    forall i, j | 0 <= i < j < |t|
      ensures ranks[i] != ranks[j]
    {
      RankDistinct(t, i, j);
    }
    forall j | 0 <= j < |t|
      ensures 0 <= ranks[j] < |t|
    {
      assert 1 <= Rank(t, j) <= |t|;
    }
    Pigeonhole(ranks, k - 1);
    var j :| 0 <= j < |t| && ranks[j] == k - 1;
    assert P[Rank(t, j)] == j;
  }

  lemma FilledIsPerm(t: seq<byte>, P: seq<int>)
    requires Filled(t, P)
    ensures Perm(P, |t|)
    ensures forall k :: 1 <= k <= |t| ==> 0 <= P[k] < |t| && Rank(t, P[k]) == k
  {
    hide Rank;
    forall k | 1 <= k <= |t|
      ensures 0 <= P[k] < |t| && Rank(t, P[k]) == k
    {
      FilledAt(t, P, k);
    }
    forall p | 0 <= p <= |t|
      ensures p in P
    {
      if p < |t| {
        assert P[Rank(t, p)] == p;
      } else {
        assert P[0] == p;
      }
    }
  }

  /** The group numbers after the bucket sort. */
  ghost predicate Numbered(t: seq<byte>, V: seq<int>) {
    && |V| == |t| + 1 && V[|t|] == 0
    && forall p :: 0 <= p < |t| ==> V[p] == BucketEnd(t, t[p])
  }

  lemma BucketOrder(t: seq<byte>, V: seq<int>, p: nat, q: nat)
    requires Numbered(t, V) && p <= |t| && q <= |t|
    ensures V[p] < V[q] ==> Before(t, p, q)
    ensures V[p] == V[q] ==> SameHead(t, p, q, 1)
  {
    if p < |t| {
      RankInBucket(t, p);
    }
    if q < |t| {
      RankInBucket(t, q);
    }
    if p < |t| && q < |t| {
      if t[p] < t[q] {
        BucketsApart(t, t[p], t[q]);
      } else if t[q] < t[p] {
        BucketsApart(t, t[q], t[p]);
      }
      assert t[p..p + 1] == [t[p]] && t[q..q + 1] == [t[q]];
    }
  }

  lemma BucketGroups(t: seq<byte>, P: seq<int>, V: seq<int>)
    requires Filled(t, P) && Numbered(t, V) && Perm(P, |t|)
    ensures Groups(Ends(P, V))
  {
    hide Rank, BucketEnd, Less;
    var W := Ends(P, V);
    forall k | 0 <= k < |W|
      ensures k <= W[k] < |W|
      ensures k > 0 ==> W[k] == BucketEnd(t, t[P[k]])
    {
      if k > 0 {
        FilledAt(t, P, k);
        RankInBucket(t, P[k]);
      }
    }
    forall k, m | 0 <= k <= m < |W| && m <= W[k]
      ensures W[m] == W[k]
    {
      if k > 0 {
        FilledAt(t, P, k);
        FilledAt(t, P, m);
        RankInBucket(t, P[k]);
        RankInBucket(t, P[m]);
        if t[P[m]] < t[P[k]] {
          BucketsApart(t, t[P[m]], t[P[k]]);
        } else if t[P[k]] < t[P[m]] {
          BucketsApart(t, t[P[k]], t[P[m]]);
        }
      }
    }
  }

  lemma BucketState(t: seq<byte>, P: seq<int>, V: seq<int>)
    requires Filled(t, P) && Numbered(t, V)
    ensures State(t, P, V, 1)
  {
    hide Before, SameHead, Numbered, Filled;
    FilledIsPerm(t, P);
    NumberedLength(t, V);
    BucketGroups(t, P, V);
    forall p, q | 0 <= p < |V| && 0 <= q < |V|
      ensures V[p] < V[q] ==> Before(t, p, q)
      ensures V[p] == V[q] ==> SameHead(t, p, q, 1)
    {
      BucketOrder(t, V, p, q);
    }
  }

  lemma NumberedLength(t: seq<byte>, V: seq<int>)
    requires Numbered(t, V)
    ensures |V| == |t| + 1
  {}

  // ---- Marking groups of one ----

  ghost predicate Marked(I: seq<int>, P: seq<int>, W: seq<int>) {
    && |I| == |P| == |W|
    && forall k :: 0 <= k < |I| ==> I[k] == P[k] || (I[k] == -1 && Single(W, 0, k))
  }

  lemma {:induction false} MarkedIsTiled(I: seq<int>, P: seq<int>, W: seq<int>, m: nat)
    requires Marked(I, P, W) && Groups(W) && (forall k :: 0 <= k < |P| ==> 0 <= P[k])
    requires m <= |I| && (m == 0 || W[m - 1] < m)
    ensures Tiled(I, P, W, m, |I|, 1)
    decreases |I| - m
  {
    if m < |I| {
      var e := W[m];
      assert W[e] == e;
      if I[m] == -1 {
        MarkedIsTiled(I, P, W, m + 1);
      } else {
        assert forall k :: m <= k <= e ==> W[k] == e;
        assert Shows(I, P, m, e + 1);
        MarkedIsTiled(I, P, W, e + 1);
      }
    }
  }

  /** A bucket of one is a group of one. */
  lemma BucketOfOne(t: seq<byte>, P: seq<int>, V: seq<int>, c: byte)
    requires Filled(t, P) && Numbered(t, V) && Perm(P, |t|) && BucketEnd(t, c) == Less(t, c, |t|) + 1
    ensures 1 <= BucketEnd(t, c) <= |t| && Single(Ends(P, V), 0, BucketEnd(t, c))
  {
    LessNext(t, c, |t|);
    var j := OccWhere(t, c, |t|);
    RankInBucket(t, j);
    var k := BucketEnd(t, c);
    assert Rank(t, j) == k && P[k] == j;
    var W := Ends(P, V);
    if k > 1 {
      FilledAt(t, P, k - 1);
      var i := P[k - 1];
      RankInBucket(t, i);
      if t[i] < c {
        BucketsApart(t, t[i], c);
      } else if c < t[i] {
        BucketsApart(t, c, t[i]);
      }
    }
  }

  // ---- The loops ----

  method CountBytes(t: seq<byte>, buckets: array<int>)
    requires buckets.Length == 256
    modifies buckets
    ensures forall c :: 0 <= c < 256 ==> buckets[c] == Occ(t, c, |t|)
  {
    for i := 0 to 256
      invariant forall c :: 0 <= c < i ==> buckets[c] == 0
    {
      buckets[i] := 0;
    }
    for i := 0 to |t|
      invariant forall c :: 0 <= c < 256 ==> buckets[c] == Occ(t, c, i)
    {
      buckets[t[i]] := buckets[t[i]] + 1;
    }
  }

  /** Running sums, then a shift: where each bucket starts. */
  method Accumulate(t: seq<byte>, buckets: array<int>)
    requires buckets.Length == 256 && forall c :: 0 <= c < 256 ==> buckets[c] == Occ(t, c, |t|)
    modifies buckets
    ensures forall c :: 0 <= c < 256 ==> buckets[c] == Less(t, c, |t|)
  {
    LessNone(t, |t|);
    LessNext(t, 0, |t|);
    for i := 1 to 256
      invariant forall c :: 0 <= c < i ==> buckets[c] == Less(t, c + 1, |t|)
      invariant forall c :: i <= c < 256 ==> buckets[c] == Occ(t, c, |t|)
    {
      LessNext(t, i, |t|);
      buckets[i] := buckets[i] + buckets[i - 1];
    }
    var i := 255;
    while i > 0
      invariant 0 <= i <= 255
      invariant forall c :: 0 <= c <= i ==> buckets[c] == Less(t, c + 1, |t|)
      invariant forall c :: i < c < 256 ==> buckets[c] == Less(t, c, |t|)
    {
      buckets[i] := buckets[i - 1];
      i := i - 1;
    }
    buckets[0] := 0;
  }

  method Fill(t: seq<byte>, buckets: array<int>, I: array<int>)
    requires buckets.Length == 256 && I.Length == |t| + 1 && I != buckets
    requires forall c :: 0 <= c < 256 ==> buckets[c] == Less(t, c, |t|)
    modifies buckets, I
    ensures forall c :: 0 <= c < 256 ==> buckets[c] == BucketEnd(t, c)
    ensures Filled(t, I[..])
  {
    hide Rank, Less;
    for i := 0 to |t|
      invariant forall c :: 0 <= c < 256 ==> buckets[c] == Less(t, c, |t|) + Occ(t, c, i)
      invariant forall j :: 0 <= j < i ==> 1 <= Rank(t, j) <= |t| && I[Rank(t, j)] == j
    {
      RankIs(t, i);
      buckets[t[i]] := buckets[t[i]] + 1;
      forall j | 0 <= j < i
        ensures Rank(t, j) != Rank(t, i)
      {
        RankDistinct(t, j, i);
      }
      I[buckets[t[i]]] := i;
    }
    I[0] := |t|;
    forall c | 0 <= c < 256
      ensures buckets[c] == BucketEnd(t, c)
    {
      LessNext(t, c, |t|);
    }
  }

  lemma RankIs(t: seq<byte>, i: nat)
    requires i < |t|
    ensures Rank(t, i) == Less(t, t[i], |t|) + Occ(t, t[i], i) + 1
    ensures 1 <= Rank(t, i) <= |t|
  {
    RankInBucket(t, i);
  }

  method Number(t: seq<byte>, buckets: array<int>, V: array<int>)
    requires buckets.Length == 256 && V.Length == |t| + 1 && V != buckets
    requires forall c :: 0 <= c < 256 ==> buckets[c] == BucketEnd(t, c)
    modifies V
    ensures Numbered(t, V[..])
  {
    hide BucketEnd;
    for i := 0 to |t|
      invariant forall p :: 0 <= p < i ==> V[p] == BucketEnd(t, t[p])
    {
      V[i] := buckets[t[i]];
    }
    V[|t|] := 0;
  }

  method Mark(ghost t: seq<byte>, buckets: array<int>, I: array<int>, ghost P: seq<int>, ghost V: seq<int>)
    requires buckets.Length == 256 && I.Length == |t| + 1 && I != buckets && I[..] == P
    requires forall c :: 0 <= c < 256 ==> buckets[c] == BucketEnd(t, c)
    requires Filled(t, P) && Numbered(t, V) && State(t, P, V, 1)
    modifies I
    ensures Marked(I[..], P, Ends(P, V)) && I[0] == -1
  {
    hide Filled, Numbered, BucketEnd, Ordered, Fine, Groups;
    ghost var W := Ends(P, V);
    for i := 1 to 256
      invariant Marked(I[..], P, W)
    {
      if buckets[i] == buckets[i - 1] + 1 {
        assert BucketEnd(t, i - 1) == Less(t, i, |t|) by { BucketEndIs(t, i); }
        BucketOfOne(t, P, V, i);
        I[buckets[i]] := -1;
      }
    }
    FirstIsSingle(t, P, V);
    I[0] := -1;
  }

  lemma BucketEndIs(t: seq<byte>, c: int)
    ensures BucketEnd(t, c - 1) == Less(t, c, |t|)
  {}

  lemma FirstIsSingle(t: seq<byte>, P: seq<int>, V: seq<int>)
    requires Filled(t, P) && Numbered(t, V) && Perm(P, |t|)
    ensures Single(Ends(P, V), 0, 0) && P[0] == |t|
  {}

  /** The bucket sort leaves a table the passes can start from. */
  method BucketSort(t: seq<byte>, I: array<int>, V: array<int>) returns (ghost P: seq<int>)
    requires I != V && I.Length == V.Length == |t| + 1
    modifies I, V
    ensures Ready(t, I[..], P, V[..], 1, 1) && I[0] == -1
  {
    hide Filled, Numbered, State, Marked, Less, Occ, BucketEnd;
    var buckets := new int[256];
    CountBytes(t, buckets);
    Accumulate(t, buckets);
    Fill(t, buckets, I);
    P := I[..];
    Number(t, buckets, V);
    BucketState(t, P, V[..]);
    Mark(t, buckets, I, P, V[..]);
    BucketsReady(t, I[..], P, V[..]);
  }

  lemma BucketsReady(t: seq<byte>, I: seq<int>, P: seq<int>, V: seq<int>)
    requires State(t, P, V, 1) && Filled(t, P) && Numbered(t, V) && Marked(I, P, Ends(P, V)) && I[0] == -1
    ensures Ready(t, I, P, V, 1, 1)
  {
    hide Ordered, Fine, Marked;
    MarkedLength(I, P, Ends(P, V));
    MarkedIsTiled(I, P, Ends(P, V), 0);
  }

  lemma MarkedLength(I: seq<int>, P: seq<int>, W: seq<int>)
    requires Marked(I, P, W)
    ensures |I| == |P| == |W|
  {}

  // ---- The whole sort ----

  /** A table of one run shows that every suffix is placed. */
  lemma SortedAtEnd(t: seq<byte>, I: seq<int>, P: seq<int>, V: seq<int>, h: nat, min: nat)
    requires Ready(t, I, P, V, h, min) && I[0] == -(|t| + 1)
    ensures |P| == |V| == |t| + 1 && forall k :: 0 <= k < |P| ==> 0 <= P[k] <= |t| && V[P[k]] == k
    ensures forall p :: 0 <= p <= |t| ==> 0 <= V[p] <= |t| && P[V[p]] == p
    ensures SuffixArray(t, P)
  {
    hide Before, Fine, Groups;
    var W := Ends(P, V);
    assert Singles(W, 0, |W|);
    assert forall k :: 0 <= k < |P| ==> W[k] == k;
    forall p | 0 <= p <= |t|
      ensures 0 <= V[p] <= |t| && P[V[p]] == p
    {
      var k := At(P, |t|, p);
      assert W[k] == k;
    }
  }

  /** Turns the numbers of the suffixes into the list of suffixes. */
  method Invert(I: array<int>, V: array<int>, ghost P: seq<int>)
    requires I != V && I.Length == V.Length == |P|
    requires forall k :: 0 <= k < |P| ==> 0 <= P[k] < |P| && V[P[k]] == k
    requires forall p :: 0 <= p < |P| ==> 0 <= V[p] < |P| && P[V[p]] == p
    modifies I
    ensures I[..] == P
  {
    for i := 0 to I.Length
      invariant forall p :: 0 <= p < i ==> I[V[p]] == p
    {
      I[V[i]] := i;
    }
    forall k | 0 <= k < |P|
      ensures I[k] == P[k]
    {
      assert I[V[P[k]]] == P[k];
    }
  }

  /** The suffix sort: it ends, and the table then lists every position once, in the order of the
      suffixes. */
  method Qsufsort(t: seq<byte>, I: array<int>, V: array<int>)
    requires I != V && I.Length == V.Length == |t| + 1
    modifies I, V
    ensures SuffixArray(t, I[..])
  {
    hide Ready, SuffixArray;
    ghost var P := BucketSort(t, I, V);
    ghost var min: nat := 1;
    var h := 1;
    while I[0] != -(|t| + 1)
      invariant h >= 1 && Ready(t, I[..], P, V[..], h, min)
      invariant (min == 2 || (h == 1 && I[0] == -1))
      decreases if h <= |t| then |t| + 1 - h else 0, if I[0] == -(|t| + 1) then 0 else 1
    {
      P := Pass(t, I, V, h, P, min);
      min := 2;
      h := h + h;
    }
    SortedAtEnd(t, I[..], P, V[..], h, min);
    Invert(I, V, P);
  }
}
