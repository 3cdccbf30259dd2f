/** The rounds of the suffix sort: each pass over the table doubles the symbols compared. */
module SuffixRounds {
  import opened Bytes
  import opened SuffixOrder
  import opened SuffixGroups
  import opened SuffixSort

  ghost predicate Singles(W: seq<int>, a: int, b: int) {
    0 <= a <= b <= |W| && forall k :: a <= k < b ==> W[k] == k
  }

  ghost predicate Shows(I: seq<int>, P: seq<int>, a: int, b: int) {
    0 <= a <= b <= |I| && |I| == |P| && forall k :: a <= k < b ==> I[k] == P[k]
  }

  /** The table from `a` to `b` is a row of tiles: a negative entry stands for a run of groups of
      one, as long as its magnitude; any other entry begins a group of at least `min` suffixes,
      which it lists. */
  ghost predicate Tiled(I: seq<int>, P: seq<int>, W: seq<int>, a: int, b: int, min: nat)
    decreases b - a
  {
    && 0 <= a <= b <= |I| && |I| == |P| == |W| && 1 <= min
    && (a < b ==>
          if I[a] < 0 then
            a - I[a] <= b && Singles(W, a, a - I[a]) && Tiled(I, P, W, a - I[a], b, min)
          else
            a + min <= W[a] + 1 <= b && Shows(I, P, a, W[a] + 1) && Tiled(I, P, W, W[a] + 1, b, min))
  }

  lemma {:induction false} TiledConcat(I: seq<int>, P: seq<int>, W: seq<int>, a: nat, m: nat, b: nat, min: nat)
    requires Tiled(I, P, W, a, m, min) && Tiled(I, P, W, m, b, min)
    ensures Tiled(I, P, W, a, b, min)
    decreases m - a
  {
    if a < m {
      TiledConcat(I, P, W, if I[a] < 0 then a - I[a] else W[a] + 1, m, b, min);
    }
  }

  lemma {:induction false} TiledFrame(I: seq<int>, P: seq<int>, W: seq<int>, I': seq<int>, P': seq<int>, W': seq<int>,
                                      a: nat, b: nat, min: nat)
    requires Tiled(I, P, W, a, b, min) && |I'| == |P'| == |W'| == |I|
    requires forall k :: a <= k < b ==> I'[k] == I[k] && P'[k] == P[k] && W'[k] == W[k]
    ensures Tiled(I', P', W', a, b, min)
    decreases b - a
  {
    if a < b {
      TiledFrame(I, P, W, I', P', W', if I[a] < 0 then a - I[a] else W[a] + 1, b, min);
    }
  }

  /** A run of groups of one, closed by its length. */
  lemma TiledRun(I: seq<int>, P: seq<int>, W: seq<int>, a: nat, b: nat, min: nat)
    requires a < b <= |I| && |I| == |P| == |W| && 1 <= min && I[a] == -(b - a) && Singles(W, a, b)
    ensures Tiled(I, P, W, a, b, min)
  {}

  /** Entries of a stretch: -1 for a group of one, the suffix otherwise. */
  ghost predicate Cells(I: seq<int>, P: seq<int>, W: seq<int>, a: nat, b: nat) {
    && a <= b <= |I| && |I| == |P| == |W| && (forall k :: 0 <= k < |P| ==> 0 <= P[k])
    && (forall k :: a <= k < b ==> k <= W[k] < b)
    && (forall k :: a <= k < b ==> I[k] == if Single(W, a, k) then -1 else P[k])
  }

  lemma {:induction false} TiledFromCells(I: seq<int>, P: seq<int>, W: seq<int>, a: nat, m: nat, b: nat)
    requires Cells(I, P, W, a, b) && Groups(W) && a <= m <= b && (m == a || W[m - 1] < m)
    ensures Tiled(I, P, W, m, b, 2)
    decreases b - m
  {
    if m < b {
      var e := W[m];
      assert W[e] == e;
      assert forall k :: m <= k <= e ==> W[k] == e;
      if Single(W, a, m) {
        TiledFromCells(I, P, W, a, m + 1, b);
      } else {
        TileShows(I, P, W, a, m, b);
        TiledFromCells(I, P, W, a, e + 1, b);
      }
    }
  }

  lemma TileShows(I: seq<int>, P: seq<int>, W: seq<int>, a: nat, m: nat, b: nat)
    requires Cells(I, P, W, a, b) && Groups(W) && a <= m < b && (m == a || W[m - 1] < m) && !Single(W, a, m)
    ensures m < W[m] < b && I[m] >= 0 && Shows(I, P, m, W[m] + 1)
  {
    forall k | m <= k <= W[m]
      ensures I[k] == P[k]
    {
      assert W[k] == W[m];
      if k > m {
        assert W[k - 1] == W[m];
      }
    }
  }

  /** What the splitting procedure leaves is a row of tiles. */
  lemma TiledFromSplit(t: seq<byte>, I: seq<int>, P: seq<int>, W: seq<int>, a: nat, b: nat, h: nat)
    requires Split(t, I, P, W, a, b, h) && Groups(W)
    ensures Tiled(I, P, W, a, b, 2)
  {
    hide SameHead;
    TiledFromCells(I, P, W, a, a, b);
  }

  /** Suffixes of finished groups, those below `i`, agree on `h` symbols. */
  ghost predicate FineBelow(t: seq<byte>, V: seq<int>, h: nat, i: int) {
    |V| == |t| + 1 && forall p, q :: 0 <= p < |V| && 0 <= q < |V| && V[p] == V[q] < i ==> SameHead(t, p, q, h)
  }

  /** The pass over the table, `i` positions along with `len` groups of one pending. */
  ghost predicate Passing(t: seq<byte>, I: seq<int>, P: seq<int>, V: seq<int>, h: nat, min: nat, i: int, len: int) {
    && State(t, P, V, h) && |I| == |P|
    && 0 <= len <= i <= |I| && (i == 0 || V[P[i - 1]] < i)
    && Tiled(I, P, Ends(P, V), 0, i - len, 2) && Singles(Ends(P, V), i - len, i) && Tiled(I, P, Ends(P, V), i, |I|, min)
    && FineBelow(t, V, h + h, i)
    && P[0] == |t| && I[0] < 0
  }

  /** A pass may start: with groups of at least two, or with one symbol compared. */
  ghost predicate Ready(t: seq<byte>, I: seq<int>, P: seq<int>, V: seq<int>, h: nat, min: nat) {
    && State(t, P, V, h) && |I| == |P| && Tiled(I, P, Ends(P, V), 0, |I|, min)
    && P[0] == |t| && I[0] < 0 && h >= 1 && (min == 2 || h == 1)
  }

  lemma PassStarts(t: seq<byte>, I: seq<int>, P: seq<int>, V: seq<int>, h: nat, min: nat)
    requires Ready(t, I, P, V, h, min)
    ensures Passing(t, I, P, V, h, min, 0, 0)
  {
    assert FineBelow(t, V, h + h, 0);
  }

  /** Two different suffixes of a group have `h` symbols to spare. */
  lemma GroupHasRoom(t: seq<byte>, P: seq<int>, V: seq<int>, h: nat, i: nat, e: nat)
    requires State(t, P, V, h) && i < e < |P| && (forall k :: i <= k <= e ==> V[P[k]] == e)
    ensures forall k :: i <= k <= e ==> P[k] + h <= |t|
  {
    hide Ordered, Groups, Before;
    forall k | i <= k <= e
      ensures P[k] + h <= |t|
    {
      var m := if k == i then e else i;
      assert P[k] != P[m];
      assert SameHead(t, P[k], P[m], h);
    }
  }

  /** A group tile can be given to the splitting procedure. */
  lemma PassSplits(t: seq<byte>, I: seq<int>, P: seq<int>, V: seq<int>, h: nat, min: nat, i: int, len: int)
    requires Passing(t, I, P, V, h, min, i, len) && i < |I| && I[i] >= 0 && (min == 2 || h == 1)
    ensures 1 <= i && I[i] == P[i] && 0 <= P[i] < |V| && i <= V[P[i]] < |I|
    ensures Splitting(t, I, P, V, i, V[P[i]] + 1, V[P[i]], h)
    ensures min == 2 ==> V[P[i]] > i
  {
    hide Ordered, Fine, Before, SameHead;
    var W := Ends(P, V);
    var e := W[i];
    assert Shows(I, P, i, e + 1);
    assert forall k :: i <= k <= e ==> W[k] == e;
    if i < e {
      GroupHasRoom(t, P, V, h, i, e);
    } else {
      assert P[i] != P[0];
    }
  }

  lemma PassSkips(t: seq<byte>, I: seq<int>, P: seq<int>, V: seq<int>, h: nat, min: nat, i: int, len: int)
    requires Passing(t, I, P, V, h, min, i, len) && i < |I| && I[i] < 0
    ensures i - I[i] <= |I| && Passing(t, I, P, V, h, min, i - I[i], len - I[i])
  {
    hide Ordered, Fine, Before;
    var W, m := Ends(P, V), i - I[i];
    assert Singles(W, i, m);
    assert FineBelow(t, V, h + h, m) by {
      SinglesAreFine(t, P, V, h + h, i, m);
    }
  }

  /** Groups of one are as fine as can be. */
  lemma SinglesAreFine(t: seq<byte>, P: seq<int>, V: seq<int>, h: nat, i: int, m: int)
    requires Perm(P, |t|) && |V| == |t| + 1 && Groups(Ends(P, V)) && 0 <= i <= m
    requires FineBelow(t, V, h, i) && Singles(Ends(P, V), i, m) && (i == 0 || V[P[i - 1]] < i)
    ensures FineBelow(t, V, h, m)
  {
    var W := Ends(P, V);
    BelowBlock(W, i);
    forall p, q | 0 <= p < |V| && 0 <= q < |V| && V[p] == V[q] < m
      ensures SameHead(t, p, q, h)
    {
      var j, k := At(P, |t|, p), At(P, |t|, q);
      assert W[j] == V[p] && W[k] == V[q];
    }
  }

  /** Writing the length of the pending run completes the tiles below. */
  lemma PassCloses(t: seq<byte>, I: seq<int>, P: seq<int>, V: seq<int>, I': seq<int>, h: nat, min: nat, i: int, len: int)
    requires Passing(t, I, P, V, h, min, i, len) && I' == if len > 0 then I[i - len := -len] else I
    ensures Passing(t, I', P, V, h, min, i, 0)
  {
    hide Ordered, Fine, Before, Groups, FineBelow;
    if len > 0 {
      var W := Ends(P, V);
      TiledFrame(I, P, W, I', P, W, 0, i - len, 2);
      TiledFrame(I, P, W, I', P, W, i, |I|, min);
      TiledRun(I', P, W, i - len, i, 2);
      TiledConcat(I', P, W, 0, i - len, i, 2);
    }
  }

  /** A split group is finer below its end. */
  lemma SplitIsFine(t: seq<byte>, I: seq<int>, P: seq<int>, V: seq<int>, I': seq<int>, P': seq<int>, V': seq<int>,
                    i: nat, b: nat, h: nat)
    requires State(t, P, V, h) && FineBelow(t, V, h + h, i) && i <= |P| && (i == 0 || V[P[i - 1]] < i)
    requires Delivers(t, I, P, V, I', P', V', i, b, h)
    ensures FineBelow(t, V', h + h, b)
  {
    hide Ordered, Fine, Before, SameHead;
    var W' := Ends(P', V');
    assert i > 0 ==> W'[i - 1] == V[P[i - 1]];
    BelowBlock(W', i);
    forall p, q | 0 <= p < |V'| && 0 <= q < |V'| && V'[p] == V'[q] < b
      ensures SameHead(t, p, q, h + h)
    {
      var j, k := At(P', |t|, p), At(P', |t|, q);
      assert W'[j] == V'[p] && W'[k] == V'[q];
      if V'[p] < i {
        assert V[p] == V'[p] && V[q] == V'[q];
      }
    }
  }

  lemma SplitEnds(t: seq<byte>, I: seq<int>, P: seq<int>, V: seq<int>, I': seq<int>, P': seq<int>, V': seq<int>,
                  i: nat, b: nat, h: nat)
    requires State(t, P, V, h) && Delivers(t, I, P, V, I', P', V', i, b, h) && i < b
    ensures |I'| == |I| && |P'| == |P| == |V'| == |V| == |t| + 1
    ensures forall k :: 0 <= k < |P| ==> 0 <= P[k] < |V| && 0 <= P'[k] < |V'|
    ensures forall k :: 0 <= k < |P| && !(i <= k < b) ==> I'[k] == I[k] && P'[k] == P[k] && Ends(P', V')[k] == Ends(P, V)[k]
    ensures Groups(Ends(P', V')) && Split(t, I', P', Ends(P', V'), i, b, h) && Ends(P', V')[b - 1] < b
  {
    hide Ordered, Fine, Before, SameHead;
  }

  /** The pass goes on behind a group that was split. */
  lemma PassSplit(t: seq<byte>, I: seq<int>, P: seq<int>, V: seq<int>, I': seq<int>, P': seq<int>, V': seq<int>,
                  h: nat, min: nat, i: int, b: int)
    requires Passing(t, I, P, V, h, min, i, 0) && 1 <= i < b <= |I| && I[i] >= 0 && b == V[P[i]] + 1
    requires Delivers(t, I, P, V, I', P', V', i, b, h)
    ensures Passing(t, I', P', V', h, min, b, 0)
  {
    hide Ordered, Fine, Before, SameHead, FineBelow, Delivers, Split;
    SplitEnds(t, I, P, V, I', P', V', i, b, h);
    SplitIsFine(t, I, P, V, I', P', V', i, b, h);
    DeliveredState(t, I, P, V, I', P', V', i, b, h);
    var W, W' := Ends(P, V), Ends(P', V');
    TiledFrame(I, P, W, I', P', W', 0, i, 2);
    TiledFromSplit(t, I', P', W', i, b, h);
    TiledConcat(I', P', W', 0, i, b, 2);
    TiledFrame(I, P, W, I', P', W', b, |I|, min);
  }

  lemma DeliveredState(t: seq<byte>, I: seq<int>, P: seq<int>, V: seq<int>, I': seq<int>, P': seq<int>, V': seq<int>,
                       i: nat, b: nat, h: nat)
    requires Delivers(t, I, P, V, I', P', V', i, b, h)
    ensures State(t, P', V', h)
  {}

  /** A finished pass leaves groups twice as fine, none of them of one suffix only. */
  lemma PassEnds(t: seq<byte>, I: seq<int>, P: seq<int>, V: seq<int>, h: nat, min: nat)
    requires Passing(t, I, P, V, h, min, |I|, 0) && h >= 1
    ensures Ready(t, I, P, V, h + h, 2)
  {
    hide Ordered, Before;
    forall p, q | 0 <= p < |V| && 0 <= q < |V| && V[p] == V[q]
      ensures SameHead(t, p, q, h + h)
    {
      var j := At(P, |t|, p);
      assert Ends(P, V)[j] == V[p];
    }
  }

  /** More symbols than the text has tell all suffixes apart. */
  lemma AllSingle(t: seq<byte>, P: seq<int>, V: seq<int>, h: nat)
    requires State(t, P, V, h) && h > |t|
    ensures Singles(Ends(P, V), 0, |P|)
  {
    hide Ordered, Before;
    var W := Ends(P, V);
    forall k | 0 <= k < |W|
      ensures W[k] == k
    {
      assert W[W[k]] == W[k];
      LongHeadsDiffer(t, P[k], P[W[k]], h);
    }
  }

  /** One pass over the table. Once the symbols compared outnumber the text, it ends the sort. */
  method Pass(ghost t: seq<byte>, I: array<int>, V: array<int>, h: nat, ghost P: seq<int>, ghost min: nat)
    returns (ghost P': seq<int>)
    requires I != V && Ready(t, I[..], P, V[..], h, min) && I.Length == V.Length == |t| + 1
    modifies I, V
    ensures Ready(t, I[..], P', V[..], h + h, 2)
    ensures min == 2 && h > |t| ==> I[0] == -(|t| + 1)
  {
    hide Splitting, Delivers, Passing, Ready;
    PassStarts(t, I[..], P, V[..], h, min);
    ReadyMeans(t, I[..], P, V[..], h, min);
    P' := P;
    var len, i := 0, 0;
    while i < I.Length
      invariant 0 <= i <= I.Length && 0 <= len <= i
      invariant Passing(t, I[..], P', V[..], h, min, i, len)
      invariant min == 2 && h > |t| ==> len == i
    {
      if I[i] < 0 {
        PassSkips(t, I[..], P', V[..], h, min, i, len);
        len := len - I[i];
        i := i - I[i];
      } else {
        ghost var I0 := I[..];
        PassSplits(t, I0, P', V[..], h, min, i, len);
        if min == 2 && h > |t| {
          PassNeverSplits(t, I0, P', V[..], h, min, i, len);
        }
        if len != 0 {
          I[i - len] := -len;
        }
        PassCloses(t, I0, P', V[..], I[..], h, min, i, len);
        PassSplits(t, I[..], P', V[..], h, min, i, 0);
        len := V[I[i]] + 1 - i;
        ghost var I1, P1, V1 := I[..], P', V[..];
        P' := SplitGroup(t, I, V, i, len, h, P', V[I[i]]);
        PassSplit(t, I1, P1, V1, I[..], P', V[..], h, min, i, i + len);
        i := i + len;
        len := 0;
      }
    }
    ghost var I0 := I[..];
    if len != 0 {
      I[i - len] := -len;
    }
    PassCloses(t, I0, P', V[..], I[..], h, min, i, len);
    PassEnds(t, I[..], P', V[..], h, min);
  }

  lemma ReadyMeans(t: seq<byte>, I: seq<int>, P: seq<int>, V: seq<int>, h: nat, min: nat)
    requires Ready(t, I, P, V, h, min)
    ensures h >= 1 && (min == 2 || h == 1)
  {}

  lemma PassNeverSplits(t: seq<byte>, I: seq<int>, P: seq<int>, V: seq<int>, h: nat, min: nat, i: int, len: int)
    requires Passing(t, I, P, V, h, min, i, len) && i < |I| && min == 2 && h > |t|
    ensures I[i] < 0
  {
    hide Ordered, Before, SameHead;
    AllSingle(t, P, V, h);
  }
}
