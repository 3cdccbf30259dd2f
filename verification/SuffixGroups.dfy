/** The invariants of the suffix sort: a permutation in groups that grow finer. */
module SuffixGroups {
  import opened Bytes
  import opened SuffixOrder

  /** The first `n + 1` numbers, each once. */
  ghost predicate Perm(P: seq<int>, n: nat) {
    && |P| == n + 1
    && (forall k :: 0 <= k < |P| ==> 0 <= P[k] <= n)
    && (forall j, k :: 0 <= j < k < |P| ==> P[j] != P[k])
    && (forall p :: 0 <= p <= n ==> p in P)
  }

  /** Where a number stands. */
  ghost function At(P: seq<int>, n: nat, p: int): (k: nat)
    requires Perm(P, n) && 0 <= p <= n
    ensures k < |P| && P[k] == p
  {
    assert p in P;
    var k :| 0 <= k < |P| && P[k] == p;
    k
  }

  /** The end of the group of each position. */
  ghost function Ends(P: seq<int>, V: seq<int>): (W: seq<int>)
    requires forall k :: 0 <= k < |P| ==> 0 <= P[k] < |V|
    ensures |W| == |P| && forall k :: 0 <= k < |W| ==> W[k] == V[P[k]]
  {
    seq(|P|, k requires 0 <= k < |P| => V[P[k]])
  }

  /** Groups are stretches of positions, each marked with its last. */
  ghost predicate Groups(W: seq<int>) {
    && (forall k :: 0 <= k < |W| ==> k <= W[k] < |W|)
    && (forall k, m :: 0 <= k <= m < |W| && m <= W[k] ==> W[m] == W[k])
  }

  /** The group numbers agree with the order of the suffixes. */
  ghost predicate Ordered(t: seq<byte>, V: seq<int>) {
    |V| == |t| + 1 && forall p, q :: 0 <= p < |V| && 0 <= q < |V| && V[p] < V[q] ==> Before(t, p, q)
  }

  /** Suffixes of one group agree on `h` symbols. */
  ghost predicate Fine(t: seq<byte>, V: seq<int>, h: nat) {
    |V| == |t| + 1 && forall p, q :: 0 <= p < |V| && 0 <= q < |V| && V[p] == V[q] ==> SameHead(t, p, q, h)
  }

  ghost predicate State(t: seq<byte>, P: seq<int>, V: seq<int>, h: nat) {
    && Perm(P, |t|) && |V| == |t| + 1
    && Groups(Ends(P, V))
    && Ordered(t, V)
    && Fine(t, V, h)
  }

  /** Positions `a` to `b` hold a part of the group that reaches from `a` to `e`, below the rest of
      it, and with `h` more symbols to look at. */
  ghost predicate Part(t: seq<byte>, P: seq<int>, V: seq<int>, a: nat, b: nat, e: nat, h: nat) {
    && Perm(P, |t|) && |V| == |t| + 1
    && a < b <= e + 1 <= |P|
    && (forall k :: a <= k <= e ==> V[P[k]] == e)
    && (forall k :: a <= k < b ==> P[k] + h <= |t|)
    && (forall j, k :: a <= j < b && b <= k <= e ==> Before(t, P[j], P[k]))
  }

  // ---- Exchanging two positions ----

  function Swapped(P: seq<int>, i: nat, j: nat): (P': seq<int>)
    requires i < |P| && j < |P|
    ensures |P'| == |P|
    ensures forall k :: 0 <= k < |P| ==> P'[k] == if k == i then P[j] else if k == j then P[i] else P[k]
  {
    P[i := P[j]][j := P[i]]
  }

  lemma SwapPerm(P: seq<int>, n: nat, i: nat, j: nat)
    requires Perm(P, n) && i < |P| && j < |P|
    ensures Perm(Swapped(P, i, j), n)
  {
    var P' := Swapped(P, i, j);
    forall p | 0 <= p <= n
      ensures p in P'
    {
      var k := At(P, n, p);
      assert P'[if k == i then j else if k == j then i else k] == p;
    }
  }

  /** An exchange within a part of a group changes nothing the groups say. */
  lemma SwapKeepsState(t: seq<byte>, P: seq<int>, V: seq<int>, a: nat, b: nat, e: nat, h: nat, i: nat, j: nat)
    requires State(t, P, V, h) && Part(t, P, V, a, b, e, h)
    requires a <= i < b && a <= j < b
    ensures State(t, Swapped(P, i, j), V, h) && Part(t, Swapped(P, i, j), V, a, b, e, h)
  {
    hide Ordered, Fine;
    SwapPerm(P, |t|, i, j);
    assert Ends(Swapped(P, i, j), V) == Ends(P, V);
  }

  // ---- Splitting off a block ----

  /** The group numbers after positions `a` to `b` became a group of their own. */
  ghost predicate BlockSet(P: seq<int>, V: seq<int>, V': seq<int>, a: nat, b: nat) {
    && |V'| == |V| == |P| && b < |P|
    && (forall k :: 0 <= k < |P| ==> 0 <= P[k] < |V|)
    && (forall k :: a <= k <= b ==> V'[P[k]] == b)
    && (forall k :: 0 <= k < |P| && !(a <= k <= b) ==> V'[P[k]] == V[P[k]])
  }

  lemma BelowBlock(W: seq<int>, a: nat)
    requires Groups(W) && a <= |W| && (a == 0 || W[a - 1] < a)
    ensures forall k :: 0 <= k < a ==> W[k] < a
  {}

  lemma BlockGroups(P: seq<int>, V: seq<int>, V': seq<int>, n: nat, a: nat, b: nat, e: nat)
    requires Perm(P, n) && |V| == n + 1 && Groups(Ends(P, V)) && BlockSet(P, V, V', a, b)
    requires a <= b <= e <= n && (forall k :: a <= k <= e ==> V[P[k]] == e)
    requires a == 0 || V[P[a - 1]] < a
    ensures Groups(Ends(P, V'))
  {
    BelowBlock(Ends(P, V), a);
  }

  lemma BlockOrdered(t: seq<byte>, P: seq<int>, V: seq<int>, V': seq<int>, a: nat, b: nat, e: nat)
    requires Perm(P, |t|) && Ordered(t, V) && Groups(Ends(P, V)) && BlockSet(P, V, V', a, b)
    requires a <= b <= e <= |t| && (forall k :: a <= k <= e ==> V[P[k]] == e)
    requires a == 0 || V[P[a - 1]] < a
    requires forall j, k :: a <= j <= b && b < k <= e ==> Before(t, P[j], P[k])
    ensures Ordered(t, V')
  {
    hide Before;
    var W := Ends(P, V);
    BelowBlock(W, a);
    forall p, q | 0 <= p < |V'| && 0 <= q < |V'| && V'[p] < V'[q]
      ensures Before(t, p, q)
    {
      var j, k := At(P, |t|, p), At(P, |t|, q);
      assert V[p] < V[q] || (a <= j <= b && b < k <= e) by {
        assert W[j] == V[p] && W[k] == V[q];
      }
    }
  }

  lemma BlockFine(t: seq<byte>, P: seq<int>, V: seq<int>, V': seq<int>, a: nat, b: nat, e: nat, h: nat)
    requires Perm(P, |t|) && Fine(t, V, h) && Groups(Ends(P, V)) && BlockSet(P, V, V', a, b)
    requires a <= b <= e <= |t| && (forall k :: a <= k <= e ==> V[P[k]] == e)
    requires a == 0 || V[P[a - 1]] < a
    ensures Fine(t, V', h)
  {
    var W := Ends(P, V);
    forall p, q | 0 <= p < |V'| && 0 <= q < |V'| && V'[p] == V'[q]
      ensures SameHead(t, p, q, h)
    {
      var j, k := At(P, |t|, p), At(P, |t|, q);
      SameOldGroup(P, V, V', W, a, b, e, j, k);
    }
  }

  /** Positions of one group were in one group before. */
  lemma SameOldGroup(P: seq<int>, V: seq<int>, V': seq<int>, W: seq<int>, a: nat, b: nat, e: nat, j: nat, k: nat)
    requires BlockSet(P, V, V', a, b) && |W| == |P| && (forall i :: 0 <= i < |P| ==> 0 <= P[i] < |V| && W[i] == V[P[i]])
    requires Groups(W) && a <= b <= e < |P| && (forall i :: a <= i <= e ==> W[i] == e)
    requires a == 0 || W[a - 1] < a
    requires j < |P| && k < |P| && V'[P[j]] == V'[P[k]]
    ensures W[j] == W[k]
  {
    if a <= j <= b && !(a <= k <= b) {
      OutsideBlock(W, a, b, e, k);
    } else if a <= k <= b && !(a <= j <= b) {
      OutsideBlock(W, a, b, e, j);
    }
  }

  lemma OutsideBlock(W: seq<int>, a: nat, b: nat, e: nat, k: nat)
    requires Groups(W) && a <= b <= e < |W| && (forall i :: a <= i <= e ==> W[i] == e)
    requires a == 0 || W[a - 1] < a
    requires k < |W| && !(a <= k <= b)
    ensures W[k] != b
  {
    BelowBlock(W, a);
  }

  /** Making the lower part of a group a group of its own keeps the state. */
  lemma SetBlock(t: seq<byte>, P: seq<int>, V: seq<int>, V': seq<int>, a: nat, b: nat, e: nat, h: nat)
    requires State(t, P, V, h) && BlockSet(P, V, V', a, b)
    requires a <= b <= e <= |t| && (forall k :: a <= k <= e ==> V[P[k]] == e)
    requires a == 0 || V[P[a - 1]] < a
    requires forall j, k :: a <= j <= b && b < k <= e ==> Before(t, P[j], P[k])
    ensures State(t, P, V', h)
  {
    BlockGroups(P, V, V', |t|, a, b, e);
    BlockOrdered(t, P, V, V', a, b, e);
    BlockFine(t, P, V, V', a, b, e, h);
  }

  // ---- What one call of the splitting procedure leaves ----

  /** Position `k` is a group by itself, in a stretch that starts at `a`. */
  predicate Single(W: seq<int>, a: nat, k: nat)
    requires a <= k < |W|
  {
    W[k] == k && (k == a || W[k - 1] < k)
  }

  /** Positions `a` to `b` are split: groups of suffixes that agree on `2h` symbols, the table
      holding the suffixes of larger groups and -1 for a group of one. */
  ghost predicate Split(t: seq<byte>, I: seq<int>, P: seq<int>, W: seq<int>, a: nat, b: nat, h: nat) {
    && a <= b <= |I| && |I| == |P| == |W|
    && (forall k :: 0 <= k < |P| ==> 0 <= P[k] <= |t|)
    && (forall k :: a <= k < b ==> k <= W[k] < b)
    && (forall j, k :: a <= j < b && a <= k < b && W[j] == W[k] ==> SameHead(t, P[j], P[k], h + h))
    && (forall k :: a <= k < b ==> I[k] == if Single(W, a, k) then -1 else P[k])
  }

  lemma SplitConcat(t: seq<byte>, I: seq<int>, P: seq<int>, W: seq<int>, a: nat, m: nat, b: nat, h: nat)
    requires Split(t, I, P, W, a, m, h) && Split(t, I, P, W, m, b, h)
    ensures Split(t, I, P, W, a, b, h)
  {
    hide SameHead;
    assert a < m ==> W[m - 1] < m;
  }

  lemma SplitNothing(t: seq<byte>, I: seq<int>, P: seq<int>, W: seq<int>, a: nat, h: nat)
    requires a <= |I| && |I| == |P| == |W| && forall k :: 0 <= k < |P| ==> 0 <= P[k] <= |t|
    ensures Split(t, I, P, W, a, a, h)
  {}

  lemma SplitFrame(t: seq<byte>, I: seq<int>, P: seq<int>, W: seq<int>, I': seq<int>, P': seq<int>, W': seq<int>,
                   a: nat, b: nat, h: nat)
    requires Split(t, I, P, W, a, b, h)
    requires |I'| == |P'| == |W'| == |I| && (forall k :: 0 <= k < |P'| ==> 0 <= P'[k] <= |t|)
    requires forall k :: a <= k < b ==> I'[k] == I[k] && P'[k] == P[k] && W'[k] == W[k]
    ensures Split(t, I', P', W', a, b, h)
  {
    hide SameHead;
  }

  /** One new group of suffixes that agree on `2h` symbols. */
  lemma SplitBlock(t: seq<byte>, I: seq<int>, P: seq<int>, W: seq<int>, a: nat, b: nat, h: nat)
    requires a < b <= |I| && |I| == |P| == |W| && (forall k :: 0 <= k < |P| ==> 0 <= P[k] <= |t|)
    requires forall k :: a <= k < b ==> W[k] == b - 1
    requires forall j, k :: a <= j < b && a <= k < b ==> SameHead(t, P[j], P[k], h + h)
    requires forall k :: a <= k < b ==> I[k] == if b == a + 1 then -1 else P[k]
    ensures Split(t, I, P, W, a, b, h)
  {
    hide SameHead;
  }

  /** Outside positions `a` to `b` nothing changed: neither the table, nor the permutation, nor the
      group numbers. */
  ghost predicate Elsewhere(I: seq<int>, P: seq<int>, V: seq<int>, I': seq<int>, P': seq<int>, V': seq<int>, a: nat, b: nat) {
    && |I| == |I'| == |P| == |P'| == |V| == |V'|
    && (forall k :: 0 <= k < |P| ==> 0 <= P[k] < |V| && 0 <= P'[k] < |V|)
    && (forall k :: 0 <= k < |P| && !(a <= k < b) ==> I'[k] == I[k] && P'[k] == P[k] && V'[P'[k]] == V[P[k]])
  }

  lemma ElsewhereTrans(I: seq<int>, P: seq<int>, V: seq<int>, I': seq<int>, P': seq<int>, V': seq<int>,
                       I'': seq<int>, P'': seq<int>, V'': seq<int>, a: nat, b: nat, c: nat, d: nat)
    requires Elsewhere(I, P, V, I', P', V', a, b) && Elsewhere(I', P', V', I'', P'', V'', c, d)
    requires a <= c && d <= b
    ensures Elsewhere(I, P, V, I'', P'', V'', a, b)
  {}

  // ---- Keys ----

  /** The sorting key of a suffix: the group of the suffix `h` further on. */
  function Key(V: seq<int>, p: int, h: nat): int
    requires 0 <= p && p + h < |V|
  {
    V[p + h]
  }

  /** A smaller key within a group means an earlier suffix. */
  lemma KeyOrders(t: seq<byte>, V: seq<int>, h: nat, p: nat, q: nat)
    requires Ordered(t, V) && Fine(t, V, h) && p + h <= |t| && q + h <= |t| && V[p] == V[q]
    ensures Key(V, p, h) < Key(V, q, h) ==> Before(t, p, q)
    ensures Key(V, p, h) == Key(V, q, h) ==> SameHead(t, p, q, h + h)
  {
    assert SameHead(t, p, q, h);
    if p != q {
      if Key(V, p, h) < Key(V, q, h) {
        TailsDecide(t, p, q, h);
      } else if Key(V, p, h) == Key(V, q, h) {
        HeadsDouble(t, p, q, h);
      }
    }
  }
}
