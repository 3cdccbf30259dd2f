/** The suffix sort of bsdiff: ternary splitting of groups under doubled keys. */
module SuffixSort {
  import opened Bytes
  import opened SuffixOrder
  import opened SuffixGroups
  import opened Counting

  /** What holds while a part of a group is being split: the table shows the permutation there. */
  ghost predicate Splitting(t: seq<byte>, I: seq<int>, P: seq<int>, V: seq<int>, a: nat, b: nat, e: nat, h: nat) {
    && State(t, P, V, h) && Part(t, P, V, a, b, e, h)
    && |I| == |P| && (a == 0 || V[P[a - 1]] < a)
    && forall k :: a <= k < b ==> I[k] == P[k]
  }

  /** What every step may rely on to look at keys. */
  lemma SplittingBounds(t: seq<byte>, I: seq<int>, P: seq<int>, V: seq<int>, a: nat, b: nat, e: nat, h: nat)
    requires Splitting(t, I, P, V, a, b, e, h)
    ensures |I| == |P| == |V| == |t| + 1 && a < b <= e + 1 <= |I|
    ensures forall k :: 0 <= k < |P| ==> 0 <= P[k] < |V|
    ensures forall k :: a <= k < b ==> I[k] == P[k] && 0 <= I[k] && I[k] + h < |V|
  {}

  /** Exchanging two entries keeps the splitting going. */
  lemma SplittingSwap(t: seq<byte>, I: seq<int>, P: seq<int>, V: seq<int>, a: nat, b: nat, e: nat, h: nat, i: nat, j: nat)
    requires Splitting(t, I, P, V, a, b, e, h) && a <= i < b && a <= j < b
    ensures Splitting(t, Swapped(I, i, j), Swapped(P, i, j), V, a, b, e, h)
    ensures Elsewhere(I, P, V, Swapped(I, i, j), Swapped(P, i, j), V, a, b)
  {
    hide State, Part;
    SplittingBounds(t, I, P, V, a, b, e, h);
    SwapKeepsState(t, P, V, a, b, e, h, i, j);
    SplittingSwapRest(t, I, P, V, a, b, e, h, i, j);
  }

  lemma SplittingSwapRest(t: seq<byte>, I: seq<int>, P: seq<int>, V: seq<int>, a: nat, b: nat, e: nat, h: nat, i: nat, j: nat)
    requires Splitting(t, I, P, V, a, b, e, h) && a <= i < b && a <= j < b
    ensures a == 0 || V[Swapped(P, i, j)[a - 1]] < a
    ensures forall k :: 0 <= k < |P| ==> 0 <= Swapped(P, i, j)[k] < |V|
  {}

  lemma SplittingStay(I: seq<int>, P: seq<int>, V: seq<int>, a: nat, b: nat)
    requires |I| == |P| == |V| && forall k :: 0 <= k < |P| ==> 0 <= P[k] < |V|
    ensures Elsewhere(I, P, V, I, P, V, a, b)
  {}

  /** Exchanges two entries of the table. */
  method Exchange(ghost t: seq<byte>, I: array<int>, i: nat, j: nat, ghost P: seq<int>, ghost V: seq<int>,
                  ghost a: nat, ghost b: nat, ghost e: nat, ghost h: nat, ghost I0: seq<int>, ghost P0: seq<int>)
    returns (ghost P': seq<int>)
    requires Splitting(t, I[..], P, V, a, b, e, h) && Elsewhere(I0, P0, V, I[..], P, V, a, b)
    requires a <= i < b && a <= j < b && b <= I.Length == |P|
    modifies I
    ensures P' == Swapped(P, i, j)
    ensures Splitting(t, I[..], P', V, a, b, e, h) && Elsewhere(I0, P0, V, I[..], P', V, a, b)
  {
    hide Splitting, Elsewhere;
    ghost var I1 := I[..];
    I[i], I[j] := I[j], I[i];
    assert I[..] == Swapped(I1, i, j);
    SplittingSwap(t, I1, P, V, a, b, e, h, i, j);
    P' := Swapped(P, i, j);
    ElsewhereTrans(I0, P0, V, I1, P, V, I[..], P', V, a, b, a, b);
  }

  /** The least keys stand in front. */
  ghost predicate LeastInFront(V: seq<int>, P: seq<int>, h: nat, k: nat, j: nat, i: nat, x: int) {
    && k + j <= k + i <= |P|
    && (forall m :: k <= m < k + i ==> 0 <= P[m] && P[m] + h < |V|)
    && (forall m :: k <= m < k + j ==> Key(V, P[m], h) == x)
    && (forall m :: k + j <= m < k + i ==> Key(V, P[m], h) > x)
  }

  lemma LeastSwap(V: seq<int>, P: seq<int>, h: nat, k: nat, j: nat, i: nat, x: int)
    requires LeastInFront(V, P, h, k, j, i, x) && k + i < |P| && 0 <= P[k + i] && P[k + i] + h < |V|
    ensures Key(V, P[k + i], h) == x ==> LeastInFront(V, Swapped(P, k + j, k + i), h, k, j + 1, i + 1, x)
    ensures Key(V, P[k + i], h) > x ==> LeastInFront(V, P, h, k, j, i + 1, x)
    ensures Key(V, P[k + i], h) < x ==>
              LeastInFront(V, Swapped(P, k, k + i), h, k, 1, i + 1, Key(V, P[k + i], h))
  {}

  /** One round of the selection: collects the least keys of positions `k` to `end` at `k`. */
  method SelectLeast(ghost t: seq<byte>, I: array<int>, V: array<int>, k: nat, end: nat, h: nat, ghost P: seq<int>, ghost e: nat)
    returns (j: nat, ghost P': seq<int>, ghost x: int)
    requires I != V && Splitting(t, I[..], P, V[..], k, end, e, h)
    modifies I
    ensures Splitting(t, I[..], P', V[..], k, end, e, h)
    ensures Elsewhere(old(I[..]), P, V[..], I[..], P', V[..], k, end)
    ensures 1 <= j <= end - k && LeastInFront(V[..], P', h, k, j, end - k, x)
  {
    hide Splitting, Elsewhere, LeastInFront;
    ghost var I0, V0 := I[..], V[..];
    SplittingBounds(t, I0, P, V0, k, end, e, h);
    SplittingStay(I0, P, V0, k, end);
    P' := P;
    j := 1;
    var y := V[I[k] + h];
    LeastAlone(V0, P, h, k);
    var i := 1;
    while k + i < end
      invariant 1 <= j <= i <= end - k && V[..] == V0
      invariant Splitting(t, I[..], P', V0, k, end, e, h) && Elsewhere(I0, P, V0, I[..], P', V0, k, end)
      invariant LeastInFront(V0, P', h, k, j, i, y)
    {
      SplittingBounds(t, I[..], P', V0, k, end, e, h);
      LeastSwap(V0, P', h, k, j, i, y);
      if V[I[k + i] + h] < y {
        y := V[I[k + i] + h];
        j := 0;
      }
      if V[I[k + i] + h] == y {
        P' := Exchange(t, I, k + j, k + i, P', V0, k, end, e, h, I0, P);
        j := j + 1;
      }
      i := i + 1;
    }
    x := y;
  }

  lemma LeastAlone(V: seq<int>, P: seq<int>, h: nat, k: nat)
    requires k < |P| && 0 <= P[k] && P[k] + h < |V|
    ensures LeastInFront(V, P, h, k, 1, 1, V[P[k] + h])
  {}

  /** Gives positions `a` to `a + j` a group number of their own. */
  method MarkGroup(I: array<int>, V: array<int>, a: nat, j: nat, ghost P: seq<int>)
    requires I != V && I.Length == V.Length == |P| && 1 <= j && a + j <= I.Length
    requires forall k :: a <= k < a + j ==> I[k] == P[k]
    requires forall k :: 0 <= k < |P| ==> 0 <= P[k] < |P|
    requires forall i, k :: 0 <= i < k < |P| ==> P[i] != P[k]
    modifies V
    ensures BlockSet(P, old(V[..]), V[..], a, a + j - 1)
  {
    for i := 0 to j
      invariant forall k :: a <= k < a + i ==> V[P[k]] == a + j - 1
      invariant forall k :: 0 <= k < |P| && !(a <= k < a + i) ==> V[P[k]] == old(V[P[k]])
    {
      V[I[a + i]] := a + j - 1;
    }
  }

  /** A lower part of a group, below the rest and alike on `2h` symbols. */
  ghost predicate Block(t: seq<byte>, P: seq<int>, a: nat, c: nat, b: nat, h: nat) {
    && a < c <= b <= |P| && (forall k :: 0 <= k < |P| ==> 0 <= P[k] <= |t|)
    && (forall i, j :: a <= i < c && a <= j < c ==> SameHead(t, P[i], P[j], h + h))
    && (forall i, j :: a <= i < c && c <= j < b ==> Before(t, P[i], P[j]))
  }

  /** From one state of the tables to another, positions `a` to `m` were split and nothing outside
      `a` to `z` was touched. */
  ghost predicate Partial(t: seq<byte>, I: seq<int>, P: seq<int>, V: seq<int>, I': seq<int>, P': seq<int>, V': seq<int>,
                          a: nat, m: nat, z: nat, h: nat) {
    && State(t, P', V', h)
    && Split(t, I', P', Ends(P', V'), a, m, h)
    && Elsewhere(I, P, V, I', P', V', a, z)
  }

  /** What the splitting of positions `a` to `b` delivers. */
  ghost predicate Delivers(t: seq<byte>, I: seq<int>, P: seq<int>, V: seq<int>, I': seq<int>, P': seq<int>, V': seq<int>,
                           a: nat, b: nat, h: nat) {
    Partial(t, I, P, V, I', P', V', a, b, b, h)
  }

  lemma BlockState(t: seq<byte>, I: seq<int>, P: seq<int>, V: seq<int>, V': seq<int>, a: nat, c: nat, b: nat, e: nat, h: nat)
    requires Splitting(t, I, P, V, a, b, e, h) && Block(t, P, a, c, b, h) && BlockSet(P, V, V', a, c - 1)
    ensures State(t, P, V', h)
  {
    hide Before, SameHead, Ordered, Fine, Groups, State, BlockSet;
    SplittingBounds(t, I, P, V, a, b, e, h);
    assert forall j, k :: a <= j <= c - 1 && c - 1 < k <= e ==> Before(t, P[j], P[k]);
    SetBlock(t, P, V, V', a, c - 1, e, h);
  }

  /** The group that is left above a block. */
  lemma BlockRest(t: seq<byte>, I: seq<int>, P: seq<int>, V: seq<int>, I': seq<int>, V': seq<int>,
                  a: nat, c: nat, b: nat, e: nat, h: nat)
    requires a < c < b && Splitting(t, I, P, V, a, b, e, h) && BlockSet(P, V, V', a, c - 1) && State(t, P, V', h)
    requires I' == if c == a + 1 then I[a := -1] else I
    ensures Splitting(t, I', P, V', c, b, e, h)
  {
    hide Before, State;
  }

  lemma BlockSplit(t: seq<byte>, I: seq<int>, P: seq<int>, V: seq<int>, I': seq<int>, V': seq<int>,
                   a: nat, c: nat, b: nat, e: nat, h: nat)
    requires Splitting(t, I, P, V, a, b, e, h) && Block(t, P, a, c, b, h) && BlockSet(P, V, V', a, c - 1)
    requires I' == if c == a + 1 then I[a := -1] else I
    ensures forall k :: 0 <= k < |P| ==> 0 <= P[k] < |V'|
    ensures Split(t, I', P, Ends(P, V'), a, c, h) && Elsewhere(I, P, V, I', P, V', a, c)
  {
    hide Before, SameHead, State, Part, Split;
    SplittingBounds(t, I, P, V, a, b, e, h);
    SplitBlock(t, I', P, Ends(P, V'), a, c, h);
  }

  /** A block made a group of its own. */
  lemma BlockClosed(t: seq<byte>, I: seq<int>, P: seq<int>, V: seq<int>, I': seq<int>, V': seq<int>,
                    a: nat, c: nat, b: nat, e: nat, h: nat)
    requires Splitting(t, I, P, V, a, b, e, h) && Block(t, P, a, c, b, h)
    requires BlockSet(P, V, V', a, c - 1) && I' == if c == a + 1 then I[a := -1] else I
    ensures Delivers(t, I, P, V, I', P, V', a, c, h)
    ensures c < b ==> Splitting(t, I', P, V', c, b, e, h)
  {
    BlockBounds(t, I, P, V, a, c, b, e, h);
    hide Splitting, Block, BlockSet, State, Split, Elsewhere;
    BlockState(t, I, P, V, V', a, c, b, e, h);
    BlockSplit(t, I, P, V, I', V', a, c, b, e, h);
    if c < b {
      BlockRest(t, I, P, V, I', V', a, c, b, e, h);
    }
  }

  method CloseBlock(ghost t: seq<byte>, I: array<int>, V: array<int>, a: nat, c: nat, ghost b: nat, ghost e: nat,
                    ghost h: nat, ghost P: seq<int>)
    requires I != V && Splitting(t, I[..], P, V[..], a, b, e, h) && Block(t, P, a, c, b, h)
    modifies I, V
    ensures Delivers(t, old(I[..]), P, old(V[..]), I[..], P, V[..], a, c, h)
    ensures c < b ==> Splitting(t, I[..], P, V[..], c, b, e, h)
  {
    ghost var I0, V0 := I[..], V[..];
    BlockBounds(t, I0, P, V0, a, c, b, e, h);
    hide Splitting, Delivers, Block, BlockSet;
    MarkGroup(I, V, a, c - a, P);
    if c == a + 1 {
      I[a] := -1;
    }
    assert I[..] == if c == a + 1 then I0[a := -1] else I0;
    BlockClosed(t, I0, P, V0, I[..], V[..], a, c, b, e, h);
  }

  lemma BlockBounds(t: seq<byte>, I: seq<int>, P: seq<int>, V: seq<int>, a: nat, c: nat, b: nat, e: nat, h: nat)
    requires Splitting(t, I, P, V, a, b, e, h) && Block(t, P, a, c, b, h)
    ensures |I| == |V| == |P| == |t| + 1 && a < c <= b <= |I|
    ensures forall k :: a <= k < c ==> I[k] == P[k]
    ensures forall k :: 0 <= k < |P| ==> 0 <= P[k] < |P|
    ensures forall i, k :: 0 <= i < k < |P| ==> P[i] != P[k]
  {}

  /** The least keys of a part are a block of it. */
  lemma LeastIsBlock(t: seq<byte>, I: seq<int>, P: seq<int>, V: seq<int>, a: nat, b: nat, e: nat, h: nat, j: nat, x: int)
    requires Splitting(t, I, P, V, a, b, e, h) && LeastInFront(V, P, h, a, j, b - a, x) && 1 <= j
    ensures Block(t, P, a, a + j, b, h)
  {
    hide SameHead, Before, Ordered, Fine, Groups;
    forall i, k | a <= i < a + j && a <= k < b
      ensures k < a + j ==> SameHead(t, P[i], P[k], h + h)
      ensures a + j <= k ==> Before(t, P[i], P[k])
    {
      KeyOrders(t, V, h, P[i], P[k]);
    }
  }

  /** A stretch split after another, with nothing below it touched. */
  lemma SplitOn(t: seq<byte>, I1: seq<int>, P1: seq<int>, V1: seq<int>, I2: seq<int>, P2: seq<int>, V2: seq<int>,
                a: nat, m: nat, b: nat, z: nat, h: nat)
    requires State(t, P1, V1, h) && Split(t, I1, P1, Ends(P1, V1), a, m, h)
    requires State(t, P2, V2, h) && Split(t, I2, P2, Ends(P2, V2), m, b, h)
    requires Elsewhere(I1, P1, V1, I2, P2, V2, m, z)
    ensures Split(t, I2, P2, Ends(P2, V2), a, b, h)
  {
    hide SameHead, Ordered, Fine, Groups;
    SplitFrame(t, I1, P1, Ends(P1, V1), I2, P2, Ends(P2, V2), a, m, h);
    SplitConcat(t, I2, P2, Ends(P2, V2), a, m, b, h);
  }

  /** Splitting goes on where it left off. */
  lemma PartialOn(t: seq<byte>, I0: seq<int>, P0: seq<int>, V0: seq<int>, I1: seq<int>, P1: seq<int>, V1: seq<int>,
                  I2: seq<int>, P2: seq<int>, V2: seq<int>, a: nat, m: nat, b: nat, y: nat, z: nat, h: nat)
    requires Partial(t, I0, P0, V0, I1, P1, V1, a, m, z, h)
    requires Partial(t, I1, P1, V1, I2, P2, V2, m, b, y, h) && a <= m && y <= z
    ensures Partial(t, I0, P0, V0, I2, P2, V2, a, b, z, h)
  {
    hide State, Split, Elsewhere;
    PartialBounds(t, I0, P0, V0, I1, P1, V1, a, m, z, h);
    PartialBounds(t, I1, P1, V1, I2, P2, V2, m, b, y, h);
    SplitOn(t, I1, P1, V1, I2, P2, V2, a, m, b, y, h);
    ElsewhereTrans(I0, P0, V0, I1, P1, V1, I2, P2, V2, a, z, m, y);
  }

  lemma PartialBounds(t: seq<byte>, I: seq<int>, P: seq<int>, V: seq<int>, I': seq<int>, P': seq<int>, V': seq<int>,
                      a: nat, m: nat, z: nat, h: nat)
    requires Partial(t, I, P, V, I', P', V', a, m, z, h)
    ensures |I'| == |P'| == |V'| == |t| + 1 && forall k :: 0 <= k < |P'| ==> 0 <= P'[k] < |V'|
  {}

  /** Rearranging what is still to be split. */
  lemma PartialRearranged(t: seq<byte>, I: seq<int>, P: seq<int>, V: seq<int>, I': seq<int>, P': seq<int>,
                          a: nat, b: nat, e: nat, h: nat)
    requires Splitting(t, I', P', V, a, b, e, h) && Elsewhere(I, P, V, I', P', V, a, b)
    ensures Partial(t, I, P, V, I', P', V, a, a, b, h)
  {
    SplitNothing(t, I', P', Ends(P', V), a, h);
  }

  /** Splitting by repeated selection, for short stretches. */
  method SplitSmall(ghost t: seq<byte>, I: array<int>, V: array<int>, start: nat, len: nat, h: nat,
                    ghost P: seq<int>, ghost e: nat)
    returns (ghost P': seq<int>)
    requires I != V && Splitting(t, I[..], P, V[..], start, start + len, e, h)
    modifies I, V
    ensures Delivers(t, old(I[..]), P, old(V[..]), I[..], P', V[..], start, start + len, h)
  {
    hide Splitting, Elsewhere, Block, LeastInFront, Partial;
    ghost var I0, V0, end := I[..], V[..], start + len;
    SplittingBounds(t, I0, P, V0, start, end, e, h);
    SplittingStay(I0, P, V0, start, end);
    PartialRearranged(t, I0, P, V0, I0, P, start, end, e, h);
    P' := P;
    var k := start;
    while k < start + len
      invariant start <= k <= end
      invariant Partial(t, I0, P, V0, I[..], P', V[..], start, k, end, h)
      invariant k < end ==> Splitting(t, I[..], P', V[..], k, end, e, h)
    {
      ghost var I1, P1, V1 := I[..], P', V[..];
      var j;
      ghost var x;
      j, P', x := SelectLeast(t, I, V, k, start + len, h, P', e);
      ghost var I2 := I[..];
      PartialRearranged(t, I1, P1, V1, I2, P', k, end, e, h);
      PartialOn(t, I0, P, V0, I1, P1, V1, I2, P', V1, start, k, k, end, end, h);
      LeastIsBlock(t, I2, P', V1, k, end, e, h, j, x);
      CloseBlock(t, I, V, k, k + j, end, e, h, P');
      PartialOn(t, I0, P, V0, I2, P', V1, I[..], P', V[..], start, k, k + j, k + j, end, h);
      k := k + j;
    }
  }

  // ---- The ternary partition ----

  /** How a suffix's key compares with the pivot. */
  function Kind(V: seq<int>, p: int, h: nat, x: int): int
    requires 0 <= p && p + h < |V|
  {
    if Key(V, p, h) < x then -1 else if Key(V, p, h) == x then 0 else 1
  }

  predicate HasKeys(V: seq<int>, P: seq<int>, h: nat, a: nat, b: nat) {
    a <= b <= |P| && forall k :: a <= k < b ==> 0 <= P[k] && P[k] + h < |V|
  }

  /** The kinds of positions `a` to `b`. */
  function Kinds(V: seq<int>, P: seq<int>, h: nat, x: int, a: nat, b: nat): (K: seq<int>)
    requires HasKeys(V, P, h, a, b)
    ensures |K| == b - a && forall k :: 0 <= k < b - a ==> K[k] == Kind(V, P[a + k], h, x)
  {
    seq(b - a, k requires 0 <= k < b - a => Kind(V, P[a + k], h, x))
  }

  /** Three stretches of known kind, of the total sizes the counts give. */
  ghost predicate Parting(K: seq<int>, i: nat, jj: nat, j: nat, kk: nat, k: nat) {
    && (forall m :: 0 <= m < |K| ==> -1 <= K[m] <= 1)
    && i <= jj <= jj + j <= kk <= kk + k <= |K|
    && Count(K, -1) == jj && Count(K, 0) == kk - jj
    && (forall m :: 0 <= m < i ==> K[m] == -1)
    && (forall m :: jj <= m < jj + j ==> K[m] == 0)
    && (forall m :: kk <= m < kk + k ==> K[m] == 1)
  }

  /** A place left for an element of kind 0 or 1 found outside its stretch. */
  lemma PartingRoom(K: seq<int>, i: nat, jj: nat, j: nat, kk: nat, k: nat, m: nat)
    requires Parting(K, i, jj, j, kk, k) && m < |K|
    ensures K[m] == 0 && !(jj <= m < jj + j) ==> jj + j < kk
    ensures K[m] == 1 && !(kk <= m < kk + k) ==> kk + k < |K|
    ensures i == jj && K[m] == -1 ==> m < jj
    ensures jj + j == kk && K[m] == 0 ==> jj <= m < kk
  {
    CountThree(K);
    if K[m] == 0 && !(jj <= m < jj + j) {
      CountOutside(K, 0, jj, jj + j, m);
    }
    if K[m] == 1 && !(kk <= m < kk + k) {
      CountOutside(K, 1, kk, kk + k, m);
    }
    if i == jj && K[m] == -1 && !(m < jj) {
      CountOutside(K, -1, 0, jj, m);
    }
  }

  lemma PartingEqual(K: seq<int>, i: nat, jj: nat, j: nat, kk: nat, k: nat, m: nat)
    requires Parting(K, i, jj, j, kk, k) && m < |K| && K[m] == 0
    requires !(m < i) && !(jj <= m < jj + j) && !(kk <= m < kk + k)
    ensures jj + j < kk && Parting(Swapped(K, m, jj + j), i, jj, j + 1, kk, k)
  {
    hide Count;
    PartingRoom(K, i, jj, j, kk, k, m);
    CountSwap(K, -1, m, jj + j);
    CountSwap(K, 0, m, jj + j);
  }

  lemma PartingGreater(K: seq<int>, i: nat, jj: nat, j: nat, kk: nat, k: nat, m: nat)
    requires Parting(K, i, jj, j, kk, k) && m < |K| && K[m] == 1
    requires !(m < i) && !(jj <= m < jj + j) && !(kk <= m < kk + k)
    ensures kk + k < |K| && Parting(Swapped(K, m, kk + k), i, jj, j, kk, k + 1)
  {
    hide Count;
    PartingRoom(K, i, jj, j, kk, k, m);
    CountSwap(K, -1, m, kk + k);
    CountSwap(K, 0, m, kk + k);
  }

  lemma PartingMove(K: seq<int>, i: nat, jj: nat, j: nat, kk: nat, k: nat)
    requires Parting(K, i, jj, j, kk, k)
    ensures i < jj && K[i] == -1 ==> Parting(K, i + 1, jj, j, kk, k)
    ensures jj + j < kk && K[jj + j] == 0 ==> Parting(K, i, jj, j + 1, kk, k)
  {}

  lemma PartingDone(K: seq<int>, jj: nat, kk: nat, k: nat)
    requires jj <= kk && Parting(K, jj, jj, kk - jj, kk, k)
    ensures forall m :: 0 <= m < |K| ==> K[m] == if m < jj then -1 else if m < kk then 0 else 1
  {
    forall m | 0 <= m < |K|
      ensures K[m] == if m < jj then -1 else if m < kk then 0 else 1
    {
      PartingRoom(K, jj, jj, kk - jj, kk, k, m);
    }
  }

  lemma KindsSwap(V: seq<int>, P: seq<int>, h: nat, x: int, a: nat, b: nat, i: nat, j: nat)
    requires HasKeys(V, P, h, a, b) && a <= i < b && a <= j < b
    ensures HasKeys(V, Swapped(P, i, j), h, a, b)
    ensures Kinds(V, Swapped(P, i, j), h, x, a, b) == Swapped(Kinds(V, P, h, x, a, b), i - a, j - a)
  {}

  lemma SplittingKeys(t: seq<byte>, I: seq<int>, P: seq<int>, V: seq<int>, a: nat, b: nat, e: nat, h: nat)
    requires Splitting(t, I, P, V, a, b, e, h)
    ensures |I| == |P| == |V| && HasKeys(V, P, h, a, b) && forall k :: a <= k < b ==> I[k] == P[k]
  {}

  /** Counts the keys below and equal to the pivot. */
  method CountKinds(I: array<int>, V: array<int>, start: nat, len: nat, h: nat, x: int, ghost P: seq<int>)
    returns (less: nat, equal: nat)
    requires I.Length == |P| && HasKeys(V[..], P, h, start, start + len)
    requires forall k :: start <= k < start + len ==> I[k] == P[k]
    ensures var K := Kinds(V[..], P, h, x, start, start + len); less == Count(K, -1) && equal == Count(K, 0)
  {
    ghost var K := Kinds(V[..], P, h, x, start, start + len);
    less, equal := 0, 0;
    for i := 0 to len
      invariant less == Count(K[..i], -1) && equal == Count(K[..i], 0)
    {
      assert K[i] == Kind(V[..], P[start + i], h, x);
      assert K[..i + 1][..i] == K[..i];
      if V[I[start + i] + h] < x {
        less := less + 1;
      }
      if V[I[start + i] + h] == x {
        equal := equal + 1;
      }
    }
    assert K[..len] == K;
  }

  /** The state of the partition loops, relative to the stretch. */
  ghost predicate Partitioning(t: seq<byte>, I0: seq<int>, P0: seq<int>, I: seq<int>, P: seq<int>, V: seq<int>,
                               a: nat, b: nat, e: nat, h: nat, x: int, i: nat, jj: nat, j: nat, kk: nat, k: nat) {
    && Splitting(t, I, P, V, a, b, e, h) && Elsewhere(I0, P0, V, I, P, V, a, b)
    && HasKeys(V, P, h, a, b) && Parting(Kinds(V, P, h, x, a, b), i, jj, j, kk, k)
  }

  /** Moves an element equal to the pivot to the middle stretch. */
  method MoveEqual(ghost t: seq<byte>, I: array<int>, m: nat, ghost I0: seq<int>, ghost P0: seq<int>, ghost P: seq<int>,
                   ghost V: seq<int>, a: nat, ghost b: nat, ghost e: nat, ghost h: nat, ghost x: int,
                   ghost i: nat, jj: nat, j: nat, ghost kk: nat, ghost k: nat)
    returns (ghost P': seq<int>)
    requires Partitioning(t, I0, P0, I[..], P, V, a, b, e, h, x, i, jj, j, kk, k)
    requires a + m < b && Kind(V, P[a + m], h, x) == 0
    requires !(m < i) && !(jj <= m < jj + j) && !(kk <= m < kk + k)
    modifies I
    ensures Partitioning(t, I0, P0, I[..], P', V, a, b, e, h, x, i, jj, j + 1, kk, k)
  {
    hide Splitting, Elsewhere, Parting, Kind;
    SplittingKeys(t, I[..], P, V, a, b, e, h);
    PartingEqual(Kinds(V, P, h, x, a, b), i, jj, j, kk, k, m);
    PartingBounds(Kinds(V, P, h, x, a, b), i, jj, j, kk, k);
    KindsSwap(V, P, h, x, a, b, a + m, a + jj + j);
    P' := Exchange(t, I, a + m, a + jj + j, P, V, a, b, e, h, I0, P0);
  }

  /** Moves an element greater than the pivot to the upper stretch. */
  method MoveGreater(ghost t: seq<byte>, I: array<int>, m: nat, ghost I0: seq<int>, ghost P0: seq<int>, ghost P: seq<int>,
                     ghost V: seq<int>, a: nat, ghost b: nat, ghost e: nat, ghost h: nat, ghost x: int,
                     ghost i: nat, ghost jj: nat, ghost j: nat, kk: nat, k: nat)
    returns (ghost P': seq<int>)
    requires Partitioning(t, I0, P0, I[..], P, V, a, b, e, h, x, i, jj, j, kk, k)
    requires a + m < b && Kind(V, P[a + m], h, x) == 1
    requires !(m < i) && !(jj <= m < jj + j) && !(kk <= m < kk + k)
    modifies I
    ensures Partitioning(t, I0, P0, I[..], P', V, a, b, e, h, x, i, jj, j, kk, k + 1)
  {
    hide Splitting, Elsewhere, Parting, Kind;
    SplittingKeys(t, I[..], P, V, a, b, e, h);
    PartingGreater(Kinds(V, P, h, x, a, b), i, jj, j, kk, k, m);
    PartingBounds(Kinds(V, P, h, x, a, b), i, jj, j, kk, k);
    KindsSwap(V, P, h, x, a, b, a + m, a + kk + k);
    P' := Exchange(t, I, a + m, a + kk + k, P, V, a, b, e, h, I0, P0);
  }

  lemma PartingBounds(K: seq<int>, i: nat, jj: nat, j: nat, kk: nat, k: nat)
    requires Parting(K, i, jj, j, kk, k)
    ensures i <= jj <= jj + j <= kk <= kk + k <= |K|
  {}

  /** The stretch in three parts: keys below the pivot, equal to it, above it. */
  ghost predicate Parted(V: seq<int>, P: seq<int>, h: nat, x: int, a: nat, jj: nat, kk: nat, b: nat) {
    && HasKeys(V, P, h, a, b) && a <= jj <= kk <= b
    && forall k :: a <= k < b ==> Kind(V, P[k], h, x) == if k < jj then -1 else if k < kk then 0 else 1
  }

  lemma PartedFromKinds(V: seq<int>, P: seq<int>, h: nat, x: int, a: nat, jj: nat, kk: nat, b: nat)
    requires HasKeys(V, P, h, a, b) && jj <= kk <= b - a
    requires forall m :: 0 <= m < b - a ==>
               Kinds(V, P, h, x, a, b)[m] == if m < jj then -1 else if m < kk then 0 else 1
    ensures Parted(V, P, h, x, a, a + jj, a + kk, b)
  {
    var K := Kinds(V, P, h, x, a, b);
    forall k | a <= k < b
      ensures Kind(V, P[k], h, x) == if k < a + jj then -1 else if k < a + kk then 0 else 1
    {
      assert K[k - a] == Kind(V, P[a + (k - a)], h, x);
    }
  }

  lemma PartitionStart(t: seq<byte>, I: seq<int>, P: seq<int>, V: seq<int>, a: nat, b: nat, e: nat, h: nat, x: int,
                       less: nat, equal: nat)
    requires Splitting(t, I, P, V, a, b, e, h) && HasKeys(V, P, h, a, b)
    requires var K := Kinds(V, P, h, x, a, b); less == Count(K, -1) && equal == Count(K, 0)
    ensures Partitioning(t, I, P, I, P, V, a, b, e, h, x, 0, less, 0, less + equal, 0)
  {
    hide Count;
    var K := Kinds(V, P, h, x, a, b);
    CountThree(K);
    SplittingBounds(t, I, P, V, a, b, e, h);
  }

  /** The kind of an entry, as the loops test it. */
  lemma KindAt(t: seq<byte>, I0: seq<int>, P0: seq<int>, I: seq<int>, P: seq<int>, V: seq<int>,
               a: nat, b: nat, e: nat, h: nat, x: int, i: nat, jj: nat, j: nat, kk: nat, k: nat, m: nat)
    requires Partitioning(t, I0, P0, I, P, V, a, b, e, h, x, i, jj, j, kk, k) && a + m < b
    ensures |I| == |P| == |V| && b <= |I| && 0 <= I[a + m] == P[a + m] && I[a + m] + h < |V|
    ensures i <= jj <= jj + j <= kk <= kk + k <= b - a
    ensures Kind(V, P[a + m], h, x) == Kinds(V, P, h, x, a, b)[m]
    ensures V[I[a + m] + h] < x <==> Kind(V, P[a + m], h, x) == -1
    ensures V[I[a + m] + h] == x <==> Kind(V, P[a + m], h, x) == 0
  {
    hide Splitting, Elsewhere, Count, Kinds, HasKeys;
    SplittingKeys(t, I, P, V, a, b, e, h);
    PartitioningBounds(t, I0, P0, I, P, V, a, b, e, h, x, i, jj, j, kk, k);
    KindsAt(V, P, h, x, a, b, m);
    assert I[a + m] == P[a + m];
  }

  lemma KindsAt(V: seq<int>, P: seq<int>, h: nat, x: int, a: nat, b: nat, m: nat)
    requires HasKeys(V, P, h, a, b) && a + m < b
    ensures |Kinds(V, P, h, x, a, b)| == b - a && Kinds(V, P, h, x, a, b)[m] == Kind(V, P[a + m], h, x)
    ensures b <= |P| && 0 <= P[a + m] && P[a + m] + h < |V|
  {}

  /** Only two kinds are left once the lower stretch is full. */
  lemma NotLess(t: seq<byte>, I0: seq<int>, P0: seq<int>, I: seq<int>, P: seq<int>, V: seq<int>,
                a: nat, b: nat, e: nat, h: nat, x: int, jj: nat, j: nat, kk: nat, k: nat, m: nat)
    requires Partitioning(t, I0, P0, I, P, V, a, b, e, h, x, jj, jj, j, kk, k) && a + m < b && jj <= m
    ensures Kind(V, P[a + m], h, x) != -1
  {
    PartingRoom(Kinds(V, P, h, x, a, b), jj, jj, j, kk, k, m);
    assert Kinds(V, P, h, x, a, b)[m] == Kind(V, P[a + m], h, x);
  }

  lemma PartitioningMove(t: seq<byte>, I0: seq<int>, P0: seq<int>, I: seq<int>, P: seq<int>, V: seq<int>,
                         a: nat, b: nat, e: nat, h: nat, x: int, i: nat, jj: nat, j: nat, kk: nat, k: nat)
    requires Partitioning(t, I0, P0, I, P, V, a, b, e, h, x, i, jj, j, kk, k)
    ensures i < jj && a + i < b && Kind(V, P[a + i], h, x) == -1 ==>
              Partitioning(t, I0, P0, I, P, V, a, b, e, h, x, i + 1, jj, j, kk, k)
    ensures jj + j < kk && a + jj + j < b && Kind(V, P[a + jj + j], h, x) == 0 ==>
              Partitioning(t, I0, P0, I, P, V, a, b, e, h, x, i, jj, j + 1, kk, k)
  {
    hide Splitting, Elsewhere, Count;
    var K := Kinds(V, P, h, x, a, b);
    PartingMove(K, i, jj, j, kk, k);
    assert i < jj && a + i < b ==> K[i] == Kind(V, P[a + i], h, x);
    assert jj + j < kk && a + jj + j < b ==> K[jj + j] == Kind(V, P[a + (jj + j)], h, x);
  }

  /** The first partition loop: fills the lower stretch. */
  method FillLower(ghost t: seq<byte>, I: array<int>, V: array<int>, start: nat, ghost end: nat, h: nat, x: int,
                   jj: nat, kk: nat, ghost P: seq<int>, ghost e: nat)
    returns (j: nat, k: nat, ghost P': seq<int>)
    requires I != V && start <= jj <= kk <= end
    requires Partitioning(t, I[..], P, I[..], P, V[..], start, end, e, h, x, 0, jj - start, 0, kk - start, 0)
    modifies I
    ensures jj + j <= kk
    ensures Partitioning(t, old(I[..]), P, I[..], P', V[..], start, end, e, h, x, jj - start, jj - start, j, kk - start, k)
  {
    hide Partitioning, Kind;
    ghost var I0, V0 := I[..], V[..];
    P', j, k := P, 0, 0;
    var i := start;
    while i < jj
      invariant start <= i <= jj && jj + j <= kk && V[..] == V0 && kk + k <= end
      invariant Partitioning(t, I0, P, I[..], P', V0, start, end, e, h, x, i - start, jj - start, j, kk - start, k)
      decreases (jj - i) + (kk - jj - j) + (end - kk - k)
    {
      KindAt(t, I0, P, I[..], P', V0, start, end, e, h, x, i - start, jj - start, j, kk - start, k, i - start);
      KindRange(V0, P'[i], h, x);
      if V[I[i] + h] < x {
        PartitioningMove(t, I0, P, I[..], P', V0, start, end, e, h, x, i - start, jj - start, j, kk - start, k);
        i := i + 1;
      } else if V[I[i] + h] == x {
        P' := MoveEqual(t, I, i - start, I0, P, P', V0, start, end, e, h, x, i - start, jj - start, j, kk - start, k);
        j := j + 1;
      } else {
        P' := MoveGreater(t, I, i - start, I0, P, P', V0, start, end, e, h, x, i - start, jj - start, j, kk - start, k);
        k := k + 1;
      }
      PartitioningBounds(t, I0, P, I[..], P', V0, start, end, e, h, x, i - start, jj - start, j, kk - start, k);
    }
  }

  lemma KindRange(V: seq<int>, p: int, h: nat, x: int)
    requires 0 <= p && p + h < |V|
    ensures Kind(V, p, h, x) in {-1, 0, 1}
  {}

  lemma PartitioningBounds(t: seq<byte>, I0: seq<int>, P0: seq<int>, I: seq<int>, P: seq<int>, V: seq<int>,
                           a: nat, b: nat, e: nat, h: nat, x: int, i: nat, jj: nat, j: nat, kk: nat, k: nat)
    requires Partitioning(t, I0, P0, I, P, V, a, b, e, h, x, i, jj, j, kk, k)
    ensures i <= jj <= jj + j <= kk <= kk + k <= b - a && b <= |P| && |I| == |P|
  {
    SplittingKeys(t, I, P, V, a, b, e, h);
  }

  /** The second partition loop: fills the middle stretch. */
  method FillMiddle(ghost t: seq<byte>, I: array<int>, V: array<int>, start: nat, ghost end: nat, h: nat, x: int,
                    jj: nat, j0: nat, kk: nat, k0: nat, ghost I0: seq<int>, ghost P0: seq<int>, ghost P: seq<int>, ghost e: nat)
    returns (ghost P': seq<int>, ghost k: nat)
    requires I != V && start <= jj && jj + j0 <= kk <= end
    requires Partitioning(t, I0, P0, I[..], P, V[..], start, end, e, h, x, jj - start, jj - start, j0, kk - start, k0)
    modifies I
    ensures Partitioning(t, I0, P0, I[..], P', V[..], start, end, e, h, x, jj - start, jj - start, kk - jj, kk - start, k)
  {
    hide Partitioning, Kind;
    ghost var V0 := V[..];
    P' := P;
    var j, k' := j0, k0;
    PartitioningBounds(t, I0, P0, I[..], P', V0, start, end, e, h, x, jj - start, jj - start, j, kk - start, k');
    while jj + j < kk
      invariant jj + j <= kk && V[..] == V0 && kk + k' <= end
      invariant Partitioning(t, I0, P0, I[..], P', V0, start, end, e, h, x, jj - start, jj - start, j, kk - start, k')
      decreases (kk - jj - j) + (end - kk - k')
    {
      ghost var m := jj - start + j;
      KindAt(t, I0, P0, I[..], P', V0, start, end, e, h, x, jj - start, jj - start, j, kk - start, k', m);
      KindRange(V0, P'[start + m], h, x);
      NotLess(t, I0, P0, I[..], P', V0, start, end, e, h, x, jj - start, j, kk - start, k', m);
      if V[I[jj + j] + h] == x {
        PartitioningMove(t, I0, P0, I[..], P', V0, start, end, e, h, x, jj - start, jj - start, j, kk - start, k');
        j := j + 1;
      } else {
        P' := MoveGreater(t, I, jj - start + j, I0, P0, P', V0, start, end, e, h, x, jj - start, jj - start, j, kk - start, k');
        k' := k' + 1;
      }
      PartitioningBounds(t, I0, P0, I[..], P', V0, start, end, e, h, x, jj - start, jj - start, j, kk - start, k');
    }
    k := k';
  }

  /** The partition of a stretch around a pivot key. */
  method Partition(ghost t: seq<byte>, I: array<int>, V: array<int>, start: nat, len: nat, h: nat, ghost P: seq<int>, ghost e: nat)
    returns (jj: nat, kk: nat, ghost P': seq<int>, ghost x: int)
    requires I != V && Splitting(t, I[..], P, V[..], start, start + len, e, h)
    modifies I
    ensures Splitting(t, I[..], P', V[..], start, start + len, e, h)
    ensures Elsewhere(old(I[..]), P, V[..], I[..], P', V[..], start, start + len)
    ensures start <= jj < kk <= start + len && Parted(V[..], P', h, x, start, jj, kk, start + len)
  {
    hide Splitting, Elsewhere, Kinds, Parting, Parted;
    ghost var I0, V0, end := I[..], V[..], start + len;
    SplittingBounds(t, I0, P, V0, start, end, e, h);
    SplittingKeys(t, I0, P, V0, start, end, e, h);
    var pivot := V[I[start + len / 2] + h];
    var less, equal := CountKinds(I, V, start, len, h, pivot, P);
    PivotCounted(V0, P, h, pivot, start, end, start + len / 2);
    PartitionStart(t, I0, P, V0, start, end, e, h, pivot, less, equal);
    jj := start + less;
    kk := jj + equal;
    PartitioningBounds(t, I0, P, I0, P, V0, start, end, e, h, pivot, 0, less, 0, less + equal, 0);
    hide Partitioning;
    var j, k;
    j, k, P' := FillLower(t, I, V, start, end, h, pivot, jj, kk, P, e);
    ghost var k';
    P', k' := FillMiddle(t, I, V, start, end, h, pivot, jj, j, kk, k, I0, P, P', e);
    PartitionDone(t, I0, P, I[..], P', V0, start, end, e, h, pivot, jj, kk, k');
    x := pivot;
  }

  lemma PivotCounted(V: seq<int>, P: seq<int>, h: nat, x: int, a: nat, b: nat, m: nat)
    requires HasKeys(V, P, h, a, b) && a <= m < b && V[P[m] + h] == x
    ensures Count(Kinds(V, P, h, x, a, b), 0) >= 1
  {
    var K := Kinds(V, P, h, x, a, b);
    assert K[m - a] == Kind(V, P[a + (m - a)], h, x);
    CountStretch(K, 0, m - a, m - a + 1);
  }

  lemma PartitionDone(t: seq<byte>, I0: seq<int>, P0: seq<int>, I: seq<int>, P: seq<int>, V: seq<int>,
                      a: nat, b: nat, e: nat, h: nat, x: int, jj: nat, kk: nat, k: nat)
    requires a <= jj <= kk <= b
    requires Partitioning(t, I0, P0, I, P, V, a, b, e, h, x, jj - a, jj - a, kk - jj, kk - a, k)
    ensures Splitting(t, I, P, V, a, b, e, h) && Elsewhere(I0, P0, V, I, P, V, a, b)
    ensures Parted(V, P, h, x, a, jj, kk, b)
  {
    hide Splitting, Elsewhere, Count;
    PartingDone(Kinds(V, P, h, x, a, b), jj - a, kk - a, k);
    PartedFromKinds(V, P, h, x, a, jj - a, kk - a, b);
  }

  /** The order of the three stretches. */
  lemma KindsOrder(t: seq<byte>, P: seq<int>, V: seq<int>, a: nat, jj: nat, kk: nat, b: nat, e: nat, h: nat, x: int)
    requires Ordered(t, V) && Fine(t, V, h) && Parted(V, P, h, x, a, jj, kk, b)
    requires forall k :: a <= k < b ==> P[k] + h <= |t| && V[P[k]] == e
    ensures forall i, k :: a <= i < jj && jj <= k < b ==> Before(t, P[i], P[k])
    ensures forall i, k :: jj <= i < kk && kk <= k < b ==> Before(t, P[i], P[k])
    ensures forall i, k :: jj <= i < kk && jj <= k < kk ==> SameHead(t, P[i], P[k], h + h)
  {
    hide SameHead, Before, Ordered, Fine;
    forall i, k | a <= i < b && a <= k < b
      ensures i < jj && jj <= k ==> Before(t, P[i], P[k])
      ensures jj <= i < kk && kk <= k ==> Before(t, P[i], P[k])
      ensures jj <= i < kk && jj <= k < kk ==> SameHead(t, P[i], P[k], h + h)
    {
      KeyOrders(t, V, h, P[i], P[k]);
      assert Kind(V, P[i], h, x) == if i < jj then -1 else if i < kk then 0 else 1;
      assert Kind(V, P[k], h, x) == if k < jj then -1 else if k < kk then 0 else 1;
    }
  }

  /** The lower stretch can be split by itself, and the middle one is a block. */
  lemma PartedOrder(t: seq<byte>, I: seq<int>, P: seq<int>, V: seq<int>, a: nat, jj: nat, kk: nat, b: nat, e: nat, h: nat, x: int)
    requires Splitting(t, I, P, V, a, b, e, h) && Parted(V, P, h, x, a, jj, kk, b) && jj < kk
    ensures a < jj ==> Splitting(t, I, P, V, a, jj, e, h)
    ensures Block(t, P, jj, kk, b, h)
  {
    hide SameHead, Before, Ordered, Fine, Groups, Kind;
    KindsOrder(t, P, V, a, jj, kk, b, e, h, x);
  }

  /** Once the lower stretch is split, the rest is the group that is left. */
  lemma AfterLower(t: seq<byte>, I: seq<int>, P: seq<int>, V: seq<int>, I': seq<int>, P': seq<int>, V': seq<int>,
                   a: nat, jj: nat, kk: nat, b: nat, e: nat, h: nat)
    requires Splitting(t, I, P, V, a, b, e, h) && Block(t, P, jj, kk, b, h) && a < jj
    requires Delivers(t, I, P, V, I', P', V', a, jj, h)
    ensures Splitting(t, I', P', V', jj, b, e, h) && Block(t, P', jj, kk, b, h)
  {
    hide Delivers, Splitting, Block, State, Elsewhere;
    BlockInside(t, P, jj, kk, b, h);
    DeliveredEnd(t, I, P, V, I', P', V', a, jj, h);
    LowerGone(t, I, P, V, I', P', V', a, jj, b, e, h);
    BlockKept(t, I, P, V, I', P', V', a, jj, kk, b, h);
  }

  lemma BlockInside(t: seq<byte>, P: seq<int>, a: nat, c: nat, b: nat, h: nat)
    requires Block(t, P, a, c, b, h)
    ensures a < c <= b <= |P|
  {}

  lemma LowerGone(t: seq<byte>, I: seq<int>, P: seq<int>, V: seq<int>, I': seq<int>, P': seq<int>, V': seq<int>,
                  a: nat, jj: nat, b: nat, e: nat, h: nat)
    requires Splitting(t, I, P, V, a, b, e, h) && a < jj < b
    requires State(t, P', V', h) && Perm(P', |t|) && |V'| == |t| + 1 && V'[P'[jj - 1]] < jj
    requires Elsewhere(I, P, V, I', P', V', a, jj)
    ensures Splitting(t, I', P', V', jj, b, e, h)
  {
    hide State, Perm;
    PermRange(P', |t|);
    SplittingBounds(t, I, P, V, a, b, e, h);
    assert forall k :: jj <= k <= e ==> P'[k] == P[k] && V'[P'[k]] == V[P[k]];
    assert forall k :: jj <= k < b ==> I'[k] == I[k];
  }

  lemma PermRange(P: seq<int>, n: nat)
    requires Perm(P, n)
    ensures |P| == n + 1 && forall k :: 0 <= k < |P| ==> 0 <= P[k] <= n
  {}

  lemma BlockKept(t: seq<byte>, I: seq<int>, P: seq<int>, V: seq<int>, I': seq<int>, P': seq<int>, V': seq<int>,
                  a: nat, jj: nat, kk: nat, b: nat, h: nat)
    requires Block(t, P, jj, kk, b, h) && Elsewhere(I, P, V, I', P', V', a, jj) && |V| == |t| + 1
    ensures Block(t, P', jj, kk, b, h)
  {
    hide SameHead, Before;
    assert forall k :: jj <= k < b ==> P'[k] == P[k];
  }

  lemma DeliveredEnd(t: seq<byte>, I: seq<int>, P: seq<int>, V: seq<int>, I': seq<int>, P': seq<int>, V': seq<int>,
                     a: nat, b: nat, h: nat)
    requires Delivers(t, I, P, V, I', P', V', a, b, h) && a < b
    ensures State(t, P', V', h) && Perm(P', |t|) && |V| == |V'| == |t| + 1 && V'[P'[b - 1]] < b
    ensures Elsewhere(I, P, V, I', P', V', a, b)
  {
    hide SameHead, Before, Ordered, Fine, Groups;
    assert Ends(P', V')[b - 1] < b;
  }

  /** The splitting procedure. */
  method SplitGroup(ghost t: seq<byte>, I: array<int>, V: array<int>, start: nat, len: nat, h: nat, ghost P: seq<int>, ghost e: nat)
    returns (ghost P': seq<int>)
    requires I != V && Splitting(t, I[..], P, V[..], start, start + len, e, h)
    modifies I, V
    ensures Delivers(t, old(I[..]), P, old(V[..]), I[..], P', V[..], start, start + len, h)
    decreases len
  {
    hide Splitting, Elsewhere, Block, Parted, Partial;
    if len < 16 {
      P' := SplitSmall(t, I, V, start, len, h, P, e);
      return;
    }
    ghost var I0, V0, end := I[..], V[..], start + len;
    SplittingBounds(t, I0, P, V0, start, end, e, h);
    var jj, kk;
    ghost var x;
    jj, kk, P', x := Partition(t, I, V, start, len, h, P, e);
    ghost var I1, P1 := I[..], P';
    PartialRearranged(t, I0, P, V0, I1, P1, start, end, e, h);
    PartedOrder(t, I1, P1, V0, start, jj, kk, end, e, h, x);
    if jj > start {
      P' := SplitGroup(t, I, V, start, jj - start, h, P', e);
      AfterLower(t, I1, P1, V0, I[..], P', V[..], start, jj, kk, end, e, h);
      PartialOn(t, I0, P, V0, I1, P1, V0, I[..], P', V[..], start, start, jj, jj, end, h);
    }
    ghost var I2, V2 := I[..], V[..];
    CloseBlock(t, I, V, jj, kk, end, e, h, P');
    ghost var I3, P3, V3 := I[..], P', V[..];
    PartialOn(t, I0, P, V0, I2, P', V2, I3, P3, V3, start, jj, kk, kk, end, h);
    if start + len > kk {
      P' := SplitGroup(t, I, V, kk, start + len - kk, h, P', e);
      PartialOn(t, I0, P, V0, I3, P3, V3, I[..], P', V[..], start, kk, end, end, end, h);
    }
  }
}
