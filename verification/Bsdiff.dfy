/** The firmware tool's bsdiff: match search, triple selection and patch emission. */
module Bsdiff {
  import opened Bytes
  import opened PatchFormat
  import opened SuffixOrder

  // ---- Searching the old image ----

  /** How many bytes agree from `a[i]` and `b[j]` on. */
  function CommonPrefix(a: seq<byte>, i: nat, b: seq<byte>, j: nat): (n: nat)
    requires i <= |a| && j <= |b|
    ensures i + n <= |a| && j + n <= |b|
    decreases |a| - i
  {
    if i < |a| && j < |b| && a[i] == b[j] then 1 + CommonPrefix(a, i + 1, b, j + 1) else 0
  }

  lemma {:induction false} CommonPrefixAgrees(a: seq<byte>, i: nat, b: seq<byte>, j: nat)
    requires i <= |a| && j <= |b|
    ensures var n := CommonPrefix(a, i, b, j);
            && a[i..i + n] == b[j..j + n]
            && (i + n < |a| && j + n < |b| ==> a[i + n] != b[j + n])
    decreases |a| - i
  {
    if i < |a| && j < |b| && a[i] == b[j] {
      CommonPrefixAgrees(a, i + 1, b, j + 1);
      var n := CommonPrefix(a, i + 1, b, j + 1);
      assert a[i..i + 1 + n] == [a[i]] + a[i + 1..i + 1 + n];
      assert b[j..j + 1 + n] == [b[j]] + b[j + 1..j + 1 + n];
    }
  }

  method MatchLength(a: seq<byte>, i: nat, b: seq<byte>, j: nat) returns (n: nat)
    requires i <= |a| && j <= |b|
    ensures n == CommonPrefix(a, i, b, j)
  {
    n := 0;
    while i + n < |a| && j + n < |b| && a[i + n] == b[j + n]
      invariant i + n <= |a| && j + n <= |b|
      invariant n + CommonPrefix(a, i + n, b, j + n) == CommonPrefix(a, i, b, j)
    {
      n := n + 1;
    }
  }

  /** `memcmp(a + i, b + j, n) < 0`. */
  predicate Below(a: seq<byte>, i: nat, b: seq<byte>, j: nat, n: nat)
    requires i + n <= |a| && j + n <= |b|
    decreases n
  {
    n > 0 && (a[i] < b[j] || (a[i] == b[j] && Below(a, i + 1, b, j + 1, n - 1)))
  }

  /** A table of positions of the old image, its end included. */
  predicate IndexTable(I: seq<int>, prior: seq<byte>) {
    |I| == |prior| + 1 && forall k :: 0 <= k < |I| ==> 0 <= I[k] <= |prior|
  }

  function Min(a: int, b: int): int {
    if a < b then a else b
  }

  /** Entry `k` of the table compares below the image from `scan` on. */
  predicate Smaller(I: seq<int>, prior: seq<byte>, nnew: seq<byte>, scan: nat, k: nat)
    requires IndexTable(I, prior) && scan <= |nnew| && k < |I|
  {
    Below(prior, I[k], nnew, scan, Min(|prior| - I[k], |nnew| - scan))
  }

  /** Two neighbours between `st` and `en`, or the two ends where there is nothing between: the lower one
      compares below the image unless it is `st`, the upper one does not unless it is `en`. */
  ghost predicate Settled(I: seq<int>, prior: seq<byte>, nnew: seq<byte>, scan: nat, st: nat, en: nat, lo: nat, hi: nat)
    requires IndexTable(I, prior) && scan <= |nnew| && st <= en < |I|
  {
    && st <= lo <= hi <= en && hi - lo == (if st == en then 0 else 1)
    && (lo == st || Smaller(I, prior, nnew, scan, lo)) && (hi == en || !Smaller(I, prior, nnew, scan, hi))
  }

  /** The one of two entries where the image agrees further, the upper one if both are as good. */
  ghost predicate BetterOf(I: seq<int>, prior: seq<byte>, nnew: seq<byte>, scan: nat, lo: nat, hi: nat, pos: nat, len: nat)
    requires IndexTable(I, prior) && scan <= |nnew| && lo < |I| && hi < |I|
  {
    var x, y := CommonPrefix(prior, I[lo], nnew, scan), CommonPrefix(prior, I[hi], nnew, scan);
    if x > y then pos == I[lo] && len == x else pos == I[hi] && len == y
  }

  /** A binary search of the table between `st` and `en`. */
  method Search(I: seq<int>, prior: seq<byte>, nnew: seq<byte>, scan: nat, st: nat, en: nat)
    returns (len: nat, pos: nat, ghost lo: nat, ghost hi: nat)
    requires IndexTable(I, prior) && scan <= |nnew| && st <= en < |I|
    ensures Settled(I, prior, nnew, scan, st, en, lo, hi) && BetterOf(I, prior, nnew, scan, lo, hi, pos, len)
    decreases en - st
  {
    if en - st < 2 {
      var x := MatchLength(prior, I[st], nnew, scan);
      var y := MatchLength(prior, I[en], nnew, scan);
      if x > y {
        pos, len := I[st], x;
      } else {
        pos, len := I[en], y;
      }
      lo, hi := st, en;
      return;
    }
    var x := st + (en - st) / 2;
    if Below(prior, I[x], nnew, scan, Min(|prior| - I[x], |nnew| - scan)) {
      len, pos, lo, hi := Search(I, prior, nnew, scan, x, en);
    } else {
      len, pos, lo, hi := Search(I, prior, nnew, scan, st, x);
    }
  }

  /** What a search of the whole table can find. */
  ghost predicate Found(I: seq<int>, prior: seq<byte>, nnew: seq<byte>, scan: nat, pos: nat, len: nat)
    requires IndexTable(I, prior) && scan <= |nnew|
  {
    exists lo, hi :: Settled(I, prior, nnew, scan, 0, |prior|, lo, hi) && BetterOf(I, prior, nnew, scan, lo, hi, pos, len)
  }

  lemma FoundAgrees(I: seq<int>, prior: seq<byte>, nnew: seq<byte>, scan: nat, pos: nat, len: nat)
    requires IndexTable(I, prior) && scan <= |nnew| && Found(I, prior, nnew, scan, pos, len)
    ensures pos <= |prior| && len == CommonPrefix(prior, pos, nnew, scan)
  {
    hide Settled;
  }

  // ---- Longest matches ----

  /** At the first difference the old image is below the new one, or not. */
  lemma {:induction false} BelowMeans(a: seq<byte>, i: nat, b: seq<byte>, j: nat, n: nat)
    requires i <= |a| && j <= |b| && n == Min(|a| - i, |b| - j)
    ensures var c := CommonPrefix(a, i, b, j);
            && c <= n
            && (Below(a, i, b, j, n) <==> c < n && a[i + c] < b[j + c])
            && (c < n ==> a[i + c] != b[j + c])
    decreases n
  {
    if n > 0 && a[i] == b[j] {
      BelowMeans(a, i + 1, b, j + 1, n - 1);
    }
  }

  /** Suffixes that agree up to a smaller byte of the first are in that order. */
  lemma {:induction false} SmallerByteFirst(t: seq<byte>, p: nat, q: nat, n: nat)
    requires p + n < |t| && q + n < |t| && t[p..p + n] == t[q..q + n] && t[p + n] < t[q + n]
    ensures Before(t, p, q)
    decreases n
  {
    if n > 0 {
      assert t[p] == t[p..p + n][0] == t[q..q + n][0] == t[q];
      assert t[p + 1..p + n] == t[p..p + n][1..] == t[q..q + n][1..] == t[q + 1..q + n];
      SmallerByteFirst(t, p + 1, q + 1, n - 1);
    }
  }

  /** A suffix below one that is below the image agrees no further; nor does a suffix above one that is
      above it. */
  lemma AgreesNoFurther(prior: seq<byte>, p: nat, q: nat, nnew: seq<byte>, scan: nat)
    requires p <= |prior| && q <= |prior| && scan <= |nnew|
    requires var c := CommonPrefix(prior, q, nnew, scan);
             && q + c < |prior| && scan + c < |nnew|
             && if prior[q + c] < nnew[scan + c] then Before(prior, p, q) else Before(prior, q, p)
    ensures CommonPrefix(prior, p, nnew, scan) <= CommonPrefix(prior, q, nnew, scan)
  {
    hide CommonPrefix, Before;
    var c, d := CommonPrefix(prior, q, nnew, scan), CommonPrefix(prior, p, nnew, scan);
    CommonPrefixAgrees(prior, p, nnew, scan);
    CommonPrefixAgrees(prior, q, nnew, scan);
    if d > c {
      SliceOfSlice(prior, p, p + d, 0, c);
      SliceOfSlice(nnew, scan, scan + d, 0, c);
      assert prior[p..p + d][c] == prior[p + c] && nnew[scan..scan + d][c] == nnew[scan + c];
      if prior[q + c] < nnew[scan + c] {
        SmallerByteFirst(prior, q, p, c);
        BeforeStrict(prior, p, q);
      } else {
        SmallerByteFirst(prior, p, q, c);
        BeforeStrict(prior, q, p);
      }
    }
  }

  /** Some suffix of the old image, not empty, ends inside its agreement with the image from `scan` on. */
  ghost predicate EndsInside(prior: seq<byte>, nnew: seq<byte>, scan: nat)
    requires scan <= |nnew|
  {
    exists p :: 0 <= p < |prior| && CommonPrefix(prior, p, nnew, scan) == |prior| - p < |nnew| - scan
  }

  /** In a suffix array the search finds a longest match, unless some suffix of the old image ends inside its
      agreement: `memcmp` takes such a suffix for equal, and the search turns away from what is above it. */
  lemma FoundIsLongest(I: seq<int>, prior: seq<byte>, nnew: seq<byte>, scan: nat, pos: nat, len: nat, k: nat)
    requires SuffixArray(prior, I) && scan <= |nnew| && !EndsInside(prior, nnew, scan) && k < |I|
    requires Found(I, prior, nnew, scan, pos, len)
    ensures CommonPrefix(prior, I[k], nnew, scan) <= len
  {
    hide Before, CommonPrefix, Below;
    var lo: nat, hi: nat :| Settled(I, prior, nnew, scan, 0, |prior|, lo, hi) && BetterOf(I, prior, nnew, scan, lo, hi, pos, len);
    BelowMeans(prior, I[lo], nnew, scan, Min(|prior| - I[lo], |nnew| - scan));
    BelowMeans(prior, I[hi], nnew, scan, Min(|prior| - I[hi], |nnew| - scan));
    if k < lo {
      AgreesNoFurther(prior, I[k], I[lo], nnew, scan);
    } else if k > hi {
      NotEmpty(I, prior, hi);
      if CommonPrefix(prior, I[hi], nnew, scan) < |nnew| - scan {
        AgreesNoFurther(prior, I[k], I[hi], nnew, scan);
      }
    }
  }

  lemma NotEmpty(I: seq<int>, prior: seq<byte>, k: nat)
    requires SuffixArray(prior, I) && 0 < k < |I|
    ensures I[k] < |prior|
  {
    assert Before(prior, I[0], I[k]);
  }

  /** Without that condition it need not: in the suffix array of 1 2 1, looking for 1 2 settles on the last
      byte, which agrees on one byte, though both agree at the beginning. */
  lemma LongestIsMissed(prior: seq<byte>, nnew: seq<byte>, I: seq<int>)
    requires prior == [1, 2, 1] && nnew == [1, 2] && I == [3, 2, 0, 1]
    ensures SuffixArray(prior, I) && CommonPrefix(prior, 0, nnew, 0) == 2
    ensures Found(I, prior, nnew, 0, 2, 1) && forall pos, len :: Found(I, prior, nnew, 0, pos, len) ==> len == 1
  {
    assert CommonPrefix(prior, 2, nnew, 0) == 1 + CommonPrefix(prior, 3, nnew, 1);
    assert CommonPrefix(prior, 1, nnew, 1) == 1 + CommonPrefix(prior, 2, nnew, 2);
    assert !Smaller(I, prior, nnew, 0, 1) && !Smaller(I, prior, nnew, 0, 2);
    assert Settled(I, prior, nnew, 0, 0, 3, 0, 1) && BetterOf(I, prior, nnew, 0, 0, 1, 2, 1);
  }

  // ---- Scanning for the next triple ----

  /** Byte `k` of the new image equals the old one at the current offset. */
  predicate Agrees(prior: seq<byte>, nnew: seq<byte>, offset: int, k: nat)
    requires k < |nnew| && 0 <= k + offset
  {
    k + offset < |prior| && prior[k + offset] == nnew[k]
  }

  /** How many bytes of `nnew[lo..hi]` agree at an offset. */
  function Agreements(prior: seq<byte>, nnew: seq<byte>, offset: int, lo: nat, hi: nat): (n: nat)
    requires lo <= hi <= |nnew| && 0 <= lo + offset
    ensures n <= hi - lo
    decreases hi - lo
  {
    if lo == hi then 0
    else Agreements(prior, nnew, offset, lo, hi - 1) + (if Agrees(prior, nnew, offset, hi - 1) then 1 else 0)
  }

  lemma {:induction false} AgreementsSplit(prior: seq<byte>, nnew: seq<byte>, offset: int, lo: nat, mid: nat, hi: nat)
    requires lo <= mid <= hi <= |nnew| && 0 <= lo + offset
    ensures Agreements(prior, nnew, offset, lo, hi)
         == Agreements(prior, nnew, offset, lo, mid) + Agreements(prior, nnew, offset, mid, hi)
    decreases hi
  {
    if mid < hi {
      AgreementsSplit(prior, nnew, offset, lo, mid, hi - 1);
    }
  }

  /** Why a scan stops: a match no better than the running offset predicts, or one more than
      eight bytes better. */
  predicate WorthStopping(len: nat, oldscore: int) {
    (len == oldscore && len != 0) || len > oldscore + 8
  }

  /** Matches of these lengths, at `from` and the positions behind it, end in an image of `n` bytes. */
  predicate MatchesEnd(n: nat, from: nat, lens: seq<nat>) {
    from <= n && forall i :: 0 <= i < |lens| ==> from + i + lens[i] <= n
  }

  /** How far the first `k` of them reach. */
  function Reach(n: nat, from: nat, lens: seq<nat>, k: nat): (r: nat)
    requires MatchesEnd(n, from, lens) && k <= |lens|
    ensures from <= r <= n && (k > 0 ==> from + k - 1 + lens[k - 1] <= r)
    decreases k
  {
    if k == 0 then from
    else
      var r, s := Reach(n, from, lens, k - 1), from + k - 1 + lens[k - 1];
      if r < s then s else r
  }

  /** What the running offset predicts at lookup `i`: its agreements from there to the end of the furthest
      match so far. */
  function Score(prior: seq<byte>, nnew: seq<byte>, offset: int, from: nat, lens: seq<nat>, i: nat): nat
    requires MatchesEnd(|nnew|, from, lens) && i < |lens| && 0 <= from + offset
  {
    Agreements(prior, nnew, offset, from + i, Reach(|nnew|, from, lens, i + 1))
  }

  ghost predicate FoundLength(I: seq<int>, prior: seq<byte>, nnew: seq<byte>, scan: nat, len: nat)
    requires IndexTable(I, prior) && scan <= |nnew|
  {
    exists pos :: Found(I, prior, nnew, scan, pos, len)
  }

  /** The lengths found from `from` on, none of them worth stopping at before `scan`. */
  ghost predicate Scanning(I: seq<int>, prior: seq<byte>, nnew: seq<byte>, from: nat, offset: int, lens: seq<nat>, scan: nat)
    requires IndexTable(I, prior) && 0 <= from + offset
  {
    && from <= scan <= |nnew| && |lens| >= scan - from && MatchesEnd(|nnew|, from, lens)
    && (forall i :: 0 <= i < |lens| ==> FoundLength(I, prior, nnew, from + i, lens[i]))
    && (forall i :: 0 <= i < scan - from ==> !WorthStopping(lens[i], Score(prior, nnew, offset, from, lens, i)))
  }

  /** A scan that stopped at the first position worth it, or at the end of the image. */
  ghost predicate Scanned(I: seq<int>, prior: seq<byte>, nnew: seq<byte>, from: nat, offset: int, lens: seq<nat>,
                          scan: nat, pos: nat, len: nat, oldscore: int)
    requires IndexTable(I, prior) && 0 <= from + offset
  {
    && Scanning(I, prior, nnew, from, offset, lens, scan)
    && |lens| == scan - from + (if scan < |nnew| then 1 else 0)
    && (scan < |nnew| ==>
          && Found(I, prior, nnew, scan, pos, len) && len == lens[scan - from]
          && oldscore == Score(prior, nnew, offset, from, lens, scan - from) && WorthStopping(len, oldscore))
  }

  lemma {:induction false} ReachKept(n: nat, from: nat, lens: seq<nat>, len: nat, k: nat)
    requires MatchesEnd(n, from, lens) && MatchesEnd(n, from, lens + [len]) && k <= |lens|
    ensures Reach(n, from, lens + [len], k) == Reach(n, from, lens, k)
    decreases k
  {
    if k > 0 {
      ReachKept(n, from, lens, len, k - 1);
    }
  }

  /** One more lookup changes none of the scores before it. */
  lemma ScanningOn(I: seq<int>, prior: seq<byte>, nnew: seq<byte>, from: nat, offset: int, lens: seq<nat>, scan: nat, pos: nat, len: nat)
    requires IndexTable(I, prior) && 0 <= from + offset && Scanning(I, prior, nnew, from, offset, lens, scan)
    requires |lens| == scan - from && scan < |nnew| && Found(I, prior, nnew, scan, pos, len)
    ensures Scanning(I, prior, nnew, from, offset, lens + [len], scan)
    ensures MatchesEnd(|nnew|, from, lens) && MatchesEnd(|nnew|, from, lens + [len])
    ensures var r := Reach(|nnew|, from, lens, |lens|);
            Reach(|nnew|, from, lens + [len], |lens| + 1) == if r < scan + len then scan + len else r
  {
    hide Found, FoundLength, WorthStopping, Agreements, Reach, CommonPrefix;
    FoundAgrees(I, prior, nnew, scan, pos, len);
    var more := lens + [len];
    assert MatchesEnd(|nnew|, from, more);
    forall i | 0 <= i < |more|
      ensures FoundLength(I, prior, nnew, from + i, more[i])
    {
      if i == |lens| {
        IsLength(I, prior, nnew, scan, pos, len);
      }
    }
    forall i | 0 <= i < |lens|
      ensures !WorthStopping(more[i], Score(prior, nnew, offset, from, more, i))
    {
      assert more[i] == lens[i];
      ReachKept(|nnew|, from, lens, len, i + 1);
    }
    FurthestReach(|nnew|, from, lens, len);
  }

  lemma IsLength(I: seq<int>, prior: seq<byte>, nnew: seq<byte>, scan: nat, pos: nat, len: nat)
    requires IndexTable(I, prior) && scan <= |nnew| && Found(I, prior, nnew, scan, pos, len)
    ensures FoundLength(I, prior, nnew, scan, len)
  {
    hide Found;
  }

  lemma FurthestReach(n: nat, from: nat, lens: seq<nat>, len: nat)
    requires MatchesEnd(n, from, lens) && MatchesEnd(n, from, lens + [len])
    ensures var r, s := Reach(n, from, lens, |lens|), from + |lens| + len;
            Reach(n, from, lens + [len], |lens| + 1) == if r < s then s else r
  {
    ReachKept(n, from, lens, len, |lens|);
  }

  /** Compares the old image at the running offset up to `to`. */
  method CountAgreements(prior: seq<byte>, nnew: seq<byte>, lastoffset: int, ghost from: nat, scsc0: nat, to: nat, score0: int)
    returns (scsc: nat, score: int)
    requires from <= scsc0 <= |nnew| && to <= |nnew| && 0 <= from + lastoffset
    ensures scsc == (if scsc0 < to then to else scsc0)
    ensures score - score0 == Agreements(prior, nnew, lastoffset, from, scsc) - Agreements(prior, nnew, lastoffset, from, scsc0)
  {
    scsc, score := scsc0, score0;
    while scsc < to
      invariant scsc0 <= scsc && (scsc <= to || scsc == scsc0)
      invariant score - score0 == Agreements(prior, nnew, lastoffset, from, scsc) - Agreements(prior, nnew, lastoffset, from, scsc0)
    {
      if Agrees(prior, nnew, lastoffset, scsc) {
        score := score + 1;
      }
      scsc := scsc + 1;
    }
  }

  lemma ScanStarts(I: seq<int>, prior: seq<byte>, nnew: seq<byte>, from: nat, offset: int)
    requires IndexTable(I, prior) && 0 <= from + offset && from <= |nnew|
    ensures Scanning(I, prior, nnew, from, offset, [], from) && MatchesEnd(|nnew|, from, []) && Reach(|nnew|, from, [], 0) == from
  {}

  /** The lookup at `scan`: its score, and whether it ends the scan. */
  lemma LookedUp(I: seq<int>, prior: seq<byte>, nnew: seq<byte>, from: nat, offset: int, lens: seq<nat>, scan: nat, pos: nat, len: nat,
                 oldscore: int)
    requires IndexTable(I, prior) && 0 <= from + offset && Scanning(I, prior, nnew, from, offset, lens, scan)
    requires |lens| == scan - from + 1 && scan < |nnew| && len == lens[scan - from] && Found(I, prior, nnew, scan, pos, len)
    requires MatchesEnd(|nnew|, from, lens)
    requires var reach := Reach(|nnew|, from, lens, |lens|);
             && scan <= reach
             && oldscore == Agreements(prior, nnew, offset, from, reach) - Agreements(prior, nnew, offset, from, scan)
    ensures oldscore >= 0
    ensures if WorthStopping(len, oldscore) then Scanned(I, prior, nnew, from, offset, lens, scan, pos, len, oldscore)
            else Scanning(I, prior, nnew, from, offset, lens, scan + 1)
  {
    hide Found, Agreements, FoundLength, WorthStopping;
    AgreementsSplit(prior, nnew, offset, from, scan, Reach(|nnew|, from, lens, |lens|));
    assert oldscore == Score(prior, nnew, offset, from, lens, scan - from);
  }

  lemma ScanEnds(I: seq<int>, prior: seq<byte>, nnew: seq<byte>, from: nat, offset: int, lens: seq<nat>, pos: nat, len: nat, oldscore: int)
    requires IndexTable(I, prior) && 0 <= from + offset && Scanning(I, prior, nnew, from, offset, lens, |nnew|)
    requires |lens| == |nnew| - from
    ensures Scanned(I, prior, nnew, from, offset, lens, |nnew|, pos, len, oldscore)
  {
    hide Scanning;
  }

  /** Advances `scan` to the first position worth stopping at, or to the end. */
  method Scan(I: seq<int>, prior: seq<byte>, nnew: seq<byte>, from: nat, len0: nat, pos0: nat, lastoffset: int)
    returns (scan: nat, len: nat, pos: nat, oldscore: int, ghost lens: seq<nat>)
    requires IndexTable(I, prior) && from <= |nnew| && 0 <= from + lastoffset && pos0 <= |prior|
    ensures Scanned(I, prior, nnew, from, lastoffset, lens, scan, pos, len, oldscore)
    ensures pos <= |prior| && (scan < |nnew| ==> len > 0 && len == CommonPrefix(prior, pos, nnew, scan))
  {
    hide Found, Agreements, Scanning, Scanned, MatchesEnd, Reach, Settled, BetterOf, CommonPrefix, Agrees, IndexTable;
    scan, len, pos, oldscore, lens := from, len0, pos0, 0, [];
    ScanStarts(I, prior, nnew, from, lastoffset);
    var scsc := from;
    while scan < |nnew|
      invariant from <= scan <= |nnew| && from <= scsc <= |nnew| && pos <= |prior| && |lens| == scan - from
      invariant Scanning(I, prior, nnew, from, lastoffset, lens, scan) && MatchesEnd(|nnew|, from, lens)
      invariant scsc == Reach(|nnew|, from, lens, |lens|)
      invariant oldscore == Agreements(prior, nnew, lastoffset, from, scsc) - Agreements(prior, nnew, lastoffset, from, scan)
    {
      ghost var lo, hi;
      TableEnds(I, prior);
      len, pos, lo, hi := Search(I, prior, nnew, scan, 0, |prior|);
      WasFound(I, prior, nnew, scan, lo, hi, pos, len);
      FoundAgrees(I, prior, nnew, scan, pos, len);
      ScanningOn(I, prior, nnew, from, lastoffset, lens, scan, pos, len);
      lens := lens + [len];
      scsc, oldscore := CountAgreements(prior, nnew, lastoffset, from, scsc, scan + len, oldscore);
      LookedUp(I, prior, nnew, from, lastoffset, lens, scan, pos, len, oldscore);
      if WorthStopping(len, oldscore) {
        return;
      }
      OneMore(prior, nnew, lastoffset, from, scan);
      if Agrees(prior, nnew, lastoffset, scan) {
        oldscore := oldscore - 1;
      }
      scan := scan + 1;
    }
    ScanEnds(I, prior, nnew, from, lastoffset, lens, pos, len, oldscore);
  }

  lemma TableEnds(I: seq<int>, prior: seq<byte>)
    requires IndexTable(I, prior)
    ensures |I| == |prior| + 1
  {}

  /** Where a scan stops for a match no running offset predicts, that match agrees on over eight bytes more
      than the running offset does. */
  lemma StopIsBetter(I: seq<int>, prior: seq<byte>, nnew: seq<byte>, from: nat, offset: int, lens: seq<nat>,
                     scan: nat, pos: nat, len: nat, oldscore: int)
    requires IndexTable(I, prior) && 0 <= from + offset && Scanned(I, prior, nnew, from, offset, lens, scan, pos, len, oldscore)
    requires scan < |nnew| && len != oldscore
    ensures pos + len <= |prior| && scan + len <= |nnew| && prior[pos..pos + len] == nnew[scan..scan + len]
    ensures len > Agreements(prior, nnew, offset, scan, scan + len) + 8
  {
    hide Found, Agreements;
    FoundAgrees(I, prior, nnew, scan, pos, len);
    CommonPrefixAgrees(prior, pos, nnew, scan);
    AgreementsSplit(prior, nnew, offset, scan, scan + len, Reach(|nnew|, from, lens, scan - from + 1));
  }

  lemma OneMore(prior: seq<byte>, nnew: seq<byte>, offset: int, lo: nat, hi: nat)
    requires lo <= hi < |nnew| && 0 <= lo + offset
    ensures Agreements(prior, nnew, offset, lo, hi + 1)
         == Agreements(prior, nnew, offset, lo, hi) + if Agrees(prior, nnew, offset, hi) then 1 else 0
  {}

  lemma WasFound(I: seq<int>, prior: seq<byte>, nnew: seq<byte>, scan: nat, lo: nat, hi: nat, pos: nat, len: nat)
    requires IndexTable(I, prior) && scan <= |nnew| && Settled(I, prior, nnew, scan, 0, |prior|, lo, hi)
    requires BetterOf(I, prior, nnew, scan, lo, hi, pos, len)
    ensures Found(I, prior, nnew, scan, pos, len)
  {
    hide Settled, BetterOf;
  }

  // ---- Choosing a triple ----

  /** How many of the `n` bytes from `prior[p]` and `nnew[q]` on are equal. */
  function Same(prior: seq<byte>, nnew: seq<byte>, p: nat, q: nat, n: nat): nat
    requires p + n <= |prior| && q + n <= |nnew|
    decreases n
  {
    if n == 0 then 0
    else Same(prior, nnew, p, q, n - 1) + (if prior[p + n - 1] == nnew[q + n - 1] then 1 else 0)
  }

  /** How many of the `n` bytes before `prior[p]` and `nnew[q]` are equal. */
  function SameBefore(prior: seq<byte>, nnew: seq<byte>, p: nat, q: nat, n: nat): nat
    requires n <= p <= |prior| && n <= q <= |nnew|
    decreases n
  {
    if n == 0 then 0
    else SameBefore(prior, nnew, p, q, n - 1) + (if prior[p - n] == nnew[q - n] then 1 else 0)
  }

  /** The forward extension of the last match: the shortest length with the most equal bytes
      over unequal ones. */
  ghost predicate ForwardBest(prior: seq<byte>, nnew: seq<byte>, lastpos: nat, lastscan: nat, scan: nat, lenf: nat)
    requires lastpos <= |prior| && lastscan <= scan <= |nnew|
  {
    && lastpos + lenf <= |prior| && lastscan + lenf <= scan
    && (forall n :: 0 <= n <= scan - lastscan && lastpos + n <= |prior| ==>
          2 * Same(prior, nnew, lastpos, lastscan, n) - n <= 2 * Same(prior, nnew, lastpos, lastscan, lenf) - lenf)
    && (forall n :: 0 <= n < lenf ==>
          2 * Same(prior, nnew, lastpos, lastscan, n) - n < 2 * Same(prior, nnew, lastpos, lastscan, lenf) - lenf)
  }

  method ForwardLength(prior: seq<byte>, nnew: seq<byte>, lastpos: nat, lastscan: nat, scan: nat) returns (lenf: nat)
    requires lastpos <= |prior| && lastscan <= scan <= |nnew|
    ensures ForwardBest(prior, nnew, lastpos, lastscan, scan, lenf)
  {
    var s, best, i := 0, 0, 0;
    lenf := 0;
    while lastscan + i < scan && lastpos + i < |prior|
      invariant 0 <= lenf <= i && lastscan + i <= scan && lastpos + i <= |prior|
      invariant s == Same(prior, nnew, lastpos, lastscan, i) && best == Same(prior, nnew, lastpos, lastscan, lenf)
      invariant forall n :: 0 <= n <= i ==> 2 * Same(prior, nnew, lastpos, lastscan, n) - n <= 2 * best - lenf
      invariant forall n :: 0 <= n < lenf ==> 2 * Same(prior, nnew, lastpos, lastscan, n) - n < 2 * best - lenf
    {
      if prior[lastpos + i] == nnew[lastscan + i] {
        s := s + 1;
      }
      i := i + 1;
      if s * 2 - i > best * 2 - lenf {
        best, lenf := s, i;
      }
    }
  }

  /** The backward extension of the next match, chosen the same way. */
  ghost predicate BackwardBest(prior: seq<byte>, nnew: seq<byte>, pos: nat, lastscan: nat, scan: nat, lenb: nat)
    requires pos <= |prior| && lastscan <= scan <= |nnew|
  {
    && lenb <= pos && lastscan + lenb <= scan
    && (forall n :: 0 <= n <= pos && n <= scan - lastscan ==>
          2 * SameBefore(prior, nnew, pos, scan, n) - n <= 2 * SameBefore(prior, nnew, pos, scan, lenb) - lenb)
    && (forall n :: 0 <= n < lenb ==>
          2 * SameBefore(prior, nnew, pos, scan, n) - n < 2 * SameBefore(prior, nnew, pos, scan, lenb) - lenb)
  }

  method BackwardLength(prior: seq<byte>, nnew: seq<byte>, pos: nat, lastscan: nat, scan: nat) returns (lenb: nat)
    requires pos <= |prior| && lastscan <= scan <= |nnew|
    ensures BackwardBest(prior, nnew, pos, lastscan, scan, lenb)
  {
    var s, best, i := 0, 0, 1;
    lenb := 0;
    while scan >= lastscan + i && pos >= i
      invariant 1 <= i && 0 <= lenb < i && i - 1 <= pos && lastscan + i - 1 <= scan
      invariant s == SameBefore(prior, nnew, pos, scan, i - 1) && best == SameBefore(prior, nnew, pos, scan, lenb)
      invariant forall n :: 0 <= n < i ==> 2 * SameBefore(prior, nnew, pos, scan, n) - n <= 2 * best - lenb
      invariant forall n :: 0 <= n < lenb ==> 2 * SameBefore(prior, nnew, pos, scan, n) - n < 2 * best - lenb
    {
      if prior[pos - i] == nnew[scan - i] {
        s := s + 1;
      }
      if s * 2 - i > best * 2 - lenb {
        best, lenb := s, i;
      }
      i := i + 1;
    }
  }

  /** Where two overlapping extensions are cut: the shortest prefix of the overlap in which the
      forward one gains most. */
  ghost predicate CutBest(prior: seq<byte>, nnew: seq<byte>, q: nat, p1: nat, p2: nat, overlap: nat, lens: nat)
    requires q + overlap <= |nnew| && p1 + overlap <= |prior| && p2 + overlap <= |prior|
  {
    && lens <= overlap
    && (forall n :: 0 <= n <= overlap ==>
          Same(prior, nnew, p1, q, n) - Same(prior, nnew, p2, q, n)
          <= Same(prior, nnew, p1, q, lens) - Same(prior, nnew, p2, q, lens))
    && (forall n :: 0 <= n < lens ==>
          Same(prior, nnew, p1, q, n) - Same(prior, nnew, p2, q, n)
          < Same(prior, nnew, p1, q, lens) - Same(prior, nnew, p2, q, lens))
  }

  method CutOverlap(prior: seq<byte>, nnew: seq<byte>, q: nat, p1: nat, p2: nat, overlap: nat) returns (lens: nat)
    requires q + overlap <= |nnew| && p1 + overlap <= |prior| && p2 + overlap <= |prior|
    ensures CutBest(prior, nnew, q, p1, p2, overlap, lens)
  {
    var s, best := 0, 0;
    lens := 0;
    for i := 0 to overlap
      invariant lens <= i
      invariant s == Same(prior, nnew, p1, q, i) - Same(prior, nnew, p2, q, i)
      invariant best == Same(prior, nnew, p1, q, lens) - Same(prior, nnew, p2, q, lens)
      invariant forall n :: 0 <= n <= i ==> Same(prior, nnew, p1, q, n) - Same(prior, nnew, p2, q, n) <= best
      invariant forall n :: 0 <= n < lens ==> Same(prior, nnew, p1, q, n) - Same(prior, nnew, p2, q, n) < best
    {
      if nnew[q + i] == prior[p1 + i] {
        s := s + 1;
      }
      if nnew[q + i] == prior[p2 + i] {
        s := s - 1;
      }
      if s > best {
        best, lens := s, i + 1;
      }
    }
  }

  /** Both extensions as they are if they are apart, and cut in the best place if they overlap. */
  ghost predicate Trimmed(prior: seq<byte>, nnew: seq<byte>, lastpos: nat, lastscan: nat, pos: nat, scan: nat,
                          f: nat, b: nat, lenf: nat, lenb: nat)
    requires lastpos + f <= |prior| && b <= pos <= |prior| && scan <= |nnew| && lastscan + f <= scan && lastscan + b <= scan
  {
    if lastscan + f <= scan - b then lenf == f && lenb == b
    else
      var overlap := (lastscan + f) - (scan - b);
      var lens := lenf + overlap - f;
      lens >= 0 && CutBest(prior, nnew, scan - b, lastpos + f - overlap, pos - b, overlap, lens) && lenb == b - lens
  }

  /** The lengths of a triple: the best forward and, unless the image ends there, backward extensions,
      trimmed. */
  ghost predicate Chosen(prior: seq<byte>, nnew: seq<byte>, lastpos: nat, lastscan: nat, pos: nat, scan: nat, lenf: nat, lenb: nat)
    requires lastpos <= |prior| && lastscan <= scan <= |nnew| && pos <= |prior|
  {
    exists f: nat, b: nat ::
      && ForwardBest(prior, nnew, lastpos, lastscan, scan, f)
      && (if scan < |nnew| then BackwardBest(prior, nnew, pos, lastscan, scan, b) else b == 0)
      && Trimmed(prior, nnew, lastpos, lastscan, pos, scan, f, b, lenf, lenb)
  }

  method ChooseLengths(prior: seq<byte>, nnew: seq<byte>, lastpos: nat, lastscan: nat, pos: nat, scan: nat)
    returns (lenf: nat, lenb: nat)
    requires lastpos <= |prior| && lastscan <= scan <= |nnew| && pos <= |prior|
    ensures lastpos + lenf <= |prior| && lenb <= pos
    ensures lastscan + lenf <= scan - lenb
    ensures scan == |nnew| ==> lenb == 0
    ensures Chosen(prior, nnew, lastpos, lastscan, pos, scan, lenf, lenb)
  {
    hide Same, SameBefore;
    lenf := ForwardLength(prior, nnew, lastpos, lastscan, scan);
    lenb := 0;
    if scan < |nnew| {
      lenb := BackwardLength(prior, nnew, pos, lastscan, scan);
    }
    ghost var f, b := lenf, lenb;
    if lastscan + lenf > scan - lenb {
      var overlap := (lastscan + lenf) - (scan - lenb);
      var lens := CutOverlap(prior, nnew, scan - lenb, lastpos + lenf - overlap, pos - lenb, overlap);
      lenf := lenf + lens - overlap;
      lenb := lenb - lens;
    }
    assert Trimmed(prior, nnew, lastpos, lastscan, pos, scan, f, b, lenf, lenb);
  }

  // ---- Writing a triple ----

  method PutOffset(x: int, buf: array<byte>, at: nat)
    requires -TWO63 < x < TWO63 && at + 8 <= buf.Length
    modifies buf
    ensures forall k :: 0 <= k < 8 ==> buf[at + k] == SignedWord(x)[k]
    ensures forall k :: (0 <= k < at || at + 8 <= k < buf.Length) ==> buf[k] == old(buf[k])
  {
    var y: nat := Abs(x);
    ghost var all := LittleEndian(y, 8);
    for i := 0 to 8
      invariant all[i..] == LittleEndian(y, 8 - i)
      invariant forall k :: at <= k < at + i ==> buf[k] == all[k - at]
      invariant forall k :: (0 <= k < at || at + 8 <= k < buf.Length) ==> buf[k] == old(buf[k])
    {
      buf[at + i] := y % 256;
      assert all[i..][0] == y % 256 && all[i..][1..] == all[i + 1..];
      y := y / 256;
    }
    TopByteSmall(Abs(x));
    assert buf[at + 7] == all[7];
    if x < 0 {
      buf[at + 7] := buf[at + 7] + 128;
    }
  }

  /** The bytes of a triple. */
  function TripleBytes(diff: seq<byte>, extra: seq<byte>, seek: int): (s: seq<byte>)
    requires |diff| < TWO63 && |extra| < TWO63 && -TWO63 < seek < TWO63
    ensures |s| == 24 + |diff| + |extra|
  {
    SignedWord(|diff|) + SignedWord(|extra|) + SignedWord(seek) + diff + extra
  }

  /** Subtraction of unsigned bytes. */
  function Unwrap(a: int, b: int): byte {
    (a - b) % 256
  }

  /** The diff bytes of a stretch of the new image against the old one. */
  function DiffBytes(prior: seq<byte>, p: nat, nnew: seq<byte>, q: nat, n: nat): (d: seq<byte>)
    requires p + n <= |prior| && q + n <= |nnew|
    ensures |d| == n
  {
    seq<byte>(n, i requires 0 <= i < n => Unwrap(nnew[q + i], prior[p + i]))
  }

  /** Adding the old bytes back restores the new ones. */
  lemma DiffUndone(prior: seq<byte>, p: nat, nnew: seq<byte>, q: nat, n: nat)
    requires p + n <= |prior| && q + n <= |nnew|
    ensures AddOld(prior, p, DiffBytes(prior, p, nnew, q, n)) == nnew[q..q + n]
  {
    var d := DiffBytes(prior, p, nnew, q, n);
    forall i | 0 <= i < n
      ensures AddOld(prior, p, d)[i] == nnew[q..q + n][i]
    {
      WrapBack(nnew[q + i], prior[p + i]);
    }
  }

  lemma WrapBack(a: byte, b: byte)
    ensures Wrap(Unwrap(a, b), b) == a
  {}

  method WriteControl(lenf: nat, extra: nat, seek: int) returns (ctrl: seq<byte>)
    requires lenf < TWO31 && extra < TWO31 && -TWO31 < seek < TWO31
    ensures ctrl == SignedWord(lenf) + SignedWord(extra) + SignedWord(seek)
  {
    hide SignedWord;
    var buf := new byte[24];
    PutOffset(lenf, buf, 0);
    PutOffset(extra, buf, 8);
    PutOffset(seek, buf, 16);
    assert buf[..8] == SignedWord(lenf) && buf[8..16] == SignedWord(extra) && buf[16..24] == SignedWord(seek);
    ctrl := buf[..];
  }

  method WriteDiff(prior: seq<byte>, p: nat, nnew: seq<byte>, q: nat, n: nat, buffer: array<byte>)
    requires p + n <= |prior| && q + n <= |nnew| && n <= buffer.Length
    modifies buffer
    ensures buffer[..n] == DiffBytes(prior, p, nnew, q, n)
  {
    for i := 0 to n
      invariant forall k :: 0 <= k < i ==> buffer[k] == Unwrap(nnew[q + k], prior[p + k])
    {
      buffer[i] := Unwrap(nnew[q + i], prior[p + i]);
    }
  }

  method WriteExtra(nnew: seq<byte>, q: nat, n: nat, buffer: array<byte>)
    requires q + n <= |nnew| && n <= buffer.Length
    modifies buffer
    ensures buffer[..n] == nnew[q..q + n]
  {
    for i := 0 to n
      invariant forall k :: 0 <= k < i ==> buffer[k] == nnew[q + k]
    {
      buffer[i] := nnew[q + i];
    }
  }

  method WriteTriple(prior: seq<byte>, nnew: seq<byte>, lastpos: nat, lastscan: nat, lenf: nat, next: nat, seek: int,
                     buffer: array<byte>)
    returns (chunk: seq<byte>)
    requires |prior| < TWO31 && |nnew| < TWO31 && -TWO31 < seek < TWO31 && buffer.Length == |nnew| + 1
    requires lastpos + lenf <= |prior| && lastscan + lenf <= next <= |nnew|
    modifies buffer
    ensures chunk == TripleBytes(DiffBytes(prior, lastpos, nnew, lastscan, lenf), nnew[lastscan + lenf..next], seek)
  {
    hide SignedWord, DiffBytes;
    var extra := next - (lastscan + lenf);
    chunk := WriteControl(lenf, extra, seek);
    WriteDiff(prior, lastpos, nnew, lastscan, lenf, buffer);
    chunk := chunk + buffer[..lenf];
    WriteExtra(nnew, lastscan + lenf, extra, buffer);
    chunk := chunk + buffer[..extra];
  }

  // ---- The whole patch ----

  function Prepend(out: seq<byte>, r: PatchResult): PatchResult {
    match r
    case Patched(more, rest) => Patched(out + more, rest)
    case BadPatch => BadPatch
  }

  /** A triple at the head of a body does what it says. */
  lemma TripleApplies(prior: seq<byte>, oldpos: nat, newpos: nat, newsize: nat,
                      diff: seq<byte>, extra: seq<byte>, seek: int, rest: seq<byte>)
    requires |diff| < TWO31 && |extra| < TWO31 && -TWO31 < seek < TWO31
    requires newpos < newsize && newpos + |diff| + |extra| <= newsize && oldpos + |diff| <= |prior|
    ensures var s := TripleBytes(diff, extra, seek) + rest;
            && Batch(prior, oldpos, newpos, newsize, s)
               == Prepend(AddOld(prior, oldpos, diff) + extra,
                          Batch(prior, oldpos + |diff| + seek, newpos + |diff| + |extra|, newsize, rest))
            && (Streamable(prior, oldpos + |diff| + seek, newpos + |diff| + |extra|, newsize, rest)
                ==> Streamable(prior, oldpos, newpos, newsize, s))
  {
    hide AddOld, OffsetIn;
    TripleReads(diff, extra, seek, rest);
  }

  lemma TripleReads(diff: seq<byte>, extra: seq<byte>, seek: int, rest: seq<byte>)
    requires |diff| < TWO31 && |extra| < TWO31 && -TWO31 < seek < TWO31
    ensures var s := TripleBytes(diff, extra, seek) + rest;
            && HasTriple(s) && DiffLength(s) == |diff| && ExtraLength(s) == |extra| && Seek(s) == seek
            && DiffOf(s) == diff && ExtraOf(s) == extra && MoreOf(s) == rest
  {
    hide OffsetIn, SignedWord;
    var s := TripleBytes(diff, extra, seek) + rest;
    assert s[..8] == SignedWord(|diff|) && s[8..16] == SignedWord(|extra|) && s[16..24] == SignedWord(seek);
    OffsetRoundTrip(|diff|);
    OffsetRoundTrip(|extra|);
    OffsetRoundTrip(seek);
  }

  /** What was written so far builds `out` and leaves the patcher at `oldpos` and `newpos`,
      whatever is written next. */
  ghost predicate Leads(prior: seq<byte>, newsize: nat, body: seq<byte>, oldpos: int, newpos: int, out: seq<byte>) {
    forall rest ::
      && Batch(prior, 0, 0, newsize, body + rest) == Prepend(out, Batch(prior, oldpos, newpos, newsize, rest))
      && (Streamable(prior, oldpos, newpos, newsize, rest) ==> Streamable(prior, 0, 0, newsize, body + rest))
  }

  lemma LeadsOn(prior: seq<byte>, newsize: nat, body: seq<byte>, oldpos: nat, newpos: nat, out: seq<byte>,
                diff: seq<byte>, extra: seq<byte>, seek: int)
    requires |diff| < TWO31 && |extra| < TWO31 && -TWO31 < seek < TWO31
    requires newpos < newsize && newpos + |diff| + |extra| <= newsize && oldpos + |diff| <= |prior|
    requires Leads(prior, newsize, body, oldpos, newpos, out)
    ensures Leads(prior, newsize, body + TripleBytes(diff, extra, seek),
                  oldpos + |diff| + seek, newpos + |diff| + |extra|, out + (AddOld(prior, oldpos, diff) + extra))
  {
    hide Batch, Streamable, AddOld, TripleBytes;
    var t, more := TripleBytes(diff, extra, seek), AddOld(prior, oldpos, diff) + extra;
    forall rest
      ensures Batch(prior, 0, 0, newsize, body + t + rest)
           == Prepend(out + more, Batch(prior, oldpos + |diff| + seek, newpos + |diff| + |extra|, newsize, rest))
      ensures Streamable(prior, oldpos + |diff| + seek, newpos + |diff| + |extra|, newsize, rest)
          ==> Streamable(prior, 0, 0, newsize, body + t + rest)
    {
      Assoc(body, t, rest);
      TripleApplies(prior, oldpos, newpos, newsize, diff, extra, seek, rest);
      var b := Batch(prior, oldpos + |diff| + seek, newpos + |diff| + |extra|, newsize, rest);
      if b.Patched? {
        Assoc(out, more, b.out);
      }
    }
  }

  lemma LeadsStart(prior: seq<byte>, newsize: nat)
    ensures Leads(prior, newsize, [], 0, 0, [])
  {
    hide Batch, Streamable;
    forall rest
      ensures Batch(prior, 0, 0, newsize, [] + rest) == Prepend([], Batch(prior, 0, 0, newsize, rest))
      ensures Streamable(prior, 0, 0, newsize, rest) ==> Streamable(prior, 0, 0, newsize, [] + rest)
    {
      assert [] + rest == rest;
      var b := Batch(prior, 0, 0, newsize, rest);
      assert b.Patched? ==> [] + b.out == b.out;
    }
  }

  lemma LeadsEnd(prior: seq<byte>, newsize: nat, body: seq<byte>, oldpos: int, out: seq<byte>)
    requires Leads(prior, newsize, body, oldpos, newsize, out)
    ensures Batch(prior, 0, 0, newsize, body) == Patched(out, [])
    ensures Streamable(prior, 0, 0, newsize, body)
  {
    assert body + [] == body && out + [] == out;
  }

  /** The triple written at a stop. */
  function TripleAt(prior: seq<byte>, nnew: seq<byte>, lastpos: nat, lastscan: nat, pos: nat, scan: nat,
                    lenf: nat, lenb: nat): seq<byte>
    requires |prior| < TWO31 && |nnew| < TWO31 && pos <= |prior| && scan <= |nnew|
    requires lastpos + lenf <= |prior| && lenb <= pos && lastscan + lenf <= scan - lenb
  {
    TripleBytes(DiffBytes(prior, lastpos, nnew, lastscan, lenf), nnew[lastscan + lenf..scan - lenb],
                (pos - lenb) - (lastpos + lenf))
  }

  /** One turn of the main loop: a scan, and the lengths of the triple written at its stop, if one is. */
  datatype Turn = Turn(from: nat, lens: seq<nat>, scan: nat, pos: nat, len: nat, oldscore: int,
                       lastpos: nat, lastscan: nat, lenf: nat, lenb: nat)

  /** A triple is written where the scan found a better offset, and at the end of the image. */
  predicate Writes(nnew: seq<byte>, t: Turn) {
    t.len != t.oldscore || t.scan == |nnew|
  }

  ghost predicate ValidTurn(I: seq<int>, prior: seq<byte>, nnew: seq<byte>, t: Turn)
    requires IndexTable(I, prior)
  {
    && t.lastpos <= |prior| && t.lastscan <= t.from && t.pos <= |prior|
    && Scanned(I, prior, nnew, t.from, t.lastpos - t.lastscan, t.lens, t.scan, t.pos, t.len, t.oldscore)
    && (Writes(nnew, t) ==>
          && t.lastpos + t.lenf <= |prior| && t.lenb <= t.pos && t.lastscan + t.lenf <= t.scan - t.lenb
          && Chosen(prior, nnew, t.lastpos, t.lastscan, t.pos, t.scan, t.lenf, t.lenb))
  }

  /** Where the turn after `t` starts, and what the triple after it will be relative to. */
  predicate Leaves(nnew: seq<byte>, t: Turn, from: nat, lastpos: nat, lastscan: nat) {
    && from == t.scan + t.len
    && if Writes(nnew, t) then lastpos == t.pos - t.lenb && lastscan == t.scan - t.lenb
       else lastpos == t.lastpos && lastscan == t.lastscan
  }

  predicate Stands(nnew: seq<byte>, turns: seq<Turn>, from: nat, lastpos: nat, lastscan: nat) {
    if turns == [] then from == lastpos == lastscan == 0 else Leaves(nnew, turns[|turns| - 1], from, lastpos, lastscan)
  }

  /** Turns of the main loop, from its start. */
  ghost predicate Turns(I: seq<int>, prior: seq<byte>, nnew: seq<byte>, turns: seq<Turn>)
    requires IndexTable(I, prior)
  {
    forall k :: 0 <= k < |turns| ==>
      ValidTurn(I, prior, nnew, turns[k]) && Stands(nnew, turns[..k], turns[k].from, turns[k].lastpos, turns[k].lastscan)
  }

  lemma TurnsBefore(I: seq<int>, prior: seq<byte>, nnew: seq<byte>, turns: seq<Turn>)
    requires IndexTable(I, prior) && Turns(I, prior, nnew, turns) && turns != []
    ensures Turns(I, prior, nnew, turns[..|turns| - 1])
    ensures var t := turns[|turns| - 1];
            && t.pos <= |prior| && t.scan <= |nnew|
            && (Writes(nnew, t) ==> t.lastpos + t.lenf <= |prior| && t.lenb <= t.pos && t.lastscan + t.lenf <= t.scan - t.lenb)
  {
    hide Scanned, Chosen, Leaves, Writes;
    var t := turns[|turns| - 1];
    ScannedTo(I, prior, nnew, t.from, t.lastpos - t.lastscan, t.lens, t.scan, t.pos, t.len, t.oldscore);
    assert forall k :: 0 <= k < |turns| - 1 ==> turns[..|turns| - 1][..k] == turns[..k];
  }

  /** What they write. */
  ghost function Written(I: seq<int>, prior: seq<byte>, nnew: seq<byte>, turns: seq<Turn>): seq<byte>
    requires IndexTable(I, prior) && |prior| < TWO31 && |nnew| < TWO31
    requires Turns(I, prior, nnew, turns)
    decreases |turns|
  {
    if turns == [] then []
    else
      var t := turns[|turns| - 1];
      TurnsBefore(I, prior, nnew, turns);
      Written(I, prior, nnew, turns[..|turns| - 1])
      + if Writes(nnew, t) then TripleAt(prior, nnew, t.lastpos, t.lastscan, t.pos, t.scan, t.lenf, t.lenb) else []
  }

  lemma TurnAdded(I: seq<int>, prior: seq<byte>, nnew: seq<byte>, turns: seq<Turn>, t: Turn)
    requires IndexTable(I, prior) && |prior| < TWO31 && |nnew| < TWO31 && Turns(I, prior, nnew, turns)
    requires ValidTurn(I, prior, nnew, t) && Stands(nnew, turns, t.from, t.lastpos, t.lastscan)
    ensures Turns(I, prior, nnew, turns + [t])
    ensures Written(I, prior, nnew, turns + [t])
         == Written(I, prior, nnew, turns)
          + if Writes(nnew, t) then TripleAt(prior, nnew, t.lastpos, t.lastscan, t.pos, t.scan, t.lenf, t.lenb) else []
  {
    hide Scanned, Chosen, TripleBytes, DiffBytes, Leaves, Writes;
    var more := turns + [t];
    assert forall k :: 0 <= k <= |turns| ==> more[..k] == turns[..k];
    assert turns[..|turns|] == turns && more[..|more| - 1] == turns && more[|more| - 1] == t;
  }

  /** The emission of one triple keeps the patch a faithful prefix. */
  method EmitTriple(prior: seq<byte>, nnew: seq<byte>, lastpos: nat, lastscan: nat, pos: nat, scan: nat,
                    body: seq<byte>, buffer: array<byte>)
    returns (body': seq<byte>, lastpos': nat, lastscan': nat, ghost lenf: nat, ghost lenb: nat)
    requires |prior| < TWO31 && |nnew| < TWO31 && buffer.Length == |nnew| + 1
    requires lastpos <= |prior| && lastscan <= scan <= |nnew| && pos <= |prior| && lastscan < |nnew|
    requires Leads(prior, |nnew|, body, lastpos, lastscan, nnew[..lastscan])
    modifies buffer
    ensures lastpos' <= |prior| && lastscan <= lastscan' <= scan && (scan == |nnew| ==> lastscan' == scan)
    ensures lastpos' == pos - lenb && lastscan' == scan - lenb
    ensures lastpos + lenf <= |prior| && lenb <= pos && lastscan + lenf <= scan - lenb
    ensures Chosen(prior, nnew, lastpos, lastscan, pos, scan, lenf, lenb)
    ensures body' == body + TripleAt(prior, nnew, lastpos, lastscan, pos, scan, lenf, lenb)
    ensures Leads(prior, |nnew|, body', lastpos', lastscan', nnew[..lastscan'])
  {
    hide Leads, TripleBytes, DiffBytes, Chosen;
    var forward, backward := ChooseLengths(prior, nnew, lastpos, lastscan, pos, scan);
    lenf, lenb := forward, backward;
    var seek := (pos - backward) - (lastpos + forward);
    var chunk := WriteTriple(prior, nnew, lastpos, lastscan, forward, scan - backward, seek, buffer);
    ghost var diff, extra := DiffBytes(prior, lastpos, nnew, lastscan, lenf), nnew[lastscan + lenf..scan - lenb];
    LeadsOn(prior, |nnew|, body, lastpos, lastscan, nnew[..lastscan], diff, extra, seek);
    DiffUndone(prior, lastpos, nnew, lastscan, lenf);
    assert nnew[..lastscan] + (nnew[lastscan..lastscan + lenf] + extra) == nnew[..scan - lenb];
    body', lastscan', lastpos' := body + chunk, scan - backward, pos - backward;
  }

  /** The patch body of two images and a table of positions. The batch patcher rebuilds the new
      image from it, using it up, and the device can follow it. It is what the turns of the main loop
      write: each scan stops at the first position worth it, each triple has the best extensions. */
  method BsdiffBody(prior: seq<byte>, nnew: seq<byte>, I: seq<int>) returns (body: seq<byte>, ghost turns: seq<Turn>)
    requires |prior| < TWO31 && |nnew| < TWO31 && IndexTable(I, prior)
    ensures Batch(prior, 0, 0, |nnew|, body) == Patched(nnew, [])
    ensures Streamable(prior, 0, 0, |nnew|, body)
    ensures Turns(I, prior, nnew, turns) && body == Written(I, prior, nnew, turns)
    ensures if nnew == [] then turns == [] else turns != [] && turns[|turns| - 1].scan == |nnew|
  {
    hide Leads, Batch, Streamable, Turns, Written, Scanned, Chosen, TripleAt;
    var buffer := new byte[|nnew| + 1];
    var scan, len, pos, lastscan, lastpos, lastoffset := 0, 0, 0, 0, 0, 0;
    body, turns := [], [];
    LeadsStart(prior, |nnew|);
    NoTurns(I, prior, nnew);
    assert nnew[..0] == [];
    while scan < |nnew|
      invariant 0 <= lastscan <= scan <= |nnew| && 0 <= pos <= |prior| && 0 <= lastpos <= |prior| && 0 <= len
      invariant lastoffset == lastpos - lastscan
      invariant scan < |nnew| ==> scan + len <= |nnew| && Stands(nnew, turns, scan + len, lastpos, lastscan)
      invariant scan > 0 && scan < |nnew| ==> len > 0
      invariant scan == |nnew| ==> lastscan == |nnew|
      invariant scan == |nnew| ==> if nnew == [] then turns == [] else turns != [] && turns[|turns| - 1].scan == scan
      invariant Leads(prior, |nnew|, body, lastpos, lastscan, nnew[..lastscan])
      invariant Turns(I, prior, nnew, turns) && body == Written(I, prior, nnew, turns)
      decreases |nnew| - scan, if len == 0 then 1 else 0
    {
      var oldscore;
      ghost var lens, from := [], scan + len;
      scan, len, pos, oldscore, lens := Scan(I, prior, nnew, scan + len, len, pos, lastoffset);
      ScannedTo(I, prior, nnew, from, lastoffset, lens, scan, pos, len, oldscore);
      ghost var t := Turn(from, lens, scan, pos, len, oldscore, lastpos, lastscan, 0, 0);
      if len != oldscore || scan == |nnew| {
        ghost var lenf, lenb;
        body, lastpos, lastscan, lenf, lenb := EmitTriple(prior, nnew, lastpos, lastscan, pos, scan, body, buffer);
        lastoffset := pos - scan;
        t := t.(lenf := lenf, lenb := lenb);
      }
      TurnAdded(I, prior, nnew, turns, t);
      turns := turns + [t];
    }
    assert nnew[..|nnew|] == nnew;
    LeadsEnd(prior, |nnew|, body, lastpos, nnew);
  }

  lemma NoTurns(I: seq<int>, prior: seq<byte>, nnew: seq<byte>)
    requires IndexTable(I, prior) && |prior| < TWO31 && |nnew| < TWO31
    ensures Turns(I, prior, nnew, []) && Written(I, prior, nnew, []) == []
  {}

  lemma ScannedTo(I: seq<int>, prior: seq<byte>, nnew: seq<byte>, from: nat, offset: int, lens: seq<nat>,
                  scan: nat, pos: nat, len: nat, oldscore: int)
    requires IndexTable(I, prior) && 0 <= from + offset && Scanned(I, prior, nnew, from, offset, lens, scan, pos, len, oldscore)
    ensures from <= scan <= |nnew|
  {}
}
