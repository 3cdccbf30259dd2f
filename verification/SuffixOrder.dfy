/** The order of the suffixes of a text, and what comparing their first symbols tells of it. */
module SuffixOrder {
  import opened Bytes

  /** Suffix `p` comes before suffix `q`; the empty suffix comes first. */
  predicate Before(t: seq<byte>, p: nat, q: nat)
    requires p <= |t| && q <= |t|
    decreases |t| - q
  {
    q < |t| && (p == |t| || t[p] < t[q] || (t[p] == t[q] && Before(t, p + 1, q + 1)))
  }

  /** Suffixes `p` and `q` agree on their first `h` symbols, the end of the text being a symbol
      of its own. */
  predicate SameHead(t: seq<byte>, p: nat, q: nat, h: nat)
    requires p <= |t| && q <= |t|
  {
    p == q || (p + h <= |t| && q + h <= |t| && t[p..p + h] == t[q..q + h])
  }

  /** With equal heads, the order of the tails decides. */
  lemma {:induction false} TailsDecide(t: seq<byte>, p: nat, q: nat, h: nat)
    requires p <= |t| && q <= |t| && p != q && SameHead(t, p, q, h)
    requires Before(t, p + h, q + h)
    ensures Before(t, p, q)
    decreases h
  {
    if h > 0 {
      assert t[p] == t[p..p + h][0] == t[q..q + h][0] == t[q];
      assert t[p + 1..p + h] == t[p..p + h][1..] == t[q..q + h][1..] == t[q + 1..q + h];
      TailsDecide(t, p + 1, q + 1, h - 1);
    }
  }

  /** Equal heads followed by equal heads are equal heads of twice the length. */
  lemma HeadsDouble(t: seq<byte>, p: nat, q: nat, h: nat)
    requires p <= |t| && q <= |t| && p != q && SameHead(t, p, q, h)
    requires SameHead(t, p + h, q + h, h)
    ensures SameHead(t, p, q, h + h)
  {
    assert t[p..p + (h + h)] == t[p..p + h] + t[p + h..p + h + h];
    assert t[q..q + (h + h)] == t[q..q + h] + t[q + h..q + h + h];
  }

  /** Only one suffix has a head longer than the text. */
  lemma LongHeadsDiffer(t: seq<byte>, p: nat, q: nat, h: nat)
    requires p <= |t| && q <= |t| && SameHead(t, p, q, h) && h > |t|
    ensures p == q
  {}

  /** The order is irreflexive and asymmetric. */
  lemma {:induction false} BeforeStrict(t: seq<byte>, p: nat, q: nat)
    requires p <= |t| && q <= |t| && Before(t, p, q)
    ensures p != q && !Before(t, q, p)
    decreases |t| - q
  {
    if p < |t| && t[p] == t[q] {
      BeforeStrict(t, p + 1, q + 1);
    }
  }

  /** Any two different suffixes are ordered. */
  lemma {:induction false} BeforeTotal(t: seq<byte>, p: nat, q: nat)
    requires p <= |t| && q <= |t| && p != q
    ensures Before(t, p, q) || Before(t, q, p)
    decreases |t| - q
  {
    if p < |t| && q < |t| && t[p] == t[q] {
      BeforeTotal(t, p + 1, q + 1);
    }
  }

  lemma {:induction false} BeforeTransitive(t: seq<byte>, p: nat, q: nat, r: nat)
    requires p <= |t| && q <= |t| && r <= |t| && Before(t, p, q) && Before(t, q, r)
    ensures Before(t, p, r)
    decreases |t| - r
  {
    if p < |t| && t[p] == t[q] && t[q] == t[r] {
      BeforeTransitive(t, p + 1, q + 1, r + 1);
    }
  }

  /** What the sort delivers: every position once, the suffixes in increasing order. */
  ghost predicate SuffixArray(t: seq<byte>, I: seq<int>) {
    && |I| == |t| + 1
    && (forall k :: 0 <= k < |I| ==> 0 <= I[k] <= |t|)
    && (forall j, k :: 0 <= j < k < |I| ==> I[j] != I[k])
    && (forall j, k :: 0 <= j < k < |I| ==> Before(t, I[j], I[k]))
  }
}
