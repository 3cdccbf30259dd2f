/** Counting the occurrences of a value in a sequence. */
module Counting {

  function Count(s: seq<int>, c: int): (n: nat)
    ensures n <= |s|
  {
    if s == [] then 0 else Count(s[..|s| - 1], c) + (if s[|s| - 1] == c then 1 else 0)
  }

  lemma {:induction false} CountUpdate(s: seq<int>, c: int, i: nat, v: int)
    requires i < |s|
    ensures Count(s[i := v], c) == Count(s, c) - (if s[i] == c then 1 else 0) + (if v == c then 1 else 0)
  {
    var l := |s| - 1;
    if i == l {
      assert s[i := v][..l] == s[..l];
    } else {
      assert s[i := v][..l] == s[..l][i := v];
      CountUpdate(s[..l], c, i, v);
    }
  }

  lemma CountSwap(s: seq<int>, c: int, i: nat, j: nat)
    requires i < |s| && j < |s|
    ensures Count(s[i := s[j]][j := s[i]], c) == Count(s, c)
  {
    CountUpdate(s, c, i, s[j]);
    CountUpdate(s[i := s[j]], c, j, s[i]);
  }

  lemma {:induction false} CountStretch(s: seq<int>, c: int, a: nat, b: nat)
    requires a <= b <= |s| && forall k :: a <= k < b ==> s[k] == c
    ensures Count(s, c) >= b - a
  {
    if s != [] && a < b {
      CountStretch(s[..|s| - 1], c, a, if b == |s| then b - 1 else b);
    }
  }

  /** One more occurrence outside a stretch full of them. */
  lemma {:induction false} CountOutside(s: seq<int>, c: int, a: nat, b: nat, m: nat)
    requires a <= b <= |s| && (forall k :: a <= k < b ==> s[k] == c)
    requires m < |s| && !(a <= m < b) && s[m] == c
    ensures Count(s, c) >= b - a + 1
  {
    var l := |s| - 1;
    if a == b {
      CountStretch(s, c, m, m + 1);
    } else if m == l {
      CountStretch(s[..l], c, a, b);
    } else {
      CountOutside(s[..l], c, a, if b == |s| then b - 1 else b, m);
    }
  }

  /** Three values that are all there is. */
  lemma {:induction false} CountThree(s: seq<int>)
    requires forall k :: 0 <= k < |s| ==> -1 <= s[k] <= 1
    ensures Count(s, -1) + Count(s, 0) + Count(s, 1) == |s|
  {
    if s != [] {
      CountThree(s[..|s| - 1]);
    }
  }

  /** Different numbers below the length of their sequence are all of them. */
  lemma {:induction false} Pigeonhole(s: seq<int>, v: int)
    requires forall k :: 0 <= k < |s| ==> 0 <= s[k] < |s|
    requires forall j, k :: 0 <= j < k < |s| ==> s[j] != s[k]
    requires 0 <= v < |s|
    ensures v in s
    decreases |s|
  {
    var n := |s| - 1;
    if v !in s {
      // Replace the largest value by the missing one and drop the last place.
      var t := seq(n, k requires 0 <= k < n => if s[k] == n then v else s[k]);
      if s[n] == n || v == n {
        if v == n {
          Pigeonhole(s[..n], s[n]);
        } else {
          Pigeonhole(s[..n], v);
        }
      } else {
        Pigeonhole(t, s[n]);
      }
    }
  }
}
