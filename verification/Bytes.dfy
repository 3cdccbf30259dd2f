/** Bytes, bits and little-endian integers: the vocabulary shared by every stage. */
module Bytes {

  type byte = x: int | 0 <= x < 256

  const TWO31: int := 0x8000_0000
  const TWO32: int := 0x1_0000_0000
  const TWO63: int := 0x8000_0000_0000_0000

  function Pow2(n: nat): (r: nat)
    ensures r > 0
  {
    if n == 0 then 1 else 2 * Pow2(n - 1)
  }

  /** The low `n` bits of `x`, most significant first. Division rounds down, so a negative
      `x` contributes its two's complement bits. */
  function BitsOf(x: int, n: nat): (bits: seq<bool>)
    ensures |bits| == n
    decreases n, x
  {
    if n == 0 then [] else BitsOf(x / 2, n - 1) + [x % 2 == 1]
  }

  /** The number a most-significant-first bit string denotes. */
  function Value(bits: seq<bool>): (x: nat)
    ensures x < Pow2(|bits|)
  {
    if bits == [] then 0
    else 2 * Value(bits[..|bits| - 1]) + (if bits[|bits| - 1] then 1 else 0)
  }

  lemma {:induction false} ValueOfBits(x: nat, n: nat)
    requires x < Pow2(n)
    ensures Value(BitsOf(x, n)) == x
  {
    if n > 0 {
      ValueOfBits(x / 2, n - 1);
      assert BitsOf(x, n)[..n - 1] == BitsOf(x / 2, n - 1);
    }
  }

  lemma {:induction false} BitsOfValue(bits: seq<bool>)
    ensures BitsOf(Value(bits), |bits|) == bits
  {
    if bits != [] {
      var n := |bits| - 1;
      var v := Value(bits[..n]);
      BitsOfValue(bits[..n]);
      assert Value(bits) / 2 == v && (Value(bits) % 2 == 1) == bits[n];
      assert bits == bits[..n] + [bits[n]];
    }
  }

  /** A byte stream as a bit stream, as both LZSS decoders read it. */
  function Bits(code: seq<byte>): (bits: seq<bool>)
    ensures |bits| == 8 * |code|
  {
    if code == [] then [] else BitsOf(code[0], 8) + Bits(code[1..])
  }

  lemma {:induction false} BitsAppend(a: seq<byte>, b: seq<byte>)
    ensures Bits(a + b) == Bits(a) + Bits(b)
  {
    if a == [] {
      assert a + b == b;
    } else {
      BitsAppend(a[1..], b);
      assert (a + b)[1..] == a[1..] + b;
      var first, more, last := BitsOf(a[0], 8), Bits(a[1..]), Bits(b);
      assert first + (more + last) == first + more + last;
    }
  }

  /** Equal prefixes have equal slices. */
  lemma SameSlice<T>(a: seq<T>, b: seq<T>, n: nat, from: nat, to: nat)
    requires n <= |a| && n <= |b| && a[..n] == b[..n] && from <= to <= n
    ensures a[from..to] == b[from..to]
  {
    forall k | from <= k < to
      ensures a[k] == b[k]
    {
      assert a[k] == a[..n][k] && b[k] == b[..n][k];
    }
  }

  lemma SliceOfSlice<T>(a: seq<T>, lo: nat, hi: nat, i: nat, j: nat)
    requires lo <= hi <= |a| && i <= j <= hi - lo
    ensures a[lo..hi][i..j] == a[lo + i..lo + j]
  {
    var x, y := a[lo..hi][i..j], a[lo + i..lo + j];
    assert |x| == |y|;
    forall k | 0 <= k < |x|
      ensures x[k] == y[k]
    {
      assert x[k] == a[lo..hi][i + k] == a[lo + (i + k)];
    }
  }

  lemma Assoc<T>(a: seq<T>, b: seq<T>, c: seq<T>)
    ensures a + b + c == a + (b + c)
  {}

  /** The bytes that arrive in pieces. */
  function Flatten(chunks: seq<seq<byte>>): seq<byte> {
    if chunks == [] then [] else chunks[0] + Flatten(chunks[1..])
  }

  function Zeros(n: nat): (bits: seq<bool>)
    ensures |bits| == n
  {
    seq(n, _ => false)
  }

  // ---- Masks ----

  /** `x & mask != 0` for a one-bit mask. */
  predicate BitTest(x: int, mask: nat)
    requires mask > 0
  {
    (x / mask) % 2 == 1
  }

  /** `x | mask` for a one-bit mask. */
  function BitOr(x: nat, mask: nat): nat
    requires mask > 0
  {
    if BitTest(x, mask) then x else x + mask
  }

  lemma DivUnique(x: int, d: int, q: int, r: int)
    requires 0 <= r < d && x == d * q + r
    ensures x / d == q
  {
    var q', r' := x / d, x % d;
    assert x == d * q' + r';
    assert d * (q - q') == r' - r;
    assert d * (q' - q) == r - r';
    if q > q' {
      MulGrows(d, q - q');
    } else if q < q' {
      MulGrows(d, q' - q);
    }
  }

  lemma MulGrows(d: int, k: int)
    requires d > 0 && k >= 1
    ensures d * k >= d
  {}

  /** Halving after a shift is one shift further. */
  lemma DivDiv(x: int, d: nat)
    requires d > 0
    ensures x / d / 2 == x / (2 * d)
  {
    var q, r := x / d, x % d;
    var p, b := q / 2, q % 2;
    assert x == d * q + r && q == 2 * p + b;
    assert d * q == d * (2 * p) + d * b;
    assert d * (2 * p) == (2 * d) * p;
    assert b == 0 ==> d * b == 0;
    assert b == 1 ==> d * b == d;
    DivUnique(x, 2 * d, p, d * b + r);
  }

  /** The bits a descending mask tests are the bits of the number. */
  lemma BitsOfShifted(x: int, mask: nat, k: nat)
    requires mask > 0
    ensures BitsOf(x / mask, k + 1) == BitsOf(x / (2 * mask), k) + [BitTest(x, mask)]
  {
    DivDiv(x, mask);
  }

  /** A signed char has the bits of the byte it came from. */
  lemma {:induction false} BitsOfNegative(x: int, n: nat)
    ensures BitsOf(x - Pow2(n), n) == BitsOf(x, n)
    decreases n
  {
    if n > 0 {
      BitsOfNegative(x / 2, n - 1);
      assert (x - Pow2(n)) / 2 == x / 2 - Pow2(n - 1);
      assert (x - Pow2(n)) % 2 == x % 2;
    }
  }
}
