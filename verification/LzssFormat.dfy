/** The LZSS code: tokens, their bits, and what a token stream expands to. */
module LzssFormat {
  import opened Bytes

  const EI := 10           // bits of a ring index
  const EJ := 4            // bits of a match length
  const N: nat := 1024     // ring size
  const F: nat := 17       // longest match
  const SPACE: byte := 32

  /** A literal byte, or a copy of `len` bytes (2 to F) from ring position `index`. */
  datatype Token = Literal(c: byte) | Match(index: nat, len: nat)

  predicate ValidToken(t: Token) {
    t.Match? ==> t.index < N && 2 <= t.len <= F
  }

  predicate ValidTokens(ts: seq<Token>) {
    forall i :: 0 <= i < |ts| ==> ValidToken(ts[i])
  }

  /** The decoder's window: `N` bytes and the position the next byte goes to. */
  datatype Ring = Ring(buf: seq<byte>, r: nat)

  predicate ValidRing(g: Ring) {
    |g.buf| == N && g.r < N
  }

  /** The window of a decoder that starts: spaces, then whatever `tail` holds.
      A first run finds zeros there, a later run the leftovers of the run before. */
  function StartRing(tail: seq<byte>): (g: Ring)
    requires |tail| == F
    ensures ValidRing(g)
  {
    Ring(seq(N - F, _ => SPACE) + tail, N - F)
  }

  function Push(g: Ring, c: byte): (g': Ring)
    requires ValidRing(g)
    ensures ValidRing(g')
  {
    Ring(g.buf[g.r := c], (g.r + 1) % N)
  }

  /** The bytes a copy of `n` bytes from `index` emits, one after the other, so that it may
      read what it has just written. */
  function Copied(g: Ring, index: nat, n: nat): (out: seq<byte>)
    requires ValidRing(g)
    ensures |out| == n
    decreases n
  {
    if n == 0 then []
    else
      var c := g.buf[index % N];
      [c] + Copied(Push(g, c), index + 1, n - 1)
  }

  function PushAll(g: Ring, out: seq<byte>): (g': Ring)
    requires ValidRing(g)
    ensures ValidRing(g')
    decreases |out|
  {
    if out == [] then g else PushAll(Push(g, out[0]), out[1..])
  }

  function Emitted(g: Ring, t: Token): seq<byte>
    requires ValidRing(g)
  {
    match t
    case Literal(c) => [c]
    case Match(index, len) => Copied(g, index, len)
  }

  /** What a token stream expands to, from window `g`. */
  function Expand(g: Ring, ts: seq<Token>): seq<byte>
    requires ValidRing(g)
    decreases |ts|
  {
    if ts == [] then []
    else
      var out := Emitted(g, ts[0]);
      out + Expand(PushAll(g, out), ts[1..])
  }

  function TokenBits(t: Token): (bits: seq<bool>)
    requires ValidToken(t)
    ensures |bits| == if t.Literal? then 9 else 15
  {
    match t
    case Literal(c) => [true] + BitsOf(c, 8)
    case Match(index, len) => [false] + BitsOf(index, EI) + BitsOf(len - 2, EJ)
  }

  function TokensBits(ts: seq<Token>): seq<bool>
    requires ValidTokens(ts)
  {
    if ts == [] then [] else TokenBits(ts[0]) + TokensBits(ts[1..])
  }

  /** The complete tokens at the front of a bit stream. A token cut short ends the stream. */
  function Parse(bits: seq<bool>): (ts: seq<Token>)
    ensures ValidTokens(ts)
    decreases |bits|
  {
    if |bits| == 0 then []
    else if bits[0] then
      if |bits| < 9 then [] else [LiteralAt(bits)] + Parse(bits[9..])
    else
      if |bits| < 15 then [] else [MatchAt(bits)] + Parse(bits[15..])
  }

  function LiteralAt(bits: seq<bool>): (t: Token)
    requires |bits| >= 9
    ensures ValidToken(t)
  {
    assert Pow2(8) == 256;
    Literal(Value(bits[1..9]))
  }

  function MatchAt(bits: seq<bool>): (t: Token)
    requires |bits| >= 15
    ensures ValidToken(t)
  {
    assert Pow2(EI) == N && Pow2(EJ) == 16 by { PowersOfTwo(); }
    Match(Value(bits[1..11]), Value(bits[11..15]) + 2)
  }

  lemma PowersOfTwo()
    ensures Pow2(8) == 256 && Pow2(EI) == N && Pow2(EJ) == 16
  {
    assert Pow2(4) == 16;
    assert Pow2(8) == 16 * Pow2(4);
    assert Pow2(10) == 4 * Pow2(8);
  }

  /** The LZSS decoding of a bit stream: the reference both decoders are proved against. */
  function Decode(g: Ring, bits: seq<bool>): seq<byte>
    requires ValidRing(g)
  {
    Expand(g, Parse(bits))
  }

  // ---- Parsing undoes writing ----

  lemma ParseToken(t: Token, rest: seq<bool>)
    requires ValidToken(t)
    ensures Parse(TokenBits(t) + rest) == [t] + Parse(rest)
  {
    PowersOfTwo();
    var bits := TokenBits(t) + rest;
    match t
    case Literal(c) =>
      assert bits[1..9] == BitsOf(c, 8);
      ValueOfBits(c, 8);
      assert bits[9..] == rest;
    case Match(index, len) =>
      assert bits[1..11] == BitsOf(index, EI);
      assert bits[11..15] == BitsOf(len - 2, EJ);
      ValueOfBits(index, EI);
      ValueOfBits(len - 2, EJ);
      assert bits[15..] == rest;
  }

  /** Parsing returns exactly the tokens written, whatever padding (under one match of zero
      bits) follows them. */
  lemma {:induction false} ParseTokens(ts: seq<Token>, pad: nat)
    requires ValidTokens(ts) && pad < 15
    ensures Parse(TokensBits(ts) + Zeros(pad)) == ts
  {
    if ts == [] {
      assert TokensBits(ts) + Zeros(pad) == Zeros(pad);
    } else {
      hide Parse, TokenBits, Zeros;
      ParseTokens(ts[1..], pad);
      ParseToken(ts[0], TokensBits(ts[1..]) + Zeros(pad));
      Assoc(TokenBits(ts[0]), TokensBits(ts[1..]), Zeros(pad));
    }
  }

  lemma {:induction false} TokensBitsAppend(ts: seq<Token>, t: Token)
    requires ValidTokens(ts) && ValidToken(t)
    ensures ValidTokens(ts + [t])
    ensures TokensBits(ts + [t]) == TokensBits(ts) + TokenBits(t)
  {
    hide TokenBits;
    if ts == [] {
      assert ts + [t] == [t];
      assert TokensBits([t][1..]) == [];
    } else {
      TokensBitsAppend(ts[1..], t);
      assert (ts + [t])[1..] == ts[1..] + [t];
      Assoc(TokenBits(ts[0]), TokensBits(ts[1..]), TokenBits(t));
    }
  }

  lemma NothingCopied(ring: Ring, index: nat)
    requires ValidRing(ring)
    ensures Copied(ring, index, 0) == [] && PushAll(ring, []) == ring
  {}

  lemma CopiedStep(ring: Ring, index: nat, n: nat)
    requires ValidRing(ring) && n > 0
    ensures var c := ring.buf[index % N];
            var rest := Copied(Push(ring, c), index + 1, n - 1);
            && Copied(ring, index, n) == [c] + rest
            && PushAll(ring, [c] + rest) == PushAll(Push(ring, c), rest)
  {
    var c := ring.buf[index % N];
    var rest := Copied(Push(ring, c), index + 1, n - 1);
    assert ([c] + rest)[1..] == rest;
  }

  // ---- The window invariant ----

  /** The window holds the last bytes of `h[..pos]`, each at its position modulo `N`. */
  ghost predicate Window(g: Ring, h: seq<byte>, pos: nat) {
    && ValidRing(g)
    && pos <= |h|
    && g.r == pos % N
    && forall q :: 0 <= q < pos && pos - N <= q ==> g.buf[q % N] == h[q]
  }

  lemma ModShift(q: nat, pos: nat)
    requires q < pos && pos - N < q
    ensures q % N != pos % N
  {
    var a, b := q / N, pos / N;
    assert q == N * a + q % N && pos == N * b + pos % N;
    assert q % N == pos % N ==> pos - q == N * (b - a);
  }

  lemma PushKeepsWindow(g: Ring, h: seq<byte>, pos: nat)
    requires Window(g, h, pos) && pos < |h|
    ensures Window(Push(g, h[pos]), h, pos + 1)
  {
    var g' := Push(g, h[pos]);
    forall q | 0 <= q < pos + 1 && pos + 1 - N <= q
      ensures g'.buf[q % N] == h[q]
    {
      if q < pos {
        ModShift(q, pos);
      }
    }
  }

  lemma {:induction false} PushAllKeepsWindow(g: Ring, h: seq<byte>, pos: nat, n: nat)
    requires Window(g, h, pos) && pos + n <= |h|
    ensures Window(PushAll(g, h[pos..pos + n]), h, pos + n)
    decreases n
  {
    if n > 0 {
      PushKeepsWindow(g, h, pos);
      PushAllKeepsWindow(Push(g, h[pos]), h, pos + 1, n - 1);
      assert h[pos..pos + n][1..] == h[pos + 1..pos + n];
    }
  }

  /** A copy at distance at most `N` reproduces any stretch of history that repeats at that
      distance, even when the copy overlaps what it writes. */
  lemma {:induction false} CopyReproduces(g: Ring, h: seq<byte>, pos: nat, src: nat, n: nat, index: nat)
    requires Window(g, h, pos) && pos + n <= |h|
    requires src < pos <= src + N
    requires index % N == src % N
    requires forall q :: pos <= q < pos + n ==> h[q] == h[q - (pos - src)]
    ensures Copied(g, index, n) == h[pos..pos + n]
    decreases n
  {
    if n > 0 {
      assert g.buf[src % N] == h[src] == h[pos];
      PushKeepsWindow(g, h, pos);
      assert (index + 1) % N == (src + 1) % N by { ModSucc(index, src); }
      CopyReproduces(Push(g, h[pos]), h, pos + 1, src + 1, n - 1, index + 1);
      assert h[pos..pos + n] == [h[pos]] + h[pos + 1..pos + n];
    }
  }

  lemma ModSucc(a: nat, b: nat)
    requires a % N == b % N
    ensures (a + 1) % N == (b + 1) % N
  {}
}
