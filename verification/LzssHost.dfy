/** The host side of LZSS: the bit writer, the encoder and the decoder of the firmware tool. */
module LzssHost {
  import opened Bytes
  import opened LzssFormat

  // ---- Writing bits ----

  /** How many bits of the pending byte lie above the mask. */
  function Filled(mask: nat): nat {
    if mask == 128 then 0 else if mask == 64 then 1 else if mask == 32 then 2
    else if mask == 16 then 3 else if mask == 8 then 4 else if mask == 4 then 5
    else if mask == 2 then 6 else 7
  }

  predicate IsMask(mask: nat) {
    mask in {128, 64, 32, 16, 8, 4, 2, 1}
  }

  /** A pending byte with nothing yet at or below its mask. */
  predicate PendingByte(b: nat, mask: nat) {
    IsMask(mask) && b < 256 && b % (2 * mask) == 0
  }

  /** The bits written into a pending byte. */
  function PendingBits(b: nat, mask: nat): seq<bool>
    requires IsMask(mask)
  {
    BitsOf(b / (2 * mask), Filled(mask))
  }

  lemma PendingPut(b: nat, mask: nat, v: bool)
    requires PendingByte(b, mask)
    ensures var b' := if v then BitOr(b, mask) else b;
            && b' < 256
            && (mask > 1 ==> PendingByte(b', mask / 2) && PendingBits(b', mask / 2) == PendingBits(b, mask) + [v])
            && (mask == 1 ==> BitsOf(b', 8) == PendingBits(b, mask) + [v])
  {
    var b' := if v then BitOr(b, mask) else b;
    assert !BitTest(b, mask) && b' == b + (if v then mask else 0) && b' < 256 && b' % mask == 0 by {
      PutBitArithmetic(b, mask);
    }
    assert b' / mask / 2 == b / (2 * mask) && BitTest(b', mask) == v by {
      PutBitArithmetic(b, mask);
      DivDiv(b', mask);
    }
    BitsOfShifted(b', mask, Filled(mask));
  }

  lemma PutBitArithmetic(b: nat, mask: nat)
    requires PendingByte(b, mask)
    ensures !BitTest(b, mask) && b + mask < 256 && b % mask == 0 && (b + mask) % mask == 0
    ensures BitTest(b + mask, mask) && (b + mask) / (2 * mask) == b / (2 * mask)
  {
    var q := b / (2 * mask);
    assert b == mask * (2 * q);
    RoomForBit(b, mask, q);
    AddMask(mask, q);
  }

  lemma AddMask(mask: nat, q: nat)
    requires mask > 0
    ensures var b := mask * (2 * q);
            && b / mask == 2 * q && b % mask == 0
            && (b + mask) / mask == 2 * q + 1 && (b + mask) % mask == 0
            && (b + mask) / (2 * mask) == q
  {
    var b := mask * (2 * q);
    assert b + mask == mask * (2 * q + 1) == (2 * mask) * q + mask;
    DivUnique(b, mask, 2 * q, 0);
    DivUnique(b + mask, mask, 2 * q + 1, 0);
    DivUnique(b + mask, 2 * mask, q, mask);
  }

  lemma RoomForBit(b: nat, mask: nat, q: nat)
    requires IsMask(mask) && b == mask * (2 * q) && b < 256
    ensures b + mask < 256
  {
    if mask == 128 {
    } else if mask == 64 {
    } else if mask == 32 {
    } else if mask == 16 {
    } else if mask == 8 {
    } else if mask == 4 {
    } else if mask == 2 {
    }
  }

  /** The tool's `bit_buffer`, `bit_mask` and output file. */
  class BitWriter {
    var bitBuffer: nat
    var bitMask: nat
    var out: seq<byte>

    ghost predicate Valid()
      reads this
    {
      PendingByte(bitBuffer, bitMask)
    }

    /** All the bits written so far. */
    ghost function Written(): seq<bool>
      requires Valid()
      reads this
    {
      Bits(out) + PendingBits(bitBuffer, bitMask)
    }

    constructor ()
      ensures Valid() && Written() == []
    {
      bitBuffer, bitMask, out := 0, 128, [];
    }

    method PutBit(v: bool)
      requires Valid()
      modifies this
      ensures Valid() && Written() == old(Written()) + [v]
    {
      ghost var pending := PendingBits(bitBuffer, bitMask);
      PendingPut(bitBuffer, bitMask, v);
      if v {
        bitBuffer := BitOr(bitBuffer, bitMask);
      }
      bitMask := bitMask / 2;
      if bitMask == 0 {
        BitsAppend(out, [bitBuffer]);
        assert Bits([bitBuffer]) == BitsOf(bitBuffer, 8) + Bits([]);
        out := out + [bitBuffer];
        bitBuffer, bitMask := 0, 128;
        assert Written() == Bits(out);
      }
      assert Bits(old(out)) + (pending + [v]) == old(Written()) + [v];
    }

    /** Writes the `n` bits of `x` that a mask descending from `top` selects. */
    method PutField(x: int, top: nat, ghost n: nat)
      requires Valid() && top == Pow2(n)
      modifies this
      ensures Valid() && Written() == old(Written()) + BitsOf(x, n)
    {
      hide Bits, PendingBits, BitTest, BitsOf;
      ghost var start, all := Written(), BitsOf(x, n);
      ghost var k := 0;
      HalfMask(n);
      assert start + all[..0] == start;
      var mask := top / 2;
      while mask > 0
        invariant Valid() && 0 <= k <= n
        invariant if k == n then mask == 0 else mask == Pow2(n - 1 - k)
        invariant Written() == start + all[..k]
        decreases n - k
      {
        PutBit(BitTest(x, mask));
        BitOfShift(x, n, n - 1 - k);
        assert start + all[..k] + [all[k]] == start + all[..k + 1];
        HalfMask(n - 1 - k);
        mask := mask / 2;
        k := k + 1;
      }
      assert all[..n] == all;
    }

    method Output1(c: int, ghost b: byte)
      requires Valid() && (c == b || c == b - 256)
      modifies this
      ensures Valid() && Written() == old(Written()) + TokenBits(Literal(b))
    {
      PowersOfTwo();
      BitsOfNegative(b, 8);
      Assoc(Written(), [true], BitsOf(b, 8));
      PutBit(true);
      PutField(c, 256, 8);
    }

    method Output2(x: nat, y: nat)
      requires Valid() && x < N && y <= F - 2
      modifies this
      ensures Valid() && forall len :: len == y + 2 ==> Written() == old(Written()) + TokenBits(Match(x, len))
    {
      PowersOfTwo();
      Assoc(Written(), [false], BitsOf(x, EI));
      Assoc(Written(), [false] + BitsOf(x, EI), BitsOf(y, EJ));
      PutBit(false);
      PutField(x, N, EI);
      PutField(y, 16, EJ);
    }

    /** Completes the last byte with zero bits. */
    method Flush() returns (ghost pad: nat)
      requires Valid()
      modifies this
      ensures pad < 8 && Bits(out) == old(Written()) + Zeros(pad)
    {
      pad := 0;
      if bitMask != 128 {
        BitsAppend(out, [bitBuffer]);
        assert Bits([bitBuffer]) == BitsOf(bitBuffer, 8) + Bits([]);
        PaddedBits(bitBuffer, bitMask);
        pad := 8 - Filled(bitMask);
        out := out + [bitBuffer];
        assert Bits(old(out)) + (PendingBits(bitBuffer, bitMask) + Zeros(pad)) == old(Written()) + Zeros(pad);
      } else {
        assert Bits(out) == old(Written()) + Zeros(0);
      }
    }
  }

  lemma HalfMask(j: nat)
    ensures Pow2(j) / 2 == if j == 0 then 0 else Pow2(j - 1)
  {}

  /** What lies at and below the mask reads as zeros. */
  lemma PaddedBits(b: nat, mask: nat)
    requires PendingByte(b, mask)
    ensures BitsOf(b, 8) == PendingBits(b, mask) + Zeros(8 - Filled(mask))
  {
    var k := 8 - Filled(mask);
    assert Pow2(k) == 2 * mask by { PowersOfTwo(); }
    LowZeros(b, k, Filled(mask));
  }

  lemma HalfMultiple(b: nat, p: nat, q: nat)
    requires p > 0 && b % (2 * p) == 0 && q == b / (2 * p)
    ensures b % 2 == 0 && (b / 2) % p == 0 && (b / 2) / p == q
  {
    assert b == 2 * (p * q);
    DivUnique(b / 2, p, q, 0);
  }

  lemma {:induction false} LowZeros(b: nat, k: nat, n: nat)
    requires b % Pow2(k) == 0
    ensures BitsOf(b, n + k) == BitsOf(b / Pow2(k), n) + Zeros(k)
    decreases k
  {
    if k > 0 {
      var p := Pow2(k - 1);
      var q := b / Pow2(k);
      HalfMultiple(b, p, q);
      LowZeros(b / 2, k - 1, n);
      assert Zeros(k) == Zeros(k - 1) + [false];
      assert BitsOf(q, n) + (Zeros(k - 1) + [false]) == BitsOf(q, n) + Zeros(k - 1) + [false];
    }
  }

  // ---- The encoder ----

  /** The text with the spaces every decoder starts from. */
  function History(text: seq<byte>): (h: seq<byte>)
    ensures |h| == N - F + |text|
  {
    seq(N - F, _ => SPACE) + text
  }

  /** `len` bytes of the history from `pos` repeat what stands at `src`, at most `N` back. */
  ghost predicate Repeats(h: seq<byte>, pos: nat, src: nat, len: nat) {
    && pos + len <= |h| && src < pos <= src + N
    && forall q :: pos <= q < pos + len ==> h[q] == h[q - (pos - src)]
  }

  /** The last history position before `pos` that a ring index can mean. */
  function Source(pos: nat, index: nat): (src: int)
    ensures pos - N <= src < pos
  {
    pos - 1 - (pos - 1 - index) % N
  }

  lemma SourceOfIndex(pos: nat, src: nat)
    requires src < pos <= src + N
    ensures Source(pos, src % N) == src
  {
    var k := src / N;
    assert pos - 1 - src % N == (pos - 1 - src) + N * k;
    DivUnique(pos - 1 - src % N, N, k, pos - 1 - src);
  }

  lemma IndexOfSource(pos: nat, index: nat)
    requires index < N && Source(pos, index) >= 0
    ensures Source(pos, index) % N == index
  {
    var k := (pos - 1 - index) / N;
    assert pos - 1 - index == N * k + (pos - 1 - index) % N;
    assert Source(pos, index) == N * k + index;
    assert (N * k + index) % N == index by { DivUnique(N * k + index, N, k, index); }
  }

  function TokenLength(t: Token): nat {
    if t.Literal? then 1 else t.len
  }

  /** The token spells the history at `pos`, looking back at written history only. */
  ghost predicate SpellsAt(t: Token, h: seq<byte>, pos: nat) {
    && ValidToken(t)
    && pos + TokenLength(t) <= |h|
    && match t
       case Literal(c) => h[pos] == c
       case Match(index, len) => Source(pos, index) >= 0 && Repeats(h, pos, Source(pos, index), len)
  }

  /** The tokens spell the history from `pos` to `end`. */
  ghost predicate Spells(ts: seq<Token>, h: seq<byte>, pos: nat, end: nat)
    decreases |ts|
  {
    if ts == [] then pos == end
    else SpellsAt(ts[0], h, pos) && Spells(ts[1..], h, pos + TokenLength(ts[0]), end)
  }

  lemma {:induction false} SpellsAppend(ts: seq<Token>, t: Token, h: seq<byte>, pos: nat, end: nat)
    requires Spells(ts, h, pos, end) && SpellsAt(t, h, end)
    ensures Spells(ts + [t], h, pos, end + TokenLength(t))
    decreases |ts|
  {
    if ts == [] {
      assert ts + [t] == [t];
      assert [t][1..] == [];
    } else {
      SpellsAppend(ts[1..], t, h, pos + TokenLength(ts[0]), end);
      assert (ts + [t])[1..] == ts[1..] + [t];
    }
  }

  // ---- Which tokens the encoder chooses ----

  /** A byte of the window read back through a `char`, which may be signed. */
  function AsChar(b: byte, signedChar: bool): int {
    if signedChar && b >= 128 then b - 256 else b
  }

  /** A window position the encoder looks at: its byte equals the current character. */
  predicate Candidate(h: seq<byte>, pos: nat, q: int, signedChar: bool)
    requires N - F <= pos < |h|
  {
    pos - (N - F) <= q < pos && h[q] == AsChar(h[pos], signedChar)
  }

  /** The `n` bytes at `pos`, as many as a match can have, are those at `q`. */
  predicate Agree(h: seq<byte>, pos: nat, q: int, n: nat) {
    0 <= q <= pos && n <= F && pos + n <= |h| && h[q..q + n] == h[pos..pos + n]
  }

  /** The best token at `pos`: a copy of the longest agreement of any candidate, from the nearest with that
      one, if it is two bytes or more; the byte itself otherwise. */
  ghost predicate BestAt(t: Token, h: seq<byte>, pos: nat, signedChar: bool) {
    && N - F <= pos < |h|
    && match t
       case Literal(c) => c == h[pos] && forall q :: Candidate(h, pos, q, signedChar) ==> !Agree(h, pos, q, 2)
       case Match(index, len) =>
         && len >= 2 && (forall q :: Candidate(h, pos, q, signedChar) ==> !Agree(h, pos, q, len + 1))
         && exists q :: NearestOf(h, pos, q, len, signedChar) && index == q % N
  }

  /** The nearest candidate that agrees on `n` bytes. */
  ghost predicate NearestOf(h: seq<byte>, pos: nat, q: int, n: nat, signedChar: bool)
    requires N - F <= pos < |h|
  {
    && Candidate(h, pos, q, signedChar) && Agree(h, pos, q, n)
    && forall k :: q < k && Candidate(h, pos, k, signedChar) ==> !Agree(h, pos, k, n)
  }

  /** Every token is the best one where it stands, from `pos` to `end`. */
  ghost predicate Greedy(ts: seq<Token>, h: seq<byte>, pos: nat, end: nat, signedChar: bool)
    decreases |ts|
  {
    if ts == [] then pos == end
    else BestAt(ts[0], h, pos, signedChar) && Greedy(ts[1..], h, pos + TokenLength(ts[0]), end, signedChar)
  }

  lemma {:induction false} GreedyAppend(ts: seq<Token>, t: Token, h: seq<byte>, pos: nat, end: nat, signedChar: bool)
    requires Greedy(ts, h, pos, end, signedChar) && BestAt(t, h, end, signedChar)
    ensures Greedy(ts + [t], h, pos, end + TokenLength(t), signedChar)
    decreases |ts|
  {
    hide BestAt;
    if ts == [] {
      assert ts + [t] == [t];
      assert [t][1..] == [];
    } else {
      GreedyAppend(ts[1..], t, h, pos + TokenLength(ts[0]), end, signedChar);
      assert (ts + [t])[1..] == ts[1..] + [t];
    }
  }

  lemma AgreeOnLess(h: seq<byte>, pos: nat, q: int, n: nat, m: nat)
    requires Agree(h, pos, q, n) && m <= n
    ensures Agree(h, pos, q, m)
  {
    assert h[q..q + m] == h[q..q + n][..m] && h[pos..pos + m] == h[pos..pos + n][..m];
  }

  lemma SomeAgrees(len: nat, index: nat, h: seq<byte>, pos: nat, signedChar: bool) returns (q: int)
    requires N - F <= pos < |h| && exists q :: NearestOf(h, pos, q, len, signedChar) && index == q % N
    ensures NearestOf(h, pos, q, len, signedChar) && index == q % N
  {
    hide NearestOf;
    q :| NearestOf(h, pos, q, len, signedChar) && index == q % N;
  }

  /** There is only one best token. */
  lemma BestTokenIsUnique(t: Token, t': Token, h: seq<byte>, pos: nat, signedChar: bool)
    requires BestAt(t, h, pos, signedChar) && BestAt(t', h, pos, signedChar)
    ensures t == t'
  {
    hide Candidate, Agree;
    if t.Match? {
      var q := SomeAgrees(t.len, t.index, h, pos, signedChar);
      AgreeOnLess(h, pos, q, t.len, 2);
      var q' := SomeAgrees(t'.len, t'.index, h, pos, signedChar);
      if t.len > t'.len {
        AgreeOnLess(h, pos, q, t.len, t'.len + 1);
      } else if t'.len > t.len {
        AgreeOnLess(h, pos, q', t'.len, t.len + 1);
      }
    } else if t'.Match? {
      var q' := SomeAgrees(t'.len, t'.index, h, pos, signedChar);
      AgreeOnLess(h, pos, q', t'.len, 2);
    }
  }

  /** So what the encoder writes is determined by the text: two greedy token lists are the same. */
  lemma {:induction false} GreedyIsUnique(ts: seq<Token>, ts': seq<Token>, h: seq<byte>, pos: nat, signedChar: bool)
    requires Greedy(ts, h, pos, |h|, signedChar) && Greedy(ts', h, pos, |h|, signedChar)
    ensures ts == ts'
    decreases |ts|
  {
    hide BestAt;
    if ts == [] {
      if ts' != [] {
        NothingAtTheEnd(ts'[0], h, signedChar);
      }
    } else {
      NothingAtTheEnd(ts[0], h, signedChar);
      BestTokenIsUnique(ts[0], ts'[0], h, pos, signedChar);
      GreedyIsUnique(ts[1..], ts'[1..], h, pos + TokenLength(ts[0]), signedChar);
      assert ts == [ts[0]] + ts[1..] && ts' == [ts'[0]] + ts'[1..];
    }
  }

  lemma NothingAtTheEnd(t: Token, h: seq<byte>, signedChar: bool)
    ensures !BestAt(t, h, |h|, signedChar)
  {}

  /** Where `char` is unsigned, no position of the window at all agrees further than the token reaches. */
  lemma UnsignedIsLongest(t: Token, h: seq<byte>, pos: nat, q: nat, n: nat)
    requires BestAt(t, h, pos, false) && pos - (N - F) <= q < pos && Agree(h, pos, q, n)
    ensures n <= TokenLength(t)
  {
    if n >= 2 {
      assert h[q] == h[q..q + n][0] == h[pos..pos + n][0] == h[pos];
      assert Candidate(h, pos, q, false);
      AgreeOnLess(h, pos, q, n, 2);
      if n > TokenLength(t) {
        AgreeOnLess(h, pos, q, n, TokenLength(t) + 1);
      }
    }
  }

  lemma EmittedSpells(g: Ring, t: Token, h: seq<byte>, pos: nat)
    requires Window(g, h, pos) && SpellsAt(t, h, pos)
    ensures Emitted(g, t) == h[pos..pos + TokenLength(t)]
  {
    match t
    case Literal(c) =>
    case Match(index, len) =>
      IndexOfSource(pos, index);
      CopyReproduces(g, h, pos, Source(pos, index), len, index);
  }

  lemma SpellsAtBounds(t: Token, h: seq<byte>, pos: nat)
    requires SpellsAt(t, h, pos)
    ensures ValidToken(t) && pos + TokenLength(t) <= |h|
  {}

  /** Tokens that spell a history expand to it, from any window that agrees with it so far. */
  lemma {:induction false} ExpandSpells(g: Ring, ts: seq<Token>, h: seq<byte>, pos: nat, end: nat)
    requires Window(g, h, pos) && Spells(ts, h, pos, end)
    ensures pos <= end <= |h| && ValidTokens(ts)
    ensures Expand(g, ts) == h[pos..end]
    decreases |ts|
  {
    hide SpellsAt, Emitted;
    if ts != [] {
      SpellsAtBounds(ts[0], h, pos);
      var next := pos + TokenLength(ts[0]);
      EmittedSpells(g, ts[0], h, pos);
      PushAllKeepsWindow(g, h, pos, TokenLength(ts[0]));
      ExpandSpells(PushAll(g, h[pos..next]), ts[1..], h, next, end);
      assert h[pos..next] + h[next..end] == h[pos..end];
      assert ts == [ts[0]] + ts[1..];
    }
  }

  /** Every fresh decoder starts with a window on the spaces, whatever its unwritten bytes. */
  lemma StartWindow(tail: seq<byte>, text: seq<byte>)
    requires |tail| == F
    ensures Window(StartRing(tail), History(text), N - F)
  {
    forall q | 0 <= q < N - F
      ensures StartRing(tail).buf[q % N] == History(text)[q]
    {
      assert q % N == q;
    }
  }

  lemma SpelledTextDecodes(ts: seq<Token>, pad: nat, text: seq<byte>, tail: seq<byte>)
    requires |tail| == F && pad < 15 && ValidTokens(ts)
    requires Spells(ts, History(text), N - F, |History(text)|)
    ensures Decode(StartRing(tail), TokensBits(ts) + Zeros(pad)) == text
  {
    StartWindow(tail, text);
    ExpandSpells(StartRing(tail), ts, History(text), N - F, |History(text)|);
    ParseTokens(ts, pad);
    assert History(text)[N - F..] == text;
  }

  /** How many bytes, from the `j`-th on and before the `limit`-th, agree at `i` and at `r`. */
  function Agreement(b: seq<byte>, i: nat, r: nat, j: nat, limit: nat): (n: nat)
    requires i <= r && j <= limit && r + limit <= |b|
    ensures j <= n <= limit
    decreases limit - j
  {
    if j < limit && b[i + j] == b[r + j] then Agreement(b, i, r, j + 1, limit) else j
  }

  lemma {:induction false} AgreementIsMatch(b: seq<byte>, i: nat, r: nat, j: nat, limit: nat)
    requires i <= r && j <= limit && r + limit <= |b|
    ensures forall q :: r + j <= q < r + Agreement(b, i, r, j, limit) ==> b[q] == b[q - (r - i)]
    decreases limit - j
  {
    if j < limit && b[i + j] == b[r + j] {
      AgreementIsMatch(b, i, r, j + 1, limit);
      assert b[r + j] == b[r + j - (r - i)];
    }
  }

  lemma {:induction false} AgreementExact(b: seq<byte>, i: nat, r: nat, j: nat, limit: nat)
    requires i <= r && j <= limit && r + limit <= |b|
    ensures var n := Agreement(b, i, r, j, limit);
            b[i + j..i + n] == b[r + j..r + n] && (n < limit ==> b[i + n] != b[r + n])
    decreases limit - j
  {
    if j < limit && b[i + j] == b[r + j] {
      AgreementExact(b, i, r, j + 1, limit);
      var n := Agreement(b, i, r, j + 1, limit);
      assert b[i + j..i + n] == [b[i + j]] + b[i + j + 1..i + n] && b[r + j..r + n] == [b[r + j]] + b[r + j + 1..r + n];
    }
  }

  /** Two stretches are equal exactly if they start with the same byte and agree that far behind it. */
  lemma AgreementIff(b: seq<byte>, i: nat, r: nat, limit: nat, n: nat)
    requires i <= r && 1 <= n <= limit && r + limit <= |b|
    ensures b[i..i + n] == b[r..r + n] <==> b[i] == b[r] && n <= Agreement(b, i, r, 1, limit)
  {
    hide Agreement;
    AgreementExact(b, i, r, 1, limit);
    var m := Agreement(b, i, r, 1, limit);
    assert b[i..i + n][0] == b[i] && b[r..r + n][0] == b[r];
    assert m < n ==> b[i..i + n][m] == b[i + m] && b[r..r + n][m] == b[r + m];
    if b[i] == b[r] && n <= m {
      assert b[i..i + n] == [b[i]] + b[i + 1..i + m][..n - 1] && b[r..r + n] == [b[r]] + b[r + 1..r + m][..n - 1];
    }
  }

  /** The search for the longest match: the nearest of the longest agreements among the window
      positions whose byte equals the current character. */
  method FindMatch(buffer: array<byte>, r: nat, s: nat, limit: nat, signedChar: bool) returns (x: nat, y: nat)
    requires buffer.Length == 2 * N && s <= r && 1 <= limit && r + limit <= 2 * N
    ensures 1 <= y <= limit
    ensures y == 1 ==> x == 0
    ensures y > 1 ==> s <= x < r && y == Agreement(buffer[..], x, r, 0, limit) && buffer[x] == AsChar(buffer[r], signedChar)
    ensures forall i :: s <= i < r && buffer[i] == AsChar(buffer[r], signedChar)
                        ==> Agreement(buffer[..], i, r, 1, limit) <= y
    ensures forall i :: x < i < r && s <= i && buffer[i] == AsChar(buffer[r], signedChar) && y > 1
                        ==> Agreement(buffer[..], i, r, 1, limit) < y
  {
    x, y := 0, 1;
    var c := AsChar(buffer[r], signedChar);
    var i := r;
    while i > s
      invariant s <= i <= r && 1 <= y <= limit
      invariant y == 1 ==> x == 0
      invariant y > 1 ==> i <= x < r && y == Agreement(buffer[..], x, r, 0, limit) && buffer[x] == c
      invariant forall k :: i <= k < r && buffer[k] == c ==> Agreement(buffer[..], k, r, 1, limit) <= y
      invariant forall k :: i <= k < r && x < k && buffer[k] == c && y > 1 ==> Agreement(buffer[..], k, r, 1, limit) < y
    {
      i := i - 1;
      if buffer[i] == c {
        var j := 1;
        while j < limit && buffer[i + j] == buffer[r + j]
          invariant 1 <= j <= limit
          invariant Agreement(buffer[..], i, r, j, limit) == Agreement(buffer[..], i, r, 1, limit)
        {
          j := j + 1;
        }
        assert j == Agreement(buffer[..], i, r, 1, limit);
        assert buffer[i] == buffer[r];
        if j > y {
          x, y := i, j;
        }
      }
    }
  }

  /** Reads input into the buffer up to its end or the end of the input. */
  method Refill(buffer: array<byte>, from: nat, text: seq<byte>, taken: nat) returns (bufferend: nat, taken': nat)
    requires buffer.Length == 2 * N && from <= 2 * N && taken <= |text|
    modifies buffer
    ensures from <= bufferend <= 2 * N && taken' - taken == bufferend - from && taken' <= |text|
    ensures bufferend < 2 * N ==> taken' == |text|
    ensures buffer[..from] == old(buffer[..from]) && buffer[from..bufferend] == text[taken..taken']
  {
    bufferend, taken' := from, taken;
    while bufferend < 2 * N && taken' < |text|
      invariant from <= bufferend <= 2 * N && taken' - taken == bufferend - from && taken' <= |text|
      invariant buffer[..from] == old(buffer[..from]) && buffer[from..bufferend] == text[taken..taken']
    {
      buffer[bufferend] := text[taken'];
      bufferend, taken' := bufferend + 1, taken' + 1;
      assert buffer[from..bufferend] == text[taken..taken' - 1] + [text[taken' - 1]];
    }
  }

  /** Moves the upper half of the buffer down. */
  method ShiftDown(buffer: array<byte>)
    requires buffer.Length == 2 * N
    modifies buffer
    ensures buffer[..N] == old(buffer[N..])
  {
    for i := 0 to N
      invariant buffer[..i] == old(buffer[N..N + i])
      invariant buffer[N..] == old(buffer[N..])
    {
      buffer[i] := buffer[i + N];
      assert buffer[..i + 1] == old(buffer[N..N + i]) + [old(buffer[N + i])];
    }
  }

  /** The encoder buffer holds the history from `base` on. */
  ghost predicate Mirrors(b: seq<byte>, bufferend: nat, h: seq<byte>, base: nat) {
    && bufferend <= |b| && base + bufferend <= |h|
    && b[..bufferend] == h[base..base + bufferend]
  }

  lemma MirroredAt(b: seq<byte>, bufferend: nat, h: seq<byte>, base: nat, k: nat)
    requires Mirrors(b, bufferend, h, base) && k < bufferend
    ensures base + k < |h| && b[k] == h[base + k]
  {
    assert b[..bufferend][k] == h[base..base + bufferend][k];
  }

  lemma BufferRepeats(b: seq<byte>, bufferend: nat, h: seq<byte>, base: nat, r: nat, x: nat, y: nat)
    requires Mirrors(b, bufferend, h, base)
    requires x < r <= x + N && r + y <= bufferend
    requires forall q :: r <= q < r + y ==> b[q] == b[q - (r - x)]
    ensures Repeats(h, base + r, base + x, y)
  {
    forall q | base + r <= q < base + r + y
      ensures h[q] == h[q - (r - x)]
    {
      MirroredAt(b, bufferend, h, base, q - base);
      MirroredAt(b, bufferend, h, base, q - base - (r - x));
      assert b[q - base] == b[q - base - (r - x)];
    }
  }

  /** What the encoder has written stands for the history up to `end`. */
  ghost predicate Progress(ts: seq<Token>, bits: seq<bool>, h: seq<byte>, end: nat, signedChar: bool) {
    && ValidTokens(ts) && N - F <= end
    && Spells(ts, h, N - F, end) && Greedy(ts, h, N - F, end, signedChar)
    && bits == TokensBits(ts)
    && |bits| <= 9 * (end - (N - F))
  }

  lemma ProgressAppend(ts: seq<Token>, t: Token, bits: seq<bool>, h: seq<byte>, end: nat, signedChar: bool)
    requires Progress(ts, bits, h, end, signedChar) && SpellsAt(t, h, end) && BestAt(t, h, end, signedChar)
    ensures Progress(ts + [t], bits + TokenBits(t), h, end + TokenLength(t), signedChar)
  {
    hide BestAt;
    GreedyAppend(ts, t, h, N - F, end, signedChar);
    SpellsAppend(ts, t, h, N - F, end);
    TokensBitsAppend(ts, t);
  }

  /** The lookahead of the encoder is that of the history: the buffer ends a whole match behind the cursor,
      unless the text ends. */
  ghost predicate LooksAhead(bufferend: nat, h: seq<byte>, base: nat, r: nat, limit: nat) {
    limit == (if F <= bufferend - r then F else bufferend - r) && (bufferend - r < F ==> base + bufferend == |h|)
  }

  lemma MirroredSlice(b: seq<byte>, bufferend: nat, h: seq<byte>, base: nat, i: nat, n: nat)
    requires Mirrors(b, bufferend, h, base) && i + n <= bufferend
    ensures b[i..i + n] == h[base + i..base + i + n]
  {
    assert b[i..i + n] == b[..bufferend][i..i + n];
    SliceOfSlice(h, base, base + bufferend, i, i + n);
  }

  /** An agreement in the history is one in the buffer. */
  lemma AgreesInBuffer(b: seq<byte>, r: nat, bufferend: nat, h: seq<byte>, base: nat, pos: nat, limit: nat, i: nat, q: int, n: nat)
    requires Mirrors(b, bufferend, h, base) && i < r < bufferend && LooksAhead(bufferend, h, base, r, limit) && n >= 1
    requires pos == base + r && q == base + i
    ensures Agree(h, pos, q, n) <==> b[i] == b[r] && n <= limit && n <= Agreement(b, i, r, 1, limit)
  {
    hide Agreement;
    if n <= limit {
      AgreementIff(b, i, r, limit, n);
      MirroredSlice(b, bufferend, h, base, i, n);
      MirroredSlice(b, bufferend, h, base, r, n);
    }
  }

  /** A candidate in the history is one in the buffer. */
  lemma CandidateInBuffer(b: seq<byte>, r: nat, bufferend: nat, h: seq<byte>, base: nat, pos: nat, q: int, signedChar: bool)
    requires Mirrors(b, bufferend, h, base) && r < bufferend && pos == base + r && r >= N - F
    ensures N - F <= pos < |h|
    ensures Candidate(h, pos, q, signedChar) <==> r - (N - F) <= q - base < r && b[q - base] == AsChar(b[r], signedChar)
  {
    hide Mirrors, AsChar;
    MirroredAt(b, bufferend, h, base, r);
    if r - (N - F) <= q - base < r {
      MirroredAt(b, bufferend, h, base, q - base);
    }
  }

  /** No candidate of the buffer agrees on more than `y` bytes. */
  ghost predicate NoneLonger(b: seq<byte>, r: nat, s: nat, limit: nat, signedChar: bool, y: nat)
    requires s <= r && 1 <= limit && r + limit <= |b|
  {
    forall i :: s <= i < r && b[i] == AsChar(b[r], signedChar) ==> Agreement(b, i, r, 1, limit) <= y
  }

  lemma NoneLongerInHistory(b: seq<byte>, r: nat, s: nat, bufferend: nat, h: seq<byte>, base: nat, pos: nat, limit: nat,
                            signedChar: bool, y: nat, from: nat, n: nat)
    requires Mirrors(b, bufferend, h, base) && r < bufferend && LooksAhead(bufferend, h, base, r, limit) && pos == base + r
    requires r - (N - F) <= s <= r && r >= N - F && from == base + s && NoneLonger(b, r, s, limit, signedChar, y) && n == y + 1
    ensures N - F <= pos < |h|
    ensures forall q :: from <= q && Candidate(h, pos, q, signedChar) ==> !Agree(h, pos, q, n)
  {
    hide Mirrors, Agreement, LooksAhead, Agree, AsChar, Candidate;
    CandidateInBuffer(b, r, bufferend, h, base, pos, pos, signedChar);
    forall q | from <= q && Candidate(h, pos, q, signedChar)
      ensures !Agree(h, pos, q, n)
    {
      CandidateInBuffer(b, r, bufferend, h, base, pos, q, signedChar);
      AgreesInBuffer(b, r, bufferend, h, base, pos, limit, q - base, q, n);
    }
  }

  /** What the search finds is the best token. */
  lemma LiteralIsBest(b: seq<byte>, r: nat, s: nat, bufferend: nat, h: seq<byte>, base: nat, limit: nat, signedChar: bool)
    requires Mirrors(b, bufferend, h, base) && r == s + (N - F) && r < bufferend && LooksAhead(bufferend, h, base, r, limit)
    requires NoneLonger(b, r, s, limit, signedChar, 1)
    ensures BestAt(Literal(b[r]), h, base + r, signedChar)
  {
    hide Mirrors, NoneLonger, LooksAhead, Agree;
    MirroredAt(b, bufferend, h, base, r);
    NoneLongerInHistory(b, r, s, bufferend, h, base, base + r, limit, signedChar, 1, base + s, 2);
  }

  lemma FirstByteToo(b: seq<byte>, x: nat, r: nat, limit: nat)
    requires x <= r && r + limit <= |b| && Agreement(b, x, r, 0, limit) > 0
    ensures b[x] == b[r] && Agreement(b, x, r, 1, limit) == Agreement(b, x, r, 0, limit)
  {}

  lemma MatchIsBest(b: seq<byte>, r: nat, s: nat, bufferend: nat, h: seq<byte>, base: nat, limit: nat, signedChar: bool,
                    x: nat, y: nat, index: nat)
    requires Mirrors(b, bufferend, h, base) && index == (base + x) % N && r + limit <= |b|
    requires r == s + (N - F) && r < bufferend && LooksAhead(bufferend, h, base, r, limit)
    requires 2 <= y <= limit && s <= x < r && y == Agreement(b, x, r, 0, limit) && b[x] == AsChar(b[r], signedChar)
    requires NoneLonger(b, r, s, limit, signedChar, y) && NoneLonger(b, r, x + 1, limit, signedChar, y - 1)
    ensures BestAt(Match(index, y), h, base + r, signedChar)
  {
    hide Mirrors, NoneLonger, Agree, LooksAhead, AsChar, Candidate, Agreement, BestAt;
    FirstByteToo(b, x, r, limit);
    var pos, q := base + r, base + x;
    CandidateInBuffer(b, r, bufferend, h, base, pos, q, signedChar);
    AgreesInBuffer(b, r, bufferend, h, base, pos, limit, x, q, y);
    NoneLongerInHistory(b, r, s, bufferend, h, base, pos, limit, signedChar, y, base + s, y + 1);
    NoneLongerInHistory(b, r, x + 1, bufferend, h, base, pos, limit, signedChar, y - 1, q + 1, y);
    BestFound(h, pos, q, y, index, signedChar, base + s);
  }

  lemma BestFound(h: seq<byte>, pos: nat, q: int, y: nat, index: nat, signedChar: bool, from: int)
    requires N - F <= pos < |h| && from == pos - (N - F) && y >= 2 && index == q % N
    requires Candidate(h, pos, q, signedChar) && Agree(h, pos, q, y)
    requires forall k :: from <= k && Candidate(h, pos, k, signedChar) ==> !Agree(h, pos, k, y + 1)
    requires forall k :: q + 1 <= k && Candidate(h, pos, k, signedChar) ==> !Agree(h, pos, k, y)
    ensures BestAt(Match(index, y), h, pos, signedChar)
  {
    hide Agree, AsChar;
    assert NearestOf(h, pos, q, y, signedChar);
  }

  lemma LiteralChosen(b: seq<byte>, r: nat, bufferend: nat, h: seq<byte>, base: nat, ts: seq<Token>, bits: seq<bool>, signedChar: bool)
    requires Mirrors(b, bufferend, h, base) && r < bufferend && BestAt(Literal(b[r]), h, base + r, signedChar)
    requires Progress(ts, bits, h, base + r, signedChar)
    ensures var t := Literal(b[r]); Progress(ts + [t], bits + TokenBits(t), h, base + r + 1, signedChar)
  {
    hide Progress, TokenBits, BestAt;
    MirroredAt(b, bufferend, h, base, r);
    ProgressAppend(ts, Literal(b[r]), bits, h, base + r, signedChar);
  }

  lemma SameIndex(base: nat, x: nat)
    requires base % N == 0
    ensures (base + x) % N == x % N
  {}

  lemma MatchSpells(b: seq<byte>, r: nat, bufferend: nat, h: seq<byte>, base: nat, x: nat, y: nat, limit: nat)
    requires Mirrors(b, bufferend, h, base) && base % N == 0
    requires x < r <= x + N && 2 <= y <= limit <= F && r + limit <= bufferend
    requires y == Agreement(b, x, r, 0, limit)
    ensures SpellsAt(Match(x % N, y), h, base + r)
  {
    hide Agreement, Source;
    AgreementIsMatch(b, x, r, 0, limit);
    BufferRepeats(b, bufferend, h, base, r, x, y);
    SameIndex(base, x);
    SourceOfIndex(base + r, base + x);
  }

  lemma MatchChosen(b: seq<byte>, r: nat, bufferend: nat, h: seq<byte>, base: nat, x: nat, y: nat, limit: nat,
                    ts: seq<Token>, bits: seq<bool>, signedChar: bool)
    requires Mirrors(b, bufferend, h, base) && base % N == 0 && BestAt(Match(x % N, y), h, base + r, signedChar)
    requires x < r <= x + N && 2 <= y <= limit <= F && r + limit <= bufferend
    requires y == Agreement(b, x, r, 0, limit)
    requires Progress(ts, bits, h, base + r, signedChar)
    ensures var t := Match(x % N, y); Progress(ts + [t], bits + TokenBits(t), h, base + r + y, signedChar)
  {
    hide SpellsAt, Progress, Mirrors, Agreement, BestAt;
    MatchSpells(b, r, bufferend, h, base, x, y, limit);
    ProgressAppend(ts, Match(x % N, y), bits, h, base + r, signedChar);
  }

  /** One token, the best one at the cursor. */
  method EncodeToken(buffer: array<byte>, r: nat, s: nat, bufferend: nat, signedChar: bool, w: BitWriter,
                     ghost h: seq<byte>, ghost base: nat, ghost ts: seq<Token>, ghost bits: seq<bool>)
    returns (y: nat, ghost ts': seq<Token>, ghost bits': seq<bool>)
    requires buffer.Length == 2 * N
    requires r == s + (N - F) && r < bufferend <= 2 * N && (bufferend - r < F ==> base + bufferend == |h|)
    requires Mirrors(buffer[..], bufferend, h, base) && base % N == 0
    requires w.Valid() && w.Written() == bits && Progress(ts, bits, h, base + r, signedChar)
    modifies w
    ensures 1 <= y <= F && r + y <= bufferend
    ensures |ts'| == |ts| + 1 && ts' == ts + [ts'[|ts|]] && BestAt(ts'[|ts|], h, base + r, signedChar) && y == TokenLength(ts'[|ts|])
    ensures w.Valid() && w.Written() == bits' && Progress(ts', bits', h, base + r + y, signedChar)
  {
    hide Spells, TokensBits, TokenBits, Progress, Mirrors, BestAt;
    var f1 := if F <= bufferend - r then F else bufferend - r;
    var x;
    x, y := FindMatch(buffer, r, s, f1, signedChar);
    if y <= 1 {
      y := 1;
      LiteralIsBest(buffer[..], r, s, bufferend, h, base, f1, signedChar);
      LiteralChosen(buffer[..], r, bufferend, h, base, ts, bits, signedChar);
      ts', bits' := ts + [Literal(buffer[r])], bits + TokenBits(Literal(buffer[r]));
      w.Output1(AsChar(buffer[r], signedChar), buffer[r]);
    } else {
      SameIndex(base, x);
      MatchIsBest(buffer[..], r, s, bufferend, h, base, f1, signedChar, x, y, x % N);
      MatchChosen(buffer[..], r, bufferend, h, base, x, y, f1, ts, bits, signedChar);
      ghost var t := Match(x % N, y);
      ts', bits' := ts + [t], bits + TokenBits(t);
      w.Output2(x % N, y - 2);
    }
  }

  lemma Shifted(before: seq<byte>, b: seq<byte>, bufferend: nat, h: seq<byte>, base: nat)
    requires |before| == |b| == 2 * N && N <= bufferend <= 2 * N && b[..N] == before[N..]
    requires Mirrors(before, bufferend, h, base)
    ensures Mirrors(b, bufferend - N, h, base + N)
  {
    var kept := bufferend - N;
    assert forall k :: 0 <= k < kept ==> b[k] == b[..N][k] == before[N..][k] == before[..bufferend][N + k];
    assert b[..kept] == h[base + N..base + N + kept];
  }

  lemma Refilled(before: seq<byte>, b: seq<byte>, kept: nat, bufferend: nat, text: seq<byte>, taken: nat, taken': nat, base: nat)
    requires |before| == |b| && kept <= bufferend <= |b| && taken <= taken' <= |text| && taken' - taken == bufferend - kept
    requires b[..kept] == before[..kept] && b[kept..bufferend] == text[taken..taken']
    requires Mirrors(before, kept, History(text), base) && base + kept == N - F + taken
    ensures Mirrors(b, bufferend, History(text), base)
  {
    var h := History(text);
    assert h[base + kept..base + bufferend] == text[taken..taken'];
    assert h[base..base + bufferend] == h[base..base + kept] + h[base + kept..base + bufferend];
    assert b[..bufferend] == b[..kept] + b[kept..bufferend];
  }

  /** The window slides: the buffer drops its lower half and takes more of the text. */
  method Slide(buffer: array<byte>, bufferend: nat, text: seq<byte>, taken: nat, ghost base: nat)
    returns (bufferend': nat, taken': nat)
    requires buffer.Length == 2 * N && N <= bufferend <= 2 * N && taken <= |text|
    requires Mirrors(buffer[..], bufferend, History(text), base) && base + bufferend == N - F + taken
    modifies buffer
    ensures bufferend - N <= bufferend' <= 2 * N && taken' <= |text|
    ensures bufferend' < 2 * N ==> taken' == |text|
    ensures base + N + bufferend' == N - F + taken'
    ensures Mirrors(buffer[..], bufferend', History(text), base + N)
  {
    ghost var before := buffer[..];
    var kept := bufferend - N;
    ShiftDown(buffer);
    Shifted(before, buffer[..], bufferend, History(text), base);
    ghost var shifted := buffer[..];
    bufferend', taken' := Refill(buffer, kept, text, taken);
    Refilled(shifted, buffer[..], kept, bufferend', text, taken, taken', base + N);
  }

  /** The spaces, then the first of the text. */
  method FirstFill(buffer: array<byte>, text: seq<byte>) returns (bufferend: nat, taken: nat)
    requires buffer.Length == 2 * N
    modifies buffer
    ensures N - F <= bufferend <= 2 * N && taken <= |text| && bufferend == N - F + taken
    ensures bufferend < 2 * N ==> taken == |text|
    ensures Mirrors(buffer[..], bufferend, History(text), 0)
  {
    ghost var h := History(text);
    for i := 0 to N - F
      invariant forall k :: 0 <= k < i ==> buffer[k] == SPACE
    {
      buffer[i] := SPACE;
    }
    assert buffer[..N - F] == h[..N - F];
    bufferend, taken := Refill(buffer, N - F, text, 0);
    assert buffer[..bufferend] == buffer[..N - F] + buffer[N - F..bufferend];
    assert h[0..0 + bufferend] == h[..N - F] + text[0..taken];
  }

  lemma NextTurn(base: nat)
    requires base % N == 0
    ensures (base + N) % N == 0
  {}

  lemma NothingWritten(h: seq<byte>, signedChar: bool)
    ensures Progress([], [], h, N - F, signedChar)
  {}

  lemma ProgressDone(ts: seq<Token>, bits: seq<bool>, pad: nat, text: seq<byte>, signedChar: bool)
    requires Progress(ts, bits, History(text), |History(text)|, signedChar) && pad < 8
    ensures ValidTokens(ts) && bits == TokensBits(ts) && Greedy(ts, History(text), N - F, |History(text)|, signedChar)
    ensures forall tail: seq<byte> | |tail| == F :: Decode(StartRing(tail), bits + Zeros(pad)) == text
  {
    forall tail: seq<byte> | |tail| == F
      ensures Decode(StartRing(tail), bits + Zeros(pad)) == text
    {
      SpelledTextDecodes(ts, pad, text, tail);
    }
  }

  /** The encoder's cursors: `r` and `s` stand `N - F` apart in a buffer that mirrors the history
      from `base`, filled to its end unless the text ran out. */
  ghost predicate Cursors(b: seq<byte>, r: int, s: int, bufferend: int, text: seq<byte>, taken: int, base: nat) {
    && |b| == 2 * N
    && 0 <= s && r == s + (N - F) && r < 2 * N - F && r <= bufferend <= 2 * N
    && 0 <= taken <= |text| && (bufferend < 2 * N ==> taken == |text|)
    && base % N == 0 && base + bufferend == N - F + taken
    && Mirrors(b, bufferend, History(text), base)
  }

  /** One round of the encoder's loop: a token, then a slide if the lookahead ran short. */
  method EncodeRound(buffer: array<byte>, r: nat, s: nat, bufferend: nat, text: seq<byte>, taken: nat,
                     signedChar: bool, w: BitWriter, ghost base: nat, ghost ts: seq<Token>, ghost bits: seq<bool>)
    returns (r': nat, s': nat, bufferend': nat, taken': nat,
             ghost base': nat, ghost ts': seq<Token>, ghost bits': seq<bool>)
    requires Cursors(buffer[..], r, s, bufferend, text, taken, base) && r < bufferend
    requires w.Valid() && w.Written() == bits && Progress(ts, bits, History(text), base + r, signedChar)
    modifies w, buffer
    ensures Cursors(buffer[..], r', s', bufferend', text, taken', base') && base + r < base' + r'
    ensures w.Valid() && w.Written() == bits' && Progress(ts', bits', History(text), base' + r', signedChar)
  {
    hide Progress, BestAt, Mirrors;
    var y;
    y, ts', bits' := EncodeToken(buffer, r, s, bufferend, signedChar, w, History(text), base, ts, bits);
    r', s', bufferend', taken', base' := r + y, s + y, bufferend, taken, base;
    if r' >= 2 * N - F {
      bufferend', taken' := Slide(buffer, bufferend, text, taken, base);
      r', s' := r' - N, s' - N;
      NextTurn(base);
      base' := base + N;
    }
  }

  /** The encoder. Its code decodes to the text, whatever the decoder's unwritten ring bytes
      hold; it is the best tokens' bits, padded with zeros; and it is at most nine eighths as long. */
  method Compress(text: seq<byte>, signedChar: bool) returns (code: seq<byte>, ghost ts: seq<Token>, ghost pad: nat)
    ensures forall tail: seq<byte> | |tail| == F :: Decode(StartRing(tail), Bits(code)) == text
    ensures ValidTokens(ts) && pad < 8 && Bits(code) == TokensBits(ts) + Zeros(pad)
    ensures Greedy(ts, History(text), N - F, |History(text)|, signedChar)
    ensures 8 * |code| <= 9 * |text| + 7
  {
    hide Spells, TokensBits, Mirrors, TokenBits, Greedy, BestAt;
    NothingWritten(History(text), signedChar);
    var buffer := new byte[2 * N];
    var bufferend, taken := FirstFill(buffer, text);
    var r, s := N - F, 0;
    var w := new BitWriter();
    ghost var bits: seq<bool>, base: nat := [], 0;
    ts := [];
    while r < bufferend
      invariant Cursors(buffer[..], r, s, bufferend, text, taken, base)
      invariant w.Valid() && w.Written() == bits && Progress(ts, bits, History(text), base + r, signedChar)
      decreases |History(text)| - (base + r)
    {
      r, s, bufferend, taken, base, ts, bits :=
        EncodeRound(buffer, r, s, bufferend, text, taken, signedChar, w, base, ts, bits);
    }
    pad := w.Flush();
    code := w.out;
    ProgressDone(ts, bits, pad, text, signedChar);
  }

  // ---- The decoder ----

  /** The bits at and below the mask of a byte being read. */
  function UnreadBits(b: byte, mask: nat): seq<bool>
    requires mask == 0 || IsMask(mask)
  {
    if mask == 0 then [] else BitsOf(b, 8)[Filled(mask)..]
  }

  lemma TopBit(b: byte, mask: nat)
    requires IsMask(mask)
    ensures UnreadBits(b, mask) == [BitTest(b, mask)] + UnreadBits(b, mask / 2)
  {
    var k := Filled(mask);
    BitAt(b, k, mask);
    assert mask == 1 ==> UnreadBits(b, mask / 2) == [] == BitsOf(b, 8)[8..];
    assert BitsOf(b, 8)[k..] == [BitsOf(b, 8)[k]] + BitsOf(b, 8)[k + 1..];
  }

  lemma BitAt(b: byte, k: nat, mask: nat)
    requires IsMask(mask) && k == Filled(mask)
    ensures BitsOf(b, 8)[k] == BitTest(b, mask)
  {
    PowersOfTwo();
    assert mask == Pow2(7 - k);
    BitOfShift(b, 8, 7 - k);
  }

  lemma {:induction false} BitOfShift(x: int, n: nat, j: nat)
    requires j < n
    ensures BitsOf(x, n)[n - 1 - j] == BitTest(x, Pow2(j))
    decreases j
  {
    if j == 0 {
      assert x / 1 == x;
    } else {
      BitOfShift(x / 2, n - 1, j - 1);
      HalfThenShift(x, Pow2(j - 1));
    }
  }

  lemma HalfThenShift(x: int, d: nat)
    requires d > 0
    ensures x / 2 / d == x / (2 * d)
  {
    var q, r := x / 2 / d, (x / 2) % d;
    var b := x % 2;
    assert x == 2 * (x / 2) + b && x / 2 == d * q + r;
    assert 2 * (d * q) == (2 * d) * q;
    DivUnique(x, 2 * d, q, 2 * r + b);
  }

  lemma ValueEmpty()
    ensures Value([]) == 0
  {}

  lemma ValueNext(bits: seq<bool>, i: nat)
    requires i < |bits|
    ensures Value(bits[..i + 1]) == 2 * Value(bits[..i]) + (if bits[i] then 1 else 0)
  {
    assert bits[..i + 1][..i] == bits[..i];
  }

  /** The decoder's `getbit`: its input file, the byte being read and its mask. */
  class BitReader {
    const code: seq<byte>
    var next: nat
    var buf: byte
    var mask: nat

    ghost predicate Valid()
      reads this
    {
      next <= |code| && (mask == 0 || IsMask(mask))
    }

    /** The bits not yet read. */
    ghost function Remaining(): seq<bool>
      requires Valid()
      reads this
    {
      UnreadBits(buf, mask) + Bits(code[next..])
    }

    constructor (code: seq<byte>)
      ensures Valid() && Remaining() == Bits(code)
    {
      this.code, next, buf, mask := code, 0, 0, 0;
      new;
      assert code[0..] == code;
    }

    /** One bit, or -1 at the end of the input. */
    method GetOne() returns (bit: int)
      requires Valid()
      modifies this
      ensures Valid()
      ensures old(Remaining()) == [] ==> bit == -1 && Remaining() == []
      ensures old(Remaining()) != [] ==>
                Remaining() == old(Remaining())[1..] && bit == (if old(Remaining())[0] then 1 else 0)
    {
      if mask == 0 {
        if next == |code| {
          assert Remaining() == [];
          return -1;
        }
        assert code[next..][1..] == code[next + 1..];
        buf, next, mask := code[next], next + 1, 128;
        assert Remaining() == old(Remaining());
      }
      hide BitTest, Bits, UnreadBits;
      TopBit(buf, mask);
      bit := if BitTest(buf, mask) then 1 else 0;
      Assoc([BitTest(buf, mask)], UnreadBits(buf, mask / 2), Bits(code[next..]));
      mask := mask / 2;
    }

    /** `n` bits as a number, or -1 if the input ends before. */
    method GetBits(n: nat) returns (x: int)
      requires Valid()
      modifies this
      ensures Valid()
      ensures n <= |old(Remaining())| ==> x == Value(old(Remaining())[..n]) && Remaining() == old(Remaining())[n..]
      ensures n > |old(Remaining())| ==> x == -1 && Remaining() == []
    {
      hide Value, UnreadBits, Bits;
      ghost var before := Remaining();
      assert before[..0] == [] && Value([]) == 0 by { ValueEmpty(); }
      x := 0;
      for i := 0 to n
        invariant Valid() && i <= |before|
        invariant x == Value(before[..i]) && Remaining() == before[i..]
      {
        var bit := GetOne();
        if bit < 0 {
          return -1;
        }
        ValueNext(before, i);
        x := 2 * x + bit;
      }
    }
  }

  /** Stores a byte in the ring. */
  method PutInRing(buffer: array<byte>, r: nat, c: byte) returns (r': nat)
    requires buffer.Length == 2 * N && r < N
    modifies buffer
    ensures r' < N && Ring(buffer[..N], r') == Push(Ring(old(buffer[..N]), r), c)
  {
    buffer[r] := c;
    r' := (r + 1) % N;
    assert buffer[..N] == old(buffer[..N])[r := c];
  }

  /** The decoder's loop over the ring, one token at a time. */
  method DecodeCopy(buffer: array<byte>, r: nat, i: nat, n: nat) returns (r': nat, out: seq<byte>)
    requires buffer.Length == 2 * N && r < N
    modifies buffer
    ensures var g := Ring(old(buffer[..N]), r);
            out == Copied(g, i, n) && Ring(buffer[..N], r') == PushAll(g, out)
  {
    hide Copied, PushAll, Push;
    ghost var g := Ring(buffer[..N], r);
    r', out := r, [];
    NothingCopied(g, i);
    ghost var all := Copied(g, i, n);
    ghost var h := g;
    for k := 0 to n
      invariant r' < N && h == Ring(buffer[..N], r')
      invariant all == out + Copied(h, i + k, n - k)
      invariant PushAll(g, out) == h
    {
      var c := buffer[(i + k) % N];
      PushAllAppend(g, out, c);
      CopiedStep(h, i + k, n - k);
      Assoc(out, [c], Copied(Push(h, c), i + k + 1, n - k - 1));
      out := out + [c];
      r' := PutInRing(buffer, r', c);
      h := Push(h, c);
    }
    NothingCopied(h, i + n);
  }

  lemma {:induction false} PushAllAppend(g: Ring, out: seq<byte>, c: byte)
    requires ValidRing(g)
    ensures PushAll(g, out + [c]) == Push(PushAll(g, out), c)
    decreases |out|
  {
    if out == [] {
      assert out + [c] == [c];
      assert PushAll(Push(g, c), []) == Push(g, c);
    } else {
      PushAllAppend(Push(g, out[0]), out[1..], c);
      assert (out + [c])[1..] == out[1..] + [c];
    }
  }

  /** A literal: eight bits, into the ring and out. */
  method DecodeLiteral(input: BitReader, buffer: array<byte>, r: nat, ghost bits: seq<bool>)
    returns (more: bool, r': nat, out: seq<byte>)
    requires input.Valid() && buffer.Length == 2 * N && r < N
    requires bits != [] && bits[0] && input.Remaining() == bits[1..]
    modifies input, buffer
    ensures input.Valid() && r' < N && |input.Remaining()| < |bits|
    ensures var g := Ring(old(buffer[..N]), r);
            Decode(g, bits) == if more then out + Decode(Ring(buffer[..N], r'), input.Remaining()) else []
  {
    hide Value, Decode, UnreadBits, Bits;
    more, r', out := false, r, [];
    DecodeShort(Ring(buffer[..N], r), bits);
    var c := input.GetBits(8);
    if c == -1 { return; }
    assert bits[1..][..8] == bits[1..9] && bits[1..][8..] == bits[9..];
    PowersOfTwo();
    StepLiteral(Ring(buffer[..N], r), bits);
    r' := PutInRing(buffer, r, c);
    more, out := true, [c];
  }

  /** A match: a ring index and a length, then the copy. */
  method DecodeMatch(input: BitReader, buffer: array<byte>, r: nat, ghost bits: seq<bool>)
    returns (more: bool, r': nat, out: seq<byte>)
    requires input.Valid() && buffer.Length == 2 * N && r < N
    requires bits != [] && !bits[0] && input.Remaining() == bits[1..]
    modifies input, buffer
    ensures input.Valid() && r' < N && |input.Remaining()| < |bits|
    ensures var g := Ring(old(buffer[..N]), r);
            Decode(g, bits) == if more then out + Decode(Ring(buffer[..N], r'), input.Remaining()) else []
  {
    hide Value, Decode, UnreadBits, Bits, Copied, PushAll;
    more, r', out := false, r, [];
    DecodeShort(Ring(buffer[..N], r), bits);
    var i := input.GetBits(EI);
    if i == -1 { return; }
    assert bits[1..][..10] == bits[1..11] && bits[1..][10..] == bits[11..];
    var j := input.GetBits(EJ);
    if j == -1 { return; }
    assert bits[11..][..4] == bits[11..15] && bits[11..][4..] == bits[15..];
    StepMatch(Ring(buffer[..N], r), bits);
    r', out := DecodeCopy(buffer, r, i, j + 2);
    more := true;
  }

  /** The firmware tool's decoder computes the reference decoding of any byte string. */
  method Decompress(code: seq<byte>) returns (text: seq<byte>)
    ensures text == Decode(StartRing(seq(F, _ => 0)), Bits(code))
  {
    hide Decode, Bits, Value, UnreadBits;
    var buffer := new byte[2 * N](_ => 0);
    for i := 0 to N - F
      invariant forall k :: 0 <= k < i ==> buffer[k] == SPACE
      invariant forall k :: i <= k < 2 * N ==> buffer[k] == 0
    {
      buffer[i] := SPACE;
    }
    var r: nat, more := N - F, true;
    ghost var all := Decode(StartRing(seq(F, _ => 0)), Bits(code));
    assert buffer[..N] == StartRing(seq(F, _ => 0)).buf;
    var input := new BitReader(code);
    text := [];
    while more
      invariant input.Valid() && r < N
      invariant all == text + if more then Decode(Ring(buffer[..N], r), input.Remaining()) else []
      decreases more, |input.Remaining()|
    {
      ghost var bits := input.Remaining();
      var out;
      var c := input.GetBits(1);
      if c == -1 {
        DecodeEmpty(Ring(buffer[..N], r));
        break;
      }
      FirstBit(bits);
      if c != 0 {
        more, r, out := DecodeLiteral(input, buffer, r, bits);
      } else {
        more, r, out := DecodeMatch(input, buffer, r, bits);
      }
      if more {
        Assoc(text, out, Decode(Ring(buffer[..N], r), input.Remaining()));
        text := text + out;
      }
    }
  }

  lemma DecodeEmpty(g: Ring)
    requires ValidRing(g)
    ensures Decode(g, []) == []
  {}

  lemma FirstBit(bits: seq<bool>)
    requires bits != []
    ensures Value(bits[..1]) == if bits[0] then 1 else 0
  {
    assert bits[..1][..0] == [];
  }

  lemma DecodeShort(g: Ring, bits: seq<bool>)
    requires ValidRing(g) && bits != []
    ensures |bits| < (if bits[0] then 9 else 15) ==> Decode(g, bits) == []
  {}

  lemma StepLiteral(g: Ring, bits: seq<bool>)
    requires ValidRing(g) && |bits| >= 9 && bits[0]
    ensures var out := [LiteralAt(bits).c];
            && PushAll(g, out) == Push(g, out[0])
            && Decode(g, bits) == out + Decode(PushAll(g, out), bits[9..])
  {
    var t := LiteralAt(bits);
    assert ([t] + Parse(bits[9..]))[1..] == Parse(bits[9..]);
    assert PushAll(Push(g, t.c), []) == Push(g, t.c);
  }

  lemma StepMatch(g: Ring, bits: seq<bool>)
    requires ValidRing(g) && |bits| >= 15 && !bits[0]
    ensures var t := MatchAt(bits);
            var out := Copied(g, t.index, t.len);
            Decode(g, bits) == out + Decode(PushAll(g, out), bits[15..])
  {
    var t := MatchAt(bits);
    assert ([t] + Parse(bits[15..]))[1..] == Parse(bits[15..]);
  }
}
