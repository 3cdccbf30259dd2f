/** The device's LZSS decoder as a transducer: what every bit does, whichever call brings it. */
module LzssStream {
  import opened Bytes
  import opened LzssFormat

  /** The field a suspended decoder is reading, that is, the `getbit` it stopped in. */
  datatype Phase = Flag | LiteralBits | IndexBits | LengthBits

  function Width(phase: Phase): nat {
    match phase
    case Flag => 1
    case LiteralBits => 8
    case IndexBits => EI
    case LengthBits => EJ
  }

  /** `s` bits of the current field read so far, their value `x`, the ring index `i` of a match
      being read, and the window. */
  datatype Stream = Stream(phase: Phase, s: nat, x: nat, i: nat, ring: Ring)

  predicate ValidStream(st: Stream) {
    && st.s < Width(st.phase) && st.x < Pow2(st.s) && ValidRing(st.ring) && st.i < N
  }

  function Start(ring: Ring): Stream {
    Stream(Flag, 0, 0, 0, ring)
  }

  datatype Result = Result(st: Stream, out: seq<byte>)

  /** What a complete field does. */
  function Complete(st: Stream, x: nat): (r: Result)
    requires ValidRing(st.ring) && st.i < N && x < Pow2(Width(st.phase))
    ensures ValidStream(r.st)
  {
    PowersOfTwo();
    match st.phase
    case Flag =>
      if x != 0 then Result(st.(phase := LiteralBits, s := 0, x := 0), [])
      else Result(st.(phase := IndexBits, s := 0, x := 0), [])
    case LiteralBits =>
      Result(Start(Push(st.ring, x)), [x])
    case IndexBits =>
      Result(st.(phase := LengthBits, s := 0, x := 0, i := x), [])
    case LengthBits =>
      var out := Copied(st.ring, st.i, x + 2);
      Result(Start(PushAll(st.ring, out)), out)
  }

  function StepBit(st: Stream, bit: bool): (r: Result)
    requires ValidStream(st)
    ensures ValidStream(r.st)
  {
    var x := 2 * st.x + (if bit then 1 else 0);
    if st.s + 1 < Width(st.phase) then Result(st.(s := st.s + 1, x := x), [])
    else Complete(st, x)
  }

  function RunBits(st: Stream, bits: seq<bool>): (r: Result)
    requires ValidStream(st)
    ensures ValidStream(r.st)
    decreases |bits|
  {
    if bits == [] then Result(st, [])
    else
      var first := StepBit(st, bits[0]);
      var rest := RunBits(first.st, bits[1..]);
      Result(rest.st, first.out + rest.out)
  }

  /** What a call does with a chunk of bytes. */
  function Feed(st: Stream, chunk: seq<byte>): (r: Result)
    requires ValidStream(st)
    ensures ValidStream(r.st)
  {
    RunBits(st, Bits(chunk))
  }

  /** What a sequence of calls does. */
  function FeedAll(st: Stream, chunks: seq<seq<byte>>): (r: Result)
    requires ValidStream(st)
    ensures ValidStream(r.st)
    decreases |chunks|
  {
    if chunks == [] then Result(st, [])
    else
      var first := Feed(st, chunks[0]);
      var rest := FeedAll(first.st, chunks[1..]);
      Result(rest.st, first.out + rest.out)
  }

  // ---- Chunking does not matter ----

  lemma {:induction false} RunBitsAppend(st: Stream, a: seq<bool>, b: seq<bool>)
    requires ValidStream(st)
    ensures RunBits(st, a + b)
         == Result(RunBits(RunBits(st, a).st, b).st, RunBits(st, a).out + RunBits(RunBits(st, a).st, b).out)
    decreases |a|
  {
    if a == [] {
      assert a + b == b;
    } else {
      hide StepBit;
      var first := StepBit(st, a[0]);
      RunBitsAppend(first.st, a[1..], b);
      assert (a + b)[1..] == a[1..] + b;
      Assoc(first.out, RunBits(first.st, a[1..]).out, RunBits(RunBits(st, a).st, b).out);
    }
  }

  /** Every chunking of a byte stream does what the whole stream does at once. */
  lemma {:induction false} ChunkingIrrelevant(st: Stream, chunks: seq<seq<byte>>)
    requires ValidStream(st)
    ensures FeedAll(st, chunks) == Feed(st, Flatten(chunks))
    decreases |chunks|
  {
    if chunks != [] {
      ChunkingIrrelevant(Feed(st, chunks[0]).st, chunks[1..]);
      BitsAppend(chunks[0], Flatten(chunks[1..]));
      RunBitsAppend(st, Bits(chunks[0]), Bits(Flatten(chunks[1..])));
    }
  }

  // ---- The transducer computes the reference decoding ----

  /** Reading the rest of a field: `pre` was read before, `bits` comes now. */
  lemma {:induction false} ReadField(st: Stream, pre: seq<bool>, bits: seq<bool>)
    requires ValidStream(st) && |pre| == st.s && st.x == Value(pre)
    requires |pre| + |bits| <= Width(st.phase)
    ensures |pre| + |bits| < Width(st.phase) ==>
              RunBits(st, bits) == Result(st.(s := |pre| + |bits|, x := Value(pre + bits)), [])
    ensures |pre| + |bits| == Width(st.phase) ==> RunBits(st, bits) == Complete(st, Value(pre + bits))
    decreases |bits|
  {
    hide Complete, StepBit, Value;
    if bits == [] {
      assert pre + bits == pre;
    } else {
      var pre' := pre + [bits[0]];
      StepField(st, pre, bits[0]);
      assert pre' + bits[1..] == pre + bits;
      var first := StepBit(st, bits[0]);
      if |pre'| < Width(st.phase) {
        ReadField(first.st, pre', bits[1..]);
        if |pre| + |bits| == Width(st.phase) {
          CompleteIgnoresProgress(st, |pre'|, Value(pre'), Value(pre + bits));
        }
      } else {
        assert bits[1..] == [] && pre + bits == pre';
        assert RunBits(first.st, []) == Result(first.st, []);
        assert first.out + [] == first.out;
      }
    }
  }

  lemma CompleteIgnoresProgress(st: Stream, s: nat, x: nat, v: nat)
    requires ValidRing(st.ring) && st.i < N && v < Pow2(Width(st.phase))
    ensures Complete(st.(s := s, x := x), v) == Complete(st, v)
  {}

  lemma StepField(st: Stream, pre: seq<bool>, bit: bool)
    requires ValidStream(st) && |pre| == st.s && st.x == Value(pre)
    ensures var pre' := pre + [bit];
            StepBit(st, bit) == if |pre'| < Width(st.phase) then Result(st.(s := |pre'|, x := Value(pre')), [])
                                else Complete(st, Value(pre'))
  {
    hide Complete;
    var pre' := pre + [bit];
    assert pre'[..|pre|] == pre;
  }

  lemma ReadWhole(st: Stream, bits: seq<bool>, rest: seq<bool>)
    requires ValidStream(st) && st.s == 0 && |bits| == Width(st.phase)
    ensures RunBits(st, bits + rest)
         == Result(RunBits(Complete(st, Value(bits)).st, rest).st,
                   Complete(st, Value(bits)).out + RunBits(Complete(st, Value(bits)).st, rest).out)
  {
    ReadField(st, [], bits);
    assert [] + bits == bits;
    RunBitsAppend(st, bits, rest);
  }

  lemma ReadShort(st: Stream, bits: seq<bool>)
    requires ValidStream(st) && st.s == 0 && |bits| < Width(st.phase)
    ensures RunBits(st, bits).out == []
  {
    ReadField(st, [], bits);
  }

  /** From the start of a token the transducer emits the reference decoding. */
  lemma {:induction false} EmitsDecoding(ring: Ring, bits: seq<bool>)
    requires ValidRing(ring)
    ensures RunBits(Start(ring), bits).out == Decode(ring, bits)
    decreases |bits|
  {
    if bits != [] {
      var st := Start(ring);
      assert bits == bits[..1] + bits[1..];
      ReadWhole(st, bits[..1], bits[1..]);
      assert bits[..1][..0] == [];
      if bits[0] {
        EmitsLiteral(ring, bits);
      } else {
        EmitsMatch(ring, bits);
      }
    }
  }

  lemma EmitsLiteral(ring: Ring, bits: seq<bool>)
    requires ValidRing(ring) && bits != [] && bits[0]
    ensures RunBits(Start(ring).(phase := LiteralBits), bits[1..]).out == Decode(ring, bits)
    decreases |bits|, 0
  {
    var st := Start(ring).(phase := LiteralBits);
    if |bits| < 9 {
      ReadShort(st, bits[1..]);
    } else {
      assert bits[1..] == bits[1..9] + bits[9..];
      ReadWhole(st, bits[1..9], bits[9..]);
      var t := LiteralAt(bits);
      assert ([t] + Parse(bits[9..]))[1..] == Parse(bits[9..]);
      assert PushAll(ring, [t.c]) == Push(ring, t.c) by {
        assert PushAll(Push(ring, t.c), []) == Push(ring, t.c);
      }
      EmitsDecoding(Push(ring, t.c), bits[9..]);
    }
  }

  lemma EmitsMatch(ring: Ring, bits: seq<bool>)
    requires ValidRing(ring) && bits != [] && !bits[0]
    ensures RunBits(Start(ring).(phase := IndexBits), bits[1..]).out == Decode(ring, bits)
    decreases |bits|, 0
  {
    hide Value, RunBits, StepBit, Copied, PushAll;
    var st := Start(ring).(phase := IndexBits);
    if |bits| < 11 {
      ReadShort(st, bits[1..]);
    } else {
      assert bits[1..] == bits[1..11] + bits[11..];
      ReadWhole(st, bits[1..11], bits[11..]);
      var st' := Complete(st, Value(bits[1..11])).st;
      if |bits| < 15 {
        ReadShort(st', bits[11..]);
      } else {
        assert bits[11..] == bits[11..15] + bits[15..];
        ReadWhole(st', bits[11..15], bits[15..]);
        var t := MatchAt(bits);
        assert ([t] + Parse(bits[15..]))[1..] == Parse(bits[15..]);
        EmitsDecoding(PushAll(ring, Copied(ring, t.index, t.len)), bits[15..]);
      }
    }
  }

  /** The device decoder, started with `tail` in the ring bytes it does not initialise, emits the
      reference decoding of any byte stream, in whatever chunks the stream arrives. */
  lemma StreamingDecodes(tail: seq<byte>, chunks: seq<seq<byte>>)
    requires |tail| == F
    ensures FeedAll(Start(StartRing(tail)), chunks).out == Decode(StartRing(tail), Bits(Flatten(chunks)))
  {
    ChunkingIrrelevant(Start(StartRing(tail)), chunks);
    EmitsDecoding(StartRing(tail), Bits(Flatten(chunks)));
  }

  // ---- Leftovers of an earlier run ----

  /** Two bytes of code that copy from one ring position. */
  function Probe(index: nat): (code: seq<byte>)
    requires index < N
  {
    var bits := TokenBits(Match(index, 2)) + [false];
    PowersOfTwo();
    [Value(bits[..8]), Value(bits[8..])]
  }

  lemma ProbeBits(index: nat)
    requires index < N
    ensures Bits(Probe(index)) == TokenBits(Match(index, 2)) + [false]
  {
    var bits := TokenBits(Match(index, 2)) + [false];
    hide TokenBits;
    BitsOfValue(bits[..8]);
    BitsOfValue(bits[8..]);
    var code := Probe(index);
    assert code[1..] == [code[1]];
    assert Bits([code[1]]) == BitsOf(code[1], 8) + Bits([]);
    assert bits[..8] + bits[8..] == bits;
  }

  lemma ProbeReads(ring: Ring, index: nat)
    requires ValidRing(ring) && index < N
    ensures Decode(ring, Bits(Probe(index))) == Copied(ring, index, 2)
  {
    hide TokenBits, Probe, Copied, Parse;
    var t := Match(index, 2);
    ProbeBits(index);
    assert TokensBits([t]) == TokenBits(t) + TokensBits([]);
    assert Zeros(1) == [false];
    ParseTokens([t], 1);
    assert TokenBits(t) + [] + [false] == TokenBits(t) + [false];
    var out := Copied(ring, index, 2);
    assert Expand(ring, [t]) == out + Expand(PushAll(ring, out), [t][1..]);
    assert Expand(PushAll(ring, out), []) == [];
  }

  lemma ProbeSees(tail: seq<byte>, k: nat)
    requires |tail| == F && k < F
    ensures var out := Decode(StartRing(tail), Bits(Probe(N - F + k))); |out| == 2 && out[0] == tail[k]
  {
    hide Probe, Bits, Decode, Copied;
    ProbeReads(StartRing(tail), N - F + k);
    CopyHead(StartRing(tail), N - F + k);
  }

  lemma CopyHead(ring: Ring, index: nat)
    requires ValidRing(ring) && index < N
    ensures Copied(ring, index, 2)[0] == ring.buf[index]
  {
    assert index % N == index;
  }

  /** The device decoder agrees with the firmware tool's on every byte stream exactly when the
      ring bytes it leaves uninitialised are zero, as they are on its first run only. */
  lemma AgreesWithHostIffFresh(tail: seq<byte>)
    requires |tail| == F
    ensures (forall code: seq<byte> ::
               Decode(StartRing(tail), Bits(code)) == Decode(StartRing(seq(F, _ => 0)), Bits(code)))
            <==> tail == seq(F, _ => 0)
  {
    hide Decode, Bits, Probe, StartRing;
    var zeros: seq<byte> := seq(F, _ => 0);
    if tail != zeros {
      var k :| 0 <= k < F && tail[k] != 0;
      ProbeSees(tail, k);
      ProbeSees(zeros, k);
    }
  }
}
