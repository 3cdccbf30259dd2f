/** The device's patch applier as a transducer, and its refinement of the batch patcher. */
module PatchStream {
  import opened Bytes
  import opened PatchFormat

  /** Where a suspended applier waits for its next byte. */
  datatype Stage =
    | ReadHeader(j: nat)          // byte j of the 24-byte header
    | ReadCtrl(i: nat)            // control word i
    | Sum(i: nat)                 // diff byte i
    | Insert(i: nat)              // extra byte i
    | Finished
    | Failed

  /** The applier's static variables. `word` is the part of the current word read so far. */
  datatype Patcher = Patcher(stage: Stage, word: seq<byte>, c0: int, c1: int, c2: int,
                             oldpos: int, newpos: int, newsize: int)

  predicate ValidPatcher(p: Patcher) {
    match p.stage
    case ReadHeader(j) => j < 24 && |p.word| == if j < 16 then 0 else j - 16
    case ReadCtrl(i) => i < 3 && |p.word| < 8
    case Sum(i) => i < p.c0
    case Insert(i) => i < p.c1
    case Finished => true
    case Failed => true
  }

  function StartPatcher(): (p: Patcher)
    ensures ValidPatcher(p)
  {
    Patcher(ReadHeader(0), [], 0, 0, 0, 0, 0, 0)
  }

  /** The head of the loop: the next triple, or the end. */
  function NextTriple(p: Patcher): (p': Patcher)
    ensures ValidPatcher(p')
  {
    if p.newpos < p.newsize then p.(stage := ReadCtrl(0), word := []) else p.(stage := Finished)
  }

  function AfterInsert(p: Patcher): (p': Patcher)
    ensures ValidPatcher(p')
  {
    NextTriple(p.(newpos := p.newpos + p.c1, oldpos := p.oldpos + p.c2))
  }

  function AfterSum(p: Patcher): (p': Patcher)
    ensures ValidPatcher(p')
  {
    var q := p.(newpos := p.newpos + p.c0, oldpos := p.oldpos + p.c0);
    if q.newpos + q.c1 > q.newsize then q.(stage := Failed)
    else if q.c1 > 0 then q.(stage := Insert(0))
    else AfterInsert(q)
  }

  function AfterCtrl(p: Patcher): (p': Patcher)
    ensures ValidPatcher(p')
  {
    if p.newpos + p.c0 > p.newsize then p.(stage := Failed)
    else if p.c0 > 0 then p.(stage := Sum(0))
    else AfterSum(p)
  }

  datatype Step = Step(p: Patcher, out: seq<byte>)

  function HeaderByte(p: Patcher, b: byte): (p': Patcher)
    requires ValidPatcher(p) && p.stage.ReadHeader?
    ensures ValidPatcher(p')
  {
    var j := p.stage.j;
    if j < 16 then
      if b != MAGIC then p.(stage := Failed) else p.(stage := ReadHeader(j + 1))
    else if j < 23 then p.(stage := ReadHeader(j + 1), word := p.word + [b])
    else
      var q := p.(newsize := DeviceOffset(p.word + [b]), word := []);
      if q.newsize < 0 then q.(stage := Failed) else NextTriple(q)
  }

  /** Stores control word `i` and moves on. */
  function SetWord(p: Patcher, c: int): (p': Patcher)
    requires p.stage.ReadCtrl? && p.stage.i < 3
    ensures ValidPatcher(p')
  {
    match p.stage.i
    case 0 => p.(c0 := c, stage := ReadCtrl(1), word := [])
    case 1 => p.(c1 := c, stage := ReadCtrl(2), word := [])
    case _ => AfterCtrl(p.(c2 := c, word := []))
  }

  function CtrlByte(p: Patcher, b: byte): (p': Patcher)
    requires ValidPatcher(p) && p.stage.ReadCtrl?
    ensures ValidPatcher(p')
  {
    var word := p.word + [b];
    if |word| < 8 then p.(word := word)
    else
      SetWord(p, DeviceOffset(word))
  }

  /** What one byte of patch does. A read outside the old object fails. */
  function StepByte(prior: seq<byte>, p: Patcher, b: byte): (r: Step)
    requires ValidPatcher(p) && !p.stage.Finished? && !p.stage.Failed?
    ensures ValidPatcher(r.p)
  {
    match p.stage
    case ReadHeader(_) => Step(HeaderByte(p, b), [])
    case ReadCtrl(_) => Step(CtrlByte(p, b), [])
    case Sum(i) =>
      if !(0 <= p.oldpos + i < |prior|) then Step(p.(stage := Failed), [])
      else
        var out := [Wrap(b, prior[p.oldpos + i])];
        if i + 1 < p.c0 then Step(p.(stage := Sum(i + 1)), out) else Step(AfterSum(p), out)
    case Insert(i) =>
      if i + 1 < p.c1 then Step(p.(stage := Insert(i + 1)), [b]) else Step(AfterInsert(p), [b])
  }

  predicate Stopped(p: Patcher) {
    p.stage.Finished? || p.stage.Failed?
  }

  datatype Run = Run(p: Patcher, out: seq<byte>, used: nat)

  /** What a call does with a chunk: nothing once it has stopped. */
  function RunBytes(prior: seq<byte>, p: Patcher, s: seq<byte>): (r: Run)
    requires ValidPatcher(p)
    ensures ValidPatcher(r.p) && r.used <= |s|
    ensures r.used < |s| ==> Stopped(r.p)
    decreases |s|
  {
    if s == [] || Stopped(p) then Run(p, [], 0)
    else
      var first := StepByte(prior, p, s[0]);
      var rest := RunBytes(prior, first.p, s[1..]);
      Run(rest.p, first.out + rest.out, rest.used + 1)
  }

  lemma {:induction false} RunBytesAppend(prior: seq<byte>, p: Patcher, a: seq<byte>, b: seq<byte>)
    requires ValidPatcher(p)
    ensures var ra := RunBytes(prior, p, a);
            var rb := RunBytes(prior, ra.p, b);
            RunBytes(prior, p, a + b) == Run(rb.p, ra.out + rb.out, ra.used + rb.used)
    decreases |a|
  {
    if a == [] {
      assert a + b == b;
    } else if Stopped(p) {
    } else {
      var first := StepByte(prior, p, a[0]);
      RunBytesAppend(prior, first.p, a[1..], b);
      assert (a + b)[1..] == a[1..] + b;
      var ra := RunBytes(prior, first.p, a[1..]);
      Assoc(first.out, ra.out, RunBytes(prior, ra.p, b).out);
    }
  }

  // ---- Reading one triple ----

  lemma {:induction false} ReadWord(prior: seq<byte>, p: Patcher, s: seq<byte>)
    requires p.stage.ReadCtrl? && p.stage.i < 3 && |p.word| + |s| == 8 && |p.word| < 8
    ensures RunBytes(prior, p, s) == Run(CtrlByte(p.(word := (p.word + s)[..7]), (p.word + s)[7]), [], |s|)
    decreases |s|
  {
    hide DeviceOffset, SetWord;
    var first := StepByte(prior, p, s[0]);
    if |s| == 1 {
      assert p.word + s == p.word + [s[0]] && (p.word + s)[..7] == p.word;
      assert RunBytes(prior, first.p, s[1..]) == Run(first.p, [], 0);
    } else {
      ReadWord(prior, first.p, s[1..]);
      assert first.p.word + s[1..] == p.word + s;
    }
  }

  /** A complete control word moves on to the next. */
  lemma WholeWord(prior: seq<byte>, p: Patcher, s: seq<byte>)
    requires p.stage.ReadCtrl? && p.stage.i < 3 && p.word == [] && |s| == 8
    requires Abs(OffsetIn(s)) < TWO31
    ensures RunBytes(prior, p, s) == Run(SetWord(p, OffsetIn(s)), [], 8)
  {
    hide DeviceOffset, OffsetIn, RunBytes;
    assert [] + s == s;
    ReadWord(prior, p, s);
    assert s[..7] + [s[7]] == s;
    DeviceReadsSmallOffsets(s);
  }

  lemma Compose(prior: seq<byte>, p: Patcher, a: seq<byte>, ra: Run, b: seq<byte>, rb: Run)
    requires ValidPatcher(p) && ValidPatcher(ra.p)
    requires RunBytes(prior, p, a) == ra && RunBytes(prior, ra.p, b) == rb
    ensures RunBytes(prior, p, a + b) == Run(rb.p, ra.out + rb.out, ra.used + rb.used)
  {
    RunBytesAppend(prior, p, a, b);
  }

  /** The applier with the control words of a triple read. */
  function WithCtrl(p: Patcher, c0: int, c1: int, c2: int): Patcher {
    Patcher(ReadCtrl(2), [], c0, c1, c2, p.oldpos, p.newpos, p.newsize)
  }

  lemma ThreeWords(prior: seq<byte>, p: Patcher, s: seq<byte>)
    requires p.newpos < p.newsize && |s| == 24
    requires Abs(DiffLength(s)) < TWO31 && Abs(ExtraLength(s)) < TWO31 && Abs(Seek(s)) < TWO31
    ensures RunBytes(prior, NextTriple(p), s)
         == Run(AfterCtrl(WithCtrl(p, DiffLength(s), ExtraLength(s), Seek(s))), [], 24)
  {
    hide OffsetIn, RunBytes, AfterCtrl;
    var c0, c1, c2 := DiffLength(s), ExtraLength(s), Seek(s);
    var p0 := Patcher(ReadCtrl(0), [], p.c0, p.c1, p.c2, p.oldpos, p.newpos, p.newsize);
    var p1 := Patcher(ReadCtrl(1), [], c0, p.c1, p.c2, p.oldpos, p.newpos, p.newsize);
    var p2 := Patcher(ReadCtrl(2), [], c0, c1, p.c2, p.oldpos, p.newpos, p.newsize);
    var p3 := AfterCtrl(WithCtrl(p, c0, c1, c2));
    WholeWord(prior, p0, s[..8]);
    WholeWord(prior, p1, s[8..16]);
    WholeWord(prior, p2, s[16..24]);
    Compose(prior, p0, s[..8], Run(p1, [], 8), s[8..16], Run(p2, [], 8));
    Compose(prior, p0, s[..8] + s[8..16], Run(p2, [], 16), s[16..24], Run(p3, [], 8));
    assert s == s[..8] + s[8..16] + s[16..24];
  }

  lemma {:induction false} SumRun(prior: seq<byte>, p: Patcher, s: seq<byte>)
    requires p.stage.Sum? && p.stage.i + |s| == p.c0 && |s| > 0
    requires 0 <= p.oldpos && p.oldpos + p.c0 <= |prior|
    ensures RunBytes(prior, p, s) == Run(AfterSum(p), AddOld(prior, p.oldpos + p.stage.i, s), |s|)
    decreases |s|
  {
    var first := StepByte(prior, p, s[0]);
    var all := AddOld(prior, p.oldpos + p.stage.i, s);
    assert all[0] == Wrap(s[0], prior[p.oldpos + p.stage.i]);
    if |s| == 1 {
      assert all == first.out + [];
      assert RunBytes(prior, first.p, s[1..]) == Run(first.p, [], 0);
    } else {
      SumRun(prior, first.p, s[1..]);
      assert all == first.out + AddOld(prior, p.oldpos + (p.stage.i + 1), s[1..]);
    }
  }

  lemma {:induction false} InsertRun(prior: seq<byte>, p: Patcher, s: seq<byte>)
    requires p.stage.Insert? && p.stage.i + |s| == p.c1 && |s| > 0
    ensures RunBytes(prior, p, s) == Run(AfterInsert(p), s, |s|)
    decreases |s|
  {
    var first := StepByte(prior, p, s[0]);
    assert s == [s[0]] + s[1..];
    if |s| == 1 {
      assert RunBytes(prior, first.p, s[1..]) == Run(first.p, [], 0);
    } else {
      InsertRun(prior, first.p, s[1..]);
    }
  }

  // ---- Refinement of the batch patcher ----

  /** The applier past a triple's diff and extra bytes. */
  function Moved(p: Patcher): Patcher {
    Patcher(p.stage, p.word, p.c0, p.c1, p.c2, p.oldpos + p.c0 + p.c2, p.newpos + p.c0 + p.c1, p.newsize)
  }

  lemma InsertPart(prior: seq<byte>, p: Patcher, extra: seq<byte>)
    requires |extra| == p.c1 && p.newpos + p.c0 + p.c1 <= p.newsize
    ensures RunBytes(prior, AfterSum(p), extra) == Run(NextTriple(Moved(p)), extra, |extra|)
  {
    if extra != [] {
      InsertRun(prior, AfterSum(p), extra);
    }
  }

  lemma SumPart(prior: seq<byte>, p: Patcher, diff: seq<byte>)
    requires |diff| == p.c0 && p.newpos + p.c0 <= p.newsize
    requires p.c0 > 0 ==> 0 <= p.oldpos && p.oldpos + p.c0 <= |prior|
    ensures RunBytes(prior, AfterCtrl(p), diff) == Run(AfterSum(p), AddOld(prior, p.oldpos, diff), |diff|)
  {
    if diff != [] {
      SumRun(prior, AfterCtrl(p), diff);
    } else {
      assert AddOld(prior, p.oldpos, diff) == [];
    }
  }

  /** One triple: its control words, its diff bytes, its extra bytes. */
  lemma TripleRun(prior: seq<byte>, p: Patcher, ctrl: seq<byte>, diff: seq<byte>, extra: seq<byte>)
    requires |ctrl| == 24 && p.newpos < p.newsize
    requires DiffLength(ctrl) == |diff| < TWO31 && ExtraLength(ctrl) == |extra| < TWO31 && Abs(Seek(ctrl)) < TWO31
    requires p.newpos + |diff| + |extra| <= p.newsize
    requires |diff| > 0 ==> 0 <= p.oldpos && p.oldpos + |diff| <= |prior|
    ensures RunBytes(prior, NextTriple(p), ctrl + (diff + extra))
         == Run(NextTriple(Moved(WithCtrl(p, |diff|, |extra|, Seek(ctrl)))),
                AddOld(prior, p.oldpos, diff) + extra, 24 + |diff| + |extra|)
  {
    hide DiffLength, ExtraLength, Seek, RunBytes, AddOld, AfterCtrl, AfterSum, NextTriple, Moved;
    var q := WithCtrl(p, |diff|, |extra|, Seek(ctrl));
    ThreeWords(prior, p, ctrl);
    SumPart(prior, q, diff);
    InsertPart(prior, q, extra);
    var sum := AddOld(prior, p.oldpos, diff);
    var last := NextTriple(Moved(q));
    Compose(prior, AfterCtrl(q), diff, Run(AfterSum(q), sum, |diff|), extra, Run(last, extra, |extra|));
    Compose(prior, NextTriple(p), ctrl, Run(AfterCtrl(q), [], 24), diff + extra, Run(last, sum + extra, |diff| + |extra|));
  }

  /** On every complete patch body the device can follow, the applier emits exactly what the
      batch patcher builds, consumes exactly the bytes the batch patcher needs, and finishes. */
  lemma {:induction false} RefinesBatch(prior: seq<byte>, p: Patcher, s: seq<byte>)
    requires Streamable(prior, p.oldpos, p.newpos, p.newsize, s)
    requires Batch(prior, p.oldpos, p.newpos, p.newsize, s).Patched?
    ensures var r := RunBytes(prior, NextTriple(p), s);
            var b := Batch(prior, p.oldpos, p.newpos, p.newsize, s);
            r.p.stage.Finished? && r.out == b.out && r.used + |b.rest| == |s|
    decreases |s|
  {
    hide DiffLength, ExtraLength, Seek, DiffOf, ExtraOf, MoreOf, AddOld, RunBytes, HasTriple;
    if p.newpos < p.newsize {
      assert HasTriple(s);
      HasTripleMeans(s);
      TripleParts(s);
      TripleRun(prior, p, s[..24], DiffOf(s), ExtraOf(s));
      var q := Moved(WithCtrl(p, DiffLength(s), ExtraLength(s), Seek(s)));
      RefinesBatch(prior, q, MoreOf(s));
      RunBytesAppend(prior, NextTriple(p), s[..24] + (DiffOf(s) + ExtraOf(s)), MoreOf(s));
    } else {
      StoppedStays(prior, NextTriple(p), s);
    }
  }

  lemma HasTripleMeans(s: seq<byte>)
    requires HasTriple(s)
    ensures |s| >= 24 && DiffLength(s) >= 0 && ExtraLength(s) >= 0
  {}

  // ---- And nothing else finishes ----

  /** Fewer bytes than the control words need leave it reading them. */
  lemma {:induction false} CtrlWaits(prior: seq<byte>, p: Patcher, s: seq<byte>)
    requires ValidPatcher(p) && p.stage.ReadCtrl? && 8 * p.stage.i + |p.word| + |s| < 24
    ensures RunBytes(prior, p, s).p.stage.ReadCtrl?
    decreases |s|
  {
    hide DeviceOffset;
    if s != [] {
      CtrlWaits(prior, StepByte(prior, p, s[0]).p, s[1..]);
    }
  }

  /** Too few diff bytes, or one outside the old object, and it does not get past them. */
  lemma {:induction false} SumStays(prior: seq<byte>, p: Patcher, s: seq<byte>)
    requires ValidPatcher(p) && p.stage.Sum?
    requires p.stage.i + |s| < p.c0 || !(0 <= p.oldpos + p.stage.i && p.oldpos + p.c0 <= |prior|)
    ensures !RunBytes(prior, p, s).p.stage.Finished?
    decreases |s|
  {
    if s != [] {
      var first := StepByte(prior, p, s[0]);
      if first.p.stage.Sum? {
        SumStays(prior, first.p, s[1..]);
      }
    }
  }

  lemma {:induction false} InsertWaits(prior: seq<byte>, p: Patcher, s: seq<byte>)
    requires ValidPatcher(p) && p.stage.Insert? && p.stage.i + |s| < p.c1
    ensures RunBytes(prior, p, s).p.stage.Insert?
    decreases |s|
  {
    if s != [] {
      InsertWaits(prior, StepByte(prior, p, s[0]).p, s[1..]);
    }
  }

  /** The control words the applier comes to, as far as the body and the new image go, are such as both
      patchers read alike: lengths that are not negative, and magnitudes below 2^31. */
  ghost predicate Readable(newpos: int, newsize: int, s: seq<byte>)
    decreases |s|
  {
    newpos < newsize && |s| >= 24 ==>
      && 0 <= DiffLength(s) < TWO31 && 0 <= ExtraLength(s) < TWO31 && -TWO31 < Seek(s) < TWO31
      && (HasTriple(s) && newpos + DiffLength(s) + ExtraLength(s) <= newsize ==>
            Readable(newpos + DiffLength(s) + ExtraLength(s), newsize, MoreOf(s)))
  }

  /** Diff and extra bytes that are cut short, run past the new image or ask for bytes outside the old one. */
  lemma DataStays(prior: seq<byte>, q: Patcher, data: seq<byte>)
    requires 0 <= q.c0 && 0 <= q.c1
    requires || |data| < q.c0 + q.c1 || q.newpos + q.c0 + q.c1 > q.newsize
             || (q.c0 > 0 && !(0 <= q.oldpos && q.oldpos + q.c0 <= |prior|))
    ensures !RunBytes(prior, AfterCtrl(q), data).p.stage.Finished?
  {
    hide RunBytes, AddOld;
    if q.newpos + q.c0 > q.newsize {
      StoppedStays(prior, AfterCtrl(q), data);
    } else if q.c0 > 0 && (|data| < q.c0 || !(0 <= q.oldpos && q.oldpos + q.c0 <= |prior|)) {
      SumStays(prior, AfterCtrl(q), data);
    } else {
      SumPart(prior, q, data[..q.c0]);
      assert data == data[..q.c0] + data[q.c0..];
      RunBytesAppend(prior, AfterCtrl(q), data[..q.c0], data[q.c0..]);
      if q.newpos + q.c0 + q.c1 > q.newsize {
        StoppedStays(prior, AfterSum(q), data[q.c0..]);
      } else {
        InsertWaits(prior, AfterSum(q), data[q.c0..]);
      }
    }
  }

  /** A triple like that. */
  lemma BadTripleStays(prior: seq<byte>, p: Patcher, s: seq<byte>)
    requires p.newpos < p.newsize && |s| >= 24
    requires 0 <= DiffLength(s) < TWO31 && 0 <= ExtraLength(s) < TWO31 && Abs(Seek(s)) < TWO31
    requires || !HasTriple(s) || p.newpos + DiffLength(s) + ExtraLength(s) > p.newsize
             || (DiffLength(s) > 0 && !(0 <= p.oldpos && p.oldpos + DiffLength(s) <= |prior|))
    ensures !RunBytes(prior, NextTriple(p), s).p.stage.Finished?
  {
    hide DiffLength, ExtraLength, Seek, RunBytes, AfterCtrl, NextTriple;
    var q, data := WithCtrl(p, DiffLength(s), ExtraLength(s), Seek(s)), s[24..];
    WordsOf(s);
    ThreeWords(prior, p, s[..24]);
    assert s == s[..24] + data;
    RunBytesAppend(prior, NextTriple(p), s[..24], data);
    DataStays(prior, q, data);
  }

  lemma WordsOf(s: seq<byte>)
    requires |s| >= 24
    ensures DiffLength(s[..24]) == DiffLength(s) && ExtraLength(s[..24]) == ExtraLength(s) && Seek(s[..24]) == Seek(s)
  {
    hide OffsetIn;
    assert s[..24][..8] == s[..8] && s[..24][8..16] == s[8..16] && s[..24][16..24] == s[16..24];
  }

  /** So on every body with readable control words, complete or not, the applier finishes if and only if the
      batch patcher accepts the body and every old byte it asks for exists. */
  lemma {:induction false} FinishesIff(prior: seq<byte>, p: Patcher, s: seq<byte>)
    requires Readable(p.newpos, p.newsize, s)
    ensures RunBytes(prior, NextTriple(p), s).p.stage.Finished?
       <==> Batch(prior, p.oldpos, p.newpos, p.newsize, s).Patched? && Streamable(prior, p.oldpos, p.newpos, p.newsize, s)
    decreases |s|
  {
    hide DiffLength, ExtraLength, Seek, DiffOf, ExtraOf, MoreOf, AddOld, RunBytes, HasTriple;
    if p.newpos >= p.newsize {
      StoppedStays(prior, NextTriple(p), s);
    } else if |s| < 24 {
      CtrlWaits(prior, NextTriple(p), s);
      TooShort(s);
    } else if !HasTriple(s) || p.newpos + DiffLength(s) + ExtraLength(s) > p.newsize
              || (DiffLength(s) > 0 && !(0 <= p.oldpos && p.oldpos + DiffLength(s) <= |prior|)) {
      BadTripleStays(prior, p, s);
    } else {
      HasTripleMeans(s);
      TripleParts(s);
      TripleRun(prior, p, s[..24], DiffOf(s), ExtraOf(s));
      var q := Moved(WithCtrl(p, DiffLength(s), ExtraLength(s), Seek(s)));
      FinishesIff(prior, q, MoreOf(s));
      RunBytesAppend(prior, NextTriple(p), s[..24] + (DiffOf(s) + ExtraOf(s)), MoreOf(s));
    }
  }

  lemma TooShort(s: seq<byte>)
    requires |s| < 24
    ensures !HasTriple(s)
  {}

  /** A negative length is where they part: the tool refuses it, the applier takes it for a way back and emits
      more than the image announced. */
  lemma NegativeLengthDiffers(prior: seq<byte>, newsize: nat, extra: seq<byte>)
    requires 0 < newsize && |extra| == newsize + 1 < TWO31
    ensures var s := SignedWord(-1) + SignedWord(|extra|) + SignedWord(0) + extra;
            var r := RunBytes(prior, NextTriple(StartPatcher().(newsize := newsize)), s);
            && Batch(prior, 0, 0, newsize, s) == BadPatch && r.p.stage.Finished? && r.out == extra
  {
    hide SignedWord, OffsetIn, RunBytes;
    var p, ctrl := StartPatcher().(newsize := newsize), SignedWord(-1) + SignedWord(|extra|) + SignedWord(0);
    OffsetRoundTrip(-1);
    OffsetRoundTrip(|extra|);
    OffsetRoundTrip(0);
    assert ctrl[..8] == SignedWord(-1) && ctrl[8..16] == SignedWord(|extra|) && ctrl[16..24] == SignedWord(0);
    assert (ctrl + extra)[..24] == ctrl;
    WordsOf(ctrl + extra);
    ThreeWords(prior, p, ctrl);
    var q := WithCtrl(p, -1, |extra|, 0);
    InsertRun(prior, AfterCtrl(q), extra);
    RunBytesAppend(prior, NextTriple(p), ctrl, extra);
  }

  // ---- Whole patch files ----

  /** A header is taken if and only if its first sixteen bytes are right and the size is not negative. */
  lemma HeaderTakenIff(prior: seq<byte>, s: seq<byte>)
    requires |s| == 24
    ensures RunBytes(prior, StartPatcher(), s).p.stage.Failed?
       <==> (exists k :: 0 <= k < 16 && s[k] != MAGIC) || DeviceOffset(s[16..24]) < 0
    ensures RunBytes(prior, StartPatcher(), s).out == []
  {
    hide DeviceOffset, RunBytes;
    if exists k :: 0 <= k < 16 && s[k] != MAGIC {
      MagicFails(prior, StartPatcher(), s);
    } else {
      var magic, size := s[..16], s[16..24];
      var p := StartPatcher().(stage := ReadHeader(16));
      MagicRun(prior, StartPatcher(), magic);
      SizeRun(prior, p, size);
      assert [] + size == size && size[..7] + [size[7]] == size;
      assert s == magic + size;
      RunBytesAppend(prior, StartPatcher(), magic, size);
    }
  }

  lemma {:induction false} MagicFails(prior: seq<byte>, p: Patcher, s: seq<byte>)
    requires ValidPatcher(p) && p.stage.ReadHeader? && p.stage.j < 16
    requires exists k :: 0 <= k < |s| && p.stage.j + k < 16 && s[k] != MAGIC
    ensures var r := RunBytes(prior, p, s); r.p.stage.Failed? && r.out == []
    decreases |s|
  {
    var first := StepByte(prior, p, s[0]);
    if s[0] == MAGIC {
      var k :| 0 <= k < |s| && p.stage.j + k < 16 && s[k] != MAGIC;
      assert s[1..][k - 1] == s[k];
      MagicFails(prior, first.p, s[1..]);
    } else {
      StoppedStays(prior, first.p, s[1..]);
    }
  }

  lemma {:induction false} MagicRun(prior: seq<byte>, p: Patcher, s: seq<byte>)
    requires p.stage.ReadHeader? && p.word == [] && p.stage.j + |s| == 16
    requires forall k :: 0 <= k < |s| ==> s[k] == MAGIC
    ensures RunBytes(prior, p, s) == Run(p.(stage := ReadHeader(16)), [], |s|)
    decreases |s|
  {
    if s != [] {
      MagicRun(prior, StepByte(prior, p, s[0]).p, s[1..]);
    }
  }

  lemma {:induction false} SizeRun(prior: seq<byte>, p: Patcher, s: seq<byte>)
    requires p.stage.ReadHeader? && 16 <= p.stage.j < 24 && |p.word| == p.stage.j - 16
    requires p.stage.j + |s| == 24
    ensures RunBytes(prior, p, s)
         == Run(HeaderByte(p.(stage := ReadHeader(23), word := (p.word + s)[..7]), (p.word + s)[7]), [], |s|)
    decreases |s|
  {
    hide DeviceOffset, NextTriple;
    var first := StepByte(prior, p, s[0]);
    if |s| == 1 {
      assert p.word + s == p.word + [s[0]] && (p.word + s)[..7] == p.word;
      assert RunBytes(prior, first.p, s[1..]) == Run(first.p, [], 0);
    } else {
      SizeRun(prior, first.p, s[1..]);
      assert first.p.word + s[1..] == p.word + s;
    }
  }

  lemma HeaderRun(prior: seq<byte>, newsize: nat)
    requires newsize < TWO31
    ensures RunBytes(prior, StartPatcher(), Header(newsize))
         == Run(NextTriple(StartPatcher().(newsize := newsize)), [], 24)
  {
    hide SignedWord, DeviceOffset, OffsetIn, RunBytes;
    var magic: seq<byte>, size := seq(16, _ => MAGIC), SignedWord(newsize);
    var p := StartPatcher().(stage := ReadHeader(16));
    MagicRun(prior, StartPatcher(), magic);
    SizeRun(prior, p, size);
    assert [] + size == size && size[..7] + [size[7]] == size;
    OffsetRoundTrip(newsize);
    DeviceReadsSmallOffsets(size);
    RunBytesAppend(prior, StartPatcher(), magic, size);
  }

  /** Streaming refines batch: a patch file for `newsize` bytes that the tool accepts and the device
      can follow is applied with the same result, whatever trails the needed bytes. */
  lemma StreamingRefinesBatch(prior: seq<byte>, newsize: nat, body: seq<byte>, trailing: seq<byte>)
    requires newsize < TWO31
    requires Streamable(prior, 0, 0, newsize, body)
    requires Batch(prior, 0, 0, newsize, body).Patched?
    ensures var r := RunBytes(prior, StartPatcher(), Header(newsize) + body + trailing);
            var b := Batch(prior, 0, 0, newsize, body);
            r.p.stage.Finished? && r.out == b.out && r.used == 24 + |body| - |b.rest|
  {
    hide Batch, Streamable, Header, RunBytes;
    var p := StartPatcher().(newsize := newsize);
    HeaderRun(prior, newsize);
    RefinesBatch(prior, p, body);
    RunBytesAppend(prior, StartPatcher(), Header(newsize), body);
    var r := RunBytes(prior, StartPatcher(), Header(newsize) + body);
    RunBytesAppend(prior, StartPatcher(), Header(newsize) + body, trailing);
    StoppedStays(prior, r.p, trailing);
  }

  /** What a sequence of calls does. */
  function RunChunks(prior: seq<byte>, p: Patcher, chunks: seq<seq<byte>>): (r: Run)
    requires ValidPatcher(p)
    ensures ValidPatcher(r.p)
    decreases |chunks|
  {
    if chunks == [] then Run(p, [], 0)
    else
      var first := RunBytes(prior, p, chunks[0]);
      var rest := RunChunks(prior, first.p, chunks[1..]);
      Run(rest.p, first.out + rest.out, first.used + rest.used)
  }

  lemma {:induction false} ChunksAsOne(prior: seq<byte>, p: Patcher, chunks: seq<seq<byte>>)
    requires ValidPatcher(p)
    ensures RunChunks(prior, p, chunks) == RunBytes(prior, p, Flatten(chunks))
    decreases |chunks|
  {
    if chunks != [] {
      hide RunBytes;
      ChunksAsOne(prior, RunBytes(prior, p, chunks[0]).p, chunks[1..]);
      RunBytesAppend(prior, p, chunks[0], Flatten(chunks[1..]));
    }
  }

  /** Every way of splitting a patch file over calls gives the batch result. */
  lemma EveryChunking(prior: seq<byte>, newsize: nat, body: seq<byte>, trailing: seq<byte>, chunks: seq<seq<byte>>)
    requires newsize < TWO31
    requires Streamable(prior, 0, 0, newsize, body)
    requires Batch(prior, 0, 0, newsize, body).Patched?
    requires Flatten(chunks) == Header(newsize) + body + trailing
    ensures var r := RunChunks(prior, StartPatcher(), chunks);
            var b := Batch(prior, 0, 0, newsize, body);
            r.p.stage.Finished? && r.out == b.out && r.used == 24 + |body| - |b.rest|
  {
    hide *;
    StreamingRefinesBatch(prior, newsize, body, trailing);
    ChunksAsOne(prior, StartPatcher(), chunks);
  }

  /** It finishes with the last byte it needs and not before. */
  lemma FinishesExactly(prior: seq<byte>, newsize: nat, body: seq<byte>, k: nat)
    requires newsize < TWO31
    requires Streamable(prior, 0, 0, newsize, body)
    requires Batch(prior, 0, 0, newsize, body).Patched?
    requires k <= 24 + |body|
    ensures var needed := 24 + |body| - |Batch(prior, 0, 0, newsize, body).rest|;
            var r := RunBytes(prior, StartPatcher(), (Header(newsize) + body)[..k]);
            r.p.stage.Finished? == (k >= needed) && !r.p.stage.Failed?
  {
    hide Batch, Streamable, Header, RunBytes;
    var file := Header(newsize) + body;
    assert file + [] == file && file == file[..k] + file[k..];
    StreamingRefinesBatch(prior, newsize, body, []);
    RunBytesAppend(prior, StartPatcher(), file[..k], file[k..]);
    var r := RunBytes(prior, StartPatcher(), file[..k]);
    if Stopped(r.p) {
      StoppedStays(prior, r.p, file[k..]);
    } else {
      RunsOn(prior, r.p, file[k..]);
    }
  }

  /** Later calls of a stopped applier consume nothing, emit nothing and leave it as it is. */
  lemma StoppedStays(prior: seq<byte>, p: Patcher, s: seq<byte>)
    requires Stopped(p)
    ensures RunBytes(prior, p, s) == Run(p, [], 0)
  {}

  lemma RunsOn(prior: seq<byte>, p: Patcher, s: seq<byte>)
    requires ValidPatcher(p) && !Stopped(p)
    ensures RunBytes(prior, p, s).used == 0 ==> RunBytes(prior, p, s).p == p
  {}
}
