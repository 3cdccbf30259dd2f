/** The resumable decoders of the device pipeline: the patch applier and the LZSS decoder. */
module Stages {
  import opened Bytes
  import opened Flash
  import opened NorCopy
  import opened Pipeline
  import opened PatchFormat
  import opened PatchStream
  import LzssFormat
  import LzssStream
  import LzssHost

  /** The patch applier: its static variables, the old object it reads and the stage it feeds. */
  class PatchStage {
    const oldObj: MemObject
    const next: BufferStage
    var stage: Stage
    var word: seq<byte>
    var c0: int
    var c1: int
    var c2: int
    var oldpos: int
    var newpos: int
    var newsize: int

    ghost function Abs(): Patcher
      reads this
    {
      Patcher(stage, word, c0, c1, c2, oldpos, newpos, newsize)
    }

    ghost predicate Valid()
      reads this, next, next.data, next.next, next.next.d
    {
      && next.Valid() && ValidPatcher(Abs())
      && Placed(next.next.d, oldObj) && Apart(oldObj, next.next.obj)
    }

    /** The old object's bytes. */
    ghost function Prior(): seq<byte>
      requires Valid()
      reads this, next, next.data, next.next, next.next.d
    {
      Contents(next.next.d, oldObj)
    }

    constructor (oldObj: MemObject, next: BufferStage)
      requires next.Valid() && Placed(next.next.d, oldObj) && Apart(oldObj, next.next.obj)
      ensures Valid() && this.oldObj == oldObj && this.next == next && Abs() == StartPatcher()
    {
      this.oldObj, this.next := oldObj, next;
      stage, word, c0, c1, c2, oldpos, newpos, newsize := ReadHeader(0), [], 0, 0, 0, 0, 0, 0;
    }

    method EnterTriple()
      modifies this
      ensures Abs() == NextTriple(old(Abs()))
    {
      if newpos < newsize {
        stage, word := ReadCtrl(0), [];
      } else {
        stage := Finished;
      }
    }

    method LeaveInsert()
      modifies this
      ensures Abs() == AfterInsert(old(Abs()))
    {
      newpos := newpos + c1;
      oldpos := oldpos + c2;
      EnterTriple();
    }

    method LeaveSum()
      modifies this
      ensures Abs() == AfterSum(old(Abs()))
    {
      newpos := newpos + c0;
      oldpos := oldpos + c0;
      if newpos + c1 > newsize {
        stage := Failed;
      } else if c1 > 0 {
        stage := Insert(0);
      } else {
        LeaveInsert();
      }
    }

    method LeaveCtrl()
      modifies this
      ensures Abs() == AfterCtrl(old(Abs()))
    {
      if newpos + c0 > newsize {
        stage := Failed;
      } else if c0 > 0 {
        stage := Sum(0);
      } else {
        LeaveSum();
      }
    }

    method TakeHeader(b: byte) returns (ret: int)
      requires ValidPatcher(Abs()) && stage.ReadHeader?
      modifies this
      ensures Abs() == HeaderByte(old(Abs()), b) && (ret < 0 <==> stage.Failed?)
    {
      hide DeviceOffset;
      ret := 0;
      var j := stage.j;
      if j < 16 {
        if b != MAGIC {
          stage := Failed;
          return -1;
        }
        stage := ReadHeader(j + 1);
      } else if j < 23 {
        stage, word := ReadHeader(j + 1), word + [b];
      } else {
        newsize := DeviceOffset(word + [b]);
        word := [];
        if newsize < 0 {
          stage := Failed;
          return -2;
        }
        EnterTriple();
      }
    }

    method TakeCtrl(b: byte) returns (ret: int)
      requires ValidPatcher(Abs()) && stage.ReadCtrl?
      modifies this
      ensures Abs() == CtrlByte(old(Abs()), b) && (ret < 0 <==> stage.Failed?)
    {
      hide DeviceOffset;
      ret := 0;
      word := word + [b];
      if |word| == 8 {
        var c := DeviceOffset(word);
        word := [];
        match stage.i
        case 0 => c0, stage := c, ReadCtrl(1);
        case 1 => c1, stage := c, ReadCtrl(2);
        case _ =>
          c2 := c;
          LeaveCtrl();
          ret := if stage.Failed? then -1 else 0;
      }
    }

    /** Feeding the next stage leaves the old object alone. */
    method Emit(b: byte)
      requires Valid() && |next.Delivered()| + 1 <= next.next.Capacity()
      modifies next, next.data, next.next, next.next.d
      ensures Valid() && Prior() == old(Prior()) && next.Delivered() == old(next.Delivered()) + [b]
      ensures next.next.d.disciplined == old(next.next.d.disciplined)
      ensures SameOutside(old(next.next.d.cells), next.next.d.cells, next.next.obj)
    {
      hide BufferStage.Delivered, SameOutside;
      ghost var cells := next.next.d.cells;
      var _ := next.Feed([b]);
      SameLength(cells, next.next.d.cells, next.next.obj);
      SameSlot(cells, next.next.d.cells, next.next.obj, oldObj);
    }

    method TakeDiff(b: byte) returns (ret: int)
      requires Valid() && stage.Sum?
      requires |next.Delivered()| + |StepByte(Prior(), Abs(), b).out| <= next.next.Capacity()
      modifies this, next, next.data, next.next, next.next.d
      ensures Valid() && Prior() == old(Prior())
      ensures var r := StepByte(old(Prior()), old(Abs()), b);
              Abs() == r.p && next.Delivered() == old(next.Delivered()) + r.out
      ensures ret < 0 <==> stage.Failed?
      ensures next.next.d.disciplined == old(next.next.d.disciplined)
      ensures SameOutside(old(next.next.d.cells), next.next.d.cells, next.next.obj)
    {
      hide BufferStage.Delivered, BufferStage.Valid, SameOutside, Apart, AfterSum;
      var i := stage.i;
      if !(0 <= oldpos + i < oldObj.end - oldObj.start) {
        SameStart(next.next.d.cells, next.next.obj);
        stage := Failed;
        return -1;
      }
      var oldbuf := Flash.Read(next.next.d, oldObj, 1, oldpos + i);
      assert oldbuf[0] == Prior()[oldpos + i];
      Emit(Wrap(b, oldbuf[0]));
      if i + 1 < c0 {
        stage := Sum(i + 1);
      } else {
        LeaveSum();
      }
      ret := if stage.Failed? then -1 else 0;
    }

    method TakeExtra(b: byte) returns (ret: int)
      requires Valid() && stage.Insert?
      requires |next.Delivered()| + |StepByte(Prior(), Abs(), b).out| <= next.next.Capacity()
      modifies this, next, next.data, next.next, next.next.d
      ensures Valid() && Prior() == old(Prior())
      ensures var r := StepByte(old(Prior()), old(Abs()), b);
              Abs() == r.p && next.Delivered() == old(next.Delivered()) + r.out
      ensures ret < 0 <==> stage.Failed?
      ensures next.next.d.disciplined == old(next.next.d.disciplined)
      ensures SameOutside(old(next.next.d.cells), next.next.d.cells, next.next.obj)
    {
      hide BufferStage.Delivered, BufferStage.Valid, SameOutside, Apart;
      var i := stage.i;
      Emit(b);
      if i + 1 < c1 {
        stage := Insert(i + 1);
      } else {
        LeaveInsert();
      }
      ret := 0;
    }

    /** One byte of the patch. */
    method TakeByte(b: byte) returns (ret: int)
      requires Valid() && !Stopped(Abs())
      requires |next.Delivered()| + |StepByte(Prior(), Abs(), b).out| <= next.next.Capacity()
      modifies this, next, next.data, next.next, next.next.d
      ensures Valid() && Prior() == old(Prior())
      ensures var r := StepByte(old(Prior()), old(Abs()), b);
              Abs() == r.p && next.Delivered() == old(next.Delivered()) + r.out
      ensures ret < 0 <==> stage.Failed?
      ensures next.next.d.disciplined == old(next.next.d.disciplined)
      ensures SameOutside(old(next.next.d.cells), next.next.d.cells, next.next.obj)
    {
      hide BufferStage.Delivered, BufferStage.Valid, SameOutside, Apart, HeaderByte, CtrlByte, AfterSum, AfterInsert;
      if stage.Sum? {
        ret := TakeDiff(b);
      } else if stage.Insert? {
        ret := TakeExtra(b);
      } else {
        SameStart(next.next.d.cells, next.next.obj);
        ghost var all := next.Delivered();
        assert all + [] == all;
        if stage.ReadHeader? {
          ret := TakeHeader(b);
        } else {
          ret := TakeCtrl(b);
        }
      }
    }

    /** One call: consumes bytes until the chunk or the patch ends. It returns how many it
        consumed, or a negative number if the patch is bad. */
    method Feed(buf: seq<byte>) returns (ret: int)
      requires Valid() && !stage.Failed?
      requires |next.Delivered()| + |RunBytes(Prior(), Abs(), buf).out| <= next.next.Capacity()
      modifies this, next, next.data, next.next, next.next.d
      ensures Valid() && Prior() == old(Prior())
      ensures var r := RunBytes(old(Prior()), old(Abs()), buf);
              && Abs() == r.p && next.Delivered() == old(next.Delivered()) + r.out
              && (if r.p.stage.Failed? then ret < 0 else ret == r.used)
      ensures next.next.d.disciplined == old(next.next.d.disciplined)
      ensures SameOutside(old(next.next.d.cells), next.next.d.cells, next.next.obj)
    {
      hide BufferStage.Delivered, BufferStage.Valid, SameOutside, Apart, StepByte;
      ghost var cells0, all, prior := next.next.d.cells, next.Delivered(), Prior();
      ghost var whole := RunBytes(prior, Abs(), buf);
      SameStart(cells0, next.next.obj);
      ghost var done: seq<byte> := [];
      assert all + [] == all && [] + whole.out == whole.out && buf[0..] == buf;
      var p := 0;
      while p < |buf| && !stage.Finished?
        invariant Valid() && !stage.Failed? && p <= |buf| && Prior() == prior
        invariant next.Delivered() == all + done
        invariant var r := RunBytes(prior, Abs(), buf[p..]); whole == Run(r.p, done + r.out, p + r.used)
        invariant next.next.d.disciplined == old(next.next.d.disciplined)
        invariant SameOutside(cells0, next.next.d.cells, next.next.obj)
      {
        ghost var cells1, step := next.next.d.cells, StepByte(prior, Abs(), buf[p]);
        ghost var rest := RunBytes(prior, step.p, buf[p + 1..]);
        assert buf[p..][0] == buf[p] && buf[p..][1..] == buf[p + 1..];
        Assoc(done, step.out, rest.out);
        Assoc(all, done, step.out);
        var r := TakeByte(buf[p]);
        SameTrans(cells0, cells1, next.next.d.cells, next.next.obj);
        done := done + step.out;
        p := p + 1;
        if r < 0 {
          StoppedStays(prior, step.p, buf[p..]);
          assert done + [] == done;
          return r;
        }
      }
      assert done + [] == done;
      ret := p;
    }
  }

  // ---- The LZSS decoder ----

  /** Feeding `s` to an applier in state `p` leads without failure to state `fin` and brings what
      was delivered to `all`. */
  ghost predicate FeedsTo(prior: seq<byte>, p: Patcher, delivered: seq<byte>, s: seq<byte>, fin: Patcher, all: seq<byte>) {
    && ValidPatcher(p) && !fin.stage.Failed?
    && var q := RunBytes(prior, p, s); q.p == fin && delivered + q.out == all
  }

  lemma FeedsFirst(prior: seq<byte>, p: Patcher, delivered: seq<byte>, a: seq<byte>, b: seq<byte>, fin: Patcher, all: seq<byte>)
    requires FeedsTo(prior, p, delivered, a + b, fin, all)
    ensures var q := RunBytes(prior, p, a);
            && !p.stage.Failed? && !q.p.stage.Failed? && |delivered| + |q.out| <= |all|
            && FeedsTo(prior, q.p, delivered + q.out, b, fin, all)
  {
    hide RunBytes;
    var q := RunBytes(prior, p, a);
    RunBytesAppend(prior, p, a, b);
    Assoc(delivered, q.out, RunBytes(prior, q.p, b).out);
    if q.p.stage.Failed? {
      StoppedStays(prior, q.p, b);
    }
    if p.stage.Failed? {
      StoppedStays(prior, p, a + b);
    }
  }

  /** The decoder in state `st`, with `rest` still to read, brings the applier from `p` to `fin`. */
  ghost predicate DecodesTo(prior: seq<byte>, st: LzssStream.Stream, p: Patcher, delivered: seq<byte>, rest: seq<bool>,
                            fst: LzssStream.Stream, fin: Patcher, all: seq<byte>) {
    && LzssStream.ValidStream(st)
    && var r := LzssStream.RunBits(st, rest); r.st == fst && FeedsTo(prior, p, delivered, r.out, fin, all)
  }

  lemma DecodesFirst(prior: seq<byte>, st: LzssStream.Stream, p: Patcher, delivered: seq<byte>, bit: bool, rest: seq<bool>,
                     fst: LzssStream.Stream, fin: Patcher, all: seq<byte>)
    requires DecodesTo(prior, st, p, delivered, [bit] + rest, fst, fin, all)
    ensures var r := LzssStream.StepBit(st, bit);
            var q := RunBytes(prior, p, r.out);
            && ValidPatcher(p) && FeedsTo(prior, p, delivered, r.out, q.p, delivered + q.out)
            && |delivered + q.out| <= |all|
            && DecodesTo(prior, r.st, q.p, delivered + q.out, rest, fst, fin, all)
  {
    hide RunBytes, LzssStream.StepBit;
    assert ([bit] + rest)[1..] == rest;
    var r := LzssStream.StepBit(st, bit);
    FeedsFirst(prior, p, delivered, r.out, LzssStream.RunBits(r.st, rest).out, fin, all);
  }

  /** The LZSS decoder: the field it is reading, the ring, and the stage it feeds. Between two
      calls the last byte has been used up, so no mask is kept. */
  class LzssStage {
    const next: PatchStage
    const buffer: array<byte>
    var phase: LzssStream.Phase
    var s: nat
    var x: nat
    var i: nat
    var r: nat

    ghost function Abs(): LzssStream.Stream
      requires buffer.Length == 2 * LzssFormat.N
      reads this, buffer
    {
      LzssStream.Stream(phase, s, x, i, LzssFormat.Ring(buffer[..LzssFormat.N], r))
    }

    ghost predicate Valid()
      reads this, buffer, next, next.next, next.next.data, next.next.next, next.next.next.d
    {
      && buffer.Length == 2 * LzssFormat.N && LzssStream.ValidStream(Abs())
      && next.Valid() && buffer != next.next.data
    }

    /** A fresh start: the ring's first bytes are set to spaces, the others keep what they hold. */
    constructor (next: PatchStage, buffer: array<byte>)
      requires next.Valid() && buffer.Length == 2 * LzssFormat.N && buffer != next.next.data
      modifies buffer
      ensures Valid() && this.next == next && this.buffer == buffer
      ensures Abs() == LzssStream.Start(LzssFormat.StartRing(old(buffer[LzssFormat.N - LzssFormat.F..LzssFormat.N])))
      ensures next.Abs() == old(next.Abs()) && next.next.Delivered() == old(next.next.Delivered()) && next.Prior() == old(next.Prior())
    {
      this.next, this.buffer := next, buffer;
      phase, s, x, i, r := LzssStream.Flag, 0, 0, 0, LzssFormat.N - LzssFormat.F;
      new;
      for k := 0 to LzssFormat.N - LzssFormat.F
        invariant forall m :: 0 <= m < k ==> buffer[m] == LzssFormat.SPACE
        invariant forall m :: k <= m < buffer.Length ==> buffer[m] == old(buffer[m])
        modifies buffer
      {
        buffer[k] := LzssFormat.SPACE;
      }
      assert buffer[..LzssFormat.N]
          == LzssFormat.StartRing(old(buffer[LzssFormat.N - LzssFormat.F..LzssFormat.N])).buf;
    }

    ghost function Delivered(): seq<byte>
      requires Valid()
      reads this, buffer, next, next.next, next.next.data, next.next.next, next.next.next.d
    {
      next.next.Delivered()
    }

    /** Passes one byte on and keeps it in the ring. */
    method EmitByte(c: byte, ghost rest: seq<byte>, ghost fin: Patcher, ghost all: seq<byte>)
      requires Valid() && |all| <= next.next.next.Capacity()
      requires FeedsTo(next.Prior(), next.Abs(), Delivered(), [c] + rest, fin, all)
      modifies this, buffer, next, next.next, next.next.data, next.next.next, next.next.next.d
      ensures Valid() && next.Prior() == old(next.Prior())
      ensures FeedsTo(next.Prior(), next.Abs(), Delivered(), rest, fin, all)
      ensures LzssFormat.Ring(buffer[..LzssFormat.N], r) == LzssFormat.Push(LzssFormat.Ring(old(buffer[..LzssFormat.N]), old(r)), c)
      ensures phase == old(phase) && s == old(s) && x == old(x) && i == old(i)
      ensures next.next.next.d.disciplined == old(next.next.next.d.disciplined)
      ensures SameOutside(old(next.next.next.d.cells), next.next.next.d.cells, next.next.next.obj)
    {
      hide BufferStage.Delivered, SameOutside, FeedsTo, RunBytes;
      FeedsFirst(next.Prior(), next.Abs(), Delivered(), [c], rest, fin, all);
      var _ := next.Feed([c]);
      buffer[r] := c;
      r := (r + 1) % LzssFormat.N;
      assert buffer[..LzssFormat.N] == old(buffer[..LzssFormat.N])[old(r) := c];
    }

    /** Copies `n` bytes from the ring. */
    method EmitCopy(n: nat, ghost fin: Patcher, ghost all: seq<byte>)
      requires Valid() && |all| <= next.next.next.Capacity()
      requires FeedsTo(next.Prior(), next.Abs(), Delivered(), LzssFormat.Copied(Abs().ring, i, n), fin, all)
      modifies this, buffer, next, next.next, next.next.data, next.next.next, next.next.next.d
      ensures Valid() && next.Prior() == old(next.Prior())
      ensures FeedsTo(next.Prior(), next.Abs(), Delivered(), [], fin, all)
      ensures LzssFormat.Ring(buffer[..LzssFormat.N], r)
           == var g := LzssFormat.Ring(old(buffer[..LzssFormat.N]), old(r));
              LzssFormat.PushAll(g, LzssFormat.Copied(g, i, n))
      ensures phase == old(phase) && s == old(s) && x == old(x) && i == old(i)
      ensures next.next.next.d.disciplined == old(next.next.next.d.disciplined)
      ensures SameOutside(old(next.next.next.d.cells), next.next.next.d.cells, next.next.next.obj)
    {
      hide BufferStage.Delivered, SameOutside, FeedsTo, RunBytes, PatchStage.Valid, LzssStream.Width,
           LzssFormat.Copied, LzssFormat.PushAll;
      ghost var g, cells0 := Abs().ring, next.next.next.d.cells;
      ghost var out := LzssFormat.Copied(g, i, n);
      SameStart(cells0, next.next.next.obj);
      assert Abs().ring == g;
      var k := 0;
      while k < n
        invariant Valid() && k <= n && next.Prior() == old(next.Prior())
        invariant phase == old(phase) && s == old(s) && x == old(x) && i == old(i)
        invariant FeedsTo(next.Prior(), next.Abs(), Delivered(), LzssFormat.Copied(Abs().ring, i + k, n - k), fin, all)
        invariant LzssFormat.PushAll(Abs().ring, LzssFormat.Copied(Abs().ring, i + k, n - k)) == LzssFormat.PushAll(g, out)
        invariant next.next.next.d.disciplined == old(next.next.next.d.disciplined)
        invariant SameOutside(cells0, next.next.next.d.cells, next.next.next.obj)
      {
        ghost var ring, cells1 := Abs().ring, next.next.next.d.cells;
        var c := buffer[(i + k) % LzssFormat.N];
        ghost var rest := LzssFormat.Copied(LzssFormat.Push(ring, c), i + k + 1, n - k - 1);
        LzssFormat.CopiedStep(ring, i + k, n - k);
        EmitByte(c, rest, fin, all);
        SameTrans(cells0, cells1, next.next.next.d.cells, next.next.next.obj);
        k := k + 1;
      }
      LzssFormat.NothingCopied(Abs().ring, i + k);
    }

    /** What a complete field does: nothing yet, one literal, or a copy from the ring. */
    method EndField(v: nat, ghost fin: Patcher, ghost all: seq<byte>)
      requires Valid() && |all| <= next.next.next.Capacity() && v < Pow2(LzssStream.Width(phase))
      requires FeedsTo(next.Prior(), next.Abs(), Delivered(), LzssStream.Complete(Abs(), v).out, fin, all)
      modifies this, buffer, next, next.next, next.next.data, next.next.next, next.next.next.d
      ensures Valid() && next.Prior() == old(next.Prior())
      ensures Abs() == LzssStream.Complete(old(Abs()), v).st && next.Abs() == fin && Delivered() == all
      ensures next.next.next.d.disciplined == old(next.next.next.d.disciplined)
      ensures SameOutside(old(next.next.next.d.cells), next.next.next.d.cells, next.next.next.obj)
    {
      hide BufferStage.Delivered, SameOutside, FeedsTo, RunBytes, PatchStage.Valid, LzssFormat.Copied, LzssFormat.PushAll, Pow2;
      LzssFormat.PowersOfTwo();
      SameStart(next.next.next.d.cells, next.next.next.obj);
      ghost var st := Abs();
      s, x := 0, 0;
      match phase {
        case Flag =>
          phase := if v != 0 then LzssStream.LiteralBits else LzssStream.IndexBits;
        case LiteralBits =>
          phase, i := LzssStream.Flag, 0;
          assert [v] + [] == [v];
          EmitByte(v, [], fin, all);
        case IndexBits =>
          phase, i := LzssStream.LengthBits, v;
        case LengthBits =>
          phase := LzssStream.Flag;
          EmitCopy(v + 2, fin, all);
          i := 0;
      }
      FeedDone(next.Prior(), next.Abs(), Delivered(), fin, all);
    }

    /** One bit of the current field. */
    method TakeBit(bit: bool, ghost rest: seq<bool>, ghost fst: LzssStream.Stream, ghost fin: Patcher, ghost all: seq<byte>)
      requires Valid() && |all| <= next.next.next.Capacity()
      requires DecodesTo(next.Prior(), Abs(), next.Abs(), Delivered(), [bit] + rest, fst, fin, all)
      modifies this, buffer, next, next.next, next.next.data, next.next.next, next.next.next.d
      ensures Valid() && next.Prior() == old(next.Prior())
      ensures DecodesTo(next.Prior(), Abs(), next.Abs(), Delivered(), rest, fst, fin, all)
      ensures next.next.next.d.disciplined == old(next.next.next.d.disciplined)
      ensures SameOutside(old(next.next.next.d.cells), next.next.next.d.cells, next.next.next.obj)
    {
      hide BufferStage.Delivered, SameOutside, FeedsTo, DecodesTo, RunBytes, PatchStage.Valid, LzssStream.Complete;
      DecodesFirst(next.Prior(), Abs(), next.Abs(), Delivered(), bit, rest, fst, fin, all);
      ghost var res := LzssStream.StepBit(Abs(), bit);
      ghost var q := RunBytes(next.Prior(), next.Abs(), res.out);
      ghost var mid := Delivered() + q.out;
      var v := 2 * x + (if bit then 1 else 0);
      if s + 1 < LzssStream.Width(phase) {
        SameStart(next.next.next.d.cells, next.next.next.obj);
        s, x := s + 1, v;
        FeedDone(next.Prior(), next.Abs(), Delivered(), q.p, mid);
      } else {
        EndField(v, q.p, mid);
      }
    }

    /** The eight bits of one byte, from the top. */
    method TakeByte(b: byte, ghost rest: seq<bool>, ghost fst: LzssStream.Stream, ghost fin: Patcher, ghost all: seq<byte>)
      requires Valid() && |all| <= next.next.next.Capacity()
      requires DecodesTo(next.Prior(), Abs(), next.Abs(), Delivered(), BitsOf(b, 8) + rest, fst, fin, all)
      modifies this, buffer, next, next.next, next.next.data, next.next.next, next.next.next.d
      ensures Valid() && next.Prior() == old(next.Prior())
      ensures DecodesTo(next.Prior(), Abs(), next.Abs(), Delivered(), rest, fst, fin, all)
      ensures next.next.next.d.disciplined == old(next.next.next.d.disciplined)
      ensures SameOutside(old(next.next.next.d.cells), next.next.next.d.cells, next.next.next.obj)
    {
      hide BufferStage.Delivered, SameOutside, DecodesTo, PatchStage.Valid, BitsOf, BitTest, LzssStream.ValidStream;
      ghost var cells0 := next.next.next.d.cells;
      SameStart(cells0, next.next.next.obj);
      var mask: nat := 128;
      assert LzssHost.UnreadBits(b, mask) == BitsOf(b, 8);
      while mask != 0
        invariant mask == 0 || LzssHost.IsMask(mask)
        invariant Valid() && next.Prior() == old(next.Prior())
        invariant DecodesTo(next.Prior(), Abs(), next.Abs(), Delivered(), LzssHost.UnreadBits(b, mask) + rest, fst, fin, all)
        invariant next.next.next.d.disciplined == old(next.next.next.d.disciplined)
        invariant SameOutside(cells0, next.next.next.d.cells, next.next.next.obj)
        decreases mask
      {
        ghost var cells1 := next.next.next.d.cells;
        LzssHost.TopBit(b, mask);
        Assoc([BitTest(b, mask)], LzssHost.UnreadBits(b, mask / 2), rest);
        TakeBit(BitTest(b, mask), LzssHost.UnreadBits(b, mask / 2) + rest, fst, fin, all);
        SameTrans(cells0, cells1, next.next.next.d.cells, next.next.next.obj);
        mask := mask / 2;
      }
      assert [] + rest == rest;
    }

    /** One call, while nothing downstream fails: the whole chunk is used, and what its bits decode
        to is fed to the applier. */
    method Feed(buf: seq<byte>) returns (ret: int)
      requires Valid()
      requires var q := RunBytes(next.Prior(), next.Abs(), LzssStream.Feed(Abs(), buf).out);
               !q.p.stage.Failed? && |Delivered()| + |q.out| <= next.next.next.Capacity()
      modifies this, buffer, next, next.next, next.next.data, next.next.next, next.next.next.d
      ensures Valid() && ret == |buf| && next.Prior() == old(next.Prior())
      ensures var r := LzssStream.Feed(old(Abs()), buf);
              var q := RunBytes(old(next.Prior()), old(next.Abs()), r.out);
              Abs() == r.st && next.Abs() == q.p && Delivered() == old(Delivered()) + q.out
      ensures next.next.next.d.disciplined == old(next.next.next.d.disciplined)
      ensures SameOutside(old(next.next.next.d.cells), next.next.next.d.cells, next.next.next.obj)
    {
      hide BufferStage.Delivered, SameOutside, DecodesTo, RunBytes, BitsOf, LzssStream.RunBits, LzssStream.ValidStream;
      ghost var cells0, fst := next.next.next.d.cells, LzssStream.Feed(Abs(), buf);
      ghost var fin := RunBytes(next.Prior(), next.Abs(), fst.out);
      ghost var all := Delivered() + fin.out;
      DecodesStart(next.Prior(), Abs(), next.Abs(), Delivered(), Bits(buf));
      SameStart(cells0, next.next.next.obj);
      assert buf[0..] == buf;
      var p := 0;
      while p < |buf|
        invariant p <= |buf| && Valid() && next.Prior() == old(next.Prior())
        invariant DecodesTo(next.Prior(), Abs(), next.Abs(), Delivered(), Bits(buf[p..]), fst.st, fin.p, all)
        invariant next.next.next.d.disciplined == old(next.next.next.d.disciplined)
        invariant SameOutside(cells0, next.next.next.d.cells, next.next.next.obj)
      {
        ghost var cells1 := next.next.next.d.cells;
        assert buf[p..][0] == buf[p] && buf[p..][1..] == buf[p + 1..];
        TakeByte(buf[p], Bits(buf[p + 1..]), fst.st, fin.p, all);
        SameTrans(cells0, cells1, next.next.next.d.cells, next.next.next.obj);
        p := p + 1;
      }
      DecodesEnd(next.Prior(), Abs(), next.Abs(), Delivered(), fst.st, fin.p, all);
      ret := p;
    }
  }

  lemma DecodesStart(prior: seq<byte>, st: LzssStream.Stream, p: Patcher, delivered: seq<byte>, bits: seq<bool>)
    requires LzssStream.ValidStream(st) && ValidPatcher(p)
    requires !RunBytes(prior, p, LzssStream.RunBits(st, bits).out).p.stage.Failed?
    ensures var r := LzssStream.RunBits(st, bits);
            var q := RunBytes(prior, p, r.out);
            DecodesTo(prior, st, p, delivered, bits, r.st, q.p, delivered + q.out)
  {}

  lemma DecodesEnd(prior: seq<byte>, st: LzssStream.Stream, p: Patcher, delivered: seq<byte>,
                   fst: LzssStream.Stream, fin: Patcher, all: seq<byte>)
    requires DecodesTo(prior, st, p, delivered, [], fst, fin, all)
    ensures st == fst && p == fin && delivered == all
  {
    assert delivered + [] == delivered;
  }

  lemma FeedDone(prior: seq<byte>, p: Patcher, delivered: seq<byte>, fin: Patcher, all: seq<byte>)
    requires FeedsTo(prior, p, delivered, [], fin, all)
    ensures p == fin && delivered == all
  {
    assert delivered + [] == delivered;
  }
}
