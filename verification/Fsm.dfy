/** The update state machine on a device: the code of one call, refining its specification. */
module Fsm {
  import opened Bytes
  import opened Flash
  import opened NorCopy
  import opened Manifest
  import opened Slots
  import opened Pipeline
  import opened PatchFormat
  import opened Verifier
  import opened FsmSpec

  function Sizes(slots: seq<Slot>): (n: seq<nat>)
    requires forall k :: 0 <= k < |slots| ==> slots[k].start <= slots[k].end
    ensures |n| == |slots| && forall k :: 0 <= k < |slots| ==> n[k] == slots[k].end - slots[k].start
  {
    seq(|slots|, k requires 0 <= k < |slots| => slots[k].end - slots[k].start)
  }

  /** The oldest slot, as the machine would find it now. */
  function OldestSlot(cells: seq<byte>, slots: seq<Slot>): (k: nat)
    requires Within(|cells|, slots) && slots != []
    ensures k < |slots|
  {
    Oldest(Versions(cells, slots), Bootables(slots), false)
  }

  lemma OldestIsFirst(cells: seq<byte>, slots: seq<Slot>)
    requires Within(|cells|, slots) && slots != []
    ensures FirstOldest(Versions(cells, slots), OldestSlot(cells, slots))
  {
    hide Pick, Versions;
    Choices(Versions(cells, slots), Bootables(slots));
  }

  /** An update took the first of the oldest slots. If some slot was strictly older than slot `run`, that
      is another one than `run`, which is as it was. */
  ghost predicate TookOldest(cells0: seq<byte>, cells: seq<byte>, slots: seq<Slot>, id: nat, run: nat)
    requires Within(|cells0|, slots) && |cells| == |cells0| && id < |slots| && run < |slots|
  {
    var vs := Versions(cells0, slots);
    && FirstOldest(vs, id)
    && ((exists k :: 0 <= k < |vs| && vs[k] < vs[run]) ==>
          id != run && Image(cells, slots[run]) == Image(cells0, slots[run]))
  }

  lemma OldestWasTaken(cells0: seq<byte>, cells: seq<byte>, slots: seq<Slot>, id: nat, run: nat)
    requires slots != [] && Within(|cells0|, slots) && Disjoint(slots) && run < |slots| && id == OldestSlot(cells0, slots)
    requires SameOutside(cells0, cells, Object(slots[id], WriteAll))
    ensures |cells| == |cells0| && TookOldest(cells0, cells, slots, id, run)
  {
    hide OldestSlot, SameOutside, Versions;
    OldestIsFirst(cells0, slots);
    SameLength(cells0, cells, Object(slots[id], WriteAll));
    if id != run {
      SameSlot(cells0, cells, Object(slots[id], WriteAll), Object(slots[run], ReadOnly));
    }
  }

  class Machine {
    const d: Device
    const slots: seq<Slot>
    const trust: Trust
    const version: nat
    const oldId: nat
    const mt: array<byte>
    var state: State
    var processed: nat
    var expected: nat
    var id: nat
    var sink: BufferStage?
    ghost var delivered: seq<byte>

    ghost function Frame(): set<object>
      reads this
    {
      {this, mt, d} + if sink == null then {} else {sink, sink.data, sink.next, sink.next.d}
    }

    ghost function Cfg(): Config
      requires Within(|d.cells|, slots)
      reads d
    {
      Config(version, trust, Sizes(slots))
    }

    ghost function Abs(): Ctx
      reads this, mt
    {
      Ctx(state, processed, expected, id, mt[..], delivered)
    }

    /** The target slot is being written through `sink`. */
    ghost predicate Writing()
      reads Frame()
    {
      && sink != null && sink.Valid() && sink.data != mt && id < |slots|
      && sink.next.d == d && sink.next.obj == Object(slots[id], WriteAll)
      && sink.Delivered() == delivered && sink.used > 0
    }

    ghost predicate Valid()
      reads Frame()
    {
      && slots != [] && Laid(d, slots) && Disjoint(slots) && oldId < |slots|
      && (forall k :: 0 <= k < |slots| ==> slots[k].end - slots[k].start + BUFFER_SIZE < TWO32)
      && mt.Length == SIZE && Inv(Cfg(), Abs())
      && id < |slots| && |delivered| <= slots[id].end - slots[id].start
      && (state == ReceiveFirmware ==> Writing())
      && (state == Reboot ==> Image(d.cells, slots[id]) == TargetImage(Cfg(), Abs()))
    }

    /** Start-up: idle, nothing processed, and the newest image of the bootable slots running. */
    constructor (d: Device, slots: seq<Slot>, trust: Trust, mt: array<byte>)
      requires slots != [] && Laid(d, slots) && Disjoint(slots) && mt.Length == SIZE
      requires forall k :: 0 <= k < |slots| ==> slots[k].end - slots[k].start + BUFFER_SIZE < TWO32
      ensures Valid() && this.d == d && this.slots == slots && this.trust == trust && this.mt == mt
      ensures state == Idle && processed == 0 && sink == null
      ensures oldId == Newest(Versions(d.cells, slots), Bootables(slots), true) && version == Versions(d.cells, slots)[oldId]
      ensures slots[0].bootable ==> LeftmostBest(Versions(d.cells, slots), Bootables(slots), true, oldId)
    {
      hide Versions, Pick, LeftmostBest;
      Choices(Versions(d.cells, slots), Bootables(slots));
      var newest, v := GetOrdered(d, slots, true, true);
      this.d, this.slots, this.trust, this.mt := d, slots, trust, mt;
      oldId, version := newest, v;
      state, processed, expected, id, sink, delivered := Idle, 0, 0, 0, null, [];
    }

    /** Idle: the buffer should hold a version. */
    method InIdle(buf: seq<byte>) returns (err: Error)
      requires Within(|d.cells|, slots) && state == Idle
      modifies this`state
      ensures Outcome(Abs(), err) == IdleStep(Cfg(), old(Abs()), buf)
    {
      if |buf| != VERSION_LEN {
        state := Clean;
        return InvalidVersion;
      }
      if FromLittleEndian(buf) <= version {
        return Ok;
      }
      state := StartUpdate;
      return Ok;
    }

    method InClean(buf: seq<byte>) returns (err: Error)
      requires Within(|d.cells|, slots) && mt.Length == SIZE
      modifies this, mt
      ensures Outcome(Abs(), err)
           == IdleStep(Cfg(), old(Abs()).(state := Idle, processed := 0, id := 0, mt := seq(SIZE, _ => 0), delivered := []), buf)
      ensures id == 0 && delivered == [] && sink == old(sink)
    {
      hide IdleStep;
      forall k | 0 <= k < mt.Length {
        mt[k] := 0;
      }
      processed, id, delivered, state := 0, 0, [], Idle;
      assert mt[..] == seq(SIZE, _ => 0);
      err := InIdle(buf);
    }

    /** Copies bytes behind the manifest bytes already held, as many as fit. */
    method FillManifest(buf: seq<byte>) returns (n: nat)
      requires mt.Length == SIZE && processed <= SIZE
      modifies this`processed, mt
      ensures n == Min(SIZE - old(processed), |buf|) && processed == old(processed) + n
      ensures mt[..] == old(mt[..processed]) + buf[..n] + old(mt[..])[old(processed) + n..]
    {
      n := 0;
      while processed < SIZE && n < |buf|
        invariant processed == old(processed) + n <= SIZE && n <= |buf|
        invariant forall k :: 0 <= k < old(processed) ==> mt[k] == old(mt[k])
        invariant forall k :: old(processed) <= k < processed ==> mt[k] == buf[k - old(processed)]
        invariant forall k :: processed <= k < SIZE ==> mt[k] == old(mt[k])
      {
        mt[processed] := buf[n];
        processed := processed + 1;
        n := n + 1;
      }
    }

    /** Erases the oldest slot and puts a new buffer in front of it. */
    method OpenTarget()
      requires slots != [] && Laid(d, slots)
      modifies this`id, this`sink, d
      ensures Laid(d, slots) && id == OldestSlot(old(d.cells), slots)
      ensures sink != null && fresh(sink) && fresh(sink.data) && fresh(sink.next) && sink.Valid()
      ensures sink.next.d == d && sink.next.obj == Object(slots[id], WriteAll) && sink.Delivered() == []
      ensures SameOutside(old(d.cells), d.cells, Object(slots[id], WriteAll)) && d.disciplined == old(d.disciplined)
    {
      hide SameOutside, Writer.Valid, Versions, Aligned;
      var k, _ := GetOrdered(d, slots, false, false);
      id := k;
      var o := Flash.Open(d, slots[k].start, slots[k].end, WriteAll);
      OpenKeeps(old(d.cells), d.cells, o);
      var writer := NewWriter(d, o);
      sink := new BufferStage(writer);
    }

    /** Erases the oldest slot and stores the manifest and what came with it through a new buffer. */
    method StoreHead(rest: seq<byte>)
      requires slots != [] && Laid(d, slots) && mt.Length == SIZE
      requires SIZE + |rest| <= Sizes(slots)[OldestSlot(d.cells, slots)]
      modifies this`id, this`sink, this`delivered, d
      ensures Laid(d, slots) && Writing() && fresh(sink) && fresh(sink.data) && fresh(sink.next)
      ensures id == OldestSlot(old(d.cells), slots) && delivered == mt[..] + rest
      ensures SameOutside(old(d.cells), d.cells, Object(slots[id], WriteAll)) && d.disciplined == old(d.disciplined)
    {
      hide BufferStage.Delivered, SameOutside, Writer.Valid, Aligned, Within, OldestSlot;
      OpenTarget();
      var o := Object(slots[id], WriteAll);
      ghost var cells := d.cells;
      var _ := sink.Feed(mt[..]);
      SameTrans(old(d.cells), cells, d.cells, o);
      cells := d.cells;
      assert [] + mt[..] == mt[..];
      if |rest| > 0 {
        var _ := sink.Feed(rest);
        SameTrans(old(d.cells), cells, d.cells, o);
      } else {
        assert mt[..] + rest == mt[..];
      }
      delivered := mt[..] + rest;
      SameLength(old(d.cells), d.cells, o);
      WriterPlaced(sink.next);
    }

    /** An accepted manifest, stored without its `diff_version`. */
    method KeepManifest(rest: seq<byte>)
      requires slots != [] && Laid(d, slots) && mt.Length == SIZE
      requires SIZE + |rest| <= Sizes(slots)[OldestSlot(d.cells, slots)]
      modifies this, mt, d
      ensures Laid(d, slots) && Writing() && fresh(sink) && fresh(sink.data) && fresh(sink.next)
      ensures var z := Zeroed(old(mt[..]));
              Abs() == old(Abs()).(mt := z, id := OldestSlot(old(d.cells), slots), delivered := z + rest,
                                   processed := old(processed) + |rest|, expected := Expected(z), state := ReceiveFirmware)
      ensures SameOutside(old(d.cells), d.cells, Object(slots[id], WriteAll)) && d.disciplined == old(d.disciplined)
    {
      hide BufferStage.Valid, BufferStage.Delivered, SameOutside, ImageOffset, PropSize, OldestSlot;
      mt[DIFF_VERSION_AT], mt[DIFF_VERSION_AT + 1] := 0, 0;
      assert mt[..] == Zeroed(old(mt[..]));
      StoreHead(rest);
      processed := processed + |rest|;
      expected := (ImageOffset(mt[..]) + PropSize(mt[..])) % TWO32;
      state := ReceiveFirmware;
    }

    /** A complete manifest. It is taken exactly if its version is newer, it is for this application and
        it is signed; then the first of the oldest slots is erased for it. Otherwise the flash stays. */
    method TakeManifest(rest: seq<byte>, ghost env: Env) returns (err: Error)
      requires slots != [] && Laid(d, slots) && mt.Length == SIZE && processed == SIZE && id < |slots|
      requires env.oldest == OldestSlot(d.cells, slots)
      requires Accepted(Cfg(), mt[..]) ==> SIZE + |rest| <= Sizes(slots)[env.oldest]
      modifies this, mt, d
      ensures state == ReceiveFirmware <==>
              old(Version(mt[..])) > version && old(AppId(mt[..])) == trust.appid && trust.signed(old(mt[..]))
      ensures state == ReceiveFirmware ==> id < |slots| && FirstOldest(old(Versions(d.cells, slots)), id)
      ensures Laid(d, slots) && Outcome(Abs(), err) == ManifestStep(Cfg(), env, old(Abs()), rest)
      ensures state == ReceiveFirmware ==> Writing() && fresh(sink) && fresh(sink.data) && fresh(sink.next)
      ensures state != ReceiveFirmware ==> sink == old(sink) && d.cells == old(d.cells)
      ensures id < |slots| && SameOutside(old(d.cells), d.cells, Object(slots[id], WriteAll))
      ensures d.disciplined == old(d.disciplined)
    {
      hide BufferStage.Valid, BufferStage.Delivered, SameOutside, Version, AppId, ManifestVerdict, Expected, Zeroed, Versions,
           OldestSlot, FirstOldest, Writing;
      OldestIsFirst(d.cells, slots);
      SameStart(d.cells, Object(slots[id], WriteAll));
      state := Clean;
      if Version(mt[..]) <= version {
        return BadSignature;
      }
      var verdict := Verifier.VerifyManifest(trust, mt[..]);
      if verdict != Success {
        return BadSignature;
      }
      KeepManifest(rest);
      err := Ok;
    }

    method InReceiveManifest(buf: seq<byte>, ghost env: Env) returns (err: Error)
      requires slots != [] && Laid(d, slots) && mt.Length == SIZE && state == ReceiveManifest && id < |slots|
      requires env.oldest == OldestSlot(d.cells, slots)
      requires var r := ReceiveManifestStep(Cfg(), env, Abs(), buf).s; r.state == ReceiveFirmware ==> |r.delivered| <= Sizes(slots)[r.id]
      modifies this, mt, d
      ensures Laid(d, slots) && Outcome(Abs(), err) == ReceiveManifestStep(Cfg(), env, old(Abs()), buf)
      ensures state == ReceiveFirmware ==> Writing() && fresh(sink) && fresh(sink.data) && fresh(sink.next)
      ensures state != ReceiveFirmware ==> sink == old(sink) && d.cells == old(d.cells)
      ensures id < |slots| && SameOutside(old(d.cells), d.cells, Object(slots[id], WriteAll))
      ensures d.disciplined == old(d.disciplined)
    {
      hide BufferStage.Valid, BufferStage.Delivered, SameOutside, Accepted, Expected, Versions;
      SameStart(d.cells, Object(slots[id], WriteAll));
      if processed > SIZE {
        state := Clean;
        return InvalidState;
      }
      var n := FillManifest(buf);
      if processed < SIZE {
        return Ok;
      }
      err := TakeManifest(buf[n..], env);
    }

    /** Flushes nothing more: opens the slot for reading and verifies it. */
    method TakeVerdict(scratch: seq<byte>, ghost env: Env) returns (err: Error)
      requires slots != [] && Laid(d, slots) && mt.Length == SIZE == |scratch| && id < |slots| && env.scratch == scratch
      requires slots[id].end - slots[id].start + BUFFER_SIZE < TWO32
      requires |delivered| >= SIZE && Image(d.cells, slots[id]) == TargetImage(Cfg(), Abs())
      modifies this, mt
      ensures Outcome(Abs(), err) == VerifyStep(Cfg(), env, old(Abs()))
      ensures sink == old(sink) && id == old(id) && delivered == old(delivered)
    {
      hide TargetImage, ObjectVerdict;
      var o := Object(slots[id], ReadOnly);
      var verdict := VerifyObject(trust, d, o, BUFFER_SIZE);
      forall k | 0 <= k < SIZE {
        mt[k] := scratch[k];
      }
      assert mt[..] == scratch;
      if verdict != Success {
        state := Idle;
        return Verification(verdict);
      }
      state := Reboot;
      err := Ok;
    }

    /** Passes a chunk on, and the buffer too once everything has arrived. */
    method Deliver(buf: seq<byte>)
      requires Valid() && state == ReceiveFirmware && |delivered| + |buf| <= slots[id].end - slots[id].start
      modifies this`processed, this`delivered, sink, sink.data, sink.next, d
      ensures Laid(d, slots) && sink == old(sink) && |d.cells| == old(|d.cells|)
      ensures processed == old(processed) + |buf| && delivered == old(delivered) + buf
      ensures processed != expected ==> Writing()
      ensures processed == expected ==> Image(d.cells, slots[id]) == SlotImage(slots[id].end - slots[id].start, delivered)
      ensures SameOutside(old(d.cells), d.cells, Object(slots[id], WriteAll)) && d.disciplined == old(d.disciplined)
    {
      hide BufferStage.Delivered, SameOutside, Writer.Valid, Aligned, Inv, SlotImage, TargetImage;
      var o := Object(slots[id], WriteAll);
      var ret := sink.Feed(buf);
      ghost var cells := d.cells;
      delivered := delivered + buf;
      processed := processed + ret;
      if processed == expected {
        sink.Clear();
        SameTrans(old(d.cells), cells, d.cells, o);
        WrittenImage(sink.next, slots[id]);
      }
      SameLength(old(d.cells), d.cells, o);
      WriterPlaced(sink.next);
    }

    method InReceiveFirmware(buf: seq<byte>, scratch: seq<byte>, ghost env: Env) returns (err: Error)
      requires Valid() && state == ReceiveFirmware && |scratch| == SIZE && env.scratch == scratch
      requires processed + |buf| <= expected ==> |delivered| + |buf| <= slots[id].end - slots[id].start
      modifies Frame()
      ensures Laid(d, slots) && Outcome(Abs(), err) == FirmwareStep(Cfg(), env, old(Abs()), buf)
      ensures sink == old(sink) && id == old(id) && |delivered| <= slots[id].end - slots[id].start
      ensures state == ReceiveFirmware ==> Writing()
      ensures state == Reboot || state == Idle ==> Image(d.cells, slots[id]) == TargetImage(Cfg(), Abs())
      ensures SameOutside(old(d.cells), d.cells, Object(slots[id], WriteAll)) && d.disciplined == old(d.disciplined)
    {
      hide BufferStage.Valid, BufferStage.Delivered, SameOutside, Version, ObjectVerdict, SlotImage;
      SameStart(d.cells, Object(slots[id], WriteAll));
      if processed + |buf| > expected {
        state := Clean;
        return InvalidSize;
      }
      Deliver(buf);
      if processed != expected {
        return Ok;
      }
      err := TakeVerdict(scratch, env);
    }

    /** What the outside contributes to a call made now. */
    ghost function Surroundings(rngOk: bool, scratch: seq<byte>): Env
      requires slots != [] && Within(|d.cells|, slots)
      reads d
    {
      Env(rngOk, OldestSlot(d.cells, slots), scratch)
    }

    /** One call of the machine with a non-empty buffer, whatever it holds, as long as what is
        delivered fits the target slot. It does what the specification says, keeps the invariant,
        and changes no byte of the flash outside the target slot. A call that takes a manifest takes the
        first of the oldest slots for it. */
    method Call(buf: seq<byte>, rngOk: bool, scratch: seq<byte>) returns (err: Error)
      requires Valid() && |buf| > 0 && |scratch| == SIZE
      requires var r := Step(Cfg(), Surroundings(rngOk, scratch), Abs(), buf).s; |r.delivered| <= Sizes(slots)[r.id]
      modifies Frame()
      ensures Valid() && Outcome(Abs(), err) == Step(Cfg(), old(Surroundings(rngOk, scratch)), old(Abs()), buf)
      ensures sink == old(sink) || (sink != null && fresh(sink) && fresh(sink.data) && fresh(sink.next) && sink.next.d == d)
      ensures old(state) != ReceiveFirmware && state != ReceiveFirmware ==> d.cells == old(d.cells)
      ensures old(state) == ReceiveFirmware && (state == Reboot || state == Idle) ==>
                Image(d.cells, slots[id]) == TargetImage(Cfg(), Abs())
      ensures SameOutside(old(d.cells), d.cells, Object(slots[id], WriteAll)) && d.disciplined == old(d.disciplined)
      ensures old(state) == ReceiveManifest && state == ReceiveFirmware ==> TookOldest(old(d.cells), d.cells, slots, id, oldId)
    {
      hide BufferStage.Valid, BufferStage.Delivered, SameOutside, TargetImage, Versions, Inv, OldestSlot, Disjoint, TookOldest,
           IdleStep, ReceiveManifestStep, FirmwareStep;
      ghost var env := Surroundings(rngOk, scratch);
      SameStart(d.cells, Object(slots[id], WriteAll));
      SameStart(d.cells, Object(slots[0], WriteAll));
      InvStates(Cfg(), Abs());
      match state {
        case Clean =>
          err := InClean(buf);
          IdleStates(Cfg(), old(Abs()).(state := Idle, processed := 0, id := 0, mt := seq(SIZE, _ => 0), delivered := []), buf);
        case Idle =>
          err := InIdle(buf);
          IdleStates(Cfg(), old(Abs()), buf);
        case StartUpdate =>
          if |buf| < MSG_LEN {
            state, err := Clean, InvalidState;
          } else if !rngOk {
            state, err := Clean, RngFailed;
          } else {
            state, err := ReceiveManifest, Ok;
          }
        case ReceiveManifest =>
          ManifestStates(Cfg(), env, Abs(), buf);
          err := InReceiveManifest(buf, env);
          if state == ReceiveFirmware {
            OldestWasTaken(old(d.cells), d.cells, slots, id, oldId);
          }
        case ReceiveFirmware =>
          FirmwareFits(Cfg(), env, Abs(), buf);
          err := InReceiveFirmware(buf, scratch, env);
        case _ =>
          err := Ok;
      }
    }
  }

  lemma InvStates(cfg: Config, s: Ctx)
    requires Inv(cfg, s)
    ensures s.state != VerifyManifest && s.state != VerifyFirmware
    ensures s.state == ReceiveFirmware ==> |s.delivered| >= SIZE
  {}

  lemma IdleStates(cfg: Config, s: Ctx, buf: seq<byte>)
    requires s.state == Idle
    ensures var r := IdleStep(cfg, s, buf).s; r.state in {Clean, Idle, StartUpdate} && r.id == s.id && r.delivered == s.delivered
  {}

  lemma ManifestStates(cfg: Config, env: Env, s: Ctx, buf: seq<byte>)
    requires |s.mt| == SIZE && s.state == ReceiveManifest
    ensures var r := ReceiveManifestStep(cfg, env, s, buf).s; r.state in {Clean, ReceiveManifest, ReceiveFirmware}
    ensures var r := ReceiveManifestStep(cfg, env, s, buf).s;
            if r.state == ReceiveFirmware then r.id == env.oldest else r.id == s.id && r.delivered == s.delivered
  {}

  lemma FirmwareFits(cfg: Config, env: Env, s: Ctx, buf: seq<byte>)
    requires |s.delivered| >= SIZE
    ensures s.processed + |buf| <= s.expected ==>
              var r := FirmwareStep(cfg, env, s, buf).s; r.id == s.id && r.delivered == s.delivered + buf
  {}

  /** A slot written to the end of what was stored, and blank behind it. */
  lemma WrittenImage(w: Writer, s: Slot)
    requires w.Valid() && w.obj == Object(s, WriteAll)
    ensures Image(w.d.cells, s) == SlotImage(s.end - s.start, w.Stored())
  {
    var c, e := Image(w.d.cells, s), SlotImage(s.end - s.start, w.Stored());
    forall k | 0 <= k < |c|
      ensures c[k] == e[k]
    {
      assert c[k] == w.d.cells[s.start + k];
      assert k < w.written ==> w.Stored()[k] == c[k];
      assert k >= w.written ==> w.d.clean[s.start + k];
    }
  }

  lemma WriterPlaced(w: Writer)
    requires w.Valid()
    ensures Placed(w.d, w.obj)
  {}

  lemma OpenKeeps(cells0: seq<byte>, cells: seq<byte>, o: MemObject)
    requires |cells| == |cells0| && forall a :: 0 <= a < |cells| && !(o.start <= a < o.end) ==> cells[a] == cells0[a]
    ensures SameOutside(cells0, cells, o)
  {}

  method NewWriter(d: Device, o: MemObject) returns (w: Writer)
    requires Placed(d, o) && o.mode == WriteAll && forall a :: o.start <= a < o.end ==> d.clean[a]
    ensures fresh(w) && w.Valid() && w.d == d && w.obj == o && w.Stored() == []
  {
    w := new Writer(d, o);
  }
}
