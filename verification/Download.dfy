/** A whole download on a device: what the target slot's flash holds at the end. */
module Download {
  import opened Bytes
  import opened Flash
  import opened Manifest
  import opened NorCopy
  import opened Pipeline
  import opened Slots
  import opened Verifier
  import opened FsmSpec
  import opened FsmRuns
  import opened Fsm

  function Size(s: Slot): nat
    requires s.start <= s.end
  {
    s.end - s.start
  }

  /** While firmware is received, the slot holds all full buffers of it and is blank behind them. */
  lemma FlashLags(mc: Machine)
    requires mc.Valid() && mc.state == ReceiveFirmware
    ensures Flushed(|mc.delivered|) <= |mc.delivered|
    ensures Image(mc.d.cells, mc.slots[mc.id]) == SlotImage(Size(mc.slots[mc.id]), mc.delivered[..Flushed(|mc.delivered|)])
  {
    hide SlotImage, Image, Writer.Valid, Inv;
    var sink := mc.sink;
    WrittenImage(sink.next, mc.slots[mc.id]);
    FlushedIs(sink.next.written, sink.used);
    assert sink.next.Stored() == mc.delivered[..sink.next.written];
  }

  /** A call that goes on receiving keeps its target, or takes the oldest slot. */
  lemma TargetOf(cfg: Config, env: Env, s: Ctx, buf: seq<byte>)
    requires Inv(cfg, s) && |buf| > 0 && |env.scratch| == SIZE && (s.state == ReceiveManifest || s.state == ReceiveFirmware)
    ensures var r := Step(cfg, env, s, buf).s;
            && (s.state == ReceiveFirmware ==> r.id == s.id)
            && (s.state == ReceiveManifest && r.state == ReceiveFirmware ==> r.id == env.oldest)
            && (r.state == ReceiveManifest ==> r.id == s.id && r.delivered == s.delivered)
  {
    hide Inv, Accepted, Expected, ObjectVerdict, TargetImage;
    InvMeans(cfg, s);
  }

  /** The download goes, or will go, to slot `k`, which has room for it. */
  ghost predicate Aimed(mc: Machine, k: nat, n: nat)
    requires mc.Valid()
    reads mc.Frame()
  {
    && k == (if mc.state == ReceiveManifest then OldestSlot(mc.d.cells, mc.slots) else mc.id)
    && n <= Size(mc.slots[k])
  }

  /** One chunk of a download. `p` came before it. */
  method Take(mc: Machine, c: seq<byte>, rngOk: bool, scratch: seq<byte>,
              ghost m: seq<byte>, ghost all: seq<byte>, ghost p: seq<byte>, ghost k: nat)
    returns (err: Error)
    requires mc.Valid() && |m| == SIZE && Accepted(mc.Cfg(), m) && m <= all && Expected(m) == |all| && |scratch| == SIZE
    requires Midway(mc.Cfg(), mc.Abs(), m, p) && Aimed(mc, k, |all|) && |c| > 0 && p + c <= all
    modifies mc.Frame()
    ensures mc.Valid() && mc.Cfg() == old(mc.Cfg()) && Aimed(mc, k, |all|)
    ensures SameOutside(old(mc.d.cells), mc.d.cells, Object(mc.slots[k], WriteAll))
    ensures if p + c == all && |p| >= SIZE then Verified(mc.Cfg(), mc.Abs(), m, all) else Midway(mc.Cfg(), mc.Abs(), m, p + c)
    ensures p + c == all && |p| >= SIZE ==> Image(mc.d.cells, mc.slots[mc.id]) == TargetImage(mc.Cfg(), mc.Abs())
    ensures mc.sink == old(mc.sink) || (&& mc.sink != null && fresh(mc.sink) && fresh(mc.sink.data) && fresh(mc.sink.next)
                                            && mc.sink.next.d == mc.d)
  {
    hide Inv, Accepted, Expected, ObjectVerdict, TargetImage, Step, SameOutside, Zeroed, Machine.Writing, OldestSlot;
    ghost var cfg, env := mc.Cfg(), mc.Surroundings(rngOk, scratch);
    MidwayInv(cfg, mc.Abs(), m, p);
    TargetOf(cfg, env, mc.Abs(), c);
    if |p| < SIZE {
      ChunkOfManifest(cfg, mc.Abs(), env, m, all, p, c);
    } else {
      ChunkOfPayload(cfg, mc.Abs(), env, m, all, p, c);
    }
    SameStart(mc.d.cells, Object(mc.slots[k], WriteAll));
    err := mc.Call(c, rngOk, scratch);
  }

  lemma MidwayStarts(cfg: Config, s: Ctx, m: seq<byte>)
    requires |m| == SIZE && Inv(cfg, s) && s.state == ReceiveManifest && s.processed == 0
    ensures Midway(cfg, s, m, [])
  {}

  lemma {:induction false} FlattenSnoc(chunks: seq<seq<byte>>, k: nat)
    requires k < |chunks|
    ensures Flatten(chunks[..k + 1]) == Flatten(chunks[..k]) + chunks[k]
    decreases k
  {
    if k == 0 {
      assert chunks[..1][1..] == [] && chunks[..0] == [];
      assert chunks[0] + [] == chunks[0] && [] + chunks[0] == chunks[0];
    } else {
      FlattenSnoc(chunks[1..], k - 1);
      assert chunks[..k + 1][1..] == chunks[1..][..k] && chunks[..k][1..] == chunks[1..][..k - 1];
      Assoc(chunks[0], Flatten(chunks[1..][..k - 1]), chunks[k]);
    }
  }

  lemma NoPieces(chunks: seq<seq<byte>>)
    ensures Flatten(chunks[..0]) == []
  {}

  lemma Pieces(chunks: seq<seq<byte>>, k: nat)
    requires k < |chunks| && forall c :: c in chunks ==> |c| > 0
    ensures Flatten(chunks[k..]) == chunks[k] + Flatten(chunks[k + 1..])
    ensures Flatten(chunks[..k + 1]) == Flatten(chunks[..k]) + chunks[k]
    ensures k + 1 < |chunks| ==> |Flatten(chunks[k + 1..])| > 0
    ensures k + 1 == |chunks| ==> Flatten(chunks[k + 1..]) == []
  {
    FlattenSnoc(chunks, k);
    assert chunks[k..][1..] == chunks[k + 1..];
    if k + 1 < |chunks| {
      assert chunks[k + 1..][0] == chunks[k + 1] && chunks[k + 1] in chunks;
    }
  }

  lemma AtTheEnd(mc: Machine, m: seq<byte>, payload: seq<byte>, verified: bool)
    requires mc.Valid() && |m| == SIZE
    requires verified ==> Verified(mc.Cfg(), mc.Abs(), m, m + payload)
                          && Image(mc.d.cells, mc.slots[mc.id]) == TargetImage(mc.Cfg(), mc.Abs())
    requires !verified ==> Midway(mc.Cfg(), mc.Abs(), m, m + payload)
    ensures mc.delivered == Zeroed(m) + payload
    ensures var image, size := Image(mc.d.cells, mc.slots[mc.id]), Size(mc.slots[mc.id]);
            if verified then
              && image == SlotImage(size, Zeroed(m) + payload)
              && mc.state == if ObjectVerdict(mc.trust, image, FsmSpec.BUFFER_SIZE) == Success then Reboot else Idle
            else
              && mc.state == ReceiveFirmware
              && image == SlotImage(size, (Zeroed(m) + payload)[..Flushed(SIZE + |payload|)])
  {
    hide Inv, ObjectVerdict, SlotImage, Zeroed, Machine.Writing, Image;
    assert (m + payload)[SIZE..] == payload;
    if !verified {
      FlashLags(mc);
    }
  }

  /** All chunks but the last. */
  method TakeMost(mc: Machine, chunks: seq<seq<byte>>, rngOk: bool, scratch: seq<byte>,
                  ghost m: seq<byte>, ghost all: seq<byte>, ghost target: nat)
    requires mc.Valid() && mc.state == ReceiveManifest && mc.processed == 0 && |scratch| == SIZE
    requires chunks != [] && (forall c :: c in chunks ==> |c| > 0) && Flatten(chunks) == all
    requires |m| == SIZE && Accepted(mc.Cfg(), m) && m <= all && Expected(m) == |all| && Aimed(mc, target, |all|)
    modifies mc.Frame()
    ensures mc.Valid() && mc.Cfg() == old(mc.Cfg()) && Aimed(mc, target, |all|)
    ensures Midway(mc.Cfg(), mc.Abs(), m, Flatten(chunks[..|chunks| - 1]))
    ensures Flatten(chunks[..|chunks| - 1]) + chunks[|chunks| - 1] == all
    ensures SameOutside(old(mc.d.cells), mc.d.cells, Object(mc.slots[target], WriteAll))
    ensures mc.sink == old(mc.sink) || (&& mc.sink != null && fresh(mc.sink) && fresh(mc.sink.data) && fresh(mc.sink.next)
                                            && mc.sink.next.d == mc.d)
  {
    hide Inv, Accepted, Expected, Flatten, Midway, Verified, Machine.Writing, Image, OldestSlot, SameOutside, Disjoint, TargetImage;
    ghost var cfg, p: seq<byte> := mc.Cfg(), [];
    ghost var o := Object(mc.slots[target], WriteAll);
    SameStart(mc.d.cells, o);
    MidwayStarts(cfg, mc.Abs(), m);
    assert p + Flatten(chunks[0..]) == all by { assert chunks[0..] == chunks; }
    var k := 0;
    NoPieces(chunks);
    while k < |chunks| - 1
      invariant 0 <= k <= |chunks| - 1
      invariant mc.Valid() && mc.Cfg() == cfg && Midway(cfg, mc.Abs(), m, p) && Aimed(mc, target, |all|)
      invariant SameOutside(old(mc.d.cells), mc.d.cells, o)
      invariant p == Flatten(chunks[..k]) && p + Flatten(chunks[k..]) == all
      invariant mc.sink == old(mc.sink) || (&& mc.sink != null && fresh(mc.sink) && fresh(mc.sink.data) && fresh(mc.sink.next)
                                            && mc.sink.next.d == mc.d)
    {
      Pieces(chunks, k);
      Assoc(p, chunks[k], Flatten(chunks[k + 1..]));
      ghost var cells := mc.d.cells;
      var _ := Take(mc, chunks[k], rngOk, scratch, m, all, p, target);
      SameTrans(old(mc.d.cells), cells, mc.d.cells, o);
      p := p + chunks[k];
      k := k + 1;
    }
    Pieces(chunks, k);
    assert chunks[k] + [] == chunks[k];
  }

  /** A whole download, in any non-empty chunks, on the device. If the manifest was complete before the
      last chunk, the slot holds the manifest (`diff_version` zeroed) and the whole payload, and is
      blank behind them, whether verification passed or not. Otherwise the machine still waits, and
      the slot lacks exactly the bytes pending in the buffer. Either way that slot is the first of the
      oldest, and nothing outside it changed: not the running slot, if some slot was older. */
  method Download(mc: Machine, chunks: seq<seq<byte>>, rngOk: bool, scratch: seq<byte>, ghost m: seq<byte>, ghost payload: seq<byte>)
    requires mc.Valid() && mc.state == ReceiveManifest && mc.processed == 0 && |scratch| == SIZE
    requires chunks != [] && (forall c :: c in chunks ==> |c| > 0) && Flatten(chunks) == m + payload
    requires |m| == SIZE && Accepted(mc.Cfg(), m) && (ImageOffset(m) + PropSize(m)) % TWO32 == |m + payload|
    requires |m + payload| <= Size(mc.slots[OldestSlot(mc.d.cells, mc.slots)])
    modifies mc.Frame()
    ensures mc.Valid() && mc.Cfg() == old(mc.Cfg())
    ensures mc.delivered == Zeroed(m) + payload
    ensures SameOutside(old(mc.d.cells), mc.d.cells, Object(mc.slots[mc.id], WriteAll))
    ensures TookOldest(old(mc.d.cells), mc.d.cells, mc.slots, mc.id, mc.oldId)
    ensures var image, size := Image(mc.d.cells, mc.slots[mc.id]), Size(mc.slots[mc.id]);
            if |Flatten(chunks[..|chunks| - 1])| >= SIZE then
              && image == SlotImage(size, Zeroed(m) + payload)
              && mc.state == if ObjectVerdict(mc.trust, image, FsmSpec.BUFFER_SIZE) == Success then Reboot else Idle
            else
              && mc.state == ReceiveFirmware
              && image == SlotImage(size, (Zeroed(m) + payload)[..Flushed(SIZE + |payload|)])
  {
    hide ImageOffset, PropSize;
    assert Expected(m) == |m + payload|;
    hide Inv, Accepted, Expected, ObjectVerdict, TargetImage, SlotImage, Zeroed, Flatten, Midway, Verified, Machine.Writing, Image,
         OldestSlot, SameOutside, TookOldest, Disjoint;
    ghost var target := OldestSlot(mc.d.cells, mc.slots);
    ghost var o := Object(mc.slots[target], WriteAll);
    TakeMost(mc, chunks, rngOk, scratch, m, m + payload, target);
    var k := |chunks| - 1;
    ghost var cells, p := mc.d.cells, Flatten(chunks[..k]);
    var _ := Take(mc, chunks[k], rngOk, scratch, m, m + payload, p, target);
    SameTrans(old(mc.d.cells), cells, mc.d.cells, o);
    SameLength(old(mc.d.cells), mc.d.cells, o);
    AtTheEnd(mc, m, payload, |p| >= SIZE);
    OldestWasTaken(old(mc.d.cells), mc.d.cells, mc.slots, mc.id, mc.oldId);
  }
}
