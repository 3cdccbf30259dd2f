/** A differential update, from the firmware tool to the slot. */
module DeltaUpdate {
  import opened Bytes
  import opened Flash
  import opened NorCopy
  import opened Pipeline
  import opened Stages
  import opened PatchStream
  import LzssFormat
  import LzssHost
  import LzssStream
  import opened Delta

  /** Feeds every chunk to the head of the pipeline. */
  method FeedChunks(lzss: LzssStage, chunks: seq<seq<byte>>, ghost fin: Patcher, ghost all: seq<byte>)
    requires lzss.Valid() && |all| <= lzss.next.next.next.Capacity()
    requires FeedsTo(lzss.next.Prior(), lzss.next.Abs(), lzss.Delivered(), LzssStream.FeedAll(lzss.Abs(), chunks).out, fin, all)
    modifies lzss, lzss.buffer, lzss.next, lzss.next.next, lzss.next.next.data, lzss.next.next.next, lzss.next.next.next.d
    ensures lzss.Valid() && lzss.next.Abs() == fin && lzss.Delivered() == all
    ensures lzss.next.next.next.d.disciplined == old(lzss.next.next.next.d.disciplined)
    ensures SameOutside(old(lzss.next.next.next.d.cells), lzss.next.next.next.d.cells, lzss.next.next.next.obj)
  {
    hide PatchStage.Valid, LzssStage.Delivered, LzssStream.ValidStream, SameOutside, FeedsTo, RunBytes, LzssStream.Feed;
    var w := lzss.next.next.next;
    SameStart(w.d.cells, w.obj);
    var k := 0;
    assert chunks[0..] == chunks;
    while k < |chunks|
      invariant k <= |chunks| && lzss.Valid()
      invariant FeedsTo(lzss.next.Prior(), lzss.next.Abs(), lzss.Delivered(), LzssStream.FeedAll(lzss.Abs(), chunks[k..]).out, fin, all)
      invariant w.d.disciplined == old(w.d.disciplined)
      invariant SameOutside(old(w.d.cells), w.d.cells, w.obj)
    {
      ghost var cells := w.d.cells;
      assert chunks[k..][0] == chunks[k] && chunks[k..][1..] == chunks[k + 1..];
      ghost var r := LzssStream.Feed(lzss.Abs(), chunks[k]);
      FeedsFirst(lzss.next.Prior(), lzss.next.Abs(), lzss.Delivered(), r.out,
                 LzssStream.FeedAll(r.st, chunks[k + 1..]).out, fin, all);
      var _ := lzss.Feed(chunks[k]);
      SameTrans(old(w.d.cells), cells, w.d.cells, w.obj);
      k := k + 1;
    }
    FeedDone(lzss.next.Prior(), lzss.next.Abs(), lzss.Delivered(), fin, all);
  }

  /** Chains the stages in front of an erased slot. */
  method Build(d: Device, oldObj: MemObject, o: MemObject, ring: array<byte>) returns (lzss: LzssStage)
    requires Placed(d, oldObj) && Placed(d, o) && Apart(oldObj, o) && ring.Length == 2 * LzssFormat.N
    requires o.mode == WriteAll && AllClean(d.clean, o.start, o.end - o.start)
    modifies ring
    ensures lzss.Valid() && lzss.buffer == ring && lzss.next.next.next.d == d && lzss.next.next.next.obj == o
    ensures fresh(lzss) && fresh(lzss.next) && fresh(lzss.next.next) && fresh(lzss.next.next.data) && fresh(lzss.next.next.next)
    ensures lzss.Abs() == LzssStream.Start(LzssFormat.StartRing(old(ring[LzssFormat.N - LzssFormat.F..LzssFormat.N])))
    ensures lzss.next.Abs() == StartPatcher() && lzss.Delivered() == [] && lzss.next.Prior() == Contents(d, oldObj)
  {
    var writer := new Writer(d, o);
    var buffer := new BufferStage(writer);
    var patcher := new PatchStage(oldObj, buffer);
    lzss := new LzssStage(patcher, ring);
  }

  /** The device side: the new slot is erased, the pipeline built, every chunk fed and the buffer
      cleared. Whatever the chunks, the slot then starts with the new image and is blank behind it. */
  method Receive(d: Device, oldObj: MemObject, start: nat, end: nat, ring: array<byte>, chunks: seq<seq<byte>>,
                 ghost prior: seq<byte>, ghost nnew: seq<byte>, ghost patch: seq<byte>)
    returns (o: MemObject, finish: bool)
    requires Placed(d, oldObj) && Placed(d, MemObject(start, end, WriteAll)) && Apart(oldObj, MemObject(start, end, WriteAll))
    requires ring.Length == 2 * LzssFormat.N && |nnew| <= end - start
    requires prior <= Contents(d, oldObj)
    requires PatchFor(prior, nnew, patch) && CodeFor(patch, Flatten(chunks))
    modifies d, ring
    ensures o == MemObject(start, end, WriteAll) && Placed(d, o) && finish
    ensures Contents(d, o)[..|nnew|] == nnew
    ensures forall k :: |nnew| <= k < end - start ==> Contents(d, o)[k] == ERASED
    ensures SameOutside(old(d.cells), d.cells, o) && d.disciplined == old(d.disciplined)
  {
    hide PatchFor, CodeFor, RunBytes, LzssStream.FeedAll, Flatten, LzssFormat.StartRing, LzssStream.ValidStream, Aligned;
    o := Open(d, start, end, WriteAll);
    ghost var cells := d.cells;
    assert SameOutside(old(d.cells), cells, o);
    SameSlot(old(d.cells), cells, o, oldObj);
    ghost var slot, tail := Contents(d, oldObj), ring[LzssFormat.N - LzssFormat.F..LzssFormat.N];
    var lzss := Build(d, oldObj, o, ring);
    DeltaRoundTrip(prior, slot, nnew, patch, Flatten(chunks), tail, chunks);
    FeedsWhole(slot, patch);
    FeedChunks(lzss, chunks, RunBytes(slot, StartPatcher(), patch).p, nnew);
    finish := lzss.next.stage.Finished?;
    SameTrans(old(d.cells), cells, d.cells, o);
    cells := d.cells;
    lzss.next.next.Clear();
    SameTrans(old(d.cells), cells, d.cells, o);
  }

  lemma FeedsWhole(prior: seq<byte>, s: seq<byte>)
    requires !RunBytes(prior, StartPatcher(), s).p.stage.Failed?
    ensures var r := RunBytes(prior, StartPatcher(), s); FeedsTo(prior, StartPatcher(), [], s, r.p, r.out)
  {
    hide RunBytes;
    assert [] + RunBytes(prior, StartPatcher(), s).out == RunBytes(prior, StartPatcher(), s).out;
  }

  /** The whole way: for any two images, any way the network splits the code and anything an
      earlier run left in the ring, the device rebuilds the new image from the old one. */
  method Update(d: Device, oldObj: MemObject, start: nat, end: nat, ring: array<byte>, prior: seq<byte>, nnew: seq<byte>,
                signedChar: bool, split: seq<byte> -> seq<seq<byte>>) returns (o: MemObject)
    requires |prior| < TWO31 && |nnew| < TWO31
    requires forall s :: Flatten(split(s)) == s
    requires Placed(d, oldObj) && Placed(d, MemObject(start, end, WriteAll)) && Apart(oldObj, MemObject(start, end, WriteAll))
    requires ring.Length == 2 * LzssFormat.N && |nnew| <= end - start
    requires prior <= Contents(d, oldObj)
    modifies d, ring
    ensures o == MemObject(start, end, WriteAll) && Placed(d, o) && Contents(d, o)[..|nnew|] == nnew
    ensures SameOutside(old(d.cells), d.cells, o) && d.disciplined == old(d.disciplined)
  {
    hide PatchFor, Flatten, LzssFormat.Decode, LzssFormat.StartRing;
    var patch := Diff(prior, nnew);
    var code, _, _ := LzssHost.Compress(patch, signedChar);
    var finish;
    o, finish := Receive(d, oldObj, start, end, ring, split(code), prior, nnew, patch);
  }
}
