/** The host's delta: suffix sort, patch, compression; and what undoing it on the device means. */
module Delta {
  import opened Bytes
  import LzssFormat
  import LzssStream
  import opened PatchFormat
  import opened PatchStream
  import opened SuffixOrder
  import SuffixBuckets
  import Bsdiff

  /** A patch file that rebuilds `nnew` from `prior` and that the device can follow. */
  ghost predicate PatchFor(prior: seq<byte>, nnew: seq<byte>, patch: seq<byte>) {
    && |nnew| < TWO31 && |patch| >= 24
    && patch[..24] == Header(|nnew|)
    && Batch(prior, 0, 0, |nnew|, patch[24..]) == Patched(nnew, [])
    && Streamable(prior, 0, 0, |nnew|, patch[24..])
  }

  /** Code that decodes to `text`, whatever a decoder's unwritten ring bytes hold. */
  ghost predicate CodeFor(text: seq<byte>, code: seq<byte>) {
    forall tail: seq<byte> | |tail| == LzssFormat.F ::
      LzssFormat.Decode(LzssFormat.StartRing(tail), Bits(code)) == text
  }

  /** The tool's diff command: for any two images, a patch file the tool and the device accept. */
  method Diff(prior: seq<byte>, nnew: seq<byte>) returns (patch: seq<byte>)
    requires |prior| < TWO31 && |nnew| < TWO31
    ensures PatchFor(prior, nnew, patch)
    ensures ApplyPatch(prior, patch) == Patched(nnew, [])
  {
    hide Batch, Streamable, Header, Before;
    var I, V := new int[|prior| + 1], new int[|prior| + 1];
    SuffixBuckets.Qsufsort(prior, I, V);
    var body, _ := Bsdiff.BsdiffBody(prior, nnew, I[..]);
    patch := Header(|nnew|) + body;
    HeaderGivesSize(prior, |nnew|, body);
    assert patch[..24] == Header(|nnew|) && patch[24..] == body;
  }

  /** An image padded by what follows it in its slot serves the device as well as the image. */
  lemma {:induction false} LongerPrior(prior: seq<byte>, slot: seq<byte>, oldpos: int, newpos: int, newsize: int, s: seq<byte>)
    requires prior <= slot && Streamable(prior, oldpos, newpos, newsize, s)
    ensures Streamable(slot, oldpos, newpos, newsize, s)
    ensures Batch(slot, oldpos, newpos, newsize, s) == Batch(prior, oldpos, newpos, newsize, s)
    decreases |s|
  {
    if newpos < newsize {
      LongerPrior(prior, slot, oldpos + DiffLength(s) + Seek(s), newpos + DiffLength(s) + ExtraLength(s), newsize, MoreOf(s));
      assert AddOld(slot, oldpos, DiffOf(s)) == AddOld(prior, oldpos, DiffOf(s));
    }
  }

  /** The two device decoders undo the two host encoders: whatever chunks the code arrives in and
      whatever an earlier run left in the ring, the LZSS decoder emits the patch and the applier
      turns it into the new image, finishing on its last byte. */
  lemma DeltaRoundTrip(prior: seq<byte>, slot: seq<byte>, nnew: seq<byte>, patch: seq<byte>, code: seq<byte>,
                       tail: seq<byte>, chunks: seq<seq<byte>>)
    requires PatchFor(prior, nnew, patch) && CodeFor(patch, code) && prior <= slot
    requires |tail| == LzssFormat.F && Flatten(chunks) == code
    ensures LzssStream.FeedAll(LzssStream.Start(LzssFormat.StartRing(tail)), chunks).out == patch
    ensures var r := RunBytes(slot, StartPatcher(), patch);
            r.p.stage.Finished? && r.out == nnew && r.used == |patch|
  {
    hide LzssStream.FeedAll, RunBytes, Header, LzssFormat.Decode, LzssFormat.StartRing, Batch, Streamable;
    LzssStream.StreamingDecodes(tail, chunks);
    LongerPrior(prior, slot, 0, 0, |nnew|, patch[24..]);
    StreamingRefinesBatch(slot, |nnew|, patch[24..], []);
    assert Header(|nnew|) + patch[24..] + [] == patch;
  }
}
