/** Checking an image: its manifest's signature and its digest. */
module Verifier {
  import opened Bytes
  import opened Flash
  import opened Manifest
  import PatchFormat

  /** A SHA-256 digest. */
  type digest = s: seq<byte> | |s| == 32 witness seq(32, _ => 0)

  /** What a device trusts: its application id, a hash, and which manifests carry valid signatures.
      Hashing in several steps is hashing the concatenation. */
  datatype Trust = Trust(appid: nat, hash: seq<byte> -> digest, signed: seq<byte> -> bool)

  datatype PullError = Success | MemoryReadError | InvalidSignature | GenericError | VerificationFailed

  function ManifestVerdict(trust: Trust, m: seq<byte>): PullError
    requires |m| >= SIZE
  {
    if AppId(m) != trust.appid then InvalidSignature else if !trust.signed(m[..SIZE]) then GenericError else Success
  }

  /** Where the digest starts and stops, in 32-bit addresses. */
  function FirstByte(m: seq<byte>): nat
    requires |m| >= SIZE
  {
    ImageOffset(m)
  }

  function FinalByte(m: seq<byte>): nat
    requires |m| >= SIZE
  {
    (ImageOffset(m) + ImageSize(m)) % TWO32
  }

  /** The end of what is read: a buffer longer than the image is filled all the same. */
  function LastRead(m: seq<byte>, bufferLen: nat): nat
    requires |m| >= SIZE
  {
    if FinalByte(m) < FirstByte(m) then FirstByte(m)
    else if FirstByte(m) + bufferLen > FinalByte(m) then FirstByte(m) + bufferLen
    else FinalByte(m)
  }

  /** The outcome for an object holding `c`: an image of no bytes is an error, and so is reading
      past the object; otherwise the digest decides. */
  function DigestVerdict(trust: Trust, c: seq<byte>, m: seq<byte>, bufferLen: nat): PullError
    requires |m| >= SIZE
  {
    if FirstByte(m) == FinalByte(m) then MemoryReadError
    else if FirstByte(m) < FinalByte(m) && LastRead(m, bufferLen) > |c| then MemoryReadError
    else if trust.hash(if FirstByte(m) < FinalByte(m) then c[FirstByte(m)..LastRead(m, bufferLen)] else []) != Digest(m)
    then VerificationFailed
    else Success
  }

  function ObjectVerdict(trust: Trust, c: seq<byte>, bufferLen: nat): PullError
    requires |c| >= SIZE
  {
    var v := ManifestVerdict(trust, c[..SIZE]);
    if v != Success then v else DigestVerdict(trust, c, c[..SIZE], bufferLen)
  }

  /** When the buffer is no longer than the image, the verdict says that the image is there, is
      not empty and has the digest of the manifest, whatever the buffer's length. */
  lemma VerdictMeans(trust: Trust, c: seq<byte>, m: seq<byte>, bufferLen: nat)
    requires |m| >= SIZE && 0 < bufferLen <= ImageSize(m) && ImageOffset(m) + ImageSize(m) < TWO32
    ensures DigestVerdict(trust, c, m, bufferLen) == Success
       <==> ImageOffset(m) + ImageSize(m) <= |c| && trust.hash(c[ImageOffset(m)..ImageOffset(m) + ImageSize(m)]) == Digest(m)
  {
    hide ImageOffset, ImageSize, Digest;
  }

  /** What passing verification means, for every object and every buffer: the application and the signature
      are right, the image is not empty, and what is read of it is there and has the digest. An
      image that ends beyond 4 GB is not read at all, so its digest is that of nothing. */
  lemma PassesIff(trust: Trust, c: seq<byte>, bufferLen: nat)
    requires |c| >= SIZE
    ensures ObjectVerdict(trust, c, bufferLen) == Success
       <==> && AppId(c) == trust.appid && trust.signed(c[..SIZE]) && ImageSize(c) > 0
            && var from := ImageOffset(c);
               if from + ImageSize(c) >= TWO32 then trust.hash([]) == Digest(c)
               else
                 var end := from + if bufferLen > ImageSize(c) then bufferLen else ImageSize(c);
                 end <= |c| && trust.hash(c[from..end]) == Digest(c)
  {
    hide ImageOffset, ImageSize, Digest, AppId;
    var m := c[..SIZE];
    assert m[..SIZE] == m;
    SameManifest(m, c);
    FieldsBelow(c);
  }

  lemma FieldsBelow(m: seq<byte>)
    requires |m| >= SIZE
    ensures ImageSize(m) < TWO32 && ImageOffset(m) < TWO32
  {
    hide PatchFormat.FromLittleEndian;
    PatchFormat.PowersOf256();
    PatchFormat.FromLittleEndianBound(m[SIZE_AT..SIZE_AT + 4]);
    PatchFormat.FromLittleEndianBound(m[OFFSET_AT..OFFSET_AT + 4]);
  }

  /** Exactly the image is hashed exactly when the buffer is no longer than it. */
  lemma HashesImageIffBufferFits(m: seq<byte>, bufferLen: nat)
    requires |m| >= SIZE && ImageOffset(m) + ImageSize(m) < TWO32
    ensures LastRead(m, bufferLen) == ImageOffset(m) + ImageSize(m) <==> bufferLen <= ImageSize(m)
  {
    hide ImageOffset, ImageSize;
  }

  /** The verdict depends on the manifest and the image bytes alone, so a copy of them elsewhere
      gets the same verdict. */
  lemma VerdictTravels(trust: Trust, a: seq<byte>, b: seq<byte>, n: nat, bufferLen: nat)
    requires SIZE <= n <= |a| && n <= |b| && a[..n] == b[..n]
    requires 0 < bufferLen <= ImageSize(a) && ImageOffset(a) + ImageSize(a) <= n < TWO32
    ensures ObjectVerdict(trust, a, bufferLen) == ObjectVerdict(trust, b, bufferLen)
  {
    hide ImageOffset, ImageSize, Digest, AppId;
    SameSlice(a, b, n, 0, SIZE);
    assert a[0..SIZE] == a[..SIZE] && b[0..SIZE] == b[..SIZE];
    var m := a[..SIZE];
    SameManifest(m, a);
    SameSlice(a, b, n, ImageOffset(m), ImageOffset(m) + ImageSize(m));
  }

  // ---- The code ----

  method VerifyManifest(trust: Trust, mt: seq<byte>) returns (err: PullError)
    requires |mt| == SIZE
    ensures err == ManifestVerdict(trust, mt)
    ensures err == Success <==> AppId(mt) == trust.appid && trust.signed(mt)
    ensures err == InvalidSignature <==> AppId(mt) != trust.appid
  {
    assert mt[..SIZE] == mt;
    if AppId(mt) != trust.appid {
      return InvalidSignature;
    }
    if !trust.signed(mt) {
      return GenericError;
    }
    err := Success;
  }

  /** Compares two digests from the last byte down. */
  method SameDigest(hash: seq<byte>, result: digest) returns (same: bool)
    requires |hash| == 32
    ensures same <==> hash == result
  {
    var i := 31;
    while i >= 0
      invariant -1 <= i <= 31
      invariant hash[i + 1..] == result[i + 1..]
    {
      if hash[i] != result[i] {
        return false;
      }
      i := i - 1;
    }
    same := true;
  }

  /** The length of the next read, in 32-bit arithmetic. */
  function NextStep(offset: nat, step: nat, finalOffset: nat): nat {
    if (offset + step) % TWO32 > finalOffset then (finalOffset - offset) % TWO32 else step
  }

  lemma NextStepStaysWithin(offset: nat, step: nat, finalOffset: nat)
    requires offset + step < TWO32 && offset < finalOffset && 0 < step
    ensures 0 < NextStep(offset, step, finalOffset) <= step && offset + NextStep(offset, step, finalOffset) <= finalOffset
  {}

  /** Reads and hashes buffer by buffer. */
  method HashImage(d: Device, o: MemObject, mt: seq<byte>, bufferLen: nat) returns (err: PullError, hashed: seq<byte>)
    requires Placed(d, o) && |mt| == SIZE && FirstByte(mt) < FinalByte(mt)
    requires 0 < bufferLen && (o.end - o.start) + bufferLen < TWO32
    ensures err == if LastRead(mt, bufferLen) > o.end - o.start then MemoryReadError else Success
    ensures err == Success ==> hashed == Contents(d, o)[FirstByte(mt)..LastRead(mt, bufferLen)]
  {
    hide FirstByte, FinalByte, NextStep, Placed;
    var offset, finalOffset, step := FirstByte(mt), FinalByte(mt), bufferLen;
    ghost var from, to, c := offset, LastRead(mt, bufferLen), Contents(d, o);
    hashed := [];
    while offset < finalOffset
      invariant from <= offset <= to
      invariant if offset < finalOffset then 0 < step <= bufferLen && offset + step <= to else offset == to
      invariant from + bufferLen > finalOffset ==> offset == to || (offset == from && step == bufferLen)
      invariant (offset == from && hashed == []) || (offset <= |c| && hashed == c[from..offset])
      decreases finalOffset - offset
    {
      if offset + step > o.end - o.start {
        return MemoryReadError, [];
      }
      var buffer := Flash.Read(d, o, step, offset);
      assert c[from..offset] + c[offset..offset + step] == c[from..offset + step];
      hashed := hashed + buffer;
      offset := offset + step;
      if offset < finalOffset {
        NextStepStaysWithin(offset, step, finalOffset);
      }
      step := NextStep(offset, step, finalOffset);
    }
    err := Success;
  }

  method VerifyDigest(trust: Trust, d: Device, o: MemObject, mt: seq<byte>, bufferLen: nat) returns (err: PullError)
    requires Placed(d, o) && |mt| == SIZE
    requires 0 < bufferLen && (o.end - o.start) + bufferLen < TWO32
    ensures err == DigestVerdict(trust, Contents(d, o), mt, bufferLen)
  {
    hide ImageOffset, ImageSize;
    if FirstByte(mt) == FinalByte(mt) {
      return MemoryReadError;
    }
    var hashed := [];
    if FirstByte(mt) < FinalByte(mt) {
      err, hashed := HashImage(d, o, mt, bufferLen);
      if err != Success {
        return err;
      }
    }
    var same := SameDigest(Digest(mt), trust.hash(hashed));
    err := if same then Success else VerificationFailed;
  }

  method VerifyObject(trust: Trust, d: Device, o: MemObject, bufferLen: nat) returns (err: PullError)
    requires Placed(d, o) && o.end - o.start >= SIZE
    requires 0 < bufferLen && (o.end - o.start) + bufferLen < TWO32
    ensures err == ObjectVerdict(trust, Contents(d, o), bufferLen)
  {
    hide DigestVerdict, ManifestVerdict;
    var mt := Flash.Read(d, o, SIZE, 0);
    assert mt == Contents(d, o)[..SIZE];
    err := VerifyManifest(trust, mt);
    if err != Success {
      return err;
    }
    err := VerifyDigest(trust, d, o, mt, bufferLen);
  }
}
