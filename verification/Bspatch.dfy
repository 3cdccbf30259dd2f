/** The firmware tool's batch patcher: the loop that rebuilds the new image in place. */
module Bspatch {
  import opened Bytes
  import opened PatchFormat

  method ReadOffset(s: seq<byte>) returns (y: int)
    requires |s| == 8
    ensures y == OffsetIn(s)
  {
    var t := s[7 := s[7] % 128];
    y := 0;
    var k := 8;
    while k > 0
      invariant 0 <= k <= 8 && y == FromLittleEndian(t[k..])
    {
      k := k - 1;
      assert t[k..][0] == t[k] && t[k..][1..] == t[k + 1..];
      y := y * 256 + t[k];
    }
    assert t[0..] == t;
    if s[7] >= 128 {
      y := -y;
    }
  }

  /** Copies `n` bytes of the stream into the new image. */
  method ReadInto(nnew: array<byte>, at: nat, s: seq<byte>)
    requires at + |s| <= nnew.Length
    modifies nnew
    ensures nnew[..at + |s|] == old(nnew[..at]) + s
  {
    for i := 0 to |s|
      invariant forall k :: 0 <= k < at ==> nnew[k] == old(nnew[k])
      invariant forall k :: at <= k < at + i ==> nnew[k] == s[k - at]
    {
      nnew[at + i] := s[i];
    }
  }

  /** Adds the old bytes to a stretch of the new image. */
  method AddInPlace(nnew: array<byte>, at: nat, n: nat, prior: seq<byte>, oldpos: int)
    requires at + n <= nnew.Length
    modifies nnew
    ensures nnew[..at + n] == old(nnew[..at]) + AddOld(prior, oldpos, old(nnew[at..at + n]))
  {
    ghost var diff := nnew[at..at + n];
    for i := 0 to n
      invariant forall k :: 0 <= k < at ==> nnew[k] == old(nnew[k])
      invariant forall k :: at <= k < at + i ==> nnew[k] == AddOld(prior, oldpos, diff)[k - at]
      invariant forall k :: at + i <= k < at + n ==> nnew[k] == old(nnew[k])
    {
      if oldpos + i >= 0 && oldpos + i < |prior| {
        nnew[at + i] := Wrap(nnew[at + i], prior[oldpos + i]);
      }
    }
  }

  /** One triple of the patch, built into the image. The result is the stream left and the new
      positions, or nothing if the triple is bad. */
  method PatchTriple(prior: seq<byte>, nnew: array<byte>, oldpos: int, newpos: nat, s: seq<byte>)
    returns (ok: bool, oldpos': int, newpos': nat, s': seq<byte>)
    requires newpos < nnew.Length
    modifies nnew
    ensures ok == (HasTriple(s) && newpos + DiffLength(s) + ExtraLength(s) <= nnew.Length)
    ensures ok ==> oldpos' == oldpos + DiffLength(s) + Seek(s) && newpos' == newpos + DiffLength(s) + ExtraLength(s)
                   && s' == MoreOf(s) && newpos' <= nnew.Length
                   && nnew[..newpos'] == old(nnew[..newpos]) + (AddOld(prior, oldpos, DiffOf(s)) + ExtraOf(s))
  {
    hide AddOld, OffsetIn;
    ok, oldpos', newpos', s' := false, oldpos, newpos, s;
    if |s| < 24 { return; }
    var c0 := ReadOffset(s[..8]);
    var c1 := ReadOffset(s[8..16]);
    var c2 := ReadOffset(s[16..24]);
    if c0 < 0 || c1 < 0 || |s| < 24 + c0 + c1 { return; }
    if newpos + c0 > nnew.Length { return; }
    ghost var first := nnew[..newpos];
    ReadInto(nnew, newpos, s[24..24 + c0]);
    assert nnew[newpos..newpos + c0] == nnew[..newpos + c0][newpos..] == s[24..24 + c0];
    assert nnew[..newpos] == nnew[..newpos + c0][..newpos] == first;
    AddInPlace(nnew, newpos, c0, prior, oldpos);
    if newpos + c0 + c1 > nnew.Length { return; }
    ReadInto(nnew, newpos + c0, s[24 + c0..24 + c0 + c1]);
    Assoc(first, AddOld(prior, oldpos, DiffOf(s)), ExtraOf(s));
    ok, oldpos', newpos', s' := true, oldpos + c0 + c2, newpos + c0 + c1, s[24 + c0 + c1..];
  }

  /** The batch patcher: it returns the new image exactly when the patch is good, and the image is
      the one the patch means. */
  method Apply(prior: seq<byte>, newsize: nat, body: seq<byte>) returns (r: PatchResult)
    ensures r == Batch(prior, 0, 0, newsize, body)
  {
    hide AddOld, HasTriple, DiffLength, ExtraLength, Seek, DiffOf, ExtraOf, MoreOf;
    var nnew := new byte[newsize];
    var oldpos, newpos: nat, s := 0, 0, body;
    ghost var all := Batch(prior, 0, 0, newsize, body);
    while newpos < newsize
      invariant newpos <= newsize
      invariant var b := Batch(prior, oldpos, newpos, newsize, s);
                all == if b.Patched? then Patched(nnew[..newpos] + b.out, b.rest) else BadPatch
      decreases |s|
    {
      ghost var done, before := nnew[..newpos], Batch(prior, oldpos, newpos, newsize, s);
      ghost var piece := if HasTriple(s) then AddOld(prior, oldpos, DiffOf(s)) + ExtraOf(s) else [];
      var ok, oldpos', newpos', s' := PatchTriple(prior, nnew, oldpos, newpos, s);
      if !ok {
        return BadPatch;
      }
      ghost var b := Batch(prior, oldpos', newpos', newsize, s');
      if b.Patched? {
        Assoc(done, piece, b.out);
      }
      oldpos, newpos, s := oldpos', newpos', s';
    }
    assert nnew[..newpos] == nnew[..] && nnew[..] + [] == nnew[..];
    return Patched(nnew[..], s);
  }
}
