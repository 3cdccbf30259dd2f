/** The bsdiff patch format and what a patch means: the batch patcher as a function. */
module PatchFormat {
  import opened Bytes

  // ---- Control words ----

  function LittleEndian(y: nat, n: nat): (s: seq<byte>)
    ensures |s| == n
    decreases n, y
  {
    if n == 0 then [] else [y % 256] + LittleEndian(y / 256, n - 1)
  }

  function FromLittleEndian(s: seq<byte>): nat {
    if s == [] then 0 else s[0] + 256 * FromLittleEndian(s[1..])
  }

  function Pow256(n: nat): nat {
    if n == 0 then 1 else 256 * Pow256(n - 1)
  }

  lemma {:induction false} LittleEndianRoundTrip(y: nat, n: nat)
    requires y < Pow256(n)
    ensures FromLittleEndian(LittleEndian(y, n)) == y
    decreases n
  {
    if n > 0 {
      LittleEndianRoundTrip(y / 256, n - 1);
      assert LittleEndian(y, n)[1..] == LittleEndian(y / 256, n - 1);
    }
  }

  lemma Carry(d: nat, low: nat, p: nat, v: nat)
    ensures d + 256 * (low + p * v) == (d + 256 * low) + (256 * p) * v
  {}

  lemma {:induction false} FromLittleEndianAppend(a: seq<byte>, b: seq<byte>)
    ensures FromLittleEndian(a + b) == FromLittleEndian(a) + Pow256(|a|) * FromLittleEndian(b)
  {
    if a == [] {
      assert a + b == b;
    } else {
      FromLittleEndianAppend(a[1..], b);
      assert (a + b)[1..] == a[1..] + b;
      Carry(a[0], FromLittleEndian(a[1..]), Pow256(|a| - 1), FromLittleEndian(b));
    }
  }

  lemma {:induction false} FromLittleEndianBound(s: seq<byte>)
    ensures FromLittleEndian(s) < Pow256(|s|)
  {
    if s != [] {
      FromLittleEndianBound(s[1..]);
    }
  }

  function Abs(x: int): nat {
    if x < 0 then -x else x
  }

  /** A signed 64-bit number: its magnitude in little-endian order, the sign in the top bit. */
  function SignedWord(x: int): (s: seq<byte>)
    requires -TWO63 < x < TWO63
    ensures |s| == 8
  {
    var m := LittleEndian(Abs(x), 8);
    TopByteSmall(Abs(x));
    m[7 := if x < 0 then m[7] + 128 else m[7]]
  }

  lemma TopByteSmall(y: nat)
    requires y < TWO63
    ensures LittleEndian(y, 8)[7] < 128
  {
    var s := LittleEndian(y, 8);
    PowersOf256();
    LittleEndianRoundTrip(y, 8);
    assert s == s[..7] + [s[7]];
    FromLittleEndianAppend(s[..7], [s[7]]);
    assert FromLittleEndian([s[7]]) == s[7] + 256 * FromLittleEndian([]);
  }

  lemma PowersOf256()
    ensures Pow256(7) == 0x100_0000_0000_0000 && Pow256(8) == 2 * TWO63
    ensures Pow256(4) == TWO32 && Pow256(3) == 0x100_0000
  {
    assert Pow256(3) == 256 * 256 * 256;
    assert Pow256(4) == 256 * Pow256(3);
    assert Pow256(7) == 256 * 256 * 256 * Pow256(4);
    assert Pow256(8) == 256 * Pow256(7);
  }

  /** The magnitude of a control word: its sign bit cleared. */
  function Magnitude(s: seq<byte>): nat
    requires |s| == 8
  {
    FromLittleEndian(s[7 := s[7] % 128])
  }

  /** The firmware tool's reading of a control word. */
  function OffsetIn(s: seq<byte>): int
    requires |s| == 8
  {
    var m: int := Magnitude(s);
    if s[7] >= 128 then -m else m
  }

  lemma OffsetRoundTrip(x: int)
    requires -TWO63 < x < TWO63
    ensures OffsetIn(SignedWord(x)) == x
  {
    var m, s := LittleEndian(Abs(x), 8), SignedWord(x);
    TopByteSmall(Abs(x));
    assert s[7 := s[7] % 128] == m;
    PowersOf256();
    LittleEndianRoundTrip(Abs(x), 8);
  }

  /** Two's complement, 32 bits. */
  function Int32(u: nat): int
    requires u < TWO32
  {
    if u < TWO31 then u else u - TWO32
  }

  /** The device's reading of a control word: the union's 32-bit half, negated if the sign bit of
      the last byte is set. Negating the smallest number leaves it unchanged. */
  function DeviceOffset(s: seq<byte>): int
    requires |s| == 8
  {
    FromLittleEndianBound(s[..4]);
    PowersOf256();
    var y := Int32(FromLittleEndian(s[..4]));
    if s[7] >= 128 && y != -TWO31 then -y else y
  }

  /** The two readings agree on every number of magnitude below 2^31. */
  lemma DeviceReadsSmallOffsets(s: seq<byte>)
    requires |s| == 8 && Abs(OffsetIn(s)) < TWO31
    ensures DeviceOffset(s) == OffsetIn(s)
  {
    var t := s[7 := s[7] % 128];
    PowersOf256();
    FromLittleEndianAppend(t[..4], t[4..]);
    FromLittleEndianBound(s[..4]);
    assert t == t[..4] + t[4..] && t[..4] == s[..4];
    assert Magnitude(s) == FromLittleEndian(s[..4]) + TWO32 * FromLittleEndian(t[4..]);
  }

  // ---- The batch patcher ----

  datatype PatchResult = Patched(out: seq<byte>, rest: seq<byte>) | BadPatch

  /** Addition of unsigned bytes. */
  function Wrap(a: int, b: int): byte {
    (a + b) % 256
  }

  /** The diff bytes plus the old bytes they stand for; nothing is added outside the old image. */
  function AddOld(prior: seq<byte>, pos: int, diff: seq<byte>): (out: seq<byte>)
    ensures |out| == |diff|
  {
    seq(|diff|, i requires 0 <= i < |diff| =>
      if 0 <= pos + i < |prior| then Wrap(diff[i], prior[pos + i]) else diff[i])
  }

  /** The control words at the head of a body: diff length, extra length, seek in the old image. */
  function DiffLength(s: seq<byte>): int
    requires |s| >= 24
  {
    OffsetIn(s[..8])
  }

  function ExtraLength(s: seq<byte>): int
    requires |s| >= 24
  {
    OffsetIn(s[8..16])
  }

  function Seek(s: seq<byte>): int
    requires |s| >= 24
  {
    OffsetIn(s[16..24])
  }

  /** A whole triple stands at the head of the body. */
  predicate HasTriple(s: seq<byte>) {
    |s| >= 24 && DiffLength(s) >= 0 && ExtraLength(s) >= 0 && |s| >= 24 + DiffLength(s) + ExtraLength(s)
  }

  function DiffOf(s: seq<byte>): (d: seq<byte>)
    requires HasTriple(s)
    ensures |d| == DiffLength(s)
  {
    s[24..24 + DiffLength(s)]
  }

  function ExtraOf(s: seq<byte>): (e: seq<byte>)
    requires HasTriple(s)
    ensures |e| == ExtraLength(s)
  {
    s[24 + DiffLength(s)..24 + DiffLength(s) + ExtraLength(s)]
  }

  function MoreOf(s: seq<byte>): (m: seq<byte>)
    requires HasTriple(s)
    ensures |m| == |s| - 24 - DiffLength(s) - ExtraLength(s)
  {
    s[24 + DiffLength(s) + ExtraLength(s)..]
  }

  /** A patch body as far as it is needed to complete `newsize` bytes, from position `newpos` of
      the new image and `oldpos` of the old one. A body that is cut short, asks for a negative
      length or runs past the new image is bad. */
  function Batch(prior: seq<byte>, oldpos: int, newpos: int, newsize: int, s: seq<byte>): PatchResult
    decreases |s|
  {
    if newpos >= newsize then Patched([], s)
    else if !HasTriple(s) || newpos + DiffLength(s) + ExtraLength(s) > newsize then BadPatch
    else
      match Batch(prior, oldpos + DiffLength(s) + Seek(s), newpos + DiffLength(s) + ExtraLength(s), newsize, MoreOf(s))
      case Patched(out, rest) => Patched(AddOld(prior, oldpos, DiffOf(s)) + ExtraOf(s) + out, rest)
      case BadPatch => BadPatch
  }

  /** A good patch gives exactly the bytes asked for and takes a prefix of the body. */
  lemma {:induction false} BatchFills(prior: seq<byte>, oldpos: int, newpos: int, newsize: int, s: seq<byte>)
    requires Batch(prior, oldpos, newpos, newsize, s).Patched? && newpos <= newsize
    ensures var r := Batch(prior, oldpos, newpos, newsize, s);
            |r.out| == newsize - newpos && |r.rest| <= |s| && r.rest == s[|s| - |r.rest|..]
    decreases |s|
  {
    hide AddOld, DiffLength, ExtraLength, Seek, DiffOf, ExtraOf, MoreOf;
    if newpos < newsize {
      BatchFills(prior, oldpos + DiffLength(s) + Seek(s), newpos + DiffLength(s) + ExtraLength(s), newsize, MoreOf(s));
      RestOfMore(s, Batch(prior, oldpos, newpos, newsize, s).rest);
    }
  }

  lemma RestOfMore(s: seq<byte>, rest: seq<byte>)
    requires HasTriple(s) && |rest| <= |MoreOf(s)| && rest == MoreOf(s)[|MoreOf(s)| - |rest|..]
    ensures rest == s[|s| - |rest|..]
  {
    hide DiffLength, ExtraLength;
    var k := 24 + DiffLength(s) + ExtraLength(s);
    SliceOfSlice(s, k, |s|, |MoreOf(s)| - |rest|, |MoreOf(s)|);
  }

  const MAGIC: byte := 0x2a

  function Header(newsize: nat): (s: seq<byte>)
    requires newsize < TWO63
    ensures |s| == 24
  {
    seq(16, _ => MAGIC) + SignedWord(newsize)
  }

  /** A whole patch file applied to the old image. The tool does not look at the magic bytes. */
  function ApplyPatch(prior: seq<byte>, file: seq<byte>): PatchResult {
    if |file| < 24 || OffsetIn(file[16..24]) < 0 then BadPatch
    else Batch(prior, 0, 0, OffsetIn(file[16..24]), file[24..])
  }

  lemma HeaderGivesSize(prior: seq<byte>, newsize: nat, body: seq<byte>)
    requires newsize < TWO63
    ensures ApplyPatch(prior, Header(newsize) + body) == Batch(prior, 0, 0, newsize, body)
  {
    var file := Header(newsize) + body;
    assert file[16..24] == SignedWord(newsize);
    assert file[24..] == body;
    OffsetRoundTrip(newsize);
  }

  /** The device can follow the patch: every control word has magnitude below 2^31 and every old
      byte it asks for exists. */
  ghost predicate Streamable(prior: seq<byte>, oldpos: int, newpos: int, newsize: int, s: seq<byte>)
    decreases |s|
  {
    newpos < newsize ==>
      && HasTriple(s)
      && DiffLength(s) < TWO31 && ExtraLength(s) < TWO31 && -TWO31 < Seek(s) < TWO31
      && (DiffLength(s) > 0 ==> 0 <= oldpos && oldpos + DiffLength(s) <= |prior|)
      && Streamable(prior, oldpos + DiffLength(s) + Seek(s), newpos + DiffLength(s) + ExtraLength(s), newsize, MoreOf(s))
  }

  /** A body is its control words, its diff bytes, its extra bytes and what follows. */
  lemma TripleParts(s: seq<byte>)
    requires HasTriple(s)
    ensures s == s[..24] + (DiffOf(s) + ExtraOf(s)) + MoreOf(s)
    ensures DiffLength(s[..24]) == DiffLength(s) && ExtraLength(s[..24]) == ExtraLength(s) && Seek(s[..24]) == Seek(s)
  {
    hide OffsetIn;
    assert s[..24][..8] == s[..8] && s[..24][8..16] == s[8..16] && s[..24][16..24] == s[16..24];
  }
}
