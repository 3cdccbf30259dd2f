/** The manifest at the head of every image, as bytes. */
module Manifest {
  import opened Bytes
  import opened PatchFormat

  /** `sizeof(manifest_t)`, and where its fields lie on a little-endian device. */
  const SIZE: nat := 256
  const SIZE_AT: nat := 64
  const OFFSET_AT: nat := 68
  const VERSION_AT: nat := 72
  const APPID_AT: nat := 74
  const DIGEST_AT: nat := 76
  const DIFF_VERSION_AT: nat := 244
  const PROP_SIZE_AT: nat := 248

  function Field(m: seq<byte>, at: nat, n: nat): nat
    requires at + n <= |m|
  {
    FromLittleEndian(m[at..at + n])
  }

  function ImageSize(m: seq<byte>): nat
    requires |m| >= SIZE
  {
    Field(m, SIZE_AT, 4)
  }

  function ImageOffset(m: seq<byte>): nat
    requires |m| >= SIZE
  {
    Field(m, OFFSET_AT, 4)
  }

  function Version(m: seq<byte>): nat
    requires |m| >= SIZE
  {
    Field(m, VERSION_AT, 2)
  }

  function AppId(m: seq<byte>): nat
    requires |m| >= SIZE
  {
    Field(m, APPID_AT, 2)
  }

  function Digest(m: seq<byte>): seq<byte>
    requires |m| >= SIZE
  {
    m[DIGEST_AT..DIGEST_AT + 32]
  }

  function PropSize(m: seq<byte>): nat
    requires |m| >= SIZE
  {
    Field(m, PROP_SIZE_AT, 4)
  }

  /** The bytes of a slot its image takes, manifest included: 32-bit addition. */
  function FirmwareSize(m: seq<byte>): nat
    requires |m| >= SIZE
  {
    (ImageSize(m) + ImageOffset(m)) % TWO32
  }

  /** A slot holds the image that another object announces, from its manifest to its last byte. */
  predicate Holds(c: seq<byte>, a: seq<byte>)
    requires |a| >= SIZE
  {
    FirmwareSize(a) <= |a| && FirmwareSize(a) <= |c| && c[..FirmwareSize(a)] == a[..FirmwareSize(a)]
  }

  /** Every field depends on the manifest bytes alone. */
  lemma SameManifest(a: seq<byte>, b: seq<byte>)
    requires |a| >= SIZE && |b| >= SIZE && a[..SIZE] == b[..SIZE]
    ensures ImageSize(a) == ImageSize(b) && ImageOffset(a) == ImageOffset(b) && Version(a) == Version(b)
    ensures AppId(a) == AppId(b) && Digest(a) == Digest(b) && PropSize(a) == PropSize(b)
    ensures FirmwareSize(a) == FirmwareSize(b)
  {
    hide FromLittleEndian;
    SameSlice(a, b, SIZE, SIZE_AT, SIZE_AT + 4);
    SameSlice(a, b, SIZE, OFFSET_AT, OFFSET_AT + 4);
    SameSlice(a, b, SIZE, VERSION_AT, VERSION_AT + 2);
    SameSlice(a, b, SIZE, APPID_AT, APPID_AT + 2);
    SameSlice(a, b, SIZE, DIGEST_AT, DIGEST_AT + 32);
    SameSlice(a, b, SIZE, PROP_SIZE_AT, PROP_SIZE_AT + 4);
  }

  // ---- Images with given fields ----

  /** An object full of one byte, except that its manifest says where the image starts and ends. */
  function Stamped(len: nat, fill: byte, size: nat, offset: nat): (c: seq<byte>)
    requires len >= SIZE && size < TWO32 && offset < TWO32
    ensures |c| == len
  {
    seq<byte>(SIZE_AT, _ => fill) + LittleEndian(size, 4) + LittleEndian(offset, 4) + seq<byte>(len - (OFFSET_AT + 4), _ => fill)
  }

  lemma StampedReads(len: nat, fill: byte, size: nat, offset: nat)
    requires len >= SIZE && size < TWO32 && offset < TWO32
    ensures var c := Stamped(len, fill, size, offset);
            && ImageSize(c) == size && ImageOffset(c) == offset
            && forall k :: 0 <= k < len && !(SIZE_AT <= k < OFFSET_AT + 4) ==> c[k] == fill
  {
    hide FromLittleEndian, LittleEndian;
    PowersOf256();
    LittleEndianRoundTrip(size, 4);
    LittleEndianRoundTrip(offset, 4);
    var c := Stamped(len, fill, size, offset);
    assert c[SIZE_AT..SIZE_AT + 4] == LittleEndian(size, 4);
    assert c[OFFSET_AT..OFFSET_AT + 4] == LittleEndian(offset, 4);
  }

  lemma WordOfOnes()
    ensures LittleEndian(TWO32 - 1, 4) == [255, 255, 255, 255]
  {
    assert LittleEndian(255, 1) == [255] + LittleEndian(0, 0);
    assert LittleEndian(65535, 2) == [255] + LittleEndian(255, 1);
    assert LittleEndian(0xFF_FFFF, 3) == [255] + LittleEndian(65535, 2);
    assert LittleEndian(TWO32 - 1, 4) == [255] + LittleEndian(0xFF_FFFF, 3);
  }

  lemma WordOfZeros()
    ensures LittleEndian(0, 4) == [0, 0, 0, 0]
  {
    assert LittleEndian(0, 1) == [0] + LittleEndian(0, 0);
    assert LittleEndian(0, 2) == [0] + LittleEndian(0, 1);
    assert LittleEndian(0, 3) == [0] + LittleEndian(0, 2);
    assert LittleEndian(0, 4) == [0] + LittleEndian(0, 3);
  }

  /** An image of ones that announces `n` bytes and has a byte of ones at `p`, wherever that is. */
  lemma OnesAnnouncing(len: nat, n: nat, p: nat) returns (c: seq<byte>)
    requires len >= SIZE && n + 1 < TWO32 && p < len
    ensures |c| == len && FirmwareSize(c) == n && c[p] == 255
  {
    hide LittleEndian, FromLittleEndian;
    WordOfOnes();
    if SIZE_AT <= p < OFFSET_AT {
      c := Stamped(len, 255, TWO32 - 1, n + 1);
      StampedReads(len, 255, TWO32 - 1, n + 1);
      assert c[p] == LittleEndian(TWO32 - 1, 4)[p - SIZE_AT];
    } else {
      c := Stamped(len, 255, n + 1, TWO32 - 1);
      StampedReads(len, 255, n + 1, TWO32 - 1);
      assert OFFSET_AT <= p < OFFSET_AT + 4 ==> c[p] == LittleEndian(TWO32 - 1, 4)[p - OFFSET_AT];
    }
  }

  /** An image of zeros that announces `n` bytes and has a zero byte at `p`. */
  lemma ZerosAnnouncing(len: nat, n: nat, p: nat) returns (c: seq<byte>)
    requires len >= SIZE && n < TWO32 && p < len
    ensures |c| == len && FirmwareSize(c) == n && c[p] == 0
  {
    hide LittleEndian, FromLittleEndian;
    WordOfZeros();
    if SIZE_AT <= p < OFFSET_AT {
      c := Stamped(len, 0, 0, n);
      StampedReads(len, 0, 0, n);
      assert c[p] == LittleEndian(0, 4)[p - SIZE_AT];
    } else {
      c := Stamped(len, 0, n, 0);
      StampedReads(len, 0, n, 0);
      assert OFFSET_AT <= p < OFFSET_AT + 4 ==> c[p] == LittleEndian(0, 4)[p - OFFSET_AT];
    }
  }
}
