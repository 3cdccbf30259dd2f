/** NOR flash and the memory objects laid out on it. */
module Flash {
  import opened Bytes

  const ERASED: byte := 255

  /** Bitwise and of the low `n` bits. */
  function AndBits(x: nat, y: nat, n: nat): (z: nat)
    ensures z < Pow2(n)
    decreases n, x
  {
    if n == 0 then 0
    else 2 * AndBits(x / 2, y / 2, n - 1) + (if x % 2 == 1 && y % 2 == 1 then 1 else 0)
  }

  /** What programming `y` over `x` leaves: bits can only be cleared. */
  function And(x: byte, y: byte): byte {
    assert Pow2(8) == 256;
    AndBits(x, y, 8)
  }

  lemma {:induction false} AndBitsOnes(y: nat, n: nat)
    requires y < Pow2(n)
    ensures AndBits(Pow2(n) - 1, y, n) == y
  {
    if n > 0 {
      var p := Pow2(n - 1);
      assert Pow2(n) == 2 * p && (2 * p - 1) / 2 == p - 1 && (2 * p - 1) % 2 == 1;
      AndBitsOnes(y / 2, n - 1);
      hide Pow2;
    }
  }

  lemma {:induction false} AndBitsZero(x: nat, n: nat)
    ensures AndBits(x, 0, n) == 0 && AndBits(0, x, n) == 0
    decreases n
  {
    if n > 0 {
      AndBitsZero(x / 2, n - 1);
    }
  }

  /** An erased byte takes any value; programming zero gives zero; zero stays zero. */
  lemma AndLaws(x: byte)
    ensures And(ERASED, x) == x && And(x, 0) == 0 && And(0, x) == 0
  {
    assert Pow2(8) == 256;
    AndBitsOnes(x, 8);
    AndBitsZero(x, 8);
  }

  lemma AndBitsOne(x: nat, n: nat)
    requires n > 0
    ensures AndBits(x, 1, n) == x % 2
  {
    AndBitsZero(x / 2, n - 1);
  }

  /** Bit by bit: one exactly where both are. */
  lemma {:induction false} AndBitwise(x: nat, y: nat, n: nat, k: nat)
    requires k < n
    ensures BitsOf(AndBits(x, y, n), n)[k] <==> BitsOf(x, n)[k] && BitsOf(y, n)[k]
    decreases n
  {
    if k < n - 1 {
      AndBitwise(x / 2, y / 2, n - 1, k);
    }
  }

  /** `a` is a multiple of `page`. */
  predicate Aligned(a: nat, page: nat)
    requires page > 0
  {
    a % page == 0
  }

  function RoundUp(n: nat, page: nat): (m: nat)
    requires page > 0
    ensures n <= m < n + page && Aligned(m, page)
  {
    RoundUpFacts(n, page);
    (n + page - 1) / page * page
  }

  lemma RoundUpFacts(n: nat, page: nat)
    requires page > 0
    ensures var m := (n + page - 1) / page * page; n <= m < n + page && Aligned(m, page)
  {
    var q, r := (n + page - 1) / page, (n + page - 1) % page;
    assert n + page - 1 == page * q + r;
    assert q * page == page * q + 0;
    DivUnique(q * page, page, q, 0);
  }

  /** The flash after the page at `at` was erased. */
  function ErasedAt<T>(cells: seq<T>, at: nat, page: nat, blank: T): (r: seq<T>)
    ensures |r| == |cells|
    ensures forall a :: 0 <= a < |r| ==> r[a] == if at <= a < at + page then blank else cells[a]
  {
    seq(|cells|, a requires 0 <= a < |cells| => if at <= a < at + page then blank else cells[a])
  }

  /** The flash after a buffer was programmed: every zero bit of it is now zero there. */
  function ProgrammedAt(cells: seq<byte>, at: nat, buf: seq<byte>): (r: seq<byte>)
    ensures |r| == |cells|
    ensures forall a :: 0 <= a < |r| ==> r[a] == if at <= a < at + |buf| then And(cells[a], buf[a - at]) else cells[a]
  {
    seq(|cells|, a requires 0 <= a < |cells| => if at <= a < at + |buf| then And(cells[a], buf[a - at]) else cells[a])
  }

  /** Every byte of a stretch was erased since it was last programmed. */
  predicate AllClean(clean: seq<bool>, at: nat, n: nat)
    requires at + n <= |clean|
  {
    forall a :: at <= a < at + n ==> clean[a]
  }

  /** A flash device. `clean` records which bytes have been erased since they were last
      programmed, and `disciplined` that no other byte was ever programmed. */
  class Device {
    const page: nat
    var cells: seq<byte>
    ghost var clean: seq<bool>
    ghost var disciplined: bool

    ghost predicate Valid()
      reads this
    {
      && page > 0
      && |clean| == |cells| && Aligned(|cells|, page)
      && forall a :: 0 <= a < |cells| && clean[a] ==> cells[a] == ERASED
    }

    constructor (page: nat, cells: seq<byte>)
      requires page > 0 && Aligned(|cells|, page)
      ensures Valid() && this.page == page && this.cells == cells && disciplined
    {
      this.page, this.cells, this.clean, this.disciplined := page, cells, seq(|cells|, _ => false), true;
    }

    /** Erases the page at an aligned address. */
    method Erase(at: nat)
      requires Valid() && Aligned(at, page) && at + page <= |cells|
      modifies this
      ensures Valid() && disciplined == old(disciplined)
      ensures cells == ErasedAt(old(cells), at, page, ERASED) && clean == ErasedAt(old(clean), at, page, true)
    {
      cells := ErasedAt(cells, at, page, ERASED);
      clean := ErasedAt(clean, at, page, true);
    }

    method Program(buf: seq<byte>, at: nat)
      requires Valid() && at + |buf| <= |cells|
      modifies this
      ensures Valid() && disciplined == (old(disciplined) && AllClean(old(clean), at, |buf|))
      ensures cells == ProgrammedAt(old(cells), at, buf) && clean == ErasedAt(old(clean), at, |buf|, false)
    {
      disciplined := disciplined && AllClean(clean, at, |buf|);
      cells := ProgrammedAt(cells, at, buf);
      clean := ErasedAt(clean, at, |buf|, false);
    }

    method Read(at: nat, n: nat) returns (buf: seq<byte>)
      requires at + n <= |cells|
      ensures buf == cells[at..at + n]
    {
      buf := cells[at..at + n];
    }
  }

  datatype Mode = ReadOnly | WriteChunk | WriteAll | SequentialRewrite

  /** A memory object: a page-aligned stretch of the device and the mode it was opened in. */
  datatype MemObject = MemObject(start: nat, end: nat, mode: Mode)

  ghost predicate Placed(d: Device, o: MemObject)
    reads d
  {
    && d.Valid()
    && o.start <= o.end <= |d.cells| && Aligned(o.start, d.page) && Aligned(o.end, d.page)
  }

  /** What an object holds. */
  ghost function Contents(d: Device, o: MemObject): (s: seq<byte>)
    requires Placed(d, o)
    reads d
    ensures |s| == o.end - o.start
  {
    d.cells[o.start..o.end]
  }

  lemma AlignedSum(a: nat, b: nat, page: nat)
    requires page > 0 && Aligned(a, page) && Aligned(b, page)
    ensures Aligned(a + b, page)
  {
    var i, j := a / page, b / page;
    assert a == page * i && b == page * j;
    assert a + b == page * (i + j) + 0;
    DivUnique(a + b, page, i + j, 0);
  }

  lemma AlignedStep(a: nat, b: nat, page: nat)
    requires page > 0 && Aligned(a, page) && Aligned(b, page) && a < b
    ensures a + page <= b
  {
    var i, j := a / page, b / page;
    assert a == page * i && b == page * j;
    MulStep(page, i, j);
  }

  lemma AlignedNext(a: nat, page: nat)
    requires page > 0 && Aligned(a, page)
    ensures Aligned(a + page, page)
  {
    assert page == page * 1 + 0;
    DivUnique(page, page, 1, 0);
    AlignedSum(a, page, page);
  }

  lemma MulStep(page: nat, i: nat, j: nat)
    requires page * i < page * j
    ensures page * i + page <= page * j
  {
    if i < j {
      MulGrows(page, j - i);
      assert page * (j - i) == page * j - page * i;
    } else {
      MulMonotone(page, j, i);
    }
  }

  lemma MulMonotone(page: nat, i: nat, j: nat)
    requires i <= j
    ensures page * i <= page * j
  {}

  /** Opening an object for a full rewrite erases every page of it. */
  method Open(d: Device, start: nat, end: nat, mode: Mode) returns (o: MemObject)
    requires Placed(d, MemObject(start, end, mode))
    modifies d
    ensures o == MemObject(start, end, mode) && Placed(d, o) && |d.cells| == old(|d.cells|)
    ensures mode != WriteAll ==> d.cells == old(d.cells) && d.clean == old(d.clean)
    ensures mode == WriteAll ==> forall a :: start <= a < end ==> d.cells[a] == ERASED && d.clean[a]
    ensures forall a :: 0 <= a < |d.cells| && !(start <= a < end) ==>
              d.cells[a] == old(d.cells)[a] && d.clean[a] == old(d.clean)[a]
    ensures d.disciplined == old(d.disciplined)
  {
    hide Aligned, ErasedAt;
    o := MemObject(start, end, mode);
    if mode == WriteAll {
      var offset := start;
      while offset < end
        invariant start <= offset <= end && Aligned(offset, d.page)
        invariant d.Valid() && |d.cells| == old(|d.cells|) && d.disciplined == old(d.disciplined)
        invariant forall a :: start <= a < offset ==> d.cells[a] == ERASED && d.clean[a]
        invariant forall a :: 0 <= a < |d.cells| && !(start <= a < offset) ==>
                    d.cells[a] == old(d.cells)[a] && d.clean[a] == old(d.clean)[a]
      {
        AlignedStep(offset, end, d.page);
        d.Erase(offset);
        AlignedNext(offset, d.page);
        offset := offset + d.page;
      }
    }
  }

  method Read(d: Device, o: MemObject, size: nat, offset: nat) returns (buf: seq<byte>)
    requires Placed(d, o) && offset + size <= o.end - o.start
    ensures buf == Contents(d, o)[offset..offset + size]
  {
    buf := d.Read(o.start + offset, size);
    SliceOfSlice(d.cells, o.start, o.end, offset, offset + size);
  }

  /** Whether a write erases the page it starts: the first byte of a page in a sequential rewrite. */
  predicate ErasesFirst(o: MemObject, offset: nat, page: nat)
    requires page > 0
  {
    o.mode == SequentialRewrite && Aligned(o.start + offset, page)
  }

  /** The cells after a write. */
  function WrittenCells(cells: seq<byte>, o: MemObject, page: nat, buf: seq<byte>, offset: nat): seq<byte>
    requires page > 0
  {
    var at := o.start + offset;
    ProgrammedAt(if ErasesFirst(o, offset, page) then ErasedAt(cells, at, page, ERASED) else cells, at, buf)
  }

  /** Which bytes are clean before the programming part of a write. */
  function CleanBefore(clean: seq<bool>, o: MemObject, page: nat, offset: nat): (r: seq<bool>)
    requires page > 0
    ensures |r| == |clean|
  {
    if ErasesFirst(o, offset, page) then ErasedAt(clean, o.start + offset, page, true) else clean
  }

  method Write(d: Device, o: MemObject, buf: seq<byte>, offset: nat)
    requires Placed(d, o) && offset + |buf| <= o.end - o.start
    requires ErasesFirst(o, offset, d.page) ==> o.start + offset < o.end
    modifies d
    ensures Placed(d, o)
    ensures d.cells == WrittenCells(old(d.cells), o, d.page, buf, offset)
    ensures d.clean == ErasedAt(CleanBefore(old(d.clean), o, d.page, offset), o.start + offset, |buf|, false)
    ensures d.disciplined == (old(d.disciplined)
              && AllClean(CleanBefore(old(d.clean), o, d.page, offset), o.start + offset, |buf|))
  {
    hide ProgrammedAt, ErasedAt, AllClean, Aligned;
    if o.mode == SequentialRewrite && Aligned(o.start + offset, d.page) {
      AlignedStep(o.start + offset, o.end, d.page);
      d.Erase(o.start + offset);
    }
    assert d.cells == if ErasesFirst(o, offset, d.page) then ErasedAt(old(d.cells), o.start + offset, d.page, ERASED)
                      else old(d.cells);
    assert d.clean == CleanBefore(old(d.clean), o, d.page, offset);
    d.Program(buf, o.start + offset);
  }
}
