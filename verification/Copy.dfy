/** Copying an image between slots. */
module Copy {
  import opened Bytes
  import opened Flash
  import opened Manifest
  import opened NorCopy
  import opened Pipeline
  import opened PatchFormat

  /** The image's length as the copy loop sees it: a signed integer. */
  function CopyLength(c: seq<byte>): int
    requires |c| >= SIZE
  {
    Int32(FirmwareSize(c))
  }

  lemma SameCopyLength(a: seq<byte>, b: seq<byte>)
    requires |a| >= SIZE && |b| >= SIZE && a[..SIZE] == b[..SIZE]
    ensures CopyLength(a) == CopyLength(b)
  {
    hide FirmwareSize;
    SameManifest(a, b);
  }

  /** A length of 2 GB or more is negative to it. */
  lemma LengthSeen(c: seq<byte>)
    requires |c| >= SIZE
    ensures if FirmwareSize(c) < TWO31 then CopyLength(c) == FirmwareSize(c) else CopyLength(c) < 0
  {
    hide ImageSize, ImageOffset;
  }

  function Max(a: int, b: int): int {
    if a > b then a else b
  }

  /** A destination erased and opened for a full rewrite. */
  ghost predicate Blank(n: Nor, dst: MemObject) {
    dst.mode == WriteAll && dst.start <= dst.end <= |n.clean| && AllClean(n.clean, dst.start, dst.end - dst.start)
  }

  /** A destination that takes the first `k` bytes of a copy in these steps: blank, or opened for a
      sequential rewrite with a step at the start of every page below `k`. */
  ghost predicate Takes(n: Nor, dst: MemObject, steps: seq<nat>, k: int, page: nat)
    requires page > 0
  {
    Blank(n, dst) || (dst.mode == SequentialRewrite && 0 <= k && PagesStart(k, steps, page))
  }

  /** Onto erased flash any steps copy. */
  lemma {:induction false} CleanCopy(n: Nor, src: MemObject, dst: MemObject, off: nat, steps: seq<nat>, page: nat)
    requires page > 0 && ValidNor(n) && Positive(steps) && dst.mode == WriteAll && Apart(src, dst)
    requires PlacedIn(|n.cells|, page, src) && PlacedIn(|n.cells|, page, dst)
    requires off + Total(steps) <= src.end - src.start && off + Total(steps) <= dst.end - dst.start
    requires AllClean(n.clean, dst.start + off, dst.end - dst.start - off)
    requires n.cells[dst.start..dst.end][..off] == n.cells[src.start..src.end][..off]
    ensures var r := CopyRun(n, src, dst, off, off, steps, page);
            && r.disciplined == n.disciplined
            && r.cells[dst.start..dst.end][..off + Total(steps)] == r.cells[src.start..src.end][..off + Total(steps)]
    decreases |steps|
  {
    hide WriteNor, Aligned, ValidNor, AllClean, Apart;
    ValidClean(n);
    if steps != [] {
      CleanStep(n, src, dst, off, steps[0], page);
      var n' := WriteNor(n, dst, page, n.cells[src.start + off..src.start + off + steps[0]], off);
      CleanCopy(n', src, dst, off + steps[0], steps[1..], page);
    }
  }

  lemma ValidClean(n: Nor)
    requires ValidNor(n)
    ensures |n.clean| == |n.cells|
  {}

  /** A write to clean bytes programs only those, and leaves the others as clean as they were. */
  lemma CleanWrite(n: Nor, dst: MemObject, off: nat, buf: seq<byte>, page: nat)
    requires page > 0 && ValidNor(n) && dst.mode == WriteAll && dst.start + off + |buf| <= dst.end <= |n.cells|
    requires AllClean(n.clean, dst.start + off, dst.end - dst.start - off)
    ensures AllClean(n.clean, dst.start + off, |buf|)
    ensures var r := WriteNor(n, dst, page, buf, off);
            && ValidNor(r) && r.disciplined == n.disciplined
            && AllClean(r.clean, dst.start + (off + |buf|), dst.end - dst.start - (off + |buf|))
  {
    hide And, Aligned;
    var r := WriteNor(n, dst, page, buf, off);
    forall a | 0 <= a < |r.cells| && r.clean[a]
      ensures r.cells[a] == ERASED
    {
      assert n.clean[a] && !(dst.start + off <= a < dst.start + off + |buf|);
    }
  }

  lemma CleanStep(n: Nor, src: MemObject, dst: MemObject, off: nat, step: nat, page: nat)
    requires page > 0 && ValidNor(n) && dst.mode == WriteAll && Apart(src, dst)
    requires PlacedIn(|n.cells|, page, src) && PlacedIn(|n.cells|, page, dst)
    requires 0 < step && off + step <= src.end - src.start && off + step <= dst.end - dst.start
    requires AllClean(n.clean, dst.start + off, dst.end - dst.start - off)
    requires n.cells[dst.start..dst.end][..off] == n.cells[src.start..src.end][..off]
    ensures var r := WriteNor(n, dst, page, n.cells[src.start + off..src.start + off + step], off);
            && ValidNor(r) && r.disciplined == n.disciplined
            && AllClean(r.clean, dst.start + (off + step), dst.end - dst.start - (off + step))
            && r.cells[dst.start..dst.end][..off + step] == r.cells[src.start..src.end][..off + step]
  {
    hide And, Aligned, ProgrammedAt, WrittenCells, CleanBefore, AllClean, SameOutside;
    var buf, c := n.cells[src.start + off..src.start + off + step], n.cells[src.start..src.end];
    CleanWrite(n, dst, off, buf, page);
    var r := WriteNor(n, dst, page, buf, off);
    WriteAppends(n.cells, n.clean, r.cells, dst, off, buf, page);
    SameSlot(n.cells, r.cells, dst, src);
    SliceOfSlice(n.cells, src.start, src.end, off, off + step);
    assert c[..off] + c[off..off + step] == c[..off + step];
  }

  /** A destination that takes the first `k` bytes holds them. */
  lemma TakenCopies(n: Nor, src: MemObject, dst: MemObject, steps: seq<nat>, k: nat, page: nat)
    requires page > 0 && ValidNor(n) && Positive(steps) && Apart(src, dst) && Takes(n, dst, steps, k, page)
    requires PlacedIn(|n.cells|, page, src) && PlacedIn(|n.cells|, page, dst)
    requires k <= Total(steps) <= src.end - src.start && Total(steps) <= dst.end - dst.start
    ensures var r := CopyRun(n, src, dst, 0, 0, steps, page);
            r.cells[dst.start..dst.end][..k] == r.cells[src.start..src.end][..k]
  {
    hide Aligned, CopyRun, PagesStart, AllClean, ValidNor, SameOutside, Positive, Total, Apart;
    ValidClean(n);
    var r := CopyRun(n, src, dst, 0, 0, steps, page);
    if Blank(n, dst) {
      assert n.cells[dst.start..dst.end][..0] == n.cells[src.start..src.end][..0];
      CleanCopy(n, src, dst, 0, steps, page);
      SameSlice(r.cells[dst.start..dst.end], r.cells[src.start..src.end], Total(steps), 0, k);
    } else {
      CopyRunOutside(n, src, dst, 0, 0, steps, page);
      StillApart(src, dst);
      SameSlot(n.cells, r.cells, dst, src);
      PagesStartCopies(n, src, dst, steps, page, k);
      SliceOfSlice(r.cells, dst.start, dst.end, 0, k);
      SliceOfSlice(n.cells, src.start, src.end, 0, k);
    }
  }

  lemma StillApart(a: MemObject, b: MemObject)
    requires Apart(a, b)
    ensures Apart(b, a)
  {}

  /** Onto blank flash, or sequentially without crossing a page boundary, only clean bytes are
      programmed. */
  lemma TakenClean(n: Nor, src: MemObject, dst: MemObject, steps: seq<nat>, page: nat)
    requires page > 0 && ValidNor(n) && Positive(steps) && Apart(src, dst)
    requires Blank(n, dst) || (dst.mode == SequentialRewrite && NoCrossing(steps, 0, page))
    requires PlacedIn(|n.cells|, page, src) && PlacedIn(|n.cells|, page, dst)
    requires Total(steps) <= src.end - src.start && Total(steps) <= dst.end - dst.start
    ensures CopyRun(n, src, dst, 0, 0, steps, page).disciplined == n.disciplined
  {
    hide Aligned, CopyRun, NoCrossing, Overlay, AllClean, ValidNor, SameOutside, Positive, Total, RoundUp;
    ValidClean(n);
    if Blank(n, dst) {
      assert n.cells[dst.start..dst.end][..0] == n.cells[src.start..src.end][..0];
      CleanCopy(n, src, dst, 0, steps, page);
    } else {
      AlignedZero(page);
      CopyRunCopies(n, src, dst, 0, 0, steps, page);
    }
  }

  /** The copy loop, however many bytes each read returns (`got(k)`, at most what was asked for, for
      the k-th). Its writes are a copy in positive steps, whole buffers if no read is short. */
  method CopySteps(d: Device, src: MemObject, dst: MemObject, n: int, bufferSize: nat, got: nat -> int)
    returns (ok: bool, ghost steps: seq<nat>)
    requires Placed(d, src) && Placed(d, dst) && 0 < bufferSize
    modifies d
    ensures Placed(d, src) && Placed(d, dst) && |d.cells| == old(|d.cells|)
    ensures Positive(steps) && Total(steps) <= src.end - src.start && Total(steps) <= dst.end - dst.start
    ensures StateOf(d) == CopyRun(old(StateOf(d)), src, dst, 0, 0, steps, d.page)
    ensures ok ==> 0 < n <= Total(steps)
    ensures (&& (forall k :: got(k) > 0) && 0 < n && Max(n, bufferSize) <= src.end - src.start
             && Max(n, bufferSize) <= dst.end - dst.start) ==> ok
    ensures ok && (forall k :: got(k) >= bufferSize) ==> steps == Steps(Max(n, bufferSize), bufferSize)
  {
    hide Aligned, CopyRun, WriteNor, Total, Steps, Positive;
    ghost var n0, full := StateOf(d), forall k :: got(k) >= bufferSize;
    ghost var whole := Max(n, bufferSize);
    steps := [];
    NoCopy(n0, src, dst, d.page);
    NoneNegative();
    assert [] + Steps(whole, bufferSize) == Steps(whole, bufferSize);
    var offset, step, readed, k := 0, bufferSize, 0, 0;
    while offset < n
      invariant 0 <= offset <= src.end - src.start && offset <= dst.end - dst.start
      invariant if offset > 0 then 0 < n && readed > 0 else readed == 0
      invariant offset < n ==> 0 < step <= bufferSize && offset + step <= whole
      invariant Placed(d, src) && Placed(d, dst) && |d.cells| == |n0.cells|
      invariant Positive(steps) && Total(steps) == offset
      invariant StateOf(d) == CopyRun(n0, src, dst, 0, 0, steps, d.page)
      invariant full ==> offset <= whole && steps + Steps(whole - offset, bufferSize) == Steps(whole, bufferSize)
      invariant full && offset < n ==> step == if bufferSize < whole - offset then bufferSize else whole - offset
      invariant full && offset >= n && offset > 0 ==> offset == whole
      decreases n - offset
    {
      readed := if offset + step > src.end - src.start then -1 else if got(k) < step then got(k) else step;
      k := k + 1;
      if readed <= 0 || offset + readed > dst.end - dst.start {
        return false, steps;
      }
      CopyRunSnoc(n0, src, dst, 0, 0, steps, readed, d.page);
      StillPositive(steps, readed);
      CopyStep(d, src, dst, offset, offset, readed);
      if full {
        NextStep(whole - offset, bufferSize);
        Assoc(steps, [readed as nat], Steps(whole - offset - readed, bufferSize));
      }
      steps := steps + [readed];
      offset := offset + readed;
      if offset + step > n {
        step := n - offset;
      }
    }
    if readed <= 0 {
      return false, steps;
    }
    ok := true;
    if full {
      NothingLeft(steps, bufferSize);
    }
  }

  lemma NoneNegative()
    ensures Positive([])
  {}

  lemma StillPositive(steps: seq<nat>, k: nat)
    requires Positive(steps) && k > 0
    ensures Positive(steps + [k])
  {}

  lemma NothingLeft(steps: seq<nat>, bufferSize: nat)
    requires bufferSize > 0
    ensures steps + Steps(0, bufferSize) == steps
  {}

  /** Copies an image. Whatever the reads return, the writes are a copy in positive steps; success
      means that they cover the image, and the destination then agrees with the source if it takes
      them. It succeeds if no read fails and both slots hold the image and one buffer. */
  method CopyFirmware(d: Device, src: MemObject, dst: MemObject, bufferSize: nat, got: nat -> int)
    returns (ok: bool, ghost steps: seq<nat>)
    requires Placed(d, src) && Placed(d, dst) && Apart(src, dst) && SIZE <= src.end - src.start && 0 < bufferSize
    modifies d
    ensures Placed(d, src) && Placed(d, dst) && Contents(d, src) == old(Contents(d, src))
    ensures Positive(steps) && Total(steps) <= src.end - src.start && Total(steps) <= dst.end - dst.start
    ensures StateOf(d) == CopyRun(old(StateOf(d)), src, dst, 0, 0, steps, d.page) && SameOutside(old(d.cells), d.cells, dst)
    ensures ok ==> 0 < FirmwareSize(Contents(d, src)) < TWO31 && FirmwareSize(Contents(d, src)) <= Total(steps)
    ensures ok && Takes(old(StateOf(d)), dst, steps, FirmwareSize(Contents(d, src)), d.page) ==> Holds(Contents(d, dst), Contents(d, src))
    ensures Blank(old(StateOf(d)), dst) || (dst.mode == SequentialRewrite && NoCrossing(steps, 0, d.page)) ==>
              d.disciplined == old(d.disciplined)
    ensures var n := FirmwareSize(Contents(d, src));
            (&& (forall k :: got(k) > 0) && 0 < n < TWO31 && Max(n, bufferSize) <= src.end - src.start
             && Max(n, bufferSize) <= dst.end - dst.start) ==> ok
    ensures ok && (forall k :: got(k) >= bufferSize) ==>
              steps == Steps(Max(FirmwareSize(Contents(d, src)), bufferSize), bufferSize)
  {
    hide Aligned, CopyRun, FirmwareSize, CopyLength, Takes, Blank, NoCrossing, SameOutside, Steps, Positive, Total;
    ghost var c, n0 := Contents(d, src), StateOf(d);
    var mt := Flash.Read(d, src, SIZE, 0);
    SameCopyLength(mt, c);
    LengthSeen(c);
    var n := CopyLength(mt);
    ok, steps := CopySteps(d, src, dst, n, bufferSize, got);
    CopyRunOutside(n0, src, dst, 0, 0, steps, d.page);
    SameSlot(n0.cells, d.cells, dst, src);
    if ok && Takes(n0, dst, steps, n, d.page) {
      TakenCopies(n0, src, dst, steps, n, d.page);
    }
    if Blank(n0, dst) || (dst.mode == SequentialRewrite && NoCrossing(steps, 0, d.page)) {
      TakenClean(n0, src, dst, steps, d.page);
    }
  }

  // ---- When a sequential rewrite copies an image ----

  /** A call that copies an image of `n` bytes in these steps. */
  ghost predicate CopyCall(nor: Nor, src: MemObject, dst: MemObject, n: nat, steps: seq<nat>, page: nat)
    requires page > 0
  {
    && ValidNor(nor) && PlacedIn(|nor.cells|, page, src) && PlacedIn(|nor.cells|, page, dst) && Apart(src, dst)
    && dst.mode == SequentialRewrite && SIZE <= src.end - src.start && FirmwareSize(nor.cells[src.start..src.end]) == n
    && n <= Total(steps) <= src.end - src.start && Total(steps) <= dst.end - dst.start
  }

  /** Whether images of `n` bytes are copied in these steps, for all contents and objects. */
  ghost predicate CopiesImages(n: nat, steps: seq<nat>, page: nat)
    requires page > 0
  {
    forall nor: Nor, src: MemObject, dst: MemObject :: CopyCall(nor, src, dst, n, steps, page) ==>
      CopyRun(nor, src, dst, 0, 0, steps, page).cells[dst.start..dst.start + n] == nor.cells[src.start..src.start + n]
  }

  /** They are if and only if every page below the image's length starts with a step. */
  lemma CopiesIffPagesStart(n: nat, steps: seq<nat>, page: nat)
    requires page > 0 && Positive(steps) && n <= Total(steps) && n < TWO31
    ensures CopiesImages(n, steps, page) <==> PagesStart(n, steps, page)
  {
    hide Aligned, CopyRun, ValidNor, FirmwareSize;
    if PagesStart(n, steps, page) {
      forall nor: Nor, src: MemObject, dst: MemObject | CopyCall(nor, src, dst, n, steps, page)
        ensures |nor.clean| == |nor.cells|
        ensures CopyRun(nor, src, dst, 0, 0, steps, page).cells[dst.start..dst.start + n] == nor.cells[src.start..src.start + n]
      {
        ValidClean(nor);
        PagesStartCopies(nor, src, dst, steps, page, n);
      }
    } else {
      SkippedPageLoses(n, steps, page);
    }
  }

  /** The failing call: an image of ones that announces its length, copied onto zeros. */
  lemma SkippedPageLoses(n: nat, steps: seq<nat>, page: nat)
    requires page > 0 && Positive(steps) && n <= Total(steps) && n < TWO31 && !PagesStart(n, steps, page)
    ensures !CopiesImages(n, steps, page)
  {
    hide CopyRun, RoundUp, Aligned, Starts, FirmwareSize, Positive;
    var p :| 0 < p < n && Aligned(p, page) && !Starts(steps, 0, p);
    var len := RoundUp(Total(steps) + SIZE, page);
    var c := OnesAnnouncing(len, n, p);
    var src, dst := MemObject(0, len, ReadOnly), MemObject(len, len + len, SequentialRewrite);
    var cells := c + seq<byte>(len, _ => 0);
    var nor := Nor(cells, seq(len + len, _ => false), true);
    AlignedZero(page);
    AlignedSum(len, len, page);
    AlignedSum(len, p, page);
    assert cells[0..len] == c;
    assert CopyCall(nor, src, dst, n, steps, page);
    StaysZero(nor, src, dst, 0, 0, steps, page, p, len + p);
    var r := CopyRun(nor, src, dst, 0, 0, steps, page);
    assert r.cells[dst.start..dst.start + n][p] == 0;
    assert nor.cells[src.start..src.start + n][p] == 255;
  }

  /** On flash no read is short. Then a sequential rewrite copies every image of `n` bytes, for all
      contents, exactly if the image fits one page or the buffer divides a page. */
  lemma WholeBuffersCopy(n: nat, bufferSize: nat, page: nat)
    requires page > 0 && bufferSize > 0 && n < TWO31
    ensures CopiesImages(n, Steps(Max(n, bufferSize), bufferSize), page) <==> n <= page || Aligned(page, bufferSize)
  {
    hide CopiesImages, PagesStart, Steps, Aligned, Positive;
    var size := Max(n, bufferSize);
    StepsTotal(size, bufferSize);
    CopiesIffPagesStart(n, Steps(size, bufferSize), page);
    BuffersStartPages(n, size, bufferSize, page);
  }

  /** A short read can leave a page unerased: one byte, then the rest of an image one byte longer than
      a page. */
  lemma ShortReadLoses(page: nat)
    requires 1 < page && page + 1 < TWO31
    ensures !CopiesImages(page + 1, [1, page], page)
  {
    hide CopiesImages, Aligned;
    AlignedSelf(page);
    var steps: seq<nat>, rest: seq<nat> := [1, page], [page];
    assert steps[1..] == rest && rest[1..] == [];
    assert Total(rest) == page + Total([]) && Total(steps) == 1 + Total(rest);
    assert !Starts(rest, 1, page) by { assert !Starts([], 1 + page, page); }
    assert !Starts(steps, 0, page);
    CopiesIffPagesStart(page + 1, steps, page);
  }
}
