/** Exchanging two slots through a swap object, on NOR flash. */
module Swap {
  import opened Bytes
  import opened Flash
  import opened Manifest
  import opened NorCopy

  /** Nothing outside three objects changed. */
  ghost predicate SameOutsideAll(cells0: seq<byte>, cells: seq<byte>, o1: MemObject, o2: MemObject, o3: MemObject) {
    && |cells0| == |cells|
    && forall a :: 0 <= a < |cells| && !(o1.start <= a < o1.end) && !(o2.start <= a < o2.end) && !(o3.start <= a < o3.end)
                   ==> cells[a] == cells0[a]
  }

  /** The bytes a swap moves: the larger of the two images. */
  function SwapLength(c1: seq<byte>, c2: seq<byte>): (m: nat)
    requires |c1| >= SIZE && |c2| >= SIZE
    ensures FirmwareSize(c1) <= m && FirmwareSize(c2) <= m && (m == FirmwareSize(c1) || m == FirmwareSize(c2))
  {
    if FirmwareSize(c2) > FirmwareSize(c1) then FirmwareSize(c2) else FirmwareSize(c1)
  }

  /** Two images fit each other's slots. */
  predicate Exchangeable(a: seq<byte>, b: seq<byte>)
    requires |a| >= SIZE && |b| >= SIZE
  {
    FirmwareSize(a) <= |a| && FirmwareSize(a) <= |b| && FirmwareSize(b) <= |a| && FirmwareSize(b) <= |b|
  }

  /** Two slots that held `a` and `b` hold each other's image. */
  predicate Traded(a: seq<byte>, b: seq<byte>, a': seq<byte>, b': seq<byte>)
    requires |a| >= SIZE && |b| >= SIZE
  {
    Holds(b', a) && Holds(a', b)
  }

  /** A slot that took over the first `m` bytes of another. */
  function TakenOver(c: seq<byte>, other: seq<byte>, m: nat, page: nat): (r: seq<byte>)
    requires page > 0 && m <= |other| && RoundUp(m, page) <= |c|
    ensures |r| == |c|
  {
    Overlay(c, 0, other[..m], page)
  }

  /** Two slots and a swap object on page boundaries, apart, and long enough. */
  ghost predicate SwapLayout(len: nat, page: nat, o1: MemObject, o2: MemObject, osw: MemObject, m: nat, swapSize: nat) {
    && page > 0 && PlacedIn(len, page, o1) && PlacedIn(len, page, o2) && PlacedIn(len, page, osw)
    && Apart(o1, o2) && Apart(o1, osw) && Apart(o2, osw)
    && o1.mode == o2.mode == osw.mode == SequentialRewrite
    && m <= o1.end - o1.start && m <= o2.end - o2.start && 0 < swapSize <= osw.end - osw.start
  }

  function ChunkAt(offset: nat, m: nat, swapSize: nat): nat
    requires offset <= m
  {
    if offset + swapSize > m then m - offset else swapSize
  }

  /** One round: a chunk of the first object into the swap object, the same chunk of the second into
      the first, and the saved chunk into the second. */
  ghost function RoundRun(n: Nor, o1: MemObject, o2: MemObject, osw: MemObject, offset: nat, chunk: nat,
                          bufferSize: nat, page: nat): (r: Nor)
    requires page > 0 && bufferSize > 0 && |n.clean| == |n.cells|
    requires o1.start + offset + chunk <= |n.cells| && o2.start + offset + chunk <= |n.cells| && osw.start + chunk <= |n.cells|
    ensures |r.clean| == |r.cells| == |n.cells|
  {
    StepsTotal(chunk, bufferSize);
    var steps := Steps(chunk, bufferSize);
    var n1 := CopyRun(n, o1, osw, offset, 0, steps, page);
    var n2 := CopyRun(n1, o2, o1, offset, offset, steps, page);
    CopyRun(n2, osw, o2, 0, offset, steps, page)
  }

  /** All rounds of a swap of `m` bytes, from `offset` on. */
  ghost function SwapRun(n: Nor, o1: MemObject, o2: MemObject, osw: MemObject, offset: nat, m: nat,
                         swapSize: nat, bufferSize: nat, page: nat): (r: Nor)
    requires SwapLayout(|n.cells|, page, o1, o2, osw, m, swapSize) && bufferSize > 0 && |n.clean| == |n.cells| && offset <= m
    ensures |r.clean| == |r.cells| == |n.cells|
    decreases m - offset
  {
    if offset == m then n
    else
      var chunk := ChunkAt(offset, m, swapSize);
      SwapRun(RoundRun(n, o1, o2, osw, offset, chunk, bufferSize, page), o1, o2, osw, offset + chunk, m, swapSize, bufferSize, page)
  }

  // ---- When it works ----

  /** Chunks are whole pages, and buffers fill pages unless a chunk is a single page. */
  predicate PageWise(page: nat, bufferSize: nat, swapSize: nat)
    requires page > 0 && bufferSize > 0
  {
    Aligned(swapSize, page) && (swapSize == page || Aligned(page, bufferSize))
  }

  lemma RoundUpAligned(off: nat, sz: nat, page: nat)
    requires page > 0 && Aligned(off, page)
    ensures RoundUp(off, page) == off && RoundUp(off + sz, page) == off + RoundUp(sz, page)
  {
    hide Aligned, RoundUp;
    RoundUpUnique(off, off, page);
    AlignedSum(off, RoundUp(sz, page), page);
    RoundUpUnique(off + sz, off + RoundUp(sz, page), page);
  }

  /** What lies beyond a takeover that ends on a page boundary is untouched. */
  lemma BeyondTakeover(c: seq<byte>, other: seq<byte>, off: nat, sz: nat, page: nat)
    requires page > 0 && Aligned(off, page) && off <= |other| && off + sz <= |c|
    ensures RoundUp(off, page) == off && TakenOver(c, other, off, page)[off..off + sz] == c[off..off + sz]
  {
    RoundUpAligned(off, 0, page);
    assert TakenOver(c, other, off, page) == other[..off] + c[off..];
  }

  /** A takeover continued by another chunk is a longer takeover. */
  lemma TakeoverExtends(c: seq<byte>, other: seq<byte>, off: nat, sz: nat, page: nat)
    requires page > 0 && Aligned(off, page) && off + sz <= |other| && off + RoundUp(sz, page) <= |c|
    ensures RoundUp(off, page) == off && RoundUp(off + sz, page) <= |c|
    ensures Overlay(TakenOver(c, other, off, page), off, other[off..off + sz], page) == TakenOver(c, other, off + sz, page)
  {
    RoundUpAligned(off, sz, page);
    hide RoundUp, Aligned;
    assert other[..off + sz] == other[..off] + other[off..off + sz];
  }

  lemma OverlayHead(c: seq<byte>, data: seq<byte>, page: nat)
    requires page > 0 && RoundUp(|data|, page) <= |c|
    ensures Overlay(c, 0, data, page)[..|data|] == data
  {}

  lemma Outside3(cells0: seq<byte>, cells1: seq<byte>, cells2: seq<byte>, cells3: seq<byte>,
                 osw: MemObject, o1: MemObject, o2: MemObject)
    requires SameOutside(cells0, cells1, osw) && SameOutside(cells1, cells2, o1) && SameOutside(cells2, cells3, o2)
    ensures SameOutsideAll(cells0, cells3, o1, o2, osw)
  {}

  lemma OutsideStart(cells: seq<byte>, o1: MemObject, o2: MemObject, o3: MemObject)
    ensures SameOutsideAll(cells, cells, o1, o2, o3)
  {}

  lemma OutsideContinues(c0: seq<byte>, c1: seq<byte>, c2: seq<byte>, o1: MemObject, o2: MemObject, o3: MemObject)
    requires SameOutsideAll(c0, c1, o1, o2, o3) && SameOutsideAll(c1, c2, o1, o2, o3)
    ensures SameOutsideAll(c0, c2, o1, o2, o3)
  {}

  ghost predicate ChunkCopied(n: Nor, r: Nor, src: MemObject, dst: MemObject, s0: nat, d0: nat, chunk: nat, page: nat) {
    && page > 0 && |r.cells| == |n.cells| && src.start <= src.end <= |n.cells| && dst.start <= dst.end <= |n.cells|
    && s0 + chunk <= src.end - src.start && d0 + RoundUp(chunk, page) <= dst.end - dst.start
    && r.cells[dst.start..dst.end]
    == Overlay(n.cells[dst.start..dst.end], d0, n.cells[src.start..src.end][s0..s0 + chunk], page)
  }

  /** A chunk that is a page or less, or whole buffers that fill pages, can be copied. */
  lemma ChunkCopies(n: Nor, src: MemObject, dst: MemObject, s0: nat, d0: nat, chunk: nat, bufferSize: nat, page: nat)
    requires page > 0 && bufferSize > 0 && ValidNor(n) && (chunk <= page || Aligned(page, bufferSize))
    requires PlacedIn(|n.cells|, page, src) && PlacedIn(|n.cells|, page, dst) && Apart(src, dst)
    requires dst.mode == SequentialRewrite && Aligned(d0, page)
    requires s0 + chunk <= src.end - src.start && d0 + chunk <= dst.end - dst.start
    ensures |n.clean| == |n.cells| && Total(Steps(chunk, bufferSize)) == chunk
    ensures var r := CopyRun(n, src, dst, s0, d0, Steps(chunk, bufferSize), page);
            && ValidNor(r) && r.disciplined == n.disciplined && SameOutside(n.cells, r.cells, dst)
            && ChunkCopied(n, r, src, dst, s0, d0, chunk, page)
  {
    hide Aligned, RoundUp, CopyRun, Overlay, SameOutside, NoCrossing, Steps, ValidNor;
    ValidLength(n);
    StepsTotal(chunk, bufferSize);
    BuffersCross(chunk, bufferSize, page);
    CopyRunCopies(n, src, dst, s0, d0, Steps(chunk, bufferSize), page);
  }

  ghost predicate ChunkSwapped(n: Nor, r: Nor, o1: MemObject, o2: MemObject, offset: nat, chunk: nat, page: nat) {
    && page > 0 && |r.cells| == |n.cells| && o1.start <= o1.end <= |n.cells| && o2.start <= o2.end <= |n.cells|
    && offset + chunk <= o1.end - o1.start && offset + chunk <= o2.end - o2.start
    && offset + RoundUp(chunk, page) <= o1.end - o1.start && offset + RoundUp(chunk, page) <= o2.end - o2.start
    && var c1, c2 := n.cells[o1.start..o1.end], n.cells[o2.start..o2.end];
       && r.cells[o1.start..o1.end] == Overlay(c1, offset, c2[offset..offset + chunk], page)
       && r.cells[o2.start..o2.end] == Overlay(c2, offset, c1[offset..offset + chunk], page)
  }

  /** One round exchanges one chunk. */
  lemma RoundSwaps(n: Nor, o1: MemObject, o2: MemObject, osw: MemObject, offset: nat, chunk: nat, bufferSize: nat, page: nat)
    requires SwapLayout(|n.cells|, page, o1, o2, osw, offset + chunk, chunk) && bufferSize > 0 && ValidNor(n)
    requires Aligned(offset, page) && (chunk <= page || Aligned(page, bufferSize))
    ensures |n.clean| == |n.cells|
    ensures var r := RoundRun(n, o1, o2, osw, offset, chunk, bufferSize, page);
            && ValidNor(r) && r.disciplined == n.disciplined && SameOutsideAll(n.cells, r.cells, o1, o2, osw)
            && ChunkSwapped(n, r, o1, o2, offset, chunk, page)
  {
    hide Aligned, RoundUp, CopyRun, Overlay, SameOutside, SameOutsideAll, Steps, ValidNor, Total;
    AlignedZero(page);
    var steps := Steps(chunk, bufferSize);
    ValidLength(n);
    ChunkCopies(n, o1, osw, offset, 0, chunk, bufferSize, page);
    var n1 := CopyRun(n, o1, osw, offset, 0, steps, page);
    SameSlot(n.cells, n1.cells, osw, o1);
    SameSlot(n.cells, n1.cells, osw, o2);
    ChunkCopies(n1, o2, o1, offset, offset, chunk, bufferSize, page);
    var n2 := CopyRun(n1, o2, o1, offset, offset, steps, page);
    SameSlot(n1.cells, n2.cells, o1, o2);
    SameSlot(n1.cells, n2.cells, o1, osw);
    var c1 := n.cells[o1.start..o1.end];
    OverlayHead(n.cells[osw.start..osw.end], c1[offset..offset + chunk], page);
    assert n2.cells[osw.start..osw.end][0..0 + chunk] == c1[offset..offset + chunk];
    ChunkCopies(n2, osw, o2, 0, offset, chunk, bufferSize, page);
    var n3 := CopyRun(n2, osw, o2, 0, offset, steps, page);
    SameSlot(n2.cells, n3.cells, o2, o1);
    Outside3(n.cells, n1.cells, n2.cells, n3.cells, osw, o1, o2);
  }

  lemma ValidLength(n: Nor)
    requires ValidNor(n)
    ensures |n.clean| == |n.cells|
  {}

  /** The state of a swap of `c1` and `c2` after `offset` bytes. */
  ghost predicate Swapping(n: Nor, o1: MemObject, o2: MemObject, c1: seq<byte>, c2: seq<byte>, offset: nat, page: nat) {
    && page > 0 && ValidNor(n) && |c1| == o1.end - o1.start && |c2| == o2.end - o2.start
    && o1.end <= |n.cells| && o2.end <= |n.cells| && offset <= |c1| && offset <= |c2|
    && RoundUp(offset, page) <= |c1| && RoundUp(offset, page) <= |c2|
    && n.cells[o1.start..o1.end] == TakenOver(c1, c2, offset, page)
    && n.cells[o2.start..o2.end] == TakenOver(c2, c1, offset, page)
  }

  lemma SwappingStarts(n: Nor, o1: MemObject, o2: MemObject, page: nat)
    requires page > 0 && ValidNor(n) && o1.start <= o1.end <= |n.cells| && o2.start <= o2.end <= |n.cells|
    ensures Swapping(n, o1, o2, n.cells[o1.start..o1.end], n.cells[o2.start..o2.end], 0, page)
  {
    AlignedZero(page);
    RoundUpUnique(0, 0, page);
    var c1, c2 := n.cells[o1.start..o1.end], n.cells[o2.start..o2.end];
    assert c1[..0] == [] && c2[..0] == [];
  }

  /** A round takes the exchange one chunk further. */
  lemma SwappingOn(n: Nor, o1: MemObject, o2: MemObject, osw: MemObject, c1: seq<byte>, c2: seq<byte>,
                   offset: nat, chunk: nat, bufferSize: nat, page: nat)
    requires SwapLayout(|n.cells|, page, o1, o2, osw, offset + chunk, chunk) && bufferSize > 0
    requires Aligned(offset, page) && (chunk <= page || Aligned(page, bufferSize))
    requires Swapping(n, o1, o2, c1, c2, offset, page)
    ensures |n.clean| == |n.cells|
    ensures var r := RoundRun(n, o1, o2, osw, offset, chunk, bufferSize, page);
            && Swapping(r, o1, o2, c1, c2, offset + chunk, page)
            && r.disciplined == n.disciplined && SameOutsideAll(n.cells, r.cells, o1, o2, osw)
  {
    hide TakenOver, Aligned, RoundUp, Overlay, SameOutsideAll, Apart, RoundRun, ValidNor;
    ValidLength(n);
    RoundSwaps(n, o1, o2, osw, offset, chunk, bufferSize, page);
    BeyondTakeover(c1, c2, offset, chunk, page);
    BeyondTakeover(c2, c1, offset, chunk, page);
    TakeoverExtends(c1, c2, offset, chunk, page);
    TakeoverExtends(c2, c1, offset, chunk, page);
  }

  lemma {:induction false} SwapRunSwaps(n: Nor, o1: MemObject, o2: MemObject, osw: MemObject, c1: seq<byte>, c2: seq<byte>,
                                        offset: nat, m: nat, swapSize: nat, bufferSize: nat, page: nat)
    requires SwapLayout(|n.cells|, page, o1, o2, osw, m, swapSize) && bufferSize > 0 && PageWise(page, bufferSize, swapSize)
    requires offset <= m && (offset == m || Aligned(offset, page)) && Swapping(n, o1, o2, c1, c2, offset, page)
    ensures |n.clean| == |n.cells|
    ensures var r := SwapRun(n, o1, o2, osw, offset, m, swapSize, bufferSize, page);
            && Swapping(r, o1, o2, c1, c2, m, page)
            && r.disciplined == n.disciplined && SameOutsideAll(n.cells, r.cells, o1, o2, osw)
    decreases m - offset
  {
    hide Aligned, SameOutsideAll, Swapping, RoundRun, Apart;
    SwappingLength(n, o1, o2, c1, c2, offset, page);
    if offset == m {
      OutsideStart(n.cells, o1, o2, osw);
    } else {
      var chunk := ChunkAt(offset, m, swapSize);
      SwappingOn(n, o1, o2, osw, c1, c2, offset, chunk, bufferSize, page);
      var n' := RoundRun(n, o1, o2, osw, offset, chunk, bufferSize, page);
      if chunk == swapSize {
        AlignedSum(offset, chunk, page);
      }
      SwapRunSwaps(n', o1, o2, osw, c1, c2, offset + chunk, m, swapSize, bufferSize, page);
      OutsideContinues(n.cells, n'.cells, SwapRun(n, o1, o2, osw, offset, m, swapSize, bufferSize, page).cells, o1, o2, osw);
    }
  }

  lemma SwappingLength(n: Nor, o1: MemObject, o2: MemObject, c1: seq<byte>, c2: seq<byte>, offset: nat, page: nat)
    requires Swapping(n, o1, o2, c1, c2, offset, page)
    ensures |n.clean| == |n.cells|
  {}

  // ---- And when it does not ----

  /** The length a swap of two objects reads from their manifests. */
  ghost function Announced(n: Nor, o1: MemObject, o2: MemObject): nat
    requires o1.start + SIZE <= o1.end <= |n.cells| && o2.start + SIZE <= o2.end <= |n.cells|
  {
    SwapLength(n.cells[o1.start..o1.end], n.cells[o2.start..o2.end])
  }

  /** A call of the swap: two slots whose images fit each other's slot, and a swap object. */
  ghost predicate SwapCall(n: Nor, o1: MemObject, o2: MemObject, osw: MemObject, swapSize: nat, page: nat) {
    && ValidNor(n) && o1.start + SIZE <= o1.end <= |n.cells| && o2.start + SIZE <= o2.end <= |n.cells|
    && Exchangeable(n.cells[o1.start..o1.end], n.cells[o2.start..o2.end])
    && SwapLayout(|n.cells|, page, o1, o2, osw, 0, swapSize)
  }

  lemma CallMeans(n: Nor, o1: MemObject, o2: MemObject, osw: MemObject, swapSize: nat, page: nat)
    requires SwapCall(n, o1, o2, osw, swapSize, page)
    ensures |n.clean| == |n.cells| && SwapLayout(|n.cells|, page, o1, o2, osw, Announced(n, o1, o2), swapSize)
  {
    hide FirmwareSize, Aligned, Apart;
  }

  /** What a call of the swap leaves. */
  ghost function SwapResult(n: Nor, o1: MemObject, o2: MemObject, osw: MemObject, swapSize: nat, bufferSize: nat, page: nat): (r: Nor)
    requires SwapCall(n, o1, o2, osw, swapSize, page) && bufferSize > 0
    ensures |r.cells| == |n.cells|
  {
    CallMeans(n, o1, o2, osw, swapSize, page);
    SwapRun(n, o1, o2, osw, 0, Announced(n, o1, o2), swapSize, bufferSize, page)
  }

  /** Whether a call of the swap leaves each slot with the other's image. */
  ghost predicate Exchanges(n: Nor, o1: MemObject, o2: MemObject, osw: MemObject, swapSize: nat, bufferSize: nat, page: nat)
    requires SwapCall(n, o1, o2, osw, swapSize, page) && bufferSize > 0
  {
    var r := SwapResult(n, o1, o2, osw, swapSize, bufferSize, page);
    Traded(n.cells[o1.start..o1.end], n.cells[o2.start..o2.end], r.cells[o1.start..o1.end], r.cells[o2.start..o2.end])
  }

  /** Whether every call of the swap does. */
  ghost predicate SwapsAlways(page: nat, bufferSize: nat, swapSize: nat)
    requires page > 0 && bufferSize > 0
  {
    forall n: Nor, o1: MemObject, o2: MemObject, osw: MemObject :: SwapCall(n, o1, o2, osw, swapSize, page) ==>
      Exchanges(n, o1, o2, osw, swapSize, bufferSize, page)
  }

  lemma TakenHead(c: seq<byte>, other: seq<byte>, m: nat, page: nat)
    requires page > 0 && m <= |other| && RoundUp(m, page) <= |c|
    ensures m <= |c| && TakenOver(c, other, m, page)[..m] == other[..m]
  {
    hide RoundUp;
  }

  lemma HoldsTaken(c: seq<byte>, other: seq<byte>, m: nat, page: nat)
    requires page > 0 && m <= |other| && RoundUp(m, page) <= |c| && |other| >= SIZE && FirmwareSize(other) <= m
    ensures Holds(TakenOver(c, other, m, page), other)
  {
    hide RoundUp, TakenOver, FirmwareSize;
    TakenHead(c, other, m, page);
    SameSlice(TakenOver(c, other, m, page), other, m, 0, FirmwareSize(other));
  }

  /** An exchange of the larger length carries both images. */
  lemma SwappedTrade(n: Nor, o1: MemObject, o2: MemObject, a: seq<byte>, b: seq<byte>, page: nat)
    requires |a| >= SIZE && |b| >= SIZE && Swapping(n, o1, o2, a, b, SwapLength(a, b), page)
    ensures Traded(a, b, n.cells[o1.start..o1.end], n.cells[o2.start..o2.end])
  {
    hide RoundUp, TakenOver, FirmwareSize, ValidNor;
    HoldsTaken(a, b, SwapLength(a, b), page);
    HoldsTaken(b, a, SwapLength(a, b), page);
  }

  /** A flash of two slots and a swap object, one behind the other. */
  ghost function SideBySide(c1: seq<byte>, c2: seq<byte>): (n: Nor)
    requires |c1| == |c2|
    ensures ValidNor(n) && |n.cells| == 3 * |c1|
    ensures n.cells[0..|c1|] == c1 && n.cells[|c1|..2 * |c1|] == c2
  {
    var cells := c1 + c2 + seq<byte>(|c1|, _ => 0);
    assert cells[0..|c1|] == c1 && cells[|c1|..2 * |c1|] == c2;
    Nor(cells, seq(3 * |c1|, _ => false), true)
  }

  function Part(k: nat, len: nat): MemObject {
    MemObject(k * len, (k + 1) * len, SequentialRewrite)
  }

  lemma SideBySideCall(c1: seq<byte>, c2: seq<byte>, page: nat, swapSize: nat)
    requires page > 0 && SIZE <= |c1| == |c2| && Aligned(|c1|, page) && 0 < swapSize <= |c1| && Exchangeable(c1, c2)
    ensures SwapCall(SideBySide(c1, c2), Part(0, |c1|), Part(1, |c1|), Part(2, |c1|), swapSize, page)
    ensures Announced(SideBySide(c1, c2), Part(0, |c1|), Part(1, |c1|)) == SwapLength(c1, c2)
  {
    hide Aligned, FirmwareSize;
    var len := |c1|;
    AlignedZero(page);
    AlignedSum(len, len, page);
    AlignedSum(2 * len, len, page);
  }

  /** A byte outside a copy's destination. */
  lemma Untouched(n: Nor, src: MemObject, dst: MemObject, s: nat, t: nat, chunk: nat, bufferSize: nat, page: nat, a: nat)
    requires page > 0 && bufferSize > 0 && |n.clean| == |n.cells| && PlacedIn(|n.cells|, page, dst)
    requires src.start + s + chunk <= |n.cells| && dst.start + t + chunk <= dst.end
    requires a < |n.cells| && !(dst.start <= a < dst.end)
    ensures Total(Steps(chunk, bufferSize)) == chunk
    ensures CopyRun(n, src, dst, s, t, Steps(chunk, bufferSize), page).cells[a] == n.cells[a]
  {
    hide CopyRun, Steps, Aligned;
    StepsTotal(chunk, bufferSize);
    CopyRunOutside(n, src, dst, s, t, Steps(chunk, bufferSize), page);
  }

  /** If a buffer crosses a page boundary, the page behind it is never erased: zeros stay where the
      other slot announced ones. */
  lemma CrossingFails(page: nat, bufferSize: nat, swapSize: nat)
    requires page > 0 && bufferSize > 0 && 0 < swapSize && swapSize + 1 < TWO32
    requires !NoCrossing(Steps(swapSize, bufferSize), 0, page)
    ensures !SwapsAlways(page, bufferSize, swapSize)
  {
    hide Aligned, RoundUp, CopyRun, Steps, NoCrossing, Starts, ValidNor, Total, FirmwareSize, RoundRun, SwapCall, SwapLayout;
    StepsTotal(swapSize, bufferSize);
    var p := CrossedPage(Steps(swapSize, bufferSize), 0, page);
    var len := RoundUp(swapSize + SIZE, page);
    var c1 := ZerosAnnouncing(len, 0, p);
    var c2 := OnesAnnouncing(len, swapSize, p);
    var n, z, o, w := SideBySide(c1, c2), Part(0, len), Part(1, len), Part(2, len);
    SideBySideCall(c1, c2, page, swapSize);
    CallMeans(n, z, o, w, swapSize, page);
    assert n.cells[0..len][p] == c1[p] && n.cells[len..2 * len][p] == c2[p];
    ZeroRemains(n, z, o, w, swapSize, bufferSize, page, p);
    var r := RoundRun(n, z, o, w, 0, swapSize, bufferSize, page);
    OneRound(n, z, o, w, swapSize, swapSize, bufferSize, page);
    ByteDiffers(r.cells[0..len], c2, p);
    assert !Exchanges(n, z, o, w, swapSize, bufferSize, page);
  }

  /** A swap of one chunk is one round. */
  lemma OneRound(n: Nor, o1: MemObject, o2: MemObject, osw: MemObject, m: nat, swapSize: nat, bufferSize: nat, page: nat)
    requires SwapLayout(|n.cells|, page, o1, o2, osw, m, swapSize) && bufferSize > 0 && |n.clean| == |n.cells| && 0 < m <= swapSize
    ensures SwapRun(n, o1, o2, osw, 0, m, swapSize, bufferSize, page) == RoundRun(n, o1, o2, osw, 0, m, bufferSize, page)
  {
    hide RoundRun;
    var r := RoundRun(n, o1, o2, osw, 0, m, bufferSize, page);
    assert SwapRun(r, o1, o2, osw, m, m, swapSize, bufferSize, page) == r;
  }

  lemma ByteDiffers(c: seq<byte>, a: seq<byte>, p: nat)
    requires |a| >= SIZE && p < FirmwareSize(a) && p < |a| && p < |c| && c[p] != a[p]
    ensures !Holds(c, a)
  {
    hide FirmwareSize;
    var m := FirmwareSize(a);
    assert m <= |a| && m <= |c| ==> c[..m][p] == c[p] && a[..m][p] == a[p];
  }

  /** A zero of the first object, in a page that no step starts, survives a round. */
  lemma ZeroRemains(n: Nor, z: MemObject, o: MemObject, w: MemObject, chunk: nat, bufferSize: nat, page: nat, p: nat)
    requires SwapLayout(|n.cells|, page, z, o, w, chunk, chunk) && bufferSize > 0 && |n.clean| == |n.cells|
    requires Aligned(p, page) && p < chunk && !Starts(Steps(chunk, bufferSize), 0, p) && n.cells[z.start + p] == 0
    ensures RoundRun(n, z, o, w, 0, chunk, bufferSize, page).cells[z.start + p] == 0
  {
    hide Aligned, CopyRun, Steps, Starts, Total;
    var steps := Steps(chunk, bufferSize);
    AlignedSum(z.start, p, page);
    Untouched(n, z, w, 0, 0, chunk, bufferSize, page, z.start + p);
    var n1 := CopyRun(n, z, w, 0, 0, steps, page);
    StaysZero(n1, o, z, 0, 0, steps, page, p, z.start + p);
    var n2 := CopyRun(n1, o, z, 0, 0, steps, page);
    Untouched(n2, w, o, 0, 0, chunk, bufferSize, page, z.start + p);
  }

  /** A byte behind all that a copy writes, in a page that a step of it erases, is left blank. */
  lemma {:induction false} BlankBehind(n: Nor, src: MemObject, dst: MemObject, s: nat, t: nat, steps: seq<nat>, page: nat,
                                       p: nat, a: nat)
    requires page > 0 && |n.clean| == |n.cells| && dst.mode == SequentialRewrite
    requires src.start + s + Total(steps) <= |n.cells| && dst.start + t + Total(steps) <= a < |n.cells|
    requires Aligned(dst.start + p, page) && dst.start + p <= a < dst.start + p + page
    requires Starts(steps, t, p) || n.cells[a] == ERASED
    ensures CopyRun(n, src, dst, s, t, steps, page).cells[a] == ERASED
    decreases |steps|
  {
    hide Aligned, WriteNor;
    if steps != [] {
      var step := steps[0];
      var buf := n.cells[src.start + s..src.start + s + step];
      WrittenAt(n, dst, page, buf, t, a);
      BlankBehind(WriteNor(n, dst, page, buf, t), src, dst, s + step, t + step, steps[1..], page, p, a);
    }
  }

  /** A single byte of ones over ones, or onto a page it erases. */
  lemma OnesOverOnes(n: Nor, src: MemObject, dst: MemObject, s: nat, t: nat, bufferSize: nat, page: nat)
    requires page > 0 && bufferSize > 0 && |n.clean| == |n.cells|
    requires src.start + s < |n.cells| && dst.start + t < |n.cells| && n.cells[src.start + s] == ERASED
    requires n.cells[dst.start + t] == ERASED || ErasesFirst(dst, t, page)
    ensures Total(Steps(1, bufferSize)) == 1
    ensures CopyRun(n, src, dst, s, t, Steps(1, bufferSize), page).cells[dst.start + t] == ERASED
  {
    hide WriteNor, Aligned, And;
    var steps := Steps(1, bufferSize);
    StepsTotal(1, bufferSize);
    assert steps == [1];
    var buf := n.cells[src.start + s..src.start + s + 1];
    var n' := WriteNor(n, dst, page, buf, t);
    WrittenAt(n, dst, page, buf, t, dst.start + t);
    AndLaws(ERASED);
    assert steps[1..] == [];
    assert CopyRun(n', src, dst, s + 1, t + 1, steps[1..], page) == n';
    assert CopyRun(n, src, dst, s, t, steps, page) == n';
  }

  /** If chunks are not whole pages, the first round erases what the second was to save: after it
      the byte behind the chunk is blank in both slots. */
  lemma RaggedRound(n: Nor, z: MemObject, o: MemObject, w: MemObject, chunk: nat, bufferSize: nat, page: nat)
    requires SwapLayout(|n.cells|, page, z, o, w, chunk + 1, chunk) && bufferSize > 0 && |n.clean| == |n.cells|
    requires !Aligned(chunk, page) && NoCrossing(Steps(chunk, bufferSize), 0, page)
    ensures var r := RoundRun(n, z, o, w, 0, chunk, bufferSize, page);
            r.cells[z.start + chunk] == ERASED && r.cells[o.start + chunk] == ERASED
  {
    hide Aligned, RoundUp, CopyRun, Steps, NoCrossing, Starts, Total, ValidNor;
    var steps := Steps(chunk, bufferSize);
    StepsTotal(chunk, bufferSize);
    var p := LastPage(chunk, bufferSize, page);
    AlignedSum(z.start, p, page);
    AlignedSum(o.start, p, page);
    var n1 := CopyRun(n, z, w, 0, 0, steps, page);
    BlankBehind(n1, o, z, 0, 0, steps, page, p, z.start + chunk);
    var n2 := CopyRun(n1, o, z, 0, 0, steps, page);
    BlankBehind(n2, w, o, 0, 0, steps, page, p, o.start + chunk);
    Untouched(n2, w, o, 0, 0, chunk, bufferSize, page, z.start + chunk);
  }

  /** The page a ragged chunk ends in is one of those it erases. */
  lemma LastPage(chunk: nat, bufferSize: nat, page: nat) returns (p: nat)
    requires page > 0 && bufferSize > 0 && !Aligned(chunk, page) && NoCrossing(Steps(chunk, bufferSize), 0, page)
    ensures Aligned(p, page) && p < chunk < p + page && Starts(Steps(chunk, bufferSize), 0, p)
  {
    hide Aligned, RoundUp, NoCrossing;
    AlignedZero(page);
    StepsTotal(chunk, bufferSize);
    var top := RoundUp(chunk, page);
    AlignedSelf(page);
    AlignedStep(0, top, page);
    p := top - page;
    AlignedDifference(page, p, page);
    if p > 0 {
      EveryPageStarts(Steps(chunk, bufferSize), 0, p, page);
    }
  }

  /** So a zero that the first slot announced behind its first chunk is lost. */
  lemma RaggedFails(page: nat, bufferSize: nat, swapSize: nat)
    requires page > 0 && bufferSize > 0 && 0 < swapSize && swapSize + 1 < TWO32
    requires !Aligned(swapSize, page) && NoCrossing(Steps(swapSize, bufferSize), 0, page)
    ensures !SwapsAlways(page, bufferSize, swapSize)
  {
    hide Aligned, RoundUp, CopyRun, Steps, NoCrossing, Starts, ValidNor, Total, FirmwareSize, RoundRun, SwapCall;
    var len, m := RoundUp(swapSize + SIZE, page), swapSize + 1;
    var c1 := ZerosAnnouncing(len, m, swapSize);
    var c2 := ZerosAnnouncing(len, 0, 0);
    var n, z, o, w := SideBySide(c1, c2), Part(0, len), Part(1, len), Part(2, len);
    SideBySideCall(c1, c2, page, swapSize);
    CallMeans(n, z, o, w, swapSize, page);
    assert n.cells[0..len][swapSize] == c1[swapSize];
    RaggedRound(n, z, o, w, swapSize, bufferSize, page);
    var r1 := RoundRun(n, z, o, w, 0, swapSize, bufferSize, page);
    ByteLost(r1, z, o, w, swapSize, bufferSize, page);
    var r2 := RoundRun(r1, z, o, w, swapSize, 1, bufferSize, page);
    TwoRounds(n, z, o, w, swapSize, bufferSize, page);
    ByteDiffers(r2.cells[len..2 * len], c1, swapSize);
    assert !Exchanges(n, z, o, w, swapSize, bufferSize, page);
  }

  /** A swap of one byte more than a chunk is two rounds. */
  lemma TwoRounds(n: Nor, o1: MemObject, o2: MemObject, osw: MemObject, swapSize: nat, bufferSize: nat, page: nat)
    requires SwapLayout(|n.cells|, page, o1, o2, osw, swapSize + 1, swapSize) && bufferSize > 0 && |n.clean| == |n.cells|
    ensures SwapRun(n, o1, o2, osw, 0, swapSize + 1, swapSize, bufferSize, page)
         == RoundRun(RoundRun(n, o1, o2, osw, 0, swapSize, bufferSize, page), o1, o2, osw, swapSize, 1, bufferSize, page)
  {
    hide RoundRun;
    var m := swapSize + 1;
    var r1 := RoundRun(n, o1, o2, osw, 0, swapSize, bufferSize, page);
    var r2 := RoundRun(r1, o1, o2, osw, swapSize, 1, bufferSize, page);
    assert SwapRun(r2, o1, o2, osw, m, m, swapSize, bufferSize, page) == r2;
    assert SwapRun(r1, o1, o2, osw, swapSize, m, swapSize, bufferSize, page) == r2;
  }

  /** The round for one blank byte leaves it blank. */
  lemma ByteLost(n: Nor, z: MemObject, o: MemObject, w: MemObject, at: nat, bufferSize: nat, page: nat)
    requires SwapLayout(|n.cells|, page, z, o, w, at + 1, 1) && bufferSize > 0 && |n.clean| == |n.cells|
    requires n.cells[z.start + at] == ERASED && n.cells[o.start + at] == ERASED
    ensures RoundRun(n, z, o, w, at, 1, bufferSize, page).cells[o.start + at] == ERASED
  {
    hide Aligned, CopyRun, Steps, Total;
    var steps := Steps(1, bufferSize);
    AlignedOffset(w.start, 0, page);
    AlignedZero(page);
    OnesOverOnes(n, z, w, at, 0, bufferSize, page);
    var n1 := CopyRun(n, z, w, at, 0, steps, page);
    Untouched(n, z, w, at, 0, 1, bufferSize, page, o.start + at);
    var n2 := CopyRun(n1, o, z, at, at, steps, page);
    Untouched(n1, o, z, at, at, 1, bufferSize, page, o.start + at);
    Untouched(n1, o, z, at, at, 1, bufferSize, page, w.start);
    OnesOverOnes(n2, w, o, 0, at, bufferSize, page);
  }

  /** The exact condition. For every page, buffer and swap size: every call of the swap exchanges two
      slots, whatever they hold and wherever they lie, if and only if chunks are whole pages and
      buffers fill pages (or a chunk is one page). */
  lemma SwapsIffPageWise(page: nat, bufferSize: nat, swapSize: nat)
    requires page > 0 && bufferSize > 0 && 0 < swapSize && swapSize + 1 < TWO32
    ensures SwapsAlways(page, bufferSize, swapSize) <==> PageWise(page, bufferSize, swapSize)
  {
    hide Aligned, NoCrossing, Steps, SwapRun, Swapping, Traded, ValidNor, SameOutsideAll, SwapLength;
    BuffersCross(swapSize, bufferSize, page);
    if PageWise(page, bufferSize, swapSize) {
      forall n: Nor, o1: MemObject, o2: MemObject, osw: MemObject | SwapCall(n, o1, o2, osw, swapSize, page)
        ensures Exchanges(n, o1, o2, osw, swapSize, bufferSize, page)
      {
        var m := Announced(n, o1, o2);
        CallMeans(n, o1, o2, osw, swapSize, page);
        AlignedZero(page);
        SwappingStarts(n, o1, o2, page);
        var c1, c2 := n.cells[o1.start..o1.end], n.cells[o2.start..o2.end];
        SwapRunSwaps(n, o1, o2, osw, c1, c2, 0, m, swapSize, bufferSize, page);
        SwappedTrade(SwapRun(n, o1, o2, osw, 0, m, swapSize, bufferSize, page), o1, o2, c1, c2, page);
      }
    } else if NoCrossing(Steps(swapSize, bufferSize), 0, page) {
      OnePageOrNot(page, bufferSize, swapSize);
      RaggedFails(page, bufferSize, swapSize);
    } else {
      CrossingFails(page, bufferSize, swapSize);
    }
  }

  lemma OnePageOrNot(page: nat, bufferSize: nat, swapSize: nat)
    requires page > 0 && bufferSize > 0 && swapSize > 0 && !PageWise(page, bufferSize, swapSize)
    requires swapSize <= page || Aligned(page, bufferSize)
    ensures !Aligned(swapSize, page)
  {
    hide Aligned;
    if Aligned(swapSize, page) {
      AlignedZero(page);
      AlignedStep(0, swapSize, page);
    }
  }

  /** The documentation asks for a swap size that is a multiple of the buffer size. Given that, the
      exchange works if and only if the buffer divides a page and a page divides the swap size. */
  lemma DocumentedCondition(page: nat, bufferSize: nat, swapSize: nat)
    requires page > 0 && bufferSize > 0 && 0 < swapSize && swapSize + 1 < TWO32 && Aligned(swapSize, bufferSize)
    ensures SwapsAlways(page, bufferSize, swapSize) <==> Aligned(page, bufferSize) && Aligned(swapSize, page)
  {
    hide Aligned, SwapsAlways;
    SwapsIffPageWise(page, bufferSize, swapSize);
  }

  /** So it is not enough: with pages of 512 bytes, a buffer of 384 and a swap size of 768 there is a
      flash on which the swap does not leave each slot with the other's image. */
  lemma DocumentedIsNotEnough() returns (n: Nor, o1: MemObject, o2: MemObject, osw: MemObject)
    ensures Aligned(768, 384) && 768 > 384 && SwapCall(n, o1, o2, osw, 768, 512)
    ensures !Exchanges(n, o1, o2, osw, 768, 384, 512)
  {
    DocumentedCondition(512, 384, 768);
    hide Exchanges, SwapCall;
    n, o1, o2, osw :| SwapCall(n, o1, o2, osw, 768, 512) && !Exchanges(n, o1, o2, osw, 768, 384, 512);
  }

  // ---- The code ----

  lemma FirstStep(n: Nor, src: MemObject, dst: MemObject, s: nat, t: nat, size: nat, bufferSize: nat, page: nat)
    requires page > 0 && bufferSize > 0 && size > 0 && |n.clean| == |n.cells|
    requires src.start + s + size <= |n.cells| && dst.start + t + size <= |n.cells|
    ensures var step := if bufferSize < size then bufferSize else size;
            && Total(Steps(size, bufferSize)) == size && Total(Steps(size - step, bufferSize)) == size - step
            && CopyRun(n, src, dst, s, t, Steps(size, bufferSize), page)
            == CopyRun(WriteNor(n, dst, page, n.cells[src.start + s..src.start + s + step], t), src, dst, s + step, t + step,
                       Steps(size - step, bufferSize), page)
  {
    hide WriteNor;
    var step := if bufferSize < size then bufferSize else size;
    StepsTotal(size, bufferSize);
    StepsTotal(size - step, bufferSize);
    assert Steps(size, bufferSize)[1..] == Steps(size - step, bufferSize);
  }

  lemma NoStep(n: Nor, src: MemObject, dst: MemObject, s: nat, t: nat, bufferSize: nat, page: nat)
    requires page > 0 && bufferSize > 0 && |n.clean| == |n.cells| && src.start + s <= |n.cells| && dst.start + t <= |n.cells|
    ensures Total(Steps(0, bufferSize)) == 0 && CopyRun(n, src, dst, s, t, Steps(0, bufferSize), page) == n
  {}

  /** The copy loop of a swap: `size` bytes from one object to the other, a buffer at a time, the swap
      object always from its beginning. */
  method SwapChunk(d: Device, src: MemObject, dst: MemObject, offset: nat, size: nat, bufferSize: nat,
                   readSwap: bool, writeSwap: bool)
    requires Placed(d, src) && Placed(d, dst) && 0 < bufferSize
    requires (if readSwap then 0 else offset) + size <= src.end - src.start
    requires (if writeSwap then 0 else offset) + size <= dst.end - dst.start
    modifies d
    ensures Placed(d, src) && Placed(d, dst) && |d.cells| == old(|d.cells|)
    ensures Total(Steps(size, bufferSize)) == size
    ensures StateOf(d) == CopyRun(old(StateOf(d)), src, dst, if readSwap then 0 else offset, if writeSwap then 0 else offset,
                                  Steps(size, bufferSize), d.page)
  {
    hide Aligned, WriteNor, CopyRun, Steps, Total;
    StepsTotal(size, bufferSize);
    ghost var s0, d0 := if readSwap then 0 else offset, if writeSwap then 0 else offset;
    var step, full: nat, offset' := bufferSize, 0, offset;
    while full < size
      invariant full <= size && offset' == offset + full && (full == size || step == bufferSize)
      invariant Placed(d, src) && Placed(d, dst) && |d.cells| == old(|d.cells|)
      invariant Total(Steps(size - full, bufferSize)) == size - full
      invariant CopyRun(StateOf(d), src, dst, s0 + full, d0 + full, Steps(size - full, bufferSize), d.page)
             == CopyRun(old(StateOf(d)), src, dst, s0, d0, Steps(size, bufferSize), d.page)
    {
      if full + step > size {
        step := size - full;
      }
      FirstStep(StateOf(d), src, dst, s0 + full, d0 + full, size - full, bufferSize, d.page);
      CopyStep(d, src, dst, if readSwap then full else offset', if writeSwap then full else offset', step);
      full, offset' := full + step, offset' + step;
    }
    NoStep(StateOf(d), src, dst, s0 + full, d0 + full, bufferSize, d.page);
  }

  /** One round. */
  method SwapRound(d: Device, o1: MemObject, o2: MemObject, osw: MemObject, offset: nat, size: nat, bufferSize: nat)
    requires Placed(d, o1) && Placed(d, o2) && Placed(d, osw) && 0 < bufferSize
    requires offset + size <= o1.end - o1.start && offset + size <= o2.end - o2.start && size <= osw.end - osw.start
    modifies d
    ensures Placed(d, o1) && Placed(d, o2) && Placed(d, osw) && |d.cells| == old(|d.cells|)
    ensures StateOf(d) == RoundRun(old(StateOf(d)), o1, o2, osw, offset, size, bufferSize, d.page)
  {
    hide Aligned, CopyRun, Steps;
    SwapChunk(d, o1, osw, offset, size, bufferSize, false, true);
    SwapChunk(d, o2, o1, offset, size, bufferSize, false, false);
    SwapChunk(d, osw, o2, offset, size, bufferSize, true, false);
  }

  /** The larger of the two lengths the manifests give. */
  method ReadLength(d: Device, o1: MemObject, o2: MemObject) returns (size: nat)
    requires Placed(d, o1) && Placed(d, o2) && o1.end - o1.start >= SIZE && o2.end - o2.start >= SIZE
    ensures size == SwapLength(Contents(d, o1), Contents(d, o2))
  {
    hide FirmwareSize, Aligned;
    var mt := Flash.Read(d, o1, SIZE, 0);
    SameManifest(mt, Contents(d, o1));
    size := FirmwareSize(mt);
    mt := Flash.Read(d, o2, SIZE, 0);
    SameManifest(mt, Contents(d, o2));
    var size2 := FirmwareSize(mt);
    if size2 > size {
      size := size2;
    }
  }

  /** All rounds. */
  method SwapRounds(d: Device, o1: MemObject, o2: MemObject, osw: MemObject, size: nat, swapSize: nat, bufferSize: nat)
    requires Placed(d, o1) && Placed(d, o2) && Placed(d, osw) && 0 < bufferSize
    requires SwapLayout(|d.cells|, d.page, o1, o2, osw, size, swapSize)
    modifies d
    ensures Placed(d, o1) && Placed(d, o2) && Placed(d, osw) && |d.cells| == old(|d.cells|)
    ensures StateOf(d) == SwapRun(old(StateOf(d)), o1, o2, osw, 0, size, swapSize, bufferSize, d.page)
  {
    hide Aligned, RoundRun, Apart;
    ghost var n := StateOf(d);
    var chunk, offset: nat := swapSize, 0;
    while offset < size
      invariant offset <= size && (offset == size || chunk == swapSize)
      invariant Placed(d, o1) && Placed(d, o2) && Placed(d, osw) && |d.cells| == |n.cells|
      invariant SwapRun(StateOf(d), o1, o2, osw, offset, size, swapSize, bufferSize, d.page)
             == SwapRun(n, o1, o2, osw, 0, size, swapSize, bufferSize, d.page)
      decreases size - offset
    {
      if offset + chunk > size {
        chunk := size - offset;
      }
      SwapRound(d, o1, o2, osw, offset, chunk, bufferSize);
      offset := offset + chunk;
    }
  }

  /** The swap of two slots. On page-wise sizes each slot then holds the image the other announced;
      the swap exchanges exactly the larger image's length, blanks the rest of the last page, leaves
      everything outside the three objects as it was, and programs only bytes erased since they were
      last programmed. */
  method SwapSlots(d: Device, o1: MemObject, o2: MemObject, osw: MemObject, swapSize: nat, bufferSize: nat)
    requires Placed(d, o1) && Placed(d, o2) && Placed(d, osw) && 0 < bufferSize
    requires o1.end - o1.start >= SIZE && o2.end - o2.start >= SIZE
    requires SwapLayout(|d.cells|, d.page, o1, o2, osw, 0, swapSize) && Exchangeable(Contents(d, o1), Contents(d, o2))
    modifies d
    ensures Placed(d, o1) && Placed(d, o2) && Placed(d, osw) && |d.cells| == old(|d.cells|)
    ensures old(SwapCall(StateOf(d), o1, o2, osw, swapSize, d.page))
    ensures StateOf(d) == SwapResult(old(StateOf(d)), o1, o2, osw, swapSize, bufferSize, d.page)
    ensures PageWise(d.page, bufferSize, swapSize) ==>
              Traded(old(Contents(d, o1)), old(Contents(d, o2)), Contents(d, o1), Contents(d, o2))
    ensures PageWise(d.page, bufferSize, swapSize) ==>
              && Swapping(StateOf(d), o1, o2, old(Contents(d, o1)), old(Contents(d, o2)),
                          SwapLength(old(Contents(d, o1)), old(Contents(d, o2))), d.page)
              && d.disciplined == old(d.disciplined) && SameOutsideAll(old(d.cells), d.cells, o1, o2, osw)
  {
    hide Aligned, SwapLength, SameOutsideAll, SwapRun, Swapping, PageWise, Apart;
    ghost var n, c1, c2 := StateOf(d), Contents(d, o1), Contents(d, o2);
    CallMeans(n, o1, o2, osw, swapSize, d.page);
    var size := ReadLength(d, o1, o2);
    SwapRounds(d, o1, o2, osw, size, swapSize, bufferSize);
    if PageWise(d.page, bufferSize, swapSize) {
      AlignedZero(d.page);
      SwappingStarts(n, o1, o2, d.page);
      SwapRunSwaps(n, o1, o2, osw, c1, c2, 0, size, swapSize, bufferSize, d.page);
      SwappedTrade(StateOf(d), o1, o2, c1, c2, d.page);
    }
  }
}
