/** Copying between objects on NOR flash, write by write, on values. */
module NorCopy {
  import opened Bytes
  import opened Flash

  /** Two objects that share no byte. */
  predicate Apart(a: MemObject, b: MemObject) {
    a.end <= b.start || b.end <= a.start
  }

  /** Nothing outside an object changed. */
  ghost predicate SameOutside(cells0: seq<byte>, cells: seq<byte>, o: MemObject) {
    |cells0| == |cells| && forall a :: 0 <= a < |cells| && !(o.start <= a < o.end) ==> cells[a] == cells0[a]
  }

  lemma SameSlot(cells0: seq<byte>, cells: seq<byte>, o: MemObject, other: MemObject)
    requires SameOutside(cells0, cells, o) && Apart(o, other) && other.start <= other.end <= |cells|
    ensures cells[other.start..other.end] == cells0[other.start..other.end]
  {}

  lemma SameStart(cells: seq<byte>, o: MemObject)
    ensures SameOutside(cells, cells, o)
  {}

  lemma SameLength(cells0: seq<byte>, cells: seq<byte>, o: MemObject)
    requires SameOutside(cells0, cells, o)
    ensures |cells| == |cells0|
  {}

  lemma SameTrans(c0: seq<byte>, c1: seq<byte>, c2: seq<byte>, o: MemObject)
    requires SameOutside(c0, c1, o) && SameOutside(c1, c2, o)
    ensures SameOutside(c0, c2, o)
  {}

  // ---- A device as a value ----

  datatype Nor = Nor(cells: seq<byte>, clean: seq<bool>, disciplined: bool)

  ghost function StateOf(d: Device): Nor
    reads d
  {
    Nor(d.cells, d.clean, d.disciplined)
  }

  ghost predicate ValidNor(n: Nor) {
    |n.clean| == |n.cells| && forall a :: 0 <= a < |n.cells| && n.clean[a] ==> n.cells[a] == ERASED
  }

  /** An object on page boundaries of a flash of `len` bytes. */
  predicate PlacedIn(len: nat, page: nat, o: MemObject)
    requires page > 0
  {
    o.start <= o.end <= len && Aligned(o.start, page) && Aligned(o.end, page)
  }

  /** One write. */
  ghost function WriteNor(n: Nor, o: MemObject, page: nat, buf: seq<byte>, offset: nat): (r: Nor)
    requires page > 0 && |n.clean| == |n.cells| && o.start + offset + |buf| <= |n.cells|
    ensures |r.clean| == |r.cells| == |n.cells|
  {
    var clean := CleanBefore(n.clean, o, page, offset);
    Nor(WrittenCells(n.cells, o, page, buf, offset), ErasedAt(clean, o.start + offset, |buf|, false),
        n.disciplined && AllClean(clean, o.start + offset, |buf|))
  }

  function Total(steps: seq<nat>): nat {
    if steps == [] then 0 else steps[0] + Total(steps[1..])
  }

  /** A copy in steps: each reads as many bytes from the source as it writes to the destination. */
  ghost function CopyRun(n: Nor, src: MemObject, dst: MemObject, s: nat, t: nat, steps: seq<nat>, page: nat): (r: Nor)
    requires page > 0 && |n.clean| == |n.cells|
    requires src.start + s + Total(steps) <= |n.cells| && dst.start + t + Total(steps) <= |n.cells|
    ensures |r.clean| == |r.cells| == |n.cells|
    decreases |steps|
  {
    if steps == [] then n
    else
      var step := steps[0];
      var buf := n.cells[src.start + s..src.start + s + step];
      CopyRun(WriteNor(n, dst, page, buf, t), src, dst, s + step, t + step, steps[1..], page)
  }

  predicate Positive(steps: seq<nat>) {
    forall k :: 0 <= k < |steps| ==> steps[k] > 0
  }

  /** The end of the page an offset lies in. */
  function NextPage(w: nat, page: nat): (p: nat)
    requires page > 0
    ensures w < p <= w + page && Aligned(p, page)
  {
    RoundUp(w + 1, page)
  }

  /** No step, from offset `w` on, crosses a page boundary. */
  predicate NoCrossing(steps: seq<nat>, w: nat, page: nat)
    requires page > 0
  {
    steps == [] || (w + steps[0] <= NextPage(w, page) && NoCrossing(steps[1..], w + steps[0], page))
  }

  /** Some step, from offset `w` on, starts at `p`. */
  predicate Starts(steps: seq<nat>, w: nat, p: nat) {
    steps != [] && (w == p || Starts(steps[1..], w + steps[0], p))
  }

  /** `size` bytes a buffer at a time. */
  function Steps(size: nat, bufferSize: nat): (steps: seq<nat>)
    requires bufferSize > 0
    ensures Positive(steps)
  {
    if size == 0 then []
    else
      var step := if bufferSize < size then bufferSize else size;
      [step] + Steps(size - step, bufferSize)
  }

  lemma {:induction false} StepsTotal(size: nat, bufferSize: nat)
    requires bufferSize > 0
    ensures Total(Steps(size, bufferSize)) == size
  {
    if size > 0 {
      var step := if bufferSize < size then bufferSize else size;
      StepsTotal(size - step, bufferSize);
      assert Steps(size, bufferSize)[1..] == Steps(size - step, bufferSize);
    }
  }

  // ---- Pages ----

  lemma AlignedDifference(a: nat, b: nat, page: nat)
    requires page > 0 && Aligned(a, page) && Aligned(a + b, page)
    ensures Aligned(b, page)
  {
    var i, j := a / page, (a + b) / page;
    assert a == page * i && a + b == page * j;
    MulDifference(page, i, j, b);
  }

  lemma MulDifference(page: nat, i: nat, j: nat, b: nat)
    requires page > 0 && page * i + b == page * j
    ensures Aligned(b, page)
  {
    assert b == page * (j - i);
    DivUnique(b, page, j - i, 0);
  }

  lemma Divides(a: nat, page: nat, part: nat)
    requires page > 0 && part > 0 && Aligned(a, page) && Aligned(page, part)
    ensures Aligned(a, part)
  {
    var i, j := a / page, page / part;
    assert a == page * i && page == part * j;
    MulAssoc(part, j, i);
    DivUnique(a, part, j * i, 0);
  }

  lemma MulAssoc(a: int, b: int, c: int)
    ensures (a * b) * c == a * (b * c)
  {}

  lemma AlignedSelf(page: nat)
    requires page > 0
    ensures Aligned(0, page) && Aligned(page, page)
  {
    AlignedZero(page);
    AlignedNext(0, page);
  }

  lemma AlignedZero(page: nat)
    requires page > 0
    ensures Aligned(0, page)
  {}

  /** A sum with an aligned number is aligned exactly if the other is. */
  lemma AlignedOffset(base: nat, w: nat, page: nat)
    requires page > 0 && Aligned(base, page)
    ensures Aligned(base + w, page) <==> Aligned(w, page)
  {
    if Aligned(w, page) {
      AlignedSum(base, w, page);
    }
    if Aligned(base + w, page) {
      AlignedDifference(base, w, page);
    }
  }

  /** Pages do not overlap. */
  lemma OnePage(p: nat, w: nat, a: nat, page: nat)
    requires page > 0 && Aligned(p, page) && Aligned(w, page) && p <= a < p + page && w <= a < w + page
    ensures p == w
  {
    hide Aligned;
    if p < w {
      AlignedStep(p, w, page);
    } else if w < p {
      AlignedStep(w, p, page);
    }
  }

  lemma RoundUpUnique(n: nat, top: nat, page: nat)
    requires page > 0 && Aligned(top, page) && n <= top < n + page
    ensures RoundUp(n, page) == top
  {
    hide Aligned, RoundUp;
    var m := RoundUp(n, page);
    if m < top {
      AlignedStep(m, top, page);
    } else if top < m {
      AlignedStep(top, m, page);
    }
  }

  lemma RoundUpFits(m: nat, len: nat, page: nat)
    requires page > 0 && Aligned(len, page) && m <= len
    ensures RoundUp(m, page) <= len
  {
    hide Aligned, RoundUp;
    if len < RoundUp(m, page) {
      AlignedStep(len, RoundUp(m, page), page);
    }
  }

  /** A step that does not cross: from the start of a page it opens one, elsewhere it stays in it. */
  lemma TurnPage(w: nat, step: nat, page: nat)
    requires page > 0 && 0 < step && w + step <= NextPage(w, page)
    ensures Aligned(w, page) <==> RoundUp(w, page) == w
    ensures RoundUp(w + step, page) == if RoundUp(w, page) == w then w + page else RoundUp(w, page)
  {
    hide Aligned, RoundUp;
    var top, next := RoundUp(w, page), NextPage(w, page);
    if Aligned(w, page) {
      RoundUpUnique(w, w, page);
      AlignedNext(w, page);
      RoundUpUnique(w + 1, w + page, page);
    } else {
      RoundUpUnique(w + 1, top, page);
    }
    RoundUpUnique(w + step, next, page);
  }

  // ---- Steps that do not cross copy ----

  /** A copy, `n` bytes along: `top` is the end of the last page touched. */
  ghost predicate CopyProgress(cells0: seq<byte>, clean0: seq<bool>, cells: seq<byte>, clean: seq<bool>,
                               s: nat, t: nat, n: nat, top: nat) {
    && |clean0| == |cells0| == |cells| == |clean|
    && n <= top && s + n <= |cells| && t + top <= |cells|
    && (forall a :: t <= a < t + n ==> cells[a] == cells0[s + (a - t)])
    && (forall a :: t + n <= a < t + top ==> cells[a] == ERASED && clean[a])
    && (forall a :: 0 <= a < |cells| && !(t <= a < t + top) ==> cells[a] == cells0[a] && clean[a] == clean0[a])
  }

  /** One step keeps the copy going: it programs only clean bytes, and they take the data. */
  lemma ProgressStep(cells0: seq<byte>, clean0: seq<bool>, n: Nor, s: nat, t: nat, full: nat, top: nat,
                     dst: MemObject, offset: nat, buf: seq<byte>, page: nat, top': nat)
    requires page > 0 && ValidNor(n) && CopyProgress(cells0, clean0, n.cells, n.clean, s, t, full, top)
    requires dst.start + offset == t + full && ErasesFirst(dst, offset, page) == (full == top)
    requires top' == (if full == top then top + page else top)
    requires full + |buf| <= top' && t + top' <= |n.cells| && s + full + |buf| <= |n.cells|
    requires buf == cells0[s + full..s + full + |buf|]
    ensures var r := WriteNor(n, dst, page, buf, offset);
            && ValidNor(r) && r.disciplined == n.disciplined
            && CopyProgress(cells0, clean0, r.cells, r.clean, s, t, full + |buf|, top')
  {
    hide And, WriteNor, ErasesFirst;
    var r := WriteNor(n, dst, page, buf, offset);
    forall a | 0 <= a < |n.cells|
      ensures t <= a < t + full + |buf| ==> r.cells[a] == cells0[s + (a - t)]
      ensures t + full + |buf| <= a < t + top' ==> r.cells[a] == ERASED && r.clean[a]
      ensures !(t <= a < t + top') ==> r.cells[a] == cells0[a] && r.clean[a] == clean0[a]
      ensures r.clean[a] ==> r.cells[a] == ERASED
    {
      WrittenAt(n, dst, page, buf, offset, a);
      CleanAt(n, dst, page, buf, offset, a);
      if t + full <= a < t + full + |buf| {
        AndLaws(buf[a - (t + full)]);
        assert buf[a - (t + full)] == cells0[s + full + (a - (t + full))];
      }
    }
    OnlyClean(n, dst, page, buf, offset);
  }

  lemma CleanAt(n: Nor, o: MemObject, page: nat, buf: seq<byte>, offset: nat, a: nat)
    requires page > 0 && |n.clean| == |n.cells| && o.start + offset + |buf| <= |n.cells| && a < |n.cells|
    ensures var w := o.start + offset;
            var erased := ErasesFirst(o, offset, page) && w <= a < w + page;
            WriteNor(n, o, page, buf, offset).clean[a] == (!(w <= a < w + |buf|) && (erased || n.clean[a]))
  {
    hide And, Aligned, ErasesFirst;
  }

  /** A write that starts a page erases what it programs; any other is disciplined if it programs
      clean bytes. */
  lemma OnlyClean(n: Nor, o: MemObject, page: nat, buf: seq<byte>, offset: nat)
    requires page > 0 && |n.clean| == |n.cells| && o.start + offset + |buf| <= |n.cells|
    requires (ErasesFirst(o, offset, page) && |buf| <= page) || AllClean(n.clean, o.start + offset, |buf|)
    ensures WriteNor(n, o, page, buf, offset).disciplined == n.disciplined
  {
    hide ErasesFirst, WrittenCells;
  }

  /** What the copy reads next is still what it was. */
  lemma SourceIntact(cells0: seq<byte>, clean0: seq<bool>, cells: seq<byte>, clean: seq<bool>,
                     src: MemObject, dst: MemObject, s0: nat, d0: nat, n: nat, top: nat, step: nat)
    requires CopyProgress(cells0, clean0, cells, clean, src.start + s0, dst.start + d0, n, top)
    requires Apart(src, dst) && src.start <= src.end <= |cells|
    requires s0 + n + step <= src.end - src.start && dst.start + d0 + top <= dst.end
    ensures cells[src.start + s0 + n..src.start + s0 + n + step] == cells0[src.start + s0 + n..src.start + s0 + n + step]
  {
    forall a | src.start + s0 + n <= a < src.start + s0 + n + step
      ensures cells[a] == cells0[a]
    {
      assert !(dst.start + d0 <= a < dst.start + d0 + top);
    }
  }

  /** A copy whose steps do not cross pages goes on to its end, programming only clean bytes. */
  lemma {:induction false} RunProgress(cells0: seq<byte>, clean0: seq<bool>, n: Nor, src: MemObject, dst: MemObject,
                                       s0: nat, d0: nat, full: nat, steps: seq<nat>, page: nat)
    requires page > 0 && PlacedIn(|n.cells|, page, src) && PlacedIn(|n.cells|, page, dst) && Apart(src, dst)
    requires dst.mode == SequentialRewrite && Aligned(d0, page)
    requires Positive(steps) && NoCrossing(steps, full, page)
    requires s0 + full + Total(steps) <= src.end - src.start
    requires d0 + full + Total(steps) <= dst.end - dst.start && d0 + RoundUp(full, page) <= dst.end - dst.start
    requires ValidNor(n)
    requires CopyProgress(cells0, clean0, n.cells, n.clean, src.start + s0, dst.start + d0, full, RoundUp(full, page))
    ensures var r := CopyRun(n, src, dst, s0 + full, d0 + full, steps, page);
            && ValidNor(r) && r.disciplined == n.disciplined
            && CopyProgress(cells0, clean0, r.cells, r.clean, src.start + s0, dst.start + d0,
                            full + Total(steps), RoundUp(full + Total(steps), page))
    decreases |steps|
  {
    hide CopyProgress, ValidNor, Aligned, RoundUp, WriteNor, Apart;
    ProgressBounds(cells0, clean0, n.cells, n.clean, src.start + s0, dst.start + d0, full, RoundUp(full, page));
    if steps != [] {
      var step := steps[0];
      var buf := n.cells[src.start + (s0 + full)..src.start + (s0 + full) + step];
      var n' := WriteNor(n, dst, page, buf, d0 + full);
      OneStep(cells0, clean0, n, src, dst, s0, d0, full, step, page);
      RunProgress(cells0, clean0, n', src, dst, s0, d0, full + step, steps[1..], page);
    }
  }

  lemma OneStep(cells0: seq<byte>, clean0: seq<bool>, n: Nor, src: MemObject, dst: MemObject,
                s0: nat, d0: nat, full: nat, step: nat, page: nat)
    requires page > 0 && PlacedIn(|n.cells|, page, src) && PlacedIn(|n.cells|, page, dst) && Apart(src, dst)
    requires dst.mode == SequentialRewrite && Aligned(d0, page) && 0 < step && full + step <= NextPage(full, page)
    requires s0 + full + step <= src.end - src.start
    requires d0 + full + step <= dst.end - dst.start && d0 + RoundUp(full, page) <= dst.end - dst.start
    requires ValidNor(n)
    requires CopyProgress(cells0, clean0, n.cells, n.clean, src.start + s0, dst.start + d0, full, RoundUp(full, page))
    ensures d0 + RoundUp(full + step, page) <= dst.end - dst.start
    ensures var r := WriteNor(n, dst, page, n.cells[src.start + (s0 + full)..src.start + (s0 + full) + step], d0 + full);
            && ValidNor(r) && r.disciplined == n.disciplined
            && CopyProgress(cells0, clean0, r.cells, r.clean, src.start + s0, dst.start + d0, full + step, RoundUp(full + step, page))
  {
    hide CopyProgress, ValidNor, Aligned, RoundUp, WriteNor, NextPage;
    var top, top' := RoundUp(full, page), RoundUp(full + step, page);
    var buf := n.cells[src.start + (s0 + full)..src.start + (s0 + full) + step];
    TurnPage(full, step, page);
    AlignedSum(dst.start, d0, page);
    AlignedOffset(dst.start + d0, full, page);
    assert dst.start + d0 + full == dst.start + (d0 + full) && src.start + s0 + full == src.start + (s0 + full);
    if top == full {
      AlignedStep(dst.start + (d0 + full), dst.end, page);
    }
    ProgressBounds(cells0, clean0, n.cells, n.clean, src.start + s0, dst.start + d0, full, top);
    SourceIntact(cells0, clean0, n.cells, n.clean, src, dst, s0, d0, full, top, step);
    ProgressStep(cells0, clean0, n, src.start + s0, dst.start + d0, full, top, dst, d0 + full, buf, page, top');
  }

  lemma ProgressBounds(cells0: seq<byte>, clean0: seq<bool>, cells: seq<byte>, clean: seq<bool>, s: nat, t: nat, n: nat, top: nat)
    requires CopyProgress(cells0, clean0, cells, clean, s, t, n, top)
    ensures |cells0| == |cells| == |clean|
  {}

  lemma CopyStart(cells: seq<byte>, clean: seq<bool>, s: nat, t: nat, page: nat)
    requires page > 0 && |clean| == |cells| && s <= |cells| && t <= |cells|
    ensures RoundUp(0, page) == 0 && CopyProgress(cells, clean, cells, clean, s, t, 0, 0)
  {
    AlignedZero(page);
    RoundUpUnique(0, 0, page);
  }

  /** A slot after `data` was written over it from `at`, page by page: the data, blank to the end
      of the last page touched, and the rest as it was. */
  function Overlay(c: seq<byte>, at: nat, data: seq<byte>, page: nat): (r: seq<byte>)
    requires page > 0 && at + RoundUp(|data|, page) <= |c|
    ensures |r| == |c|
  {
    c[..at] + data + seq(RoundUp(|data|, page) - |data|, _ => ERASED) + c[at + RoundUp(|data|, page)..]
  }

  lemma OverlayAt(c: seq<byte>, at: nat, data: seq<byte>, page: nat, k: nat)
    requires page > 0 && at + RoundUp(|data|, page) <= |c| && k < |c|
    ensures Overlay(c, at, data, page)[k]
         == if at <= k < at + |data| then data[k - at] else if at <= k < at + RoundUp(|data|, page) then ERASED else c[k]
  {
    hide RoundUp;
  }

  lemma CopyDone(cells0: seq<byte>, clean0: seq<bool>, cells: seq<byte>, clean: seq<bool>,
                 src: MemObject, dst: MemObject, s0: nat, d0: nat, n: nat, page: nat)
    requires page > 0 && dst.start <= dst.end <= |cells| && src.start <= src.end <= |cells|
    requires d0 + RoundUp(n, page) <= dst.end - dst.start && s0 + n <= src.end - src.start
    requires CopyProgress(cells0, clean0, cells, clean, src.start + s0, dst.start + d0, n, RoundUp(n, page))
    ensures cells[dst.start..dst.end]
         == Overlay(cells0[dst.start..dst.end], d0, cells0[src.start..src.end][s0..s0 + n], page)
    ensures SameOutside(cells0, cells, dst)
  {
    hide RoundUp, Aligned;
    var was, data := cells0[dst.start..dst.end], cells0[src.start..src.end][s0..s0 + n];
    SliceOfSlice(cells0, src.start, src.end, s0, s0 + n);
    var c, o := cells[dst.start..dst.end], Overlay(was, d0, data, page);
    forall k | 0 <= k < |c|
      ensures c[k] == o[k]
    {
      var a := dst.start + k;
      assert c[k] == cells[a] && was[k] == cells0[a];
      OverlayAt(was, d0, data, page, k);
      if d0 <= k < d0 + n {
        assert data[k - d0] == cells0[src.start + s0 + (k - d0)];
        assert a - (dst.start + d0) == k - d0;
      }
    }
  }

  /** A copy to a page-aligned offset, in steps that cross no page boundary: the destination holds
      the data, blank to the end of its last page, nothing else changed, and only clean bytes were
      programmed. */
  lemma CopyRunCopies(n: Nor, src: MemObject, dst: MemObject, s0: nat, d0: nat, steps: seq<nat>, page: nat)
    requires page > 0 && PlacedIn(|n.cells|, page, src) && PlacedIn(|n.cells|, page, dst) && Apart(src, dst)
    requires dst.mode == SequentialRewrite && Aligned(d0, page) && ValidNor(n)
    requires Positive(steps) && NoCrossing(steps, 0, page)
    requires s0 + Total(steps) <= src.end - src.start && d0 + Total(steps) <= dst.end - dst.start
    ensures d0 + RoundUp(Total(steps), page) <= dst.end - dst.start
    ensures var r := CopyRun(n, src, dst, s0, d0, steps, page);
            && ValidNor(r) && r.disciplined == n.disciplined && SameOutside(n.cells, r.cells, dst)
            && r.cells[dst.start..dst.end]
            == Overlay(n.cells[dst.start..dst.end], d0, n.cells[src.start..src.end][s0..s0 + Total(steps)], page)
  {
    hide CopyProgress, Aligned, RoundUp, CopyRun, Overlay, SameOutside, NoCrossing;
    CopyStart(n.cells, n.clean, src.start + s0, dst.start + d0, page);
    RunProgress(n.cells, n.clean, n, src, dst, s0, d0, 0, steps, page);
    AlignedSum(dst.start, d0, page);
    AlignedDifference(dst.start + d0, dst.end - (dst.start + d0), page);
    RoundUpFits(Total(steps), dst.end - (dst.start + d0), page);
    var r := CopyRun(n, src, dst, s0, d0, steps, page);
    CopyDone(n.cells, n.clean, r.cells, r.clean, src, dst, s0, d0, Total(steps), page);
  }

  // ---- Steps that cross do not ----

  lemma {:induction false} StartsBounds(steps: seq<nat>, w: nat, p: nat)
    requires Positive(steps) && Starts(steps, w, p)
    ensures w <= p < w + Total(steps)
    decreases |steps|
  {
    if w != p {
      StartsBounds(steps[1..], w + steps[0], p);
    }
  }

  /** Steps that cross no boundary start at every one they reach. */
  lemma {:induction false} EveryPageStarts(steps: seq<nat>, w: nat, p: nat, page: nat)
    requires page > 0 && Positive(steps) && NoCrossing(steps, w, page)
    requires Aligned(p, page) && w < p < w + Total(steps)
    ensures Starts(steps, w, p)
    decreases |steps|
  {
    hide Aligned, RoundUp;
    var next := NextPage(w, page);
    if p < next {
      AlignedStep(p, next, page);
    }
    if w + steps[0] < p {
      EveryPageStarts(steps[1..], w + steps[0], p, page);
    } else if w + steps[0] == p {
      assert steps[1..] != [];
    }
  }

  /** Steps that cross a boundary skip its start. */
  lemma {:induction false} CrossedPage(steps: seq<nat>, w: nat, page: nat) returns (p: nat)
    requires page > 0 && Positive(steps) && !NoCrossing(steps, w, page)
    ensures Aligned(p, page) && w < p < w + Total(steps) && !Starts(steps, w, p)
    decreases |steps|
  {
    hide Aligned, RoundUp;
    if w + steps[0] > NextPage(w, page) {
      p := NextPage(w, page);
      if Starts(steps[1..], w + steps[0], p) {
        StartsBounds(steps[1..], w + steps[0], p);
      }
    } else {
      p := CrossedPage(steps[1..], w + steps[0], page);
    }
  }

  /** A zero byte stays zero unless its page is erased, which takes a step at the start of it. */
  lemma {:induction false} StaysZero(n: Nor, src: MemObject, dst: MemObject, s: nat, t: nat, steps: seq<nat>, page: nat,
                                     p: nat, a: nat)
    requires page > 0 && |n.clean| == |n.cells|
    requires src.start + s + Total(steps) <= |n.cells| && dst.start + t + Total(steps) <= |n.cells|
    requires !Starts(steps, t, p) && Aligned(dst.start + p, page) && dst.start + p <= a < dst.start + p + page
    requires a < |n.cells| && n.cells[a] == 0
    ensures CopyRun(n, src, dst, s, t, steps, page).cells[a] == 0
    decreases |steps|
  {
    hide Aligned, WriteNor;
    if steps != [] {
      var step := steps[0];
      var buf := n.cells[src.start + s..src.start + s + step];
      ZeroStep(n, dst, page, buf, t, p, a);
      StaysZero(WriteNor(n, dst, page, buf, t), src, dst, s + step, t + step, steps[1..], page, p, a);
    }
  }

  /** What a write leaves at one address. */
  lemma WrittenAt(n: Nor, o: MemObject, page: nat, buf: seq<byte>, offset: nat, a: nat)
    requires page > 0 && |n.clean| == |n.cells| && o.start + offset + |buf| <= |n.cells| && a < |n.cells|
    ensures var w := o.start + offset;
            var was := if ErasesFirst(o, offset, page) && w <= a < w + page then ERASED else n.cells[a];
            WriteNor(n, o, page, buf, offset).cells[a] == if w <= a < w + |buf| then And(was, buf[a - w]) else was
  {
    hide And, Aligned;
  }

  lemma ZeroStep(n: Nor, o: MemObject, page: nat, buf: seq<byte>, offset: nat, p: nat, a: nat)
    requires page > 0 && |n.clean| == |n.cells| && o.start + offset + |buf| <= |n.cells| && a < |n.cells|
    requires offset != p && Aligned(o.start + p, page) && o.start + p <= a < o.start + p + page && n.cells[a] == 0
    ensures WriteNor(n, o, page, buf, offset).cells[a] == 0
  {
    hide And, Aligned, WriteNor;
    var w := o.start + offset;
    WrittenAt(n, o, page, buf, offset, a);
    if ErasesFirst(o, offset, page) && w <= a < w + page {
      OnePage(o.start + p, w, a, page);
    }
    if w <= a < w + |buf| {
      AndLaws(buf[a - w]);
    }
  }

  /** Whether a copy in these steps stores the source's bytes, for all contents and objects. */
  ghost predicate CopiesAlways(steps: seq<nat>, page: nat)
    requires page > 0
  {
    forall n: Nor, src: MemObject, dst: MemObject ::
      && ValidNor(n) && PlacedIn(|n.cells|, page, src) && PlacedIn(|n.cells|, page, dst) && Apart(src, dst)
      && dst.mode == SequentialRewrite && Total(steps) <= src.end - src.start && Total(steps) <= dst.end - dst.start
      ==> CopyRun(n, src, dst, 0, 0, steps, page).cells[dst.start..dst.start + Total(steps)]
          == n.cells[src.start..src.start + Total(steps)]
  }

  /** A sequential rewrite copies for all contents if and only if no step crosses a page boundary. */
  lemma CopiesIffNoCrossing(steps: seq<nat>, page: nat)
    requires page > 0 && Positive(steps)
    ensures CopiesAlways(steps, page) <==> NoCrossing(steps, 0, page)
  {
    hide NoCrossing, CopyRun;
    if NoCrossing(steps, 0, page) {
      forall n: Nor, src: MemObject, dst: MemObject |
        && ValidNor(n) && PlacedIn(|n.cells|, page, src) && PlacedIn(|n.cells|, page, dst) && Apart(src, dst)
        && dst.mode == SequentialRewrite && Total(steps) <= src.end - src.start && Total(steps) <= dst.end - dst.start
        ensures CopyRun(n, src, dst, 0, 0, steps, page).cells[dst.start..dst.start + Total(steps)]
             == n.cells[src.start..src.start + Total(steps)]
      {
        AlignedZero(page);
        CopyRunCopies(n, src, dst, 0, 0, steps, page);
        CopiedHead(n.cells, CopyRun(n, src, dst, 0, 0, steps, page).cells, src, dst, Total(steps), page);
      }
    } else {
      CrossingLoses(steps, page);
    }
  }

  lemma CopiedHead(cells0: seq<byte>, cells: seq<byte>, src: MemObject, dst: MemObject, n: nat, page: nat)
    requires page > 0 && |cells| == |cells0| && src.start + n <= src.end <= |cells| && dst.start + n <= dst.end <= |cells|
    requires RoundUp(n, page) <= dst.end - dst.start
    requires cells[dst.start..dst.end] == Overlay(cells0[dst.start..dst.end], 0, cells0[src.start..src.end][0..0 + n], page)
    ensures cells[dst.start..dst.start + n] == cells0[src.start..src.start + n]
  {
    hide RoundUp;
    SliceOfSlice(cells, dst.start, dst.end, 0, n);
    SliceOfSlice(cells0, src.start, src.end, 0, n);
    var o := Overlay(cells0[dst.start..dst.end], 0, cells0[src.start..src.end][0..0 + n], page);
    assert o[0..n] == cells0[src.start..src.end][0..0 + n];
  }

  /** Ones copied over zeros: the first byte behind a crossed boundary keeps its zeros. */
  lemma CrossingLoses(steps: seq<nat>, page: nat)
    requires page > 0 && Positive(steps) && !NoCrossing(steps, 0, page)
    ensures !CopiesAlways(steps, page)
  {
    hide NoCrossing, CopyRun, RoundUp, Aligned, Starts, Positive, Total;
    var p := CrossedPage(steps, 0, page);
    var len := RoundUp(Total(steps), page);
    var src, dst := MemObject(0, len, ReadOnly), MemObject(len, len + len, SequentialRewrite);
    var ones, zeros := seq<byte>(len, _ => ERASED), seq<byte>(len, _ => 0);
    var n := Nor(ones + zeros, seq(len + len, _ => false), true);
    AlignedZero(page);
    AlignedSum(len, len, page);
    AlignedSum(len, p, page);
    StaysZero(n, src, dst, 0, 0, steps, page, p, len + p);
    var r := CopyRun(n, src, dst, 0, 0, steps, page);
    assert r.cells[dst.start..dst.start + Total(steps)][p] == 0;
    assert n.cells[src.start..src.start + Total(steps)][p] == ERASED;
  }

  // ---- Whole buffers ----

  lemma {:induction false} StepsStart(size: nat, bufferSize: nat, w: nat, p: nat)
    requires bufferSize > 0
    ensures Starts(Steps(size, bufferSize), w, p) <==> w <= p < w + size && Aligned(p - w, bufferSize)
    decreases size
  {
    hide Aligned, Steps, Starts;
    if size == 0 {
      NoStarts(bufferSize, w, p);
    } else {
      var step := if bufferSize < size then bufferSize else size;
      NextStep(size, bufferSize);
      StartsFirst(step, Steps(size - step, bufferSize), w, p);
      StepsStart(size - step, bufferSize, w + step, p);
      if w < p < w + size {
        ShiftByStep(p - w, step, size, bufferSize);
      }
      AlignedZero(bufferSize);
    }
  }

  lemma NoStarts(bufferSize: nat, w: nat, p: nat)
    requires bufferSize > 0
    ensures !Starts(Steps(0, bufferSize), w, p)
  {}

  lemma StartsFirst(step: nat, rest: seq<nat>, w: nat, p: nat)
    ensures Starts([step] + rest, w, p) <==> w == p || Starts(rest, w + step, p)
  {
    assert ([step] + rest)[1..] == rest;
  }

  lemma ShiftByStep(x: nat, step: nat, size: nat, bufferSize: nat)
    requires bufferSize > 0 && 0 < x < size && step == if bufferSize < size then bufferSize else size
    ensures Aligned(x, bufferSize) <==> step <= x && Aligned(x - step, bufferSize)
  {
    hide Aligned;
    AlignedSelf(bufferSize);
    if bufferSize < size && bufferSize <= x {
      AlignedOffset(bufferSize, x - bufferSize, bufferSize);
    } else if Aligned(x, bufferSize) {
      AlignedStep(0, x, bufferSize);
    }
  }

  lemma {:induction false} BuffersInPages(size: nat, bufferSize: nat, w: nat, page: nat)
    requires page > 0 && bufferSize > 0 && Aligned(page, bufferSize) && Aligned(w, bufferSize)
    ensures NoCrossing(Steps(size, bufferSize), w, page)
    decreases size
  {
    hide Aligned, RoundUp;
    if size > 0 {
      var step := if bufferSize < size then bufferSize else size;
      var next := NextPage(w, page);
      Divides(next, page, bufferSize);
      AlignedStep(w, next, bufferSize);
      assert Steps(size, bufferSize)[1..] == Steps(size - step, bufferSize);
      if bufferSize < size {
        AlignedNext(w, bufferSize);
        BuffersInPages(size - step, bufferSize, w + step, page);
      }
    }
  }

  lemma {:induction false} WithinOnePage(size: nat, bufferSize: nat, w: nat, page: nat)
    requires page > 0 && bufferSize > 0 && w + size <= page
    ensures NoCrossing(Steps(size, bufferSize), w, page)
    decreases size
  {
    hide Aligned, RoundUp;
    if size > 0 {
      var step := if bufferSize < size then bufferSize else size;
      AlignedSelf(page);
      if NextPage(w, page) < page {
        AlignedStep(0, NextPage(w, page), page);
      }
      assert Steps(size, bufferSize)[1..] == Steps(size - step, bufferSize);
      WithinOnePage(size - step, bufferSize, w + step, page);
    }
  }

  /** Whole buffers cross no page boundary exactly if they fill pages or never leave the first. */
  lemma BuffersCross(size: nat, bufferSize: nat, page: nat)
    requires page > 0 && bufferSize > 0
    ensures NoCrossing(Steps(size, bufferSize), 0, page) <==> size <= page || Aligned(page, bufferSize)
  {
    hide Aligned, NoCrossing, Steps, Starts;
    AlignedZero(bufferSize);
    if Aligned(page, bufferSize) {
      BuffersInPages(size, bufferSize, 0, page);
    } else if size <= page {
      WithinOnePage(size, bufferSize, 0, page);
    } else if NoCrossing(Steps(size, bufferSize), 0, page) {
      AlignedSelf(page);
      StepsTotal(size, bufferSize);
      EveryPageStarts(Steps(size, bufferSize), 0, page, page);
      StepsStart(size, bufferSize, 0, page);
    }
  }

  /** Nothing outside the destination changes, crossing or not. */
  lemma {:induction false} CopyRunOutside(n: Nor, src: MemObject, dst: MemObject, s: nat, t: nat, steps: seq<nat>, page: nat)
    requires page > 0 && |n.clean| == |n.cells| && PlacedIn(|n.cells|, page, dst) && Positive(steps)
    requires src.start + s + Total(steps) <= |n.cells| && dst.start + t + Total(steps) <= dst.end
    ensures SameOutside(n.cells, CopyRun(n, src, dst, s, t, steps, page).cells, dst)
    decreases |steps|
  {
    hide Aligned, WriteNor, SameOutside;
    if steps == [] {
      SameStart(n.cells, dst);
    } else {
      var step := steps[0];
      var buf := n.cells[src.start + s..src.start + s + step];
      var n' := WriteNor(n, dst, page, buf, t);
      WriteOutside(n, dst, page, buf, t);
      CopyRunOutside(n', src, dst, s + step, t + step, steps[1..], page);
      SameTrans(n.cells, n'.cells, CopyRun(n, src, dst, s, t, steps, page).cells, dst);
    }
  }

  lemma WriteOutside(n: Nor, o: MemObject, page: nat, buf: seq<byte>, offset: nat)
    requires page > 0 && |n.clean| == |n.cells| && PlacedIn(|n.cells|, page, o)
    requires 0 < |buf| && o.start + offset + |buf| <= o.end
    ensures SameOutside(n.cells, WriteNor(n, o, page, buf, offset).cells, o)
  {
    hide Aligned, WriteNor, And;
    if ErasesFirst(o, offset, page) {
      AlignedStep(o.start + offset, o.end, page);
    }
    forall a | 0 <= a < |n.cells| && !(o.start <= a < o.end)
      ensures WriteNor(n, o, page, buf, offset).cells[a] == n.cells[a]
    {
      WrittenAt(n, o, page, buf, offset, a);
    }
  }

  // ---- Byte by byte ----

  /** Every page that starts below `n`, but the first, starts with a step. */
  ghost predicate PagesStart(n: nat, steps: seq<nat>, page: nat)
    requires page > 0
  {
    forall p :: 0 < p < n && Aligned(p, page) ==> Starts(steps, 0, p)
  }

  /** Where a copy stands with the byte at offset `a` of page `p`: stored; or still to come, its page
      erased or about to be. */
  ghost predicate Coming(n: Nor, src: MemObject, dst: MemObject, s: nat, t: nat, steps: seq<nat>, p: nat, a: nat, v: byte)
    requires src.start + s + Total(steps) <= |n.cells| && dst.start + a < |n.cells|
  {
    if a < t then n.cells[dst.start + a] == v
    else
      && a < t + Total(steps) && n.cells[src.start + s + (a - t)] == v
      && (Starts(steps, t, p) || (p < t && n.cells[dst.start + a] == ERASED))
  }

  lemma ByteStep(n: Nor, src: MemObject, dst: MemObject, s: nat, t: nat, steps: seq<nat>, page: nat, p: nat, a: nat, v: byte)
    requires page > 0 && |n.clean| == |n.cells| && Positive(steps) && steps != [] && Apart(src, dst)
    requires PlacedIn(|n.cells|, page, src) && PlacedIn(|n.cells|, page, dst) && dst.mode == SequentialRewrite
    requires src.start + s + Total(steps) <= src.end && dst.start + t + Total(steps) <= dst.end
    requires Aligned(dst.start + p, page) && p <= a < p + page && dst.start + a < dst.end
    requires Coming(n, src, dst, s, t, steps, p, a, v)
    ensures var n' := WriteNor(n, dst, page, n.cells[src.start + s..src.start + s + steps[0]], t);
            Coming(n', src, dst, s + steps[0], t + steps[0], steps[1..], p, a, v)
  {
    hide WriteNor, Aligned, And;
    var step := steps[0];
    var buf := n.cells[src.start + s..src.start + s + step];
    WrittenAt(n, dst, page, buf, t, dst.start + a);
    WriteOutside(n, dst, page, buf, t);
    if t <= a < t + step {
      if t != p && Starts(steps, t, p) {
        StartsBounds(steps[1..], t + step, p);
      }
      AndLaws(v);
      assert buf[a - t] == v;
    }
  }

  /** A byte whose page starts with a step is copied, whatever the other steps do. */
  lemma {:induction false} ByteCopied(n: Nor, src: MemObject, dst: MemObject, s: nat, t: nat, steps: seq<nat>, page: nat,
                                      p: nat, a: nat, v: byte)
    requires page > 0 && |n.clean| == |n.cells| && Positive(steps) && Apart(src, dst)
    requires PlacedIn(|n.cells|, page, src) && PlacedIn(|n.cells|, page, dst) && dst.mode == SequentialRewrite
    requires src.start + s + Total(steps) <= src.end && dst.start + t + Total(steps) <= dst.end
    requires Aligned(dst.start + p, page) && p <= a < p + page && dst.start + a < dst.end
    requires Coming(n, src, dst, s, t, steps, p, a, v)
    ensures CopyRun(n, src, dst, s, t, steps, page).cells[dst.start + a] == v
    decreases |steps|
  {
    hide WriteNor, Aligned, Coming, Apart;
    if steps == [] {
      NothingComing(n, src, dst, s, t, steps, p, a, v);
    } else {
      ByteStep(n, src, dst, s, t, steps, page, p, a, v);
      var n' := WriteNor(n, dst, page, n.cells[src.start + s..src.start + s + steps[0]], t);
      ByteCopied(n', src, dst, s + steps[0], t + steps[0], steps[1..], page, p, a, v);
    }
  }

  lemma NothingComing(n: Nor, src: MemObject, dst: MemObject, s: nat, t: nat, steps: seq<nat>, p: nat, a: nat, v: byte)
    requires steps == [] && src.start + s <= |n.cells| && dst.start + a < |n.cells|
    requires Coming(n, src, dst, s, t, steps, p, a, v)
    ensures n.cells[dst.start + a] == v
  {}

  /** The start of the page an offset lies in. */
  lemma PageOf(a: nat, page: nat) returns (p: nat)
    requires page > 0
    ensures Aligned(p, page) && p <= a < p + page
  {
    hide Aligned, RoundUp;
    var next := NextPage(a, page);
    AlignedSelf(page);
    AlignedStep(0, next, page);
    p := next - page;
    AlignedDifference(page, p, page);
  }

  lemma ByteInPlace(n: Nor, src: MemObject, dst: MemObject, steps: seq<nat>, page: nat, k: nat, a: nat)
    requires page > 0 && |n.clean| == |n.cells| && Positive(steps) && Apart(src, dst)
    requires PlacedIn(|n.cells|, page, src) && PlacedIn(|n.cells|, page, dst) && dst.mode == SequentialRewrite
    requires Total(steps) <= src.end - src.start && Total(steps) <= dst.end - dst.start
    requires a < k <= Total(steps) && PagesStart(k, steps, page)
    ensures CopyRun(n, src, dst, 0, 0, steps, page).cells[dst.start + a] == n.cells[src.start + a]
  {
    hide Aligned, CopyRun, Apart;
    var p := PageOf(a, page);
    AlignedSum(dst.start, p, page);
    ByteCopied(n, src, dst, 0, 0, steps, page, p, a, n.cells[src.start + a]);
  }

  /** If every page below `k` starts with a step, the first `k` bytes are copied. */
  lemma PagesStartCopies(n: Nor, src: MemObject, dst: MemObject, steps: seq<nat>, page: nat, k: nat)
    requires page > 0 && |n.clean| == |n.cells| && Positive(steps) && Apart(src, dst)
    requires PlacedIn(|n.cells|, page, src) && PlacedIn(|n.cells|, page, dst) && dst.mode == SequentialRewrite
    requires Total(steps) <= src.end - src.start && Total(steps) <= dst.end - dst.start
    requires k <= Total(steps) && PagesStart(k, steps, page)
    ensures CopyRun(n, src, dst, 0, 0, steps, page).cells[dst.start..dst.start + k] == n.cells[src.start..src.start + k]
  {
    hide Aligned, CopyRun, Apart, PagesStart, Positive, Total;
    var r := CopyRun(n, src, dst, 0, 0, steps, page);
    var x, y := r.cells[dst.start..dst.start + k], n.cells[src.start..src.start + k];
    forall a | 0 <= a < k
      ensures x[a] == y[a]
    {
      ByteInPlace(n, src, dst, steps, page, k, a);
    }
  }

  /** Whole buffers start every page below `k` exactly if the buffer divides a page or one page is all. */
  lemma BuffersStartPages(k: nat, size: nat, bufferSize: nat, page: nat)
    requires page > 0 && bufferSize > 0 && k <= size
    ensures PagesStart(k, Steps(size, bufferSize), page) <==> k <= page || Aligned(page, bufferSize)
  {
    hide Aligned, Steps, Starts;
    AlignedSelf(page);
    if Aligned(page, bufferSize) {
      forall p | 0 < p < k && Aligned(p, page)
        ensures Starts(Steps(size, bufferSize), 0, p)
      {
        Divides(p, page, bufferSize);
        StepsStart(size, bufferSize, 0, p);
      }
    } else if k > page {
      StepsStart(size, bufferSize, 0, page);
    } else {
      forall p | 0 < p < k
        ensures !Aligned(p, page)
      {
        if Aligned(p, page) {
          AlignedStep(0, p, page);
        }
      }
    }
  }

  // ---- One step at a time ----

  lemma {:induction false} TotalSnoc(steps: seq<nat>, k: nat)
    ensures Total(steps + [k]) == Total(steps) + k
    decreases |steps|
  {
    if steps == [] {
      assert steps + [k] == [k];
      assert [k][1..] == [];
    } else {
      TotalSnoc(steps[1..], k);
      assert (steps + [k])[1..] == steps[1..] + [k];
    }
  }

  /** One more step at the end of a copy. */
  lemma {:induction false} CopyRunSnoc(n: Nor, src: MemObject, dst: MemObject, s: nat, t: nat, steps: seq<nat>, k: nat, page: nat)
    requires page > 0 && |n.clean| == |n.cells|
    requires src.start + s + Total(steps) + k <= |n.cells| && dst.start + t + Total(steps) + k <= |n.cells|
    ensures Total(steps + [k]) == Total(steps) + k
    ensures var r := CopyRun(n, src, dst, s, t, steps, page);
            var at := src.start + s + Total(steps);
            CopyRun(n, src, dst, s, t, steps + [k], page) == WriteNor(r, dst, page, r.cells[at..at + k], t + Total(steps))
    decreases |steps|
  {
    hide WriteNor;
    TotalSnoc(steps, k);
    if steps == [] {
      var buf := n.cells[src.start + s..src.start + s + k];
      var n' := WriteNor(n, dst, page, buf, t);
      assert steps + [k] == [k] && [k][1..] == [];
      assert CopyRun(n', src, dst, s + k, t + k, [], page) == n';
    } else {
      var step := steps[0];
      var n' := WriteNor(n, dst, page, n.cells[src.start + s..src.start + s + step], t);
      CopyRunSnoc(n', src, dst, s + step, t + step, steps[1..], k, page);
      assert (steps + [k])[1..] == steps[1..] + [k];
    }
  }

  /** One step of the copy loop. */
  method CopyStep(d: Device, src: MemObject, dst: MemObject, soff: nat, doff: nat, step: nat)
    requires Placed(d, src) && Placed(d, dst) && 0 < step
    requires soff + step <= src.end - src.start && doff + step <= dst.end - dst.start
    modifies d
    ensures Placed(d, src) && Placed(d, dst) && |d.cells| == old(|d.cells|)
    ensures StateOf(d) == WriteNor(old(StateOf(d)), dst, d.page, old(d.cells)[src.start + soff..src.start + soff + step], doff)
  {
    hide Aligned, ProgrammedAt, ErasedAt, AllClean, WrittenCells, CleanBefore;
    var buffer := Flash.Read(d, src, step, soff);
    SliceOfSlice(d.cells, src.start, src.end, soff, soff + step);
    Flash.Write(d, dst, buffer, doff);
  }

  lemma NoCopy(n: Nor, src: MemObject, dst: MemObject, page: nat)
    requires page > 0 && |n.clean| == |n.cells| && src.start <= |n.cells| && dst.start <= |n.cells|
    ensures Total([]) == 0 && CopyRun(n, src, dst, 0, 0, [], page) == n
  {}

  lemma NextStep(size: nat, bufferSize: nat)
    requires bufferSize > 0 && size > 0
    ensures var step := if bufferSize < size then bufferSize else size;
            Steps(size, bufferSize) == [step] + Steps(size - step, bufferSize)
  {}
}
