/** The bootloader agent: bootstrap, upgrade, verify, boot. */
module Bootloader {
  import opened Bytes
  import opened Flash
  import opened Manifest
  import opened Slots
  import opened NorCopy
  import opened Swap
  import opened Verifier
  import opened BootSpec

  /** The agent's own buffer, used to exchange slots. */
  const BUFFER_SIZE: nat := 1024

  lemma {:induction false} AndBitsSelf(x: nat, n: nat)
    requires x < Pow2(n)
    ensures AndBits(x, x, n) == x
    decreases n
  {
    if n > 0 {
      AndBitsSelf(x / 2, n - 1);
    }
  }

  /** Programming a byte over itself changes nothing. */
  lemma AndSelf(x: byte)
    ensures And(x, x) == x
  {
    assert Pow2(8) == 256;
    AndBitsSelf(x, 8);
  }

  /** The device the bootloader is configured for. */
  ghost predicate Ready(d: Device, cfg: Setup)
    reads d
  {
    && d.page == cfg.page && WellLaid(cfg, |d.cells|) && Laid(d, cfg.slots)
    && Placed(d, Object(cfg.ctx, ReadOnly)) && Placed(d, Object(cfg.swap, ReadOnly))
    && forall k :: 0 <= k < |cfg.slots| ==> cfg.slots[k].end - cfg.slots[k].start + cfg.bufferSize < TWO32
  }

  lemma ProgramZeros(cells: seq<byte>, at: nat, n: nat)
    requires at + n <= |cells|
    ensures forall a :: 0 <= a < |cells| ==>
              ProgrammedAt(cells, at, seq<byte>(n, _ => 0))[a] == if at <= a < at + n then 0 else cells[a]
  {
    hide And;
    var zeros: seq<byte> := seq<byte>(n, _ => 0);
    forall a | at <= a < at + n
      ensures ProgrammedAt(cells, at, zeros)[a] == 0
    {
      AndLaws(cells[a]);
    }
  }

  /** Overwrites a slot's manifest with zeros, without erasing. */
  method Invalidate(d: Device, s: Slot)
    requires Placed(d, Object(s, WriteChunk)) && s.start + SIZE <= s.end
    modifies d
    ensures d.Valid() && |d.cells| == old(|d.cells|)
    ensures forall a :: 0 <= a < |d.cells| ==> d.cells[a] == if s.start <= a < s.start + SIZE then 0 else old(d.cells)[a]
  {
    hide And, Aligned, ProgrammedAt;
    var o := Flash.Open(d, s.start, s.end, WriteChunk);
    ghost var cells := d.cells;
    Flash.Write(d, o, seq<byte>(SIZE, _ => 0), 0);
    ProgramZeros(cells, s.start, SIZE);
  }

  lemma OneMoreHead(slots: seq<Slot>, keep: nat, i: nat, a: nat)
    requires i < |slots|
    ensures InOtherHead(slots[..i + 1], keep, a)
       <==> InOtherHead(slots[..i], keep, a) || (i != keep && slots[i].start <= a < slots[i].start + SIZE)
  {
    if InOtherHead(slots[..i], keep, a) {
      var k :| 0 <= k < i && k != keep && slots[k].start <= a < slots[k].start + SIZE;
      assert slots[..i + 1][k] == slots[k];
    }
    if i != keep && slots[i].start <= a < slots[i].start + SIZE {
      assert slots[..i + 1][i] == slots[i];
    }
  }

  /** Invalidates every slot but one. */
  method InvalidateOthers(d: Device, slots: seq<Slot>, keep: nat)
    requires d.Valid() && Laid(d, slots)
    modifies d
    ensures d.Valid() && |d.cells| == old(|d.cells|)
    ensures forall a :: 0 <= a < |d.cells| ==> d.cells[a] == if InOtherHead(slots, keep, a) then 0 else old(d.cells)[a]
  {
    hide InOtherHead, Aligned;
    NoHeads(slots[..0], keep);
    for i := 0 to |slots|
      invariant d.Valid() && Laid(d, slots) && |d.cells| == old(|d.cells|)
      invariant forall a :: 0 <= a < |d.cells| ==> d.cells[a] == if InOtherHead(slots[..i], keep, a) then 0 else old(d.cells)[a]
    {
      forall a | 0 <= a < |d.cells|
        ensures InOtherHead(slots[..i + 1], keep, a)
           <==> InOtherHead(slots[..i], keep, a) || (i != keep && slots[i].start <= a < slots[i].start + SIZE)
      {
        OneMoreHead(slots, keep, i, a);
      }
      if i != keep {
        Invalidate(d, slots[i]);
      }
    }
    assert slots[..|slots|] == slots;
  }

  lemma NoHeads(slots: seq<Slot>, keep: nat)
    requires slots == []
    ensures forall a :: !InOtherHead(slots, keep, a)
  {}

  lemma ProgramFlags(cells: seq<byte>, at: nat)
    requires at + CTX_SIZE <= |cells|
    ensures forall a :: 0 <= a < |cells| ==>
              ProgrammedAt(cells, at, cells[at..at + CTX_SIZE][FLAGS_AT := 0])[a] == if a == at + FLAGS_AT then 0 else cells[a]
  {
    hide And;
    var buf := cells[at..at + CTX_SIZE][FLAGS_AT := 0];
    forall a | at <= a < at + CTX_SIZE
      ensures ProgrammedAt(cells, at, buf)[a] == if a == at + FLAGS_AT then 0 else cells[a]
    {
      AndLaws(cells[a]);
      AndSelf(cells[a]);
    }
  }

  /** Writes the context back with no flag set, without erasing. */
  method StoreContext(d: Device, ctx: Slot, bctx: seq<byte>)
    requires Placed(d, Object(ctx, WriteChunk)) && ctx.start + CTX_SIZE <= ctx.end
    requires bctx == d.cells[ctx.start..ctx.start + CTX_SIZE]
    modifies d
    ensures d.Valid() && |d.cells| == old(|d.cells|)
    ensures forall a :: 0 <= a < |d.cells| ==> d.cells[a] == if a == ctx.start + FLAGS_AT then 0 else old(d.cells)[a]
  {
    hide And, Aligned, ProgrammedAt;
    ghost var cells := d.cells;
    Flash.Write(d, Object(ctx, WriteChunk), bctx[FLAGS_AT := 0], 0);
    ProgramFlags(cells, ctx.start);
  }

  lemma ContextKept(cfg: Setup, cells0: seq<byte>, cells: seq<byte>, keep: nat)
    requires WellLaid(cfg, |cells0|) && |cells| == |cells0|
    requires forall a :: 0 <= a < |cells| ==> cells[a] == if InOtherHead(cfg.slots, keep, a) then 0 else cells0[a]
    ensures cells[cfg.ctx.start..cfg.ctx.start + CTX_SIZE] == cells0[cfg.ctx.start..cfg.ctx.start + CTX_SIZE]
  {
    forall a | cfg.ctx.start <= a < cfg.ctx.start + CTX_SIZE
      ensures cells[a] == cells0[a]
    {
      assert !InOtherHead(cfg.slots, keep, a);
    }
  }

  /** The bootstrap phase. */
  method Bootstrap(d: Device, cfg: Setup, running: nat)
    requires Ready(d, cfg) && running == Running(cfg, d.cells)
    modifies d
    ensures Ready(d, cfg) && d.cells == Bootstrapped(cfg, old(d.cells))
  {
    hide Aligned, Running, InOtherHead, Separate;
    ghost var c0 := d.cells;
    var o := Flash.Open(d, cfg.ctx.start, cfg.ctx.end, WriteChunk);
    var bctx := Flash.Read(d, o, CTX_SIZE, 0);
    assert bctx == c0[cfg.ctx.start..cfg.ctx.start + CTX_SIZE];
    if bctx[FLAGS_AT] % 2 == 1 {
      InvalidateOthers(d, cfg.slots, running);
      ContextKept(cfg, c0, d.cells, running);
      StoreContext(d, cfg.ctx, bctx);
      assert d.cells == Bootstrapped(cfg, c0);
    }
  }

  /** Two images fit each other's slots, as exchanging them demands. */
  predicate PairFits(cfg: Setup, cells: seq<byte>, i: nat, j: nat)
    requires Within(|cells|, cfg.slots) && i < |cfg.slots| && j < |cfg.slots|
  {
    var a, b := Image(cells, cfg.slots[i]), Image(cells, cfg.slots[j]);
    Exchangeable(a, b)
  }

  /** The swap object holds a chunk, and the sizes are page-wise. */
  predicate SwapReady(cfg: Setup) {
    && cfg.page > 0 && PageWise(cfg.page, BUFFER_SIZE, cfg.swapSize)
    && 0 < cfg.swapSize <= cfg.swap.end - cfg.swap.start
  }

  method Exchange(d: Device, cfg: Setup, i: nat, j: nat)
    requires Ready(d, cfg) && SwapReady(cfg)
    requires i < |cfg.slots| && j < |cfg.slots| && i != j && PairFits(cfg, d.cells, i, j)
    modifies d
    ensures Ready(d, cfg) && |d.cells| == old(|d.cells|) && d.disciplined == old(d.disciplined)
    ensures Exchanged(cfg, old(d.cells), d.cells, i, j)
  {
    hide Aligned, TakenOver, RoundUp, FirmwareSize, SameOutsideAll, SwapRun, PageWise, ValidNor;
    var destination := Flash.Open(d, cfg.slots[j].start, cfg.slots[j].end, SequentialRewrite);
    var source := Flash.Open(d, cfg.slots[i].start, cfg.slots[i].end, SequentialRewrite);
    var swap := Flash.Open(d, cfg.swap.start, cfg.swap.end, SequentialRewrite);
    ghost var c1 := d.cells;
    SwapSlots(d, source, destination, swap, cfg.swapSize, BUFFER_SIZE);
    SameThree(c1, d.cells, source, destination, swap);
  }

  lemma SameThree(c1: seq<byte>, c2: seq<byte>, a: MemObject, b: MemObject, c: MemObject)
    requires SameOutsideAll(c1, c2, a, b, c)
    ensures |c2| == |c1| && SameOutsideAll(c1, c2, a.(mode := ReadOnly), b.(mode := ReadOnly), c.(mode := ReadOnly))
  {}

  /** The agent, run by a driver that stops at the first failure event. Whatever the slots hold: only
      when a newest image passed verification must there be another slot to exchange it with, each
      image fit the other's slot, and the swap be page-wise. (With a bootable first slot the two
      slots differ.) */
  method Boot(d: Device, cfg: Setup) returns (r: Result)
    requires Ready(d, cfg)
    requires Upgrades(cfg, d.cells) && Verdict(cfg, d.cells, NewestSlot(cfg, d.cells)) == Success ==>
               && SwapReady(cfg) && NewestSlot(cfg, d.cells) != OldestBootable(cfg, d.cells)
               && PairFits(cfg, d.cells, NewestSlot(cfg, d.cells), OldestBootable(cfg, d.cells))
    modifies d
    ensures Ready(d, cfg) && BootStep(cfg, old(d.cells), d.cells, r)
  {
    hide Aligned, Exchanged, PairFits, ObjectVerdict, Separate, Versions, Pick, Bootstrapped, FirstBootDue, SwapReady;
    ghost var c0 := d.cells;
    var running, versionBootable := GetOrdered(d, cfg.slots, true, true);
    Bootstrap(d, cfg, running);
    ghost var c1 := d.cells;
    var newest, versionNonBootable := GetOrdered(d, cfg.slots, true, false);
    if versionBootable < versionNonBootable {
      UpgradeIsNoFirstBoot(cfg, c0);
      var err := VerifyObject(cfg.trust, d, Object(cfg.slots[newest], ReadOnly), cfg.bufferSize);
      if err != Success {
        return NewestInvalid;
      }
      var oldest, _ := GetOrdered(d, cfg.slots, false, true);
      Exchange(d, cfg, newest, oldest);
      return Booted(oldest);
    }
    var err := VerifyObject(cfg.trust, d, Object(cfg.slots[running], ReadOnly), cfg.bufferSize);
    if err != Success {
      return RunningInvalid;
    }
    r := Booted(running);
  }
}
